/** How long a thread may keep using a row: exactly until num_rows others have been created. */
module HoldTime {
  import opened Bits
  import opened Bytes
  import opened Options
  import opened Timestamps
  import opened Rows
  import opened Slots
  import opened Stores
  import opened Schedule
  import opened Survivors
  import opened LateRow
  import opened LateLoad

  /** Every finished run in which no row is accessed after d others have been drawn ends in the region
      of ticket order. */
  ghost predicate AlwaysSerial(ring: Ring, mem: seq<byte>, d: nat)
    requires Started(ring, mem)
  {
    forall es :: HeldFor(ring, mem, es, d) && Quiescent(After(ring, mem, es)) ==>
      After(ring, mem, es).mem == RunTickets(ring, mem, Tickets(After(ring, mem, es).rows))
  }

  /** Every such run leaves every live row intact. */
  ghost predicate AlwaysIntact(ring: Ring, mem: seq<byte>, d: nat)
    requires Started(ring, mem)
  {
    forall es :: HeldFor(ring, mem, es, d) && Quiescent(After(ring, mem, es)) ==>
      HoldsLatest(ring, mem, After(ring, mem, es).mem, Tickets(After(ring, mem, es).rows))
  }

  /** The same if only stores are bounded. */
  ghost predicate AlwaysIntactByStores(ring: Ring, mem: seq<byte>, d: nat)
    requires Started(ring, mem)
  {
    forall es :: StoresHeldFor(ring, mem, es, d) && Quiescent(After(ring, mem, es)) ==>
      HoldsLatest(ring, mem, After(ring, mem, es).mem, Tickets(After(ring, mem, es).rows))
  }

  /** Every finished run in which no row is stored to after d others have been drawn, while loads may come
      at any time, ends in the region of ticket order. */
  ghost predicate AlwaysSerialByStores(ring: Ring, mem: seq<byte>, d: nat)
    requires Started(ring, mem)
  {
    forall es :: StoresHeldFor(ring, mem, es, d) && Quiescent(After(ring, mem, es)) ==>
      After(ring, mem, es).mem == RunTickets(ring, mem, Tickets(After(ring, mem, es).rows))
  }

  // ------------------------------------------------------ up to num_rows it is safe

  lemma HeldLonger(ring: Ring, mem: seq<byte>, es: seq<Step>, d: nat, d': nat)
    requires Started(ring, mem) && d <= d'
    ensures HeldFor(ring, mem, es, d) ==> HeldFor(ring, mem, es, d')
    ensures StoresHeldFor(ring, mem, es, d) ==> StoresHeldFor(ring, mem, es, d')
    ensures HeldFor(ring, mem, es, d) ==> StoresHeldFor(ring, mem, es, d)
  {
    hide After, StoresNext;
  }

  lemma SafeUpToSlots(ring: Ring, mem: seq<byte>, d: nat)
    requires Started(ring, mem) && d <= ring.n
    ensures AlwaysSerial(ring, mem, d) && AlwaysIntact(ring, mem, d) && AlwaysIntactByStores(ring, mem, d)
  {
    hide After, HeldFor, StoresHeldFor, InOrder, StoresInOrder, Quiescent, HoldsLatest, RunTickets;
    forall es | HeldFor(ring, mem, es, d) && Quiescent(After(ring, mem, es))
      ensures After(ring, mem, es).mem == RunTickets(ring, mem, Tickets(After(ring, mem, es).rows))
    {
      HeldLonger(ring, mem, es, d, ring.n);
      DisciplineOrders(ring, mem, es);
      InterleavingIsSerial(ring, mem, es);
    }
    forall es | StoresHeldFor(ring, mem, es, d) && Quiescent(After(ring, mem, es))
      ensures HoldsLatest(ring, mem, After(ring, mem, es).mem, Tickets(After(ring, mem, es).rows))
    {
      HeldLonger(ring, mem, es, d, ring.n);
      StoreDisciplineOrders(ring, mem, es);
      SurvivorsIntact(ring, mem, es);
    }
    forall es | HeldFor(ring, mem, es, d) ensures StoresHeldFor(ring, mem, es, d) {
      HeldLonger(ring, mem, es, d, d);
    }
  }

  // ------------------------------------------------------ beyond num_rows it is not

  lemma HeldSnoc(ring: Ring, mem: seq<byte>, es: seq<Step>, e: Step, d: nat)
    requires Started(ring, mem) && HeldFor(ring, mem, es, d)
    requires e.Run? ==> |After(ring, mem, es).rows| <= e.j + d
    ensures HeldFor(ring, mem, es + [e], d)
  {
    hide After;
    var all := es + [e];
    forall k | 0 <= k < |all| && all[k].Run? ensures |After(ring, mem, all[..k]).rows| <= all[k].j + d {
      if k < |es| { assert all[..k] == es[..k]; } else { assert all[..k] == es; }
    }
  }

  lemma {:induction false} HeldRuns(ring: Ring, mem: seq<byte>, es: seq<Step>, j: nat, c: nat, d: nat)
    requires Started(ring, mem) && HeldFor(ring, mem, es, d)
    requires j < |After(ring, mem, es).rows| <= j + d && c <= |After(ring, mem, es).rows[j].todo|
    ensures HeldFor(ring, mem, es + Runs(j, c), d)
    decreases c
  {
    hide After, HeldFor, Next;
    if c == 0 {
      assert es + [] == es;
    } else {
      HeldRuns(ring, mem, es, j, c - 1, d);
      RunsRan(ring, mem, es, j, c - 1);
      assert es + Runs(j, c) == es + Runs(j, c - 1) + [Run(j)];
      RanCount(ring, After(ring, mem, es), After(ring, mem, es + Runs(j, c - 1)), j, c - 1);
      HeldSnoc(ring, mem, es + Runs(j, c - 1), Run(j), d);
    }
  }

  lemma RanCount(ring: Ring, s: State, s': State, j: nat, c: nat)
    requires Fits(ring, s) && Fits(ring, s') && Ran(ring, s, s', j, c)
    ensures |s'.rows| == |s.rows|
  {
  }

  lemma {:induction false} HeldOvertaken(ring: Ring, mem: seq<byte>, job: Job, m: nat, d: nat)
    requires Started(ring, mem) && d >= 1
    ensures HeldFor(ring, mem, Overtaken(ring, job, m), d)
    decreases m
  {
    hide After, Next, OpenOps, HeldFor, FirstWaits, Bookkept;
    if m == 0 {
      HeldNothing(ring, mem, d);
      HeldSnoc(ring, mem, [], Draw(job), d);
      assert [] + [Draw(job)] == [Draw(job)];
    } else {
      var es := Overtaken(ring, job, m - 1);
      HeldOvertaken(ring, mem, job, m - 1, d);
      OvertakenState(ring, mem, job, m - 1);
      HeldSnoc(ring, mem, es, Draw(job), d);
      AfterSnoc(ring, mem, es, Draw(job));
      BookkeepingAlways(ring, mem, es);
      BookkeptCount(ring, After(ring, mem, es));
      DrawAppends(ring, After(ring, mem, es), job);
      HeldRuns(ring, mem, es + [Draw(job)], m, |OpenOps(ring.options, IdOf(m), job)|, d);
    }
  }

  lemma HeldNothing(ring: Ring, mem: seq<byte>, d: nat)
    requires Started(ring, mem)
    ensures HeldFor(ring, mem, [], d)
  {
  }

  lemma HeldLate(ring: Ring, mem: seq<byte>, job: Job, d: nat)
    requires Started(ring, mem) && d > ring.n
    ensures HeldFor(ring, mem, LateSchedule(ring, job), d)
  {
    hide After, OpenOps, HeldFor, Overtaken;
    HeldOvertaken(ring, mem, job, ring.n, d);
    OvertakenState(ring, mem, job, ring.n);
    HeldRuns(ring, mem, Overtaken(ring, job, ring.n), 0, |OpenOps(ring.options, IdOf(0), job)|, d);
  }

  lemma UnsafeBeyondSlots(ring: Ring, mem: seq<byte>, d: nat)
    requires Started(ring, mem) && d > ring.n
    ensures !AlwaysSerial(ring, mem, d) && !AlwaysIntact(ring, mem, d) && !AlwaysIntactByStores(ring, mem, d)
  {
    hide After, HeldFor, StoresHeldFor, LateSchedule, Quiescent, HoldsLatest, RunTickets, Started;
    var job := Job(0, Clock(0, 0, 0, 0), GetRow(None));
    var es, s := DisciplineNeeded(ring, mem, job);
    HeldLate(ring, mem, job, d);
    HeldLonger(ring, mem, es, d, d);
  }

  // ------------------------------------------------------------------ main theorems

  /** In every region: the threads of every program may use their rows while up to d others are created,
      and the region still ends as in ticket order, if and only if d is at most num_rows. */
  lemma SerialIffHeld(ring: Ring, mem: seq<byte>, d: nat)
    requires Started(ring, mem)
    ensures AlwaysSerial(ring, mem, d) <==> d <= ring.n
  {
    hide AlwaysSerial, AlwaysIntact, AlwaysIntactByStores, Started;
    if d <= ring.n { SafeUpToSlots(ring, mem, d); } else { UnsafeBeyondSlots(ring, mem, d); }
  }

  /** Live rows stay intact under exactly the same bound, whether it is put on all accesses or on stores. */
  lemma IntactIffHeld(ring: Ring, mem: seq<byte>, d: nat)
    requires Started(ring, mem)
    ensures AlwaysIntact(ring, mem, d) <==> d <= ring.n
    ensures AlwaysIntactByStores(ring, mem, d) <==> d <= ring.n
  {
    hide AlwaysSerial, AlwaysIntact, AlwaysIntactByStores, Started;
    if d <= ring.n { SafeUpToSlots(ring, mem, d); } else { UnsafeBeyondSlots(ring, mem, d); }
  }

  // ---------------------------------------- a bound on stores alone is not enough for the region

  lemma UnsafeByStores(ring: Ring, mem: seq<byte>, d: nat)
    requires Started(ring, mem) && ROW_HDR + 11 <= ring.size && d >= 1
    ensures !AlwaysSerialByStores(ring, mem, d)
  {
    hide After, StoresHeldFor, StoresInOrder, LoadSchedule, Quiescent, RunTickets, Slot;
    var job := Job(0, Clock(0, 0, 0, 0), GetRow(None));
    var c: byte := if Slot(ring, mem, 0)[ROW_HDR + 9] == 0 then 1 else 0;
    var es, s := LoadsMatter(ring, mem, job, c);
    HeldLonger(ring, mem, es, 1, d);
  }

  /** No row has been stored to: every drawn row still has its first store before it. */
  ghost predicate Unstored(mem: seq<byte>, s: State) {
    (forall j :: 0 <= j < |s.rows| ==> s.rows[j].todo != [] && IsStore(s.rows[j].todo[0], s.rows[j].at)) &&
    (if s.rows == [] then s.mem == mem else s.rows[0].todo != [])
  }

  lemma OpensWithStore(options: nat, id: uint32, job: Job)
    ensures OpenOps(options, id, job) != [] && OpenOps(options, id, job)[0].Hdr?
  {
    hide PushAllOps, FastOps, Encode;
    assert HeaderOps(options, id, job) != [] && HeaderOps(options, id, job)[0].Hdr?;
  }

  lemma {:induction false} UnstoredAlways(ring: Ring, mem: seq<byte>, es: seq<Step>)
    requires Started(ring, mem) && StoresHeldFor(ring, mem, es, 0)
    ensures Unstored(mem, After(ring, mem, es))
    decreases |es|
  {
    if es == [] {
    } else {
      var k := |es| - 1;
      var init, last := es[..k], es[k];
      hide After, Next, Unstored, StoresNext;
      StoresPrefix(ring, mem, es, 0);
      UnstoredAlways(ring, mem, init);
      AfterSnoc(ring, mem, init, last);
      assert init + [last] == es;
      UnstoredStep(ring, mem, After(ring, mem, init), last);
    }
  }

  lemma StoresPrefix(ring: Ring, mem: seq<byte>, es: seq<Step>, d: nat)
    requires Started(ring, mem) && StoresHeldFor(ring, mem, es, d) && es != []
    ensures StoresHeldFor(ring, mem, es[..|es| - 1], d)
  {
    hide After, StoresNext;
    var init := es[..|es| - 1];
    forall i | 0 <= i < |init| && init[i].Run? && StoresNext(After(ring, mem, init[..i]).rows, init[i].j)
      ensures |After(ring, mem, init[..i]).rows| <= init[i].j + d
    {
      assert init[..i] == es[..i];
    }
  }

  lemma UnstoredStep(ring: Ring, mem: seq<byte>, s: State, e: Step)
    requires Fits(ring, s) && Unstored(mem, s)
    requires e.Run? && StoresNext(s.rows, e.j) ==> |s.rows| <= e.j
    ensures Unstored(mem, Next(ring, s, e))
  {
    hide Slot, SetSlot, OpenOps, CallOps, SlotOfId, ToU32, Apply;
    match e
    case Draw(job) => OpensWithStore(ring.options, s.nextrow, job);
    case Issue(j, call) =>
    case Run(j) =>
  }

  /** With a bound on stores alone, the region is always that of ticket order only if nothing may be
      stored at all. */
  lemma SerialByStoresIff(ring: Ring, mem: seq<byte>, d: nat)
    requires Started(ring, mem) && ROW_HDR + 11 <= ring.size
    ensures AlwaysSerialByStores(ring, mem, d) <==> d == 0
  {
    hide After, StoresHeldFor;
    if d == 0 {
      forall es | StoresHeldFor(ring, mem, es, d) && Quiescent(After(ring, mem, es))
        ensures After(ring, mem, es).mem == RunTickets(ring, mem, Tickets(After(ring, mem, es).rows))
      {
        UnstoredAlways(ring, mem, es);
        NothingDrawn(mem, After(ring, mem, es));
        assert Tickets([]) == [];
      }
    } else {
      UnsafeByStores(ring, mem, d);
    }
  }

  lemma NothingDrawn(mem: seq<byte>, s: State)
    requires Unstored(mem, s) && Quiescent(s)
    ensures s.rows == [] && s.mem == mem
  {
  }
}
