/** The schedules that the run theorems speak of include every program: any tickets can be played. */
module SerialRuns {
  import opened Bits
  import opened Bytes
  import opened Records
  import opened Rows
  import opened Slots
  import opened Stores
  import opened Schedule
  import opened LateRow
  import opened LateLoad
  import opened EndToEnd

  /** All threads have returned, and these tickets have been played. */
  ghost predicate AtRest(ring: Ring, s: State, ts: seq<Ticket>) {
    Bookkept(ring, s) && Fits(ring, s) && Quiescent(s) && Tickets(s.rows) == ts
  }

  lemma RestMeans(ring: Ring, s: State, ts: seq<Ticket>)
    requires AtRest(ring, s, ts)
    ensures Fits(ring, s) && |s.rows| == |ts| && s.nextrow == IdOf(|ts|)
    ensures forall i :: 0 <= i < |ts| ==> s.rows[i].ticket == ts[i] && s.rows[i].todo == []
  {
  }

  lemma RestIs(ring: Ring, s: State, ts: seq<Ticket>)
    requires Bookkept(ring, s) && Fits(ring, s) && |s.rows| == |ts|
    requires forall i :: 0 <= i < |ts| ==> s.rows[i].ticket == ts[i] && s.rows[i].todo == []
    ensures AtRest(ring, s, ts)
  {
    hide Bookkept, Fits;
    assert Tickets(s.rows) == ts;
  }

  lemma OpenAtRest(ring: Ring, mem: seq<byte>, es: seq<Step>, job: Job, ts: seq<Ticket>)
    requires Started(ring, mem) && StoresHeldFor(ring, mem, es, 1) && AtRest(ring, After(ring, mem, es), ts)
    ensures var es' := es + Opened(ring, |ts|, job);
      StoresHeldFor(ring, mem, es', 1) && AtRest(ring, After(ring, mem, es'), ts + [Ticket(job, [])])
  {
    hide After, Next, Exec, OpenOps, Slot, IsStore, Bookkept, IdOf, AtRest, StoresHeldFor, Ran, Fits;
    var j, drawn := |ts|, es + [Draw(job)];
    var c, s0 := |OpenOps(ring.options, IdOf(j), job)|, After(ring, mem, es);
    RestMeans(ring, s0, ts);
    AfterSnoc(ring, mem, es, Draw(job));
    StoresSnoc(ring, mem, es, Draw(job));
    DrawnNext(ring, s0, job);
    assert es + Opened(ring, j, job) == drawn + Runs(j, c);
    RunsRan(ring, mem, drawn, j, c);
    StoresRuns(ring, mem, drawn, j, c);
    BookkeepingAlways(ring, mem, drawn + Runs(j, c));
    RanAll(ring, After(ring, mem, drawn), After(ring, mem, drawn + Runs(j, c)), j);
    RestIs(ring, After(ring, mem, drawn + Runs(j, c)), ts + [Ticket(job, [])]);
  }

  lemma CallAtRest(ring: Ring, mem: seq<byte>, es: seq<Step>, call: Call, ts: seq<Ticket>)
    requires Started(ring, mem) && StoresHeldFor(ring, mem, es, 1) && AtRest(ring, After(ring, mem, es), ts) && ts != []
    ensures var j := |ts| - 1;
      var es' := es + Called(j, call);
      StoresHeldFor(ring, mem, es', 1) && AtRest(ring, After(ring, mem, es'), WithCall(ts, j, call))
  {
    hide After, Next, Exec, CallOps, Slot, IsStore, Bookkept, IdOf, AtRest, StoresHeldFor, Ran, Fits;
    var j := |ts| - 1;
    var issued, c, s0 := es + [Issue(j, call)], |CallOps(call)|, After(ring, mem, es);
    RestMeans(ring, s0, ts);
    AfterSnoc(ring, mem, es, Issue(j, call));
    StoresSnoc(ring, mem, es, Issue(j, call));
    IssuedNext(ring, s0, j, call);
    assert es + Called(j, call) == issued + Runs(j, c);
    RunsRan(ring, mem, issued, j, c);
    StoresRuns(ring, mem, issued, j, c);
    BookkeepingAlways(ring, mem, issued + Runs(j, c));
    RanAll(ring, After(ring, mem, issued), After(ring, mem, issued + Runs(j, c)), j);
    RestIs(ring, After(ring, mem, issued + Runs(j, c)), WithCall(ts, j, call));
  }

  lemma {:induction false} CallsAtRest(ring: Ring, mem: seq<byte>, es: seq<Step>, ts: seq<Ticket>, job: Job,
                                       calls: seq<Call>)
      returns (es': seq<Step>)
    requires Started(ring, mem) && StoresHeldFor(ring, mem, es, 1)
    requires AtRest(ring, After(ring, mem, es), ts + [Ticket(job, [])])
    ensures StoresHeldFor(ring, mem, es', 1) && AtRest(ring, After(ring, mem, es'), ts + [Ticket(job, calls)])
    decreases |calls|
  {
    hide After, AtRest, StoresHeldFor, Called;
    if calls == [] {
      es' := es;
    } else {
      var k := |calls| - 1;
      var es1 := CallsAtRest(ring, mem, es, ts, job, calls[..k]);
      var before := ts + [Ticket(job, calls[..k])];
      CallAtRest(ring, mem, es1, calls[k], before);
      assert calls[..k] + [calls[k]] == calls;
      assert WithCall(before, |ts|, calls[k]) == ts + [Ticket(job, calls)];
      es' := es1 + Called(|ts|, calls[k]);
    }
  }

  lemma {:induction false} AnyAtRest(ring: Ring, mem: seq<byte>, ts: seq<Ticket>) returns (es: seq<Step>)
    requires Started(ring, mem)
    ensures StoresHeldFor(ring, mem, es, 1) && AtRest(ring, After(ring, mem, es), ts)
    decreases |ts|
  {
    hide After, AtRest, StoresHeldFor, Opened, Started;
    if ts == [] {
      es := [];
      NothingAtRest(ring, mem);
    } else {
      var k := |ts| - 1;
      var es1 := AnyAtRest(ring, mem, ts[..k]);
      es := TicketAtRest(ring, mem, es1, ts[..k], ts[k]);
      assert ts[..k] + [ts[k]] == ts;
    }
  }

  lemma TicketAtRest(ring: Ring, mem: seq<byte>, es: seq<Step>, ts: seq<Ticket>, t: Ticket) returns (es': seq<Step>)
    requires Started(ring, mem) && StoresHeldFor(ring, mem, es, 1) && AtRest(ring, After(ring, mem, es), ts)
    ensures StoresHeldFor(ring, mem, es', 1) && AtRest(ring, After(ring, mem, es'), ts + [t])
  {
    hide After, AtRest, StoresHeldFor, Opened, Started;
    OpenAtRest(ring, mem, es, t.job, ts);
    es' := CallsAtRest(ring, mem, es + Opened(ring, |ts|, t.job), ts, t.job, t.calls);
  }

  lemma NothingAtRest(ring: Ring, mem: seq<byte>)
    requires Started(ring, mem)
    ensures StoresHeldFor(ring, mem, [], 1) && AtRest(ring, After(ring, mem, []), [])
  {
    hide Next, Ring.Valid, Ring.End;
    IdOfZero();
  }

  /** Whatever rows a program opens and whatever values (but no file names and line numbers) it appends to
      them: on a region whose rows section is zero there is a finished run with exactly these tickets. */
  lemma EveryProgramRuns(ring: Ring, mem: seq<byte>, ts: seq<Ticket>) returns (es: seq<Step>)
    requires Started(ring, mem)
    requires forall k :: ring.base <= k < ring.base + ring.n * ring.size && k < |mem| ==> mem[k] == 0
    requires forall t, c :: t in ts && c in t.calls && c.Append? ==> !c.it.FileName? && !c.it.LineNo?
    ensures Finished(ring, mem, es) && Tickets(After(ring, mem, es).rows) == ts
  {
    hide After, StoresHeldFor, StoresInOrder, Started, Fits, Bookkept;
    es := AnyAtRest(ring, mem, ts);
    NewestIsRecent(ring, mem, es);
  }
}
