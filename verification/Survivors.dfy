/** What the slots hold after a run in which only the stores come in slot order: an overtaken row may
    still load its datalen, find no room and drop its record. Stale bytes may then differ from those of
    ticket order, but every row that was not overtaken is what its own operations made of its slot. */
module Survivors {
  import opened Bits
  import opened Bytes
  import opened Rows
  import opened Slots
  import opened Stores
  import opened Schedule

  // ------------------------------------------------------------ the final region

  /** This slot content is what ticket j's operations make of some earlier content. */
  ghost predicate PlayedOnSome(ring: Ring, t: Ticket, j: nat, row: seq<byte>) {
    exists stale: seq<byte> :: |stale| == ring.size && ROW_HDR <= |stale| && row == Played(ring, t, j, stale)
  }

  /** Every live ticket's slot is that ticket's, and slots never drawn are as they were at the start. */
  ghost predicate HoldsLatest(ring: Ring, mem: seq<byte>, m: seq<byte>, ts: seq<Ticket>) {
    && Started(ring, mem) && Started(ring, m)
    && (forall j :: 0 <= j < |ts| <= j + ring.n ==> PlayedOnSome(ring, ts[j], j, Slot(ring, m, TicketSlot(ring, j))))
    && (forall s :: |ts| <= s < ring.n ==> Slot(ring, m, s) == Slot(ring, mem, s))
  }

  // --------------------------------------------------------------- the invariant

  /** The accesses made through a row, all of them on some earlier content, account for its slot and register. */
  ghost predicate Made(ring: Ring, mem: seq<byte>, w: DrawnRow)
    requires Started(ring, mem)
  {
    w.slot < ring.n &&
    exists stale: seq<byte> ::
      |stale| == ring.size && Exec(w.done, Cell(stale, DROPPED)) == Cell(Slot(ring, mem, w.slot), w.at)
  }

  /** Every current row has made its slot. */
  ghost predicate AllMade(ring: Ring, mem: seq<byte>, ws: seq<DrawnRow>)
    requires Started(ring, mem)
  {
    forall j :: 0 <= j < |ws| && Current(ring, ws, j) ==> Made(ring, mem, ws[j])
  }

  /** The slots beyond the first k are as they were at the start. */
  ghost predicate Undrawn(ring: Ring, mem: seq<byte>, m: seq<byte>, k: nat)
    requires Started(ring, mem) && Started(ring, m)
  {
    forall x :: k <= x < ring.n ==> Slot(ring, m, x) == Slot(ring, mem, x)
  }

  ghost predicate Owned(ring: Ring, mem: seq<byte>, s: State)
    requires Started(ring, mem)
  {
    Bookkept(ring, s) && AllMade(ring, s.mem, s.rows) && Undrawn(ring, mem, s.mem, |s.rows|)
  }

  /** An access that is no store leaves the row's bytes alone. */
  lemma NoStoreKeeps(op: Op, c: Cell)
    requires ROW_HDR <= |c.row| && !IsStore(op, c.at)
    ensures Apply(op, c).row == c.row
  {
  }

  /** The region after row j's next access. */
  function MemAfter(ring: Ring, mem: seq<byte>, w: DrawnRow): (m: seq<byte>)
    requires ROW_HDR <= ring.size && ring.Within(mem) && w.slot < ring.n && w.todo != []
    ensures |m| == |mem|
  {
    SetSlot(ring, mem, w.slot, Apply(w.todo[0], Cell(Slot(ring, mem, w.slot), w.at)).row)
  }

  lemma MadeExtended(ring: Ring, mem: seq<byte>, w: DrawnRow)
    requires Started(ring, mem) && w.slot < ring.n && w.todo != [] && Made(ring, mem, w)
    ensures var at := Apply(w.todo[0], Cell(Slot(ring, mem, w.slot), w.at)).at;
      Made(ring, MemAfter(ring, mem, w), Accessed(w, at))
  {
    hide Apply, Exec, Slot, SetSlot, Ring.Valid, Ring.End;
    var stale: seq<byte> :| |stale| == ring.size &&
      Exec(w.done, Cell(stale, DROPPED)) == Cell(Slot(ring, mem, w.slot), w.at);
    var c := Apply(w.todo[0], Cell(Slot(ring, mem, w.slot), w.at));
    ExecConcat(w.done, [w.todo[0]], Cell(stale, DROPPED));
    ExecOne(w.todo[0], Cell(Slot(ring, mem, w.slot), w.at));
    SlotOfSet(ring, mem, w.slot, c.row, w.slot);
  }

  /** A row not accessed yet has made any content its slot may have. */
  lemma MadeByNothing(ring: Ring, mem: seq<byte>, w: DrawnRow)
    requires Started(ring, mem) && w.slot < ring.n && w.done == []
    ensures Made(ring, mem, w) <==> w.at == DROPPED
  {
    hide Slot, Apply, Ring.Valid, Ring.End;
    ExecNothing(Cell(Slot(ring, mem, w.slot), DROPPED));
    if stale: seq<byte> :|
      |stale| == ring.size && Exec(w.done, Cell(stale, DROPPED)) == Cell(Slot(ring, mem, w.slot), w.at)
    {
      ExecNothing(Cell(stale, DROPPED));
    }
  }

  /** Only the slot, the accesses and the register matter. */
  lemma MadeElsewhere(ring: Ring, mem: seq<byte>, m: seq<byte>, w: DrawnRow, w': DrawnRow)
    requires Started(ring, mem) && Started(ring, m) && Made(ring, mem, w)
    requires w'.slot == w.slot && w'.done == w.done && w'.at == w.at
    requires Slot(ring, m, w.slot) == Slot(ring, mem, w.slot)
    ensures Made(ring, m, w')
  {
    hide Slot, Exec, Ring.Valid, Ring.End;
  }

  // ---------------------------------------------------------------- the invariant is kept

  lemma MadeDraw(ring: Ring, mem: seq<byte>, ws: seq<DrawnRow>, w: DrawnRow)
    requires Started(ring, mem) && AllMade(ring, mem, ws)
    requires w.slot < ring.n && w.done == [] && w.at == DROPPED
    ensures AllMade(ring, mem, ws + [w])
  {
    hide Made, TicketSlot, Ring.Valid, Ring.End;
    var ws' := ws + [w];
    MadeByNothing(ring, mem, w);
    forall j | 0 <= j < |ws'| && Current(ring, ws', j) ensures Made(ring, mem, ws'[j]) {
      if j < |ws| {
        assert forall i :: j < i < |ws| ==> ws'[i] == ws[i];
        assert Current(ring, ws, j);
      }
    }
  }

  lemma MadeIssue(ring: Ring, mem: seq<byte>, ws: seq<DrawnRow>, j: nat, w: DrawnRow)
    requires Started(ring, mem) && AllMade(ring, mem, ws) && j < |ws|
    requires w.slot == ws[j].slot && w.done == ws[j].done && w.at == ws[j].at
    ensures AllMade(ring, mem, ws[j := w])
  {
    hide Made, TicketSlot, Ring.Valid, Ring.End;
    var ws' := ws[j := w];
    forall i | 0 <= i < |ws'| && Current(ring, ws', i) ensures Made(ring, mem, ws'[i]) {
      assert forall k :: i < k < |ws| ==> ws'[k].done == ws[k].done;
      assert Current(ring, ws, i) && Made(ring, mem, ws[i]);
      MadeAgain(ring, mem, ws[i], ws'[i]);
    }
  }

  lemma MadeAgain(ring: Ring, mem: seq<byte>, w: DrawnRow, w': DrawnRow)
    requires Started(ring, mem) && Made(ring, mem, w)
    requires w'.slot == w.slot && w'.done == w.done && w'.at == w.at
    ensures Made(ring, mem, w')
  {
    MadeElsewhere(ring, mem, mem, w, w');
  }

  /** After an access by row j, a row i that is current was so before, and i is j or of another slot,
      or has not been accessed. */
  lemma StillCurrent(ring: Ring, ws: seq<DrawnRow>, j: nat, at: int, i: nat)
    requires ring.n > 0 && j < |ws| && ws[j].todo != [] && i < |ws|
    requires Current(ring, ws[j := Accessed(ws[j], at)], i)
    ensures Current(ring, ws, i)
    ensures i != j && TicketSlot(ring, i) == TicketSlot(ring, j) ==>
      j < i && (Current(ring, ws, j) ==> ws[i].done == [])
  {
    hide TicketSlot;
    var ws' := ws[j := Accessed(ws[j], at)];
    assert ws'[j].done != [];
    forall i' | i < i' < |ws| && TicketSlot(ring, i') == TicketSlot(ring, i) ensures ws[i'].done == [] {
      assert ws'[i'].done == [];
    }
  }

  lemma OtherSlots(ring: Ring, mem: seq<byte>, w: DrawnRow, x: nat)
    requires ROW_HDR <= ring.size && ring.Within(mem) && w.slot < ring.n && w.todo != []
    requires x < ring.n && (x != w.slot || !IsStore(w.todo[0], w.at))
    ensures Slot(ring, MemAfter(ring, mem, w), x) == Slot(ring, mem, x)
  {
    hide Slot, SetSlot, Apply, IsStore, Ring.End;
    var cell := Cell(Slot(ring, mem, w.slot), w.at);
    SlotOfSet(ring, mem, w.slot, Apply(w.todo[0], cell).row, x);
    if !IsStore(w.todo[0], w.at) { NoStoreKeeps(w.todo[0], cell); }
  }

  lemma MadeRun(ring: Ring, mem: seq<byte>, ws: seq<DrawnRow>, j: nat, at: int)
    requires Started(ring, mem) && AllMade(ring, mem, ws) && j < |ws| && ws[j].todo != []
    requires forall i :: 0 <= i < |ws| ==> ws[i].slot == TicketSlot(ring, i)
    requires at == Apply(ws[j].todo[0], Cell(Slot(ring, mem, ws[j].slot), ws[j].at)).at
    requires IsStore(ws[j].todo[0], ws[j].at) ==> Current(ring, ws, j)
    ensures AllMade(ring, MemAfter(ring, mem, ws[j]), ws[j := Accessed(ws[j], at)])
  {
    hide Made, Current, MemAfter, TicketSlot, Slot, Apply, IsStore, Ring.Valid, Ring.End;
    var m, ws' := MemAfter(ring, mem, ws[j]), ws[j := Accessed(ws[j], at)];
    forall i | 0 <= i < |ws'| && Current(ring, ws', i) ensures Made(ring, m, ws'[i]) {
      StillCurrent(ring, ws, j, at, i);
      if i == j {
        MadeExtended(ring, mem, ws[j]);
      } else if TicketSlot(ring, i) == TicketSlot(ring, j) && Current(ring, ws, j) {
        MadeByNothing(ring, mem, ws[i]);
        MadeByNothing(ring, m, ws[i]);
      } else {
        OtherSlots(ring, mem, ws[j], ws[i].slot);
        MadeElsewhere(ring, mem, m, ws[i], ws[i]);
      }
    }
  }

  lemma OwnedDraw(ring: Ring, mem: seq<byte>, s: State, job: Job)
    requires Started(ring, mem) && Owned(ring, mem, s)
    ensures Owned(ring, mem, Next(ring, s, Draw(job)))
  {
    BookkeptSlots(ring, s);
    BookkeepingStep(ring, s, Draw(job));
    hide Bookkept, AllMade, Slot, OpenOps, Ring.Valid, Ring.End, SlotOfId, ToU32;
    MadeDraw(ring, s.mem, s.rows, Next(ring, s, Draw(job)).rows[|s.rows|]);
  }

  lemma OwnedIssue(ring: Ring, mem: seq<byte>, s: State, j: nat, call: Call)
    requires Started(ring, mem) && Owned(ring, mem, s)
    ensures Owned(ring, mem, Next(ring, s, Issue(j, call)))
  {
    BookkeptSlots(ring, s);
    BookkeepingStep(ring, s, Issue(j, call));
    hide Bookkept, AllMade, Undrawn, Slot, CallOps, Ring.Valid, Ring.End;
    if j < |s.rows| && s.rows[j].todo == [] {
      MadeIssue(ring, s.mem, s.rows, j, Next(ring, s, Issue(j, call)).rows[j]);
    }
  }

  lemma OwnedRun(ring: Ring, mem: seq<byte>, s: State, j: nat)
    requires Started(ring, mem) && Owned(ring, mem, s)
    requires StoresNext(s.rows, j) ==> Current(ring, s.rows, j)
    ensures Owned(ring, mem, Next(ring, s, Run(j)))
  {
    BookkeptSlots(ring, s);
    BookkeepingStep(ring, s, Run(j));
    if j < |s.rows| && s.rows[j].todo != [] {
      var ws, w := s.rows, s.rows[j];
      hide Bookkept, AllMade, Slot, SetSlot, Apply, Ring.Valid, Ring.End, TicketSlot, Current, Next, IsStore;
      RunStep(ring, s, j);
      MadeRun(ring, s.mem, ws, j, Apply(w.todo[0], Cell(Slot(ring, s.mem, w.slot), w.at)).at);
      forall x | |ws| <= x < ring.n
        ensures Slot(ring, MemAfter(ring, s.mem, w), x) == Slot(ring, s.mem, x)
      {
        SlotOfDrawn(ring, j, x);
        OtherSlots(ring, s.mem, w, x);
      }
    }
  }

  /** A slot whose first ticket is still to be drawn is not the slot of a drawn one. */
  lemma SlotOfDrawn(ring: Ring, j: nat, x: nat)
    requires j < x < ring.n
    ensures TicketSlot(ring, j) != x
  {
    DivModUnique(j, ring.n, 0, j);
  }

  lemma {:induction false} OwnedAlways(ring: Ring, mem: seq<byte>, es: seq<Step>)
    requires Started(ring, mem) && StoresInOrder(ring, mem, es)
    ensures Owned(ring, mem, After(ring, mem, es))
    decreases |es|
  {
    if es == [] {
      IdOfZero();
    } else {
      hide Owned, Next, Current, StoresNext;
      var init, last := es[..|es| - 1], es[|es| - 1];
      forall k | 0 <= k < |init| && init[k].Run? && StoresNext(After(ring, mem, init[..k]).rows, init[k].j)
        ensures Current(ring, After(ring, mem, init[..k]).rows, init[k].j)
      {
        assert init[..k] == es[..k];
      }
      OwnedAlways(ring, mem, init);
      match last
      case Draw(job) => OwnedDraw(ring, mem, After(ring, mem, init), job);
      case Issue(j, call) => OwnedIssue(ring, mem, After(ring, mem, init), j, call);
      case Run(j) => OwnedRun(ring, mem, After(ring, mem, init), j);
    }
  }

  // ------------------------------------------------------------------ main theorem

  /** At quiescence a run whose stores come in slot order leaves every live ticket's slot as that
      ticket's operations make it, in spite of any late accesses that drop their records. */
  lemma SurvivorsIntact(ring: Ring, mem: seq<byte>, es: seq<Step>)
    requires Started(ring, mem) && StoresInOrder(ring, mem, es)
    requires Quiescent(After(ring, mem, es))
    ensures var s := After(ring, mem, es); HoldsLatest(ring, mem, s.mem, Tickets(s.rows))
  {
    hide After, Owned, Slot, Ring.Valid, Ring.End, PlayedOnSome, TicketSlot;
    OwnedAlways(ring, mem, es);
    OwnedMeans(ring, mem, After(ring, mem, es));
    var s := After(ring, mem, es);
    forall j | 0 <= j < |s.rows| <= j + ring.n
      ensures PlayedOnSome(ring, s.rows[j].ticket, j, Slot(ring, s.mem, TicketSlot(ring, j)))
    {
      SurvivorIntact(ring, mem, s, j);
    }
  }

  lemma OwnedMeans(ring: Ring, mem: seq<byte>, s: State)
    requires Started(ring, mem) && Owned(ring, mem, s)
    ensures Fits(ring, s) && Undrawn(ring, mem, s.mem, |s.rows|)
  {
  }

  lemma SurvivorIntact(ring: Ring, mem: seq<byte>, s: State, j: nat)
    requires Started(ring, mem) && Owned(ring, mem, s) && Quiescent(s) && j < |s.rows| <= j + ring.n
    ensures PlayedOnSome(ring, s.rows[j].ticket, j, Slot(ring, s.mem, TicketSlot(ring, j)))
  {
    hide Slot, Exec, TicketOps, RowAfter, IdOf, Ring.Valid, Ring.End, TicketSlot;
    var w := s.rows[j];
    forall i | j < i < |s.rows| ensures TicketSlot(ring, i) != TicketSlot(ring, j) {
      SlotsOfNear(ring, j, i);
    }
    assert Current(ring, s.rows, j);
    assert w.done + [] == w.done;
    var stale: seq<byte> :| |stale| == ring.size &&
      Exec(w.done, Cell(stale, DROPPED)) == Cell(Slot(ring, s.mem, w.slot), w.at);
    ExecTicket(ring.options, IdOf(j), w.ticket, Cell(stale, DROPPED));
  }

  lemma SlotsOfNear(ring: Ring, j: nat, i: nat)
    requires j < i < j + ring.n
    ensures TicketSlot(ring, i) != TicketSlot(ring, j)
  {
    ResiduesDiffer(j, i, ring.n);
  }

  // --------------------------------------------------------- tickets one at a time

  /** The row of a ticket that has not been overwritten is what that ticket's operations made of it. */
  lemma {:induction false} LastWriter(ring: Ring, mem: seq<byte>, ts: seq<Ticket>, j: nat) returns (stale: seq<byte>)
    requires Started(ring, mem) && j < |ts| <= j + ring.n
    ensures |stale| == ring.size
    ensures Slot(ring, RunTickets(ring, mem, ts), TicketSlot(ring, j)) == Played(ring, ts[j], j, stale)
    decreases |ts|
  {
    hide Slot, SetSlot, Played, Ring.Valid, Ring.End;
    var k := |ts| - 1;
    var prev := RunTickets(ring, mem, ts[..k]);
    var row := Played(ring, ts[k], k, Slot(ring, prev, TicketSlot(ring, k)));
    SlotOfSet(ring, prev, TicketSlot(ring, k), row, TicketSlot(ring, j));
    if j == k {
      stale := Slot(ring, prev, TicketSlot(ring, k));
    } else {
      stale := LastWriter(ring, mem, ts[..k], j);
      ResiduesDiffer(j, k, ring.n);
    }
  }

  lemma {:induction false} Untouched(ring: Ring, mem: seq<byte>, ts: seq<Ticket>, s: nat)
    requires Started(ring, mem) && |ts| <= s < ring.n
    ensures Slot(ring, RunTickets(ring, mem, ts), s) == Slot(ring, mem, s)
    decreases |ts|
  {
    hide Slot, SetSlot, Played, Ring.Valid, Ring.End;
    if ts == [] {
    } else {
      var k := |ts| - 1;
      var prev := RunTickets(ring, mem, ts[..k]);
      var row := Played(ring, ts[k], k, Slot(ring, prev, TicketSlot(ring, k)));
      Untouched(ring, mem, ts[..k], s);
      DivModUnique(k, ring.n, 0, k);
      SlotOfSet(ring, prev, TicketSlot(ring, k), row, s);
    }
  }

  /** Running the tickets one at a time leaves the same slots as well. */
  lemma SerialHoldsLatest(ring: Ring, mem: seq<byte>, ts: seq<Ticket>)
    requires Started(ring, mem)
    ensures HoldsLatest(ring, mem, RunTickets(ring, mem, ts), ts)
  {
    hide Slot, RunTickets, Ring.Valid, Ring.End, Played;
    var m := RunTickets(ring, mem, ts);
    forall j | 0 <= j < |ts| <= j + ring.n
      ensures PlayedOnSome(ring, ts[j], j, Slot(ring, m, TicketSlot(ring, j)))
    {
      var stale := LastWriter(ring, mem, ts, j);
    }
    forall s | |ts| <= s < ring.n ensures Slot(ring, m, s) == Slot(ring, mem, s) {
      Untouched(ring, mem, ts, s);
    }
  }

  /** A slot that is a ticket's carries that ticket's row id. */
  lemma PlayedId(ring: Ring, t: Ticket, j: nat, row: seq<byte>)
    requires ring.Valid() && PlayedOnSome(ring, t, j, row)
    ensures ROW_HDR <= |row| && Load(row, ID, 4) == IdOf(j)
  {
    hide RowAfter, Load, Holds, RowItems, FinalTs, And;
    var stale: seq<byte> :| |stale| == ring.size && ROW_HDR <= |stale| && row == Played(ring, t, j, stale);
    ValidSize(ring);
    RowFacts(ring.options, IdOf(j), t.job, t.calls, stale);
  }
}
