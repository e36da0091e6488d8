/** All interleavings of any number of writer threads, one memory access at a time.
    A thread is in the middle of at most one call per row it holds, and rows are never shared between
    threads, so every thread schedule is an interleaving of the accesses made through the drawn rows:
    the scheduler picks a drawn row (its ticket number) and its next access happens. */
module Schedule {
  import opened Bits
  import opened Bytes
  import opened Rows
  import opened Slots
  import opened Stores

  /** One drawn row: the slot its pointer points to, the calls made through it so far, the accesses
      already executed and those the current call still has to make, and the register of its thread. */
  datatype DrawnRow = DrawnRow(slot: nat, ticket: Ticket, done: seq<Op>, todo: seq<Op>, at: int)

  datatype State = State(mem: seq<byte>, nextrow: uint32, rows: seq<DrawnRow>)

  datatype Step =
    | Draw(job: Job)            // the atomic increment of nextrow, at the start of an opening call
    | Issue(j: nat, call: Call) // the thread holding row j, between calls, enters another call
    | Run(j: nat)               // the next memory access through row j

  ghost predicate Fits(ring: Ring, s: State) {
    ring.Valid() && ring.n > 0 && ROW_HDR <= ring.size && ring.Within(s.mem) &&
    forall j :: 0 <= j < |s.rows| ==> s.rows[j].slot < ring.n
  }

  /** One step; an event that is not enabled changes nothing. */
  ghost function Next(ring: Ring, s: State, e: Step): (s': State)
    requires Fits(ring, s)
    ensures Fits(ring, s')
  {
    match e
    case Draw(job) =>
      MaskedSlot(ring, s.nextrow);
      var w := DrawnRow(SlotOfId(ring, s.nextrow), Ticket(job, []), [], OpenOps(ring.options, s.nextrow, job), DROPPED);
      State(s.mem, ToU32(s.nextrow + 1), s.rows + [w])
    case Issue(j, call) =>
      if j < |s.rows| && s.rows[j].todo == [] then
        var w := s.rows[j];
        s.(rows := s.rows[j := w.(ticket := w.ticket.(calls := w.ticket.calls + [call]), todo := CallOps(call))])
      else s
    case Run(j) =>
      if j < |s.rows| && s.rows[j].todo != [] then
        var w := s.rows[j];
        var c := Apply(w.todo[0], Cell(Slot(ring, s.mem, w.slot), w.at));
        s.(mem := SetSlot(ring, s.mem, w.slot, c.row),
           rows := s.rows[j := w.(done := w.done + w.todo[..1], todo := w.todo[1..], at := c.at)])
      else s
  }

  ghost predicate Started(ring: Ring, mem: seq<byte>) {
    ring.Valid() && ring.n > 0 && ROW_HDR <= ring.size && ring.Within(mem)
  }

  ghost function Init(mem: seq<byte>): State {
    State(mem, 0, [])
  }

  /** The state after a schedule. */
  ghost function After(ring: Ring, mem: seq<byte>, es: seq<Step>): (s: State)
    requires Started(ring, mem)
    ensures Fits(ring, s)
  {
    if es == [] then Init(mem) else Next(ring, After(ring, mem, es[..|es| - 1]), es[|es| - 1])
  }

  /** Row j is the latest of its slot that has been accessed, or is about to become it: no row drawn
      later for the slot has been accessed. */
  ghost predicate Current(ring: Ring, ws: seq<DrawnRow>, j: nat)
    requires ring.n > 0
  {
    forall i :: j < i < |ws| && TicketSlot(ring, i) == TicketSlot(ring, j) ==> ws[i].done == []
  }

  /** The accesses to each slot come in ticket order. */
  ghost predicate InOrder(ring: Ring, mem: seq<byte>, es: seq<Step>)
    requires Started(ring, mem)
  {
    forall k :: 0 <= k < |es| && es[k].Run? ==> Current(ring, After(ring, mem, es[..k]).rows, es[k].j)
  }

  /** An access that changes its row's bytes; one to a dropped record does not. */
  predicate IsStore(op: Op, at: int) {
    op.Hdr? || ((op.Put? || op.StoreLen?) && at >= 0)
  }

  /** Row j's next access is a store. */
  predicate StoresNext(ws: seq<DrawnRow>, j: nat) {
    j < |ws| && ws[j].todo != [] && IsStore(ws[j].todo[0], ws[j].at)
  }

  /** The stores to each slot come in ticket order: no store to a row after the row that replaces it
      has been accessed. */
  ghost predicate StoresInOrder(ring: Ring, mem: seq<byte>, es: seq<Step>)
    requires Started(ring, mem)
  {
    forall k :: 0 <= k < |es| && es[k].Run? && StoresNext(After(ring, mem, es[..k]).rows, es[k].j) ==>
      Current(ring, After(ring, mem, es[..k]).rows, es[k].j)
  }

  /** No access through the row of ticket j once ticket j + d has been drawn: what a program guarantees
      if no thread keeps using a row while d others are created. */
  ghost predicate HeldFor(ring: Ring, mem: seq<byte>, es: seq<Step>, d: nat)
    requires Started(ring, mem)
  {
    forall k :: 0 <= k < |es| && es[k].Run? ==> |After(ring, mem, es[..k]).rows| <= es[k].j + d
  }

  /** No store through the row of ticket j once ticket j + d has been drawn. */
  ghost predicate StoresHeldFor(ring: Ring, mem: seq<byte>, es: seq<Step>, d: nat)
    requires Started(ring, mem)
  {
    forall k :: 0 <= k < |es| && es[k].Run? && StoresNext(After(ring, mem, es[..k]).rows, es[k].j) ==>
      |After(ring, mem, es[..k]).rows| <= es[k].j + d
  }

  /** No thread keeps using a row while num_rows others are created. */
  ghost predicate Disciplined(ring: Ring, mem: seq<byte>, es: seq<Step>)
    requires Started(ring, mem)
  {
    HeldFor(ring, mem, es, ring.n)
  }

  /** Every thread has returned from its calls. */
  ghost predicate Quiescent(s: State) {
    forall j :: 0 <= j < |s.rows| ==> s.rows[j].todo == []
  }

  function Tickets(ws: seq<DrawnRow>): (ts: seq<Ticket>)
    ensures |ts| == |ws| && forall j :: 0 <= j < |ws| ==> ts[j] == ws[j].ticket
  {
    seq(|ws|, j requires 0 <= j < |ws| => ws[j].ticket)
  }

  // ------------------------------------------------------ replay in ticket order

  /** The region if the accesses made so far had been made ticket after ticket. */
  ghost function Replay(ring: Ring, mem: seq<byte>, ws: seq<DrawnRow>): (m: seq<byte>)
    requires Started(ring, mem)
    ensures |m| == |mem|
  {
    if ws == [] then mem
    else
      var j := |ws| - 1;
      var prev := Replay(ring, mem, ws[..j]);
      SetSlot(ring, prev, TicketSlot(ring, j), Turn(ring, prev, ws[j], j).row)
  }

  /** What writer j's accesses make of its slot, when it is its turn in the replay. */
  ghost function Turn(ring: Ring, prev: seq<byte>, w: DrawnRow, j: nat): (c: Cell)
    requires Started(ring, prev)
    ensures |c.row| == ring.size
  {
    Exec(w.done, Cell(Slot(ring, prev, TicketSlot(ring, j)), DROPPED))
  }

  /** What holds in every run: the wrapped ticket count, the slots, and which accesses were made. */
  ghost predicate Bookkept(ring: Ring, s: State) {
    && Fits(ring, s)
    && s.nextrow == IdOf(|s.rows|)
    && (forall j :: 0 <= j < |s.rows| ==> s.rows[j].slot == TicketSlot(ring, j))
    && (forall j :: 0 <= j < |s.rows| ==>
          s.rows[j].done + s.rows[j].todo == TicketOps(ring.options, IdOf(j), s.rows[j].ticket))
  }

  /** Every register holds what the replay gives it. */
  ghost predicate Registers(ring: Ring, mem: seq<byte>, ws: seq<DrawnRow>)
    requires Started(ring, mem)
  {
    forall j :: 0 <= j < |ws| ==> ws[j].at == Turn(ring, Replay(ring, mem, ws[..j]), ws[j], j).at
  }

  /** The region is the replay of the accesses made, and so is every register. */
  ghost predicate Inv(ring: Ring, mem: seq<byte>, s: State)
    requires Started(ring, mem)
  {
    Bookkept(ring, s) && s.mem == Replay(ring, mem, s.rows) && Registers(ring, mem, s.rows)
  }

  /** A row not accessed yet leaves the replay as it is. */
  lemma TurnOfUntouched(ring: Ring, prev: seq<byte>, w: DrawnRow, j: nat)
    requires Started(ring, prev) && w.done == []
    ensures Turn(ring, prev, w, j) == Cell(Slot(ring, prev, TicketSlot(ring, j)), DROPPED)
    ensures SetSlot(ring, prev, TicketSlot(ring, j), Turn(ring, prev, w, j).row) == prev
  {
    hide Slot, SetSlot, Ring.Valid, Ring.End, Exec;
    ExecNothing(Cell(Slot(ring, prev, TicketSlot(ring, j)), DROPPED));
    SetSlotSame(ring, prev, TicketSlot(ring, j));
  }

  /** One more access by row j changes the replay only in j's slot, as long as j is current. */
  lemma {:induction false} ReplayRun(ring: Ring, mem: seq<byte>, ws: seq<DrawnRow>, j: nat, w: DrawnRow, op: Op)
    requires Started(ring, mem) && j < |ws| && Current(ring, ws, j)
    requires w.done == ws[j].done + [op]
    ensures var s := TicketSlot(ring, j);
      var c := Turn(ring, Replay(ring, mem, ws[..j]), ws[j], j);
      && Slot(ring, Replay(ring, mem, ws), s) == c.row
      && Replay(ring, mem, ws[j := w]) == SetSlot(ring, Replay(ring, mem, ws), s, Apply(op, c).row)
    decreases |ws|
  {
    hide Slot, SetSlot, Apply, Exec, Ring.Valid, Ring.End, TicketSlot, Turn;
    var s, ws' := TicketSlot(ring, j), ws[j := w];
    var k := |ws| - 1;
    var prev := Replay(ring, mem, ws[..k]);
    var slot := TicketSlot(ring, k);
    if j == k {
      assert ws'[..k] == ws[..k];
      var c := Turn(ring, prev, ws[k], k);
      TurnRun(ring, prev, ws[k], w, k, op);
      SlotOfSet(ring, prev, s, c.row, s);
      SetSlotTwice(ring, prev, s, c.row, Apply(op, c).row);
    } else {
      assert ws'[..k] == ws[..k][j := w];
      assert ws[..k][..j] == ws[..j];
      ReplayRun(ring, mem, ws[..k], j, w, op);
      var row := Apply(op, Turn(ring, Replay(ring, mem, ws[..j]), ws[j], j)).row;
      var later := Turn(ring, prev, ws[k], k).row;
      if slot == s {
        TurnOfUntouched(ring, prev, ws[k], k);
        TurnOfUntouched(ring, Replay(ring, mem, ws'[..k]), ws[k], k);
      } else {
        SlotOfSet(ring, prev, slot, later, s);
        TurnElsewhere(ring, prev, s, row, ws[k], k);
        SetSlotsCommute(ring, prev, s, row, slot, later);
      }
    }
  }

  /** One more access in a turn. */
  lemma TurnRun(ring: Ring, prev: seq<byte>, w: DrawnRow, w': DrawnRow, j: nat, op: Op)
    requires Started(ring, prev) && w'.done == w.done + [op]
    ensures Turn(ring, prev, w', j) == Apply(op, Turn(ring, prev, w, j))
  {
    hide Slot, Apply, Exec, Ring.Valid, Ring.End;
    ExecConcat(w.done, [op], Cell(Slot(ring, prev, TicketSlot(ring, j)), DROPPED));
    ExecOne(op, Turn(ring, prev, w, j));
  }

  /** A turn depends on its own slot only. */
  lemma TurnElsewhere(ring: Ring, prev: seq<byte>, s: nat, row: seq<byte>, w: DrawnRow, j: nat)
    requires Started(ring, prev) && s < ring.n && |row| == ring.size && s != TicketSlot(ring, j)
    ensures Turn(ring, SetSlot(ring, prev, s, row), w, j) == Turn(ring, prev, w, j)
  {
    hide Slot, SetSlot, Exec, Ring.Valid, Ring.End;
    SlotOfSet(ring, prev, s, row, TicketSlot(ring, j));
  }

  lemma TicketOpsIssue(options: nat, id: uint32, t: Ticket, call: Call)
    ensures TicketOps(options, id, t.(calls := t.calls + [call])) == TicketOps(options, id, t) + CallOps(call)
  {
    hide OpenOps, CallOps;
    assert (t.calls + [call])[..|t.calls|] == t.calls;
  }

  /** A row just drawn has not touched the region yet. */
  lemma ReplayDraw(ring: Ring, mem: seq<byte>, ws: seq<DrawnRow>, w: DrawnRow)
    requires Started(ring, mem) && w.done == []
    ensures Replay(ring, mem, ws + [w]) == Replay(ring, mem, ws)
    ensures Turn(ring, Replay(ring, mem, ws), w, |ws|).at == DROPPED
  {
    hide Exec, Slot, SetSlot, Ring.Valid, Ring.End;
    var prev, s := Replay(ring, mem, ws), TicketSlot(ring, |ws|);
    assert (ws + [w])[..|ws|] == ws;
    ExecNothing(Cell(Slot(ring, prev, s), DROPPED));
    SetSlotSame(ring, prev, s);
  }

  lemma TicketOpsFresh(options: nat, id: uint32, job: Job)
    ensures TicketOps(options, id, Ticket(job, [])) == OpenOps(options, id, job)
  {
    hide OpenOps;
    assert CallsOps([]) == [];
  }

  lemma BookkeepingStep(ring: Ring, s: State, e: Step)
    requires Bookkept(ring, s)
    ensures Bookkept(ring, Next(ring, s, e))
  {
    hide Slot, SetSlot, OpenOps, CallOps, TicketOps, Apply, Ring.Valid, Ring.End, SlotOfId, IdOf, ToU32;
    match e
    case Draw(job) =>
      IdOfNext(|s.rows|);
      SlotAssignment(ring, |s.rows|);
      TicketOpsFresh(ring.options, s.nextrow, job);
      assert forall ops: seq<Op> :: [] + ops == ops;
    case Issue(j, call) =>
      if j < |s.rows| && s.rows[j].todo == [] {
        TicketOpsIssue(ring.options, IdOf(j), s.rows[j].ticket, call);
        assert s.rows[j].done + [] == s.rows[j].done;
      }
    case Run(j) =>
      if j < |s.rows| && s.rows[j].todo != [] {
        var w := s.rows[j];
        assert w.done + w.todo[..1] + w.todo[1..] == w.done + w.todo;
      }
  }

  lemma {:induction false} BookkeepingAlways(ring: Ring, mem: seq<byte>, es: seq<Step>)
    requires Started(ring, mem)
    ensures Bookkept(ring, After(ring, mem, es))
    decreases |es|
  {
    if es == [] {
      IdOfZero();
    } else {
      hide Bookkept, Next;
      BookkeepingAlways(ring, mem, es[..|es| - 1]);
      BookkeepingStep(ring, After(ring, mem, es[..|es| - 1]), es[|es| - 1]);
    }
  }

  lemma BookkeptSlots(ring: Ring, s: State)
    requires Bookkept(ring, s)
    ensures Fits(ring, s) && forall j :: 0 <= j < |s.rows| ==> s.rows[j].slot == TicketSlot(ring, j)
  {
  }

  lemma InvDraw(ring: Ring, mem: seq<byte>, s: State, job: Job)
    requires Started(ring, mem) && Inv(ring, mem, s)
    ensures Inv(ring, mem, Next(ring, s, Draw(job)))
  {
    BookkeptSlots(ring, s);
    BookkeepingStep(ring, s, Draw(job));
    hide Bookkept, OpenOps, Ring.Valid, Ring.End, SlotOfId, ToU32, Replay, Turn;
    var s' := Next(ring, s, Draw(job));
    var ws, k := s.rows, |s.rows|;
    ReplayDraw(ring, mem, ws, s'.rows[k]);
    forall j | 0 <= j <= k ensures s'.rows[..j] == ws[..j] {}
    assert ws[..k] == ws;
  }

  /** The replay depends only on the accesses made. */
  lemma {:induction false} ReplayFrame(ring: Ring, mem: seq<byte>, ws: seq<DrawnRow>, j: nat, w: DrawnRow)
    requires Started(ring, mem) && j < |ws| && w.done == ws[j].done
    ensures Replay(ring, mem, ws[j := w]) == Replay(ring, mem, ws)
    decreases |ws|
  {
    hide Exec, Slot, SetSlot, Ring.Valid, Ring.End;
    var k := |ws| - 1;
    if j == k {
      assert ws[j := w][..k] == ws[..k];
    } else {
      assert ws[j := w][..k] == ws[..k][j := w];
      ReplayFrame(ring, mem, ws[..k], j, w);
    }
  }

  lemma InvIssue(ring: Ring, mem: seq<byte>, s: State, j: nat, call: Call)
    requires Started(ring, mem) && Inv(ring, mem, s)
    ensures Inv(ring, mem, Next(ring, s, Issue(j, call)))
  {
    BookkeptSlots(ring, s);
    BookkeepingStep(ring, s, Issue(j, call));
    hide Bookkept, Exec, Slot, SetSlot, CallOps, Ring.Valid, Ring.End, Replay;
    if j < |s.rows| && s.rows[j].todo == [] {
      var w' := Next(ring, s, Issue(j, call)).rows[j];
      ReplayFrame(ring, mem, s.rows, j, w');
      RegistersIssue(ring, mem, s.rows, j, w');
    }
  }

  lemma RegistersIssue(ring: Ring, mem: seq<byte>, ws: seq<DrawnRow>, j: nat, w: DrawnRow)
    requires Started(ring, mem) && Registers(ring, mem, ws)
    requires j < |ws| && w.done == ws[j].done && w.at == ws[j].at
    ensures Registers(ring, mem, ws[j := w])
  {
    hide Exec, Slot, SetSlot, Ring.Valid, Ring.End, Replay;
    var ws' := ws[j := w];
    forall i | 0 <= i < |ws'| ensures ws'[i].at == Turn(ring, Replay(ring, mem, ws'[..i]), ws'[i], i).at {
      if j < i {
        assert ws'[..i] == ws[..i][j := w];
        ReplayFrame(ring, mem, ws[..i], j, w);
      } else {
        assert ws'[..i] == ws[..i];
      }
    }
  }

  /** An access by a current row leaves the registers of the rows drawn later as they are. */
  lemma LaterTurn(ring: Ring, mem: seq<byte>, ws: seq<DrawnRow>, j: nat, w: DrawnRow, op: Op, i: nat)
    requires Started(ring, mem) && j < i < |ws| && Current(ring, ws, j) && w.done == ws[j].done + [op]
    ensures Turn(ring, Replay(ring, mem, ws[j := w][..i]), ws[i], i).at
         == Turn(ring, Replay(ring, mem, ws[..i]), ws[i], i).at
  {
    hide Slot, SetSlot, Apply, Ring.Valid, Ring.End, Replay, Turn, TicketSlot;
    assert ws[j := w][..i] == ws[..i][j := w];
    assert ws[..i][..j] == ws[..j];
    ReplayRun(ring, mem, ws[..i], j, w, op);
    var prev := Replay(ring, mem, ws[..i]);
    var s := TicketSlot(ring, j);
    var row := Apply(op, Turn(ring, Replay(ring, mem, ws[..j]), ws[j], j)).row;
    if TicketSlot(ring, i) == s {
      TurnOfUntouched(ring, prev, ws[i], i);
      TurnOfUntouched(ring, SetSlot(ring, prev, s, row), ws[i], i);
    } else {
      TurnElsewhere(ring, prev, s, row, ws[i], i);
    }
  }

  lemma RegistersRun(ring: Ring, mem: seq<byte>, ws: seq<DrawnRow>, j: nat, w: DrawnRow, op: Op)
    requires Started(ring, mem) && Registers(ring, mem, ws) && j < |ws| && Current(ring, ws, j)
    requires w.done == ws[j].done + [op]
    requires w.at == Apply(op, Turn(ring, Replay(ring, mem, ws[..j]), ws[j], j)).at
    ensures Registers(ring, mem, ws[j := w])
  {
    hide Apply, Ring.Valid, Ring.End, Replay, Turn, Current;
    TurnRun(ring, Replay(ring, mem, ws[..j]), ws[j], w, j, op);
    var ws' := ws[j := w];
    forall i | 0 <= i < |ws'| ensures ws'[i].at == Turn(ring, Replay(ring, mem, ws'[..i]), ws'[i], i).at {
      if i <= j {
        assert ws'[..i] == ws[..i];
      } else {
        LaterTurn(ring, mem, ws, j, w, op, i);
      }
    }
  }

  /** A writer's row after its next access. */
  function Accessed(w: DrawnRow, at: int): DrawnRow
    requires w.todo != []
  {
    w.(done := w.done + [w.todo[0]], todo := w.todo[1..], at := at)
  }

  /** The state after an access by row j. */
  lemma RunStep(ring: Ring, s: State, j: nat)
    requires Fits(ring, s) && j < |s.rows| && s.rows[j].todo != []
    ensures var w := s.rows[j];
      var c := Apply(w.todo[0], Cell(Slot(ring, s.mem, w.slot), w.at));
      Next(ring, s, Run(j)) == State(SetSlot(ring, s.mem, w.slot, c.row), s.nextrow, s.rows[j := Accessed(w, c.at)])
  {
    hide Apply, Slot, SetSlot;
    assert s.rows[j].todo[..1] == [s.rows[j].todo[0]];
  }

  lemma InvRun(ring: Ring, mem: seq<byte>, s: State, j: nat)
    requires Started(ring, mem) && Inv(ring, mem, s) && Current(ring, s.rows, j)
    ensures Inv(ring, mem, Next(ring, s, Run(j)))
  {
    BookkeptSlots(ring, s);
    BookkeepingStep(ring, s, Run(j));
    if j < |s.rows| && s.rows[j].todo != [] {
      var ws, w, op := s.rows, s.rows[j], s.rows[j].todo[0];
      assert w.at == Turn(ring, Replay(ring, mem, ws[..j]), w, j).at;
      hide Bookkept, Registers, Slot, SetSlot, Apply, Ring.Valid, Ring.End, Replay, Turn, TicketSlot, Current, Next;
      RunStep(ring, s, j);
      var w' := Accessed(w, Apply(op, Turn(ring, Replay(ring, mem, ws[..j]), w, j)).at);
      ReplayRun(ring, mem, ws, j, w', op);
      RegistersRun(ring, mem, ws, j, w', op);
    }
  }

  lemma {:induction false} InvAlways(ring: Ring, mem: seq<byte>, es: seq<Step>)
    requires Started(ring, mem) && InOrder(ring, mem, es)
    ensures Inv(ring, mem, After(ring, mem, es))
    decreases |es|
  {
    if es == [] {
      IdOfZero();
    } else {
      hide Inv, Next, Current;
      var init, last := es[..|es| - 1], es[|es| - 1];
      forall k | 0 <= k < |init| && init[k].Run?
        ensures Current(ring, After(ring, mem, init[..k]).rows, init[k].j)
      {
        assert init[..k] == es[..k];
      }
      InvAlways(ring, mem, init);
      match last
      case Draw(job) => InvDraw(ring, mem, After(ring, mem, init), job);
      case Issue(j, call) => InvIssue(ring, mem, After(ring, mem, init), j, call);
      case Run(j) => InvRun(ring, mem, After(ring, mem, init), j);
    }
  }

  // -------------------------------------------------------------- main theorems

  lemma {:induction false} ReplayIsRunTickets(ring: Ring, mem: seq<byte>, ws: seq<DrawnRow>)
    requires Started(ring, mem)
    requires forall j :: 0 <= j < |ws| ==> ws[j].done == TicketOps(ring.options, IdOf(j), ws[j].ticket)
    ensures Replay(ring, mem, ws) == RunTickets(ring, mem, Tickets(ws))
    decreases |ws|
  {
    hide Slot, SetSlot, TicketOps, Exec, Ring.Valid, Ring.End, IdOf, RowAfter;
    if ws == [] {
    } else {
      var k := |ws| - 1;
      ReplayIsRunTickets(ring, mem, ws[..k]);
      assert Tickets(ws)[..k] == Tickets(ws[..k]);
      var prev := Replay(ring, mem, ws[..k]);
      ExecTicket(ring.options, IdOf(k), ws[k].ticket, Cell(Slot(ring, prev, TicketSlot(ring, k)), DROPPED));
    }
  }

  /** Every interleaving in slot order, once all threads have returned, leaves exactly the region that
      running the row operations one ticket at a time leaves, and the wrapped ticket count. */
  lemma InterleavingIsSerial(ring: Ring, mem: seq<byte>, es: seq<Step>)
    requires Started(ring, mem) && InOrder(ring, mem, es)
    requires Quiescent(After(ring, mem, es))
    ensures var s := After(ring, mem, es);
      s.mem == RunTickets(ring, mem, Tickets(s.rows)) && s.nextrow == IdOf(|s.rows|)
  {
    hide After, Replay, RunTickets, Turn, TicketOps;
    InvAlways(ring, mem, es);
    var s := After(ring, mem, es);
    forall j | 0 <= j < |s.rows|
      ensures s.rows[j].done == TicketOps(ring.options, IdOf(j), s.rows[j].ticket)
    {
      assert s.rows[j].done + [] == s.rows[j].done;
    }
    ReplayIsRunTickets(ring, mem, s.rows);
  }

  lemma {:induction false} RowsGrow(ring: Ring, mem: seq<byte>, es: seq<Step>, a: nat, b: nat)
    requires Started(ring, mem) && a <= b <= |es|
    ensures |After(ring, mem, es[..a]).rows| <= |After(ring, mem, es[..b]).rows|
    decreases b
  {
    hide Next;
    if a == b {
    } else {
      RowsGrow(ring, mem, es, a, b - 1);
      assert es[..b][..b - 1] == es[..b - 1];
      NextGrows(ring, After(ring, mem, es[..b - 1]), es[b - 1]);
    }
  }

  lemma NextGrows(ring: Ring, s: State, e: Step)
    requires Fits(ring, s)
    ensures |s.rows| <= |Next(ring, s, e).rows|
  {
  }

  /** A program in which no thread keeps a row while num_rows others are created accesses its slots
      in ticket order. */
  lemma DisciplineOrders(ring: Ring, mem: seq<byte>, es: seq<Step>)
    requires Started(ring, mem) && Disciplined(ring, mem, es)
    ensures InOrder(ring, mem, es) && StoresInOrder(ring, mem, es)
  {
    hide After, Next, Current;
    forall k | 0 <= k < |es| && es[k].Run?
      ensures Current(ring, After(ring, mem, es[..k]).rows, es[k].j)
    {
      RecentIsCurrent(ring, After(ring, mem, es[..k]).rows, es[k].j);
    }
  }

  /** While fewer than num_rows later rows have been drawn, none of them shares the slot. */
  lemma RecentIsCurrent(ring: Ring, ws: seq<DrawnRow>, j: nat)
    requires 0 < ring.n && |ws| <= j + ring.n
    ensures Current(ring, ws, j)
  {
    forall i | j < i < |ws| ensures TicketSlot(ring, i) != TicketSlot(ring, j) {
      ResiduesDiffer(j, i, ring.n);
    }
  }

  /** The same for the stores alone. */
  lemma StoreDisciplineOrders(ring: Ring, mem: seq<byte>, es: seq<Step>)
    requires Started(ring, mem) && StoresHeldFor(ring, mem, es, ring.n)
    ensures StoresInOrder(ring, mem, es)
  {
    hide After, Next, Current, StoresNext;
    forall k | 0 <= k < |es| && es[k].Run? && StoresNext(After(ring, mem, es[..k]).rows, es[k].j)
      ensures Current(ring, After(ring, mem, es[..k]).rows, es[k].j)
    {
      RecentIsCurrent(ring, After(ring, mem, es[..k]).rows, es[k].j);
    }
  }

  /** No access to the row of ticket j follows an access to the row of a later ticket in the same slot. */
  lemma NoStaleStore(ring: Ring, mem: seq<byte>, es: seq<Step>, a: nat, b: nat, j: nat)
    requires Started(ring, mem) && Disciplined(ring, mem, es) && a < b < |es|
    requires es[a].Run? && es[a].j < |After(ring, mem, es[..a]).rows|
    requires es[b] == Run(j) && TicketSlot(ring, j) == TicketSlot(ring, es[a].j)
    ensures es[a].j <= j
  {
    hide After;
    var i := es[a].j;
    RowsGrow(ring, mem, es, a, b);
    if j < i {
      assert i < j + ring.n;
      ResiduesDiffer(j, i, ring.n);
      assert false;
    }
  }
}
