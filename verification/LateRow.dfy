/** Why a row must not be written any more once its slot has been given away: in every region a
    schedule exists in which the newest row is lost to a late one. */
module LateRow {
  import opened Bits
  import opened Bytes
  import opened Rows
  import opened Slots
  import opened Stores
  import opened Schedule
  import opened Survivors

  /** c accesses through row j. */
  function Runs(j: nat, c: nat): seq<Step> {
    if c == 0 then [] else Runs(j, c - 1) + [Run(j)]
  }

  /** The first row is drawn and its thread delayed; m further rows are drawn and written. */
  function Overtaken(ring: Ring, job: Job, m: nat): seq<Step> {
    if m == 0 then [Draw(job)]
    else Overtaken(ring, job, m - 1) + [Draw(job)] + Runs(m, |OpenOps(ring.options, IdOf(m), job)|)
  }

  /** num_rows other rows are written before the first. */
  function LateSchedule(ring: Ring, job: Job): seq<Step> {
    Overtaken(ring, job, ring.n) + Runs(0, |OpenOps(ring.options, IdOf(0), job)|)
  }

  lemma AfterSnoc(ring: Ring, mem: seq<byte>, es: seq<Step>, e: Step)
    requires Started(ring, mem)
    ensures After(ring, mem, es + [e]) == Next(ring, After(ring, mem, es), e)
  {
    hide Next;
    assert (es + [e])[..|es|] == es;
  }

  /** From s to s', row j has made the first c of its accesses, and nothing else happened. */
  ghost predicate Ran(ring: Ring, s: State, s': State, j: nat, c: nat)
    requires Fits(ring, s) && Fits(ring, s')
  {
    && j < |s.rows| == |s'.rows| && c <= |s.rows[j].todo|
    && (forall i :: 0 <= i < |s.rows| && i != j ==> s'.rows[i] == s.rows[i])
    && s'.rows[j].todo == s.rows[j].todo[c..]
    && s'.rows[j].slot == s.rows[j].slot && s'.rows[j].ticket == s.rows[j].ticket
    && Cell(Slot(ring, s'.mem, s.rows[j].slot), s'.rows[j].at)
       == Exec(s.rows[j].todo[..c], Cell(Slot(ring, s.mem, s.rows[j].slot), s.rows[j].at))
    && (forall x :: 0 <= x < ring.n && x != s.rows[j].slot ==> Slot(ring, s'.mem, x) == Slot(ring, s.mem, x))
  }

  lemma RanOnce(ring: Ring, s: State, s1: State, j: nat, c: nat)
    requires Fits(ring, s) && Fits(ring, s1) && Ran(ring, s, s1, j, c) && c < |s.rows[j].todo|
    ensures Ran(ring, s, Next(ring, s1, Run(j)), j, c + 1)
  {
    hide Slot, SetSlot, Exec, Apply, Next, Ring.Valid, Ring.End;
    var w, slot := s.rows[j], s.rows[j].slot;
    var op := w.todo[c];
    var cell := Cell(Slot(ring, s.mem, slot), w.at);
    assert s1.rows[j].todo[0] == op && s1.rows[j].todo[1..] == w.todo[c + 1..];
    RunStep(ring, s1, j);
    ExecConcat(w.todo[..c], [op], cell);
    ExecOne(op, Exec(w.todo[..c], cell));
    assert w.todo[..c] + [op] == w.todo[..c + 1];
    var row := Apply(op, Cell(Slot(ring, s1.mem, slot), s1.rows[j].at)).row;
    SlotOfSet(ring, s1.mem, slot, row, slot);
    forall x | 0 <= x < ring.n && x != slot
      ensures Slot(ring, SetSlot(ring, s1.mem, slot, row), x) == Slot(ring, s.mem, x)
    {
      SlotOfSet(ring, s1.mem, slot, row, x);
    }
  }

  lemma {:induction false} RunsRan(ring: Ring, mem: seq<byte>, es: seq<Step>, j: nat, c: nat)
    requires Started(ring, mem) && j < |After(ring, mem, es).rows| && c <= |After(ring, mem, es).rows[j].todo|
    ensures Ran(ring, After(ring, mem, es), After(ring, mem, es + Runs(j, c)), j, c)
  {
    hide After, Ran, Next;
    if c == 0 {
      assert es + [] == es;
      RanNothing(ring, After(ring, mem, es), j);
    } else {
      RunsRan(ring, mem, es, j, c - 1);
      assert es + Runs(j, c) == es + Runs(j, c - 1) + [Run(j)];
      AfterSnoc(ring, mem, es + Runs(j, c - 1), Run(j));
      RanOnce(ring, After(ring, mem, es), After(ring, mem, es + Runs(j, c - 1)), j, c - 1);
    }
  }

  lemma RanNothing(ring: Ring, s: State, j: nat)
    requires Fits(ring, s) && j < |s.rows|
    ensures Ran(ring, s, s, j, 0)
  {
    hide Slot;
    ExecNothing(Cell(Slot(ring, s.mem, s.rows[j].slot), s.rows[j].at));
  }

  /** The first row still has all its accesses before it, the others none. */
  predicate FirstWaits(ring: Ring, job: Job, ws: seq<DrawnRow>) {
    |ws| > 0 && ws[0].todo == OpenOps(ring.options, IdOf(0), job) && forall j :: 1 <= j < |ws| ==> ws[j].todo == []
  }

  lemma DrawAppends(ring: Ring, s: State, job: Job)
    requires Fits(ring, s)
    ensures var s' := Next(ring, s, Draw(job));
      && |s'.rows| == |s.rows| + 1 && (forall i :: 0 <= i < |s.rows| ==> s'.rows[i] == s.rows[i])
      && s'.rows[|s.rows|].todo == OpenOps(ring.options, s.nextrow, job)
  {
    hide OpenOps, SlotOfId, ToU32;
  }

  lemma {:induction false} OvertakenState(ring: Ring, mem: seq<byte>, job: Job, m: nat)
    requires Started(ring, mem)
    ensures var s := After(ring, mem, Overtaken(ring, job, m));
      |s.rows| == m + 1 && FirstWaits(ring, job, s.rows)
  {
    hide Next, OpenOps, IdOf, Bookkept;
    if m == 0 {
      AfterSnoc(ring, mem, [], Draw(job));
      assert [] + [Draw(job)] == [Draw(job)];
      IdOfZero();
      DrawAppends(ring, After(ring, mem, []), job);
    } else {
      hide After;
      var es := Overtaken(ring, job, m - 1);
      OvertakenState(ring, mem, job, m - 1);
      AfterSnoc(ring, mem, es, Draw(job));
      BookkeepingAlways(ring, mem, es);
      BookkeptCount(ring, After(ring, mem, es));
      DrawAppends(ring, After(ring, mem, es), job);
      RunsRan(ring, mem, es + [Draw(job)], m, |OpenOps(ring.options, IdOf(m), job)|);
    }
  }

  lemma BookkeptCount(ring: Ring, s: State)
    requires Bookkept(ring, s)
    ensures s.nextrow == IdOf(|s.rows|)
  {
  }

  /** All threads have returned, and the slot that ticket num_rows shares with ticket 0 has row id 0. */
  ghost predicate EndsLate(ring: Ring, s: State) {
    Fits(ring, s) && Quiescent(s) && |s.rows| == ring.n + 1 &&
    Load(Slot(ring, s.mem, TicketSlot(ring, 0)), ID, 4) == IdOf(0)
  }

  lemma LateEnd(ring: Ring, mem: seq<byte>, job: Job) returns (es: seq<Step>, s: State)
    requires Started(ring, mem)
    ensures EndsLate(ring, s)
    ensures es == LateSchedule(ring, job) && s == After(ring, mem, es)
  {
    hide After, OpenOps, Overtaken, Ran, FirstWaits, EndsLate, Bookkept;
    es := LateSchedule(ring, job);
    s := After(ring, mem, es);
    var es1, c := Overtaken(ring, job, ring.n), |OpenOps(ring.options, IdOf(0), job)|;
    OvertakenState(ring, mem, job, ring.n);
    BookkeepingAlways(ring, mem, es1);
    FirstTodo(ring, job, After(ring, mem, es1).rows);
    RunsRan(ring, mem, es1, 0, c);
    LateStore(ring, job, After(ring, mem, es1), s);
  }

  lemma FirstTodo(ring: Ring, job: Job, ws: seq<DrawnRow>)
    requires FirstWaits(ring, job, ws)
    ensures |ws| > 0 && ws[0].todo == OpenOps(ring.options, IdOf(0), job)
  {
  }

  /** The delayed thread now makes all its accesses. */
  lemma LateStore(ring: Ring, job: Job, s1: State, s: State)
    requires Bookkept(ring, s1) && Fits(ring, s) && |s1.rows| == ring.n + 1 && FirstWaits(ring, job, s1.rows)
    requires Ran(ring, s1, s, 0, |OpenOps(ring.options, IdOf(0), job)|)
    ensures EndsLate(ring, s)
  {
    BookkeptSlots(ring, s1);
    hide Bookkept, OpenOps, Slot, Load, Exec, StartRow, TicketSlot, IdOf, Ring.Valid, Ring.End;
    var w, ops := s1.rows[0], OpenOps(ring.options, IdOf(0), job);
    assert w.todo[..|ops|] == ops;
    var before := Slot(ring, s1.mem, w.slot);
    ExecOpen(ring.options, IdOf(0), job, Cell(before, w.at));
    StartId(ring, job, before);
  }

  lemma StartId(ring: Ring, job: Job, row: seq<byte>)
    requires ring.Valid() && |row| == ring.size && ROW_HDR <= |row|
    ensures Load(StartRow(ring.options, IdOf(0), job, row), ID, 4) == IdOf(0)
  {
    hide StartRow, Holds, Load, And;
    ValidSize(ring);
    StartFacts(ring.options, IdOf(0), job, row);
  }

  /** In every region and for every kind of opening call: the delayed first row ends up in the slot
      of the newest, whose id is num_rows; the region is neither that of ticket order nor one in
      which all live rows are intact. */
  lemma DisciplineNeeded(ring: Ring, mem: seq<byte>, job: Job) returns (es: seq<Step>, s: State)
    requires Started(ring, mem)
    ensures es == LateSchedule(ring, job) && s == After(ring, mem, es)
    ensures Quiescent(s) && !HoldsLatest(ring, mem, s.mem, Tickets(s.rows))
    ensures s.mem != RunTickets(ring, mem, Tickets(s.rows))
  {
    hide *;
    es, s := LateEnd(ring, mem, job);
    LateIsNotLatest(ring, mem, s);
    SerialHoldsLatest(ring, mem, Tickets(s.rows));
  }

  lemma LateIsNotLatest(ring: Ring, mem: seq<byte>, s: State)
    requires Started(ring, mem) && EndsLate(ring, s)
    ensures Quiescent(s) && !HoldsLatest(ring, mem, s.mem, Tickets(s.rows))
  {
    hide Slot, Load, PlayedOnSome;
    var ts, n := Tickets(s.rows), ring.n;
    ValidCount(ring);
    SmallWord(n);
    IdOfZero();
    DivModUnique(n, n, 1, 0);
    DivModUnique(0, n, 0, 0);
    if HoldsLatest(ring, mem, s.mem, ts) {
      PlayedId(ring, ts[n], n, Slot(ring, s.mem, TicketSlot(ring, n)));
      assert false;
    }
  }
}
