/** Why the region, other than the listing, needs the loads in order as well: a run in which every store
    is by the newest row, and in which a late append finds the newer row of its slot full and is dropped;
    one ticket at a time it would have been kept, and would have left other stale bytes. */
module LateLoad {
  import opened Bits
  import opened Bytes
  import opened Options
  import opened Records
  import opened Rows
  import opened Slots
  import opened Stores
  import opened Schedule
  import opened LateRow

  // ---------------------------------------------- stores by the newest row, step by step

  lemma StoresSnoc(ring: Ring, mem: seq<byte>, es: seq<Step>, e: Step)
    requires Started(ring, mem) && StoresHeldFor(ring, mem, es, 1)
    requires e.Run? && StoresNext(After(ring, mem, es).rows, e.j) ==> |After(ring, mem, es).rows| == e.j + 1
    ensures StoresHeldFor(ring, mem, es + [e], 1)
  {
    hide After, StoresNext;
    var all := es + [e];
    forall k | 0 <= k < |all| && all[k].Run? && StoresNext(After(ring, mem, all[..k]).rows, all[k].j)
      ensures |After(ring, mem, all[..k]).rows| <= all[k].j + 1
    {
      if k < |es| { assert all[..k] == es[..k]; } else { assert all[..k] == es; }
    }
  }

  /** Row j is the newest, or its accesses drop a record and store nothing. */
  ghost predicate Harmless(ring: Ring, s: State, j: nat)
    requires Fits(ring, s) && j < |s.rows|
  {
    |s.rows| == j + 1 ||
    forall c :: 0 <= c < |s.rows[j].todo| ==>
      !IsStore(s.rows[j].todo[c], Exec(s.rows[j].todo[..c], Cell(Slot(ring, s.mem, s.rows[j].slot), s.rows[j].at)).at)
  }

  lemma {:induction false} StoresRuns(ring: Ring, mem: seq<byte>, es: seq<Step>, j: nat, c: nat)
    requires Started(ring, mem) && StoresHeldFor(ring, mem, es, 1)
    requires j < |After(ring, mem, es).rows| && c <= |After(ring, mem, es).rows[j].todo|
    requires Harmless(ring, After(ring, mem, es), j)
    ensures StoresHeldFor(ring, mem, es + Runs(j, c), 1)
    decreases c
  {
    hide After, StoresHeldFor, IsStore, Exec, Slot, Ran;
    if c == 0 {
      assert es + [] == es;
    } else {
      StoresRuns(ring, mem, es, j, c - 1);
      RunsRan(ring, mem, es, j, c - 1);
      assert es + Runs(j, c) == es + Runs(j, c - 1) + [Run(j)];
      RunHarmless(ring, After(ring, mem, es), After(ring, mem, es + Runs(j, c - 1)), j, c - 1);
      StoresSnoc(ring, mem, es + Runs(j, c - 1), Run(j));
    }
  }

  lemma RunHarmless(ring: Ring, s: State, s': State, j: nat, c: nat)
    requires Fits(ring, s) && Fits(ring, s') && Ran(ring, s, s', j, c) && c < |s.rows[j].todo| && Harmless(ring, s, j)
    ensures StoresNext(s'.rows, j) ==> |s'.rows| == j + 1
  {
    hide IsStore, Exec, Slot;
    if |s.rows| != j + 1 {
      assert s'.rows[j].todo[0] == s.rows[j].todo[c];
    }
  }

  // ------------------------------------------------------- whole calls, seen from slot 0

  /** All threads have returned, these tickets have been played, and slot 0 has this content. */
  ghost predicate Quiet(ring: Ring, s: State, ts: seq<Ticket>, row: seq<byte>) {
    Bookkept(ring, s) && Fits(ring, s) && Quiescent(s) && Tickets(s.rows) == ts && Slot(ring, s.mem, 0) == row
  }

  lemma QuietMeans(ring: Ring, s: State, ts: seq<Ticket>, row: seq<byte>)
    requires Quiet(ring, s, ts, row)
    ensures Fits(ring, s) && |s.rows| == |ts| && s.nextrow == IdOf(|ts|) && |row| == ring.size && ROW_HDR <= |row|
    ensures forall i :: 0 <= i < |ts| ==>
      s.rows[i].ticket == ts[i] && s.rows[i].todo == [] && s.rows[i].slot == TicketSlot(ring, i)
  {
  }

  /** A row is drawn and opened. */
  function Opened(ring: Ring, j: nat, job: Job): seq<Step> {
    [Draw(job)] + Runs(j, |OpenOps(ring.options, IdOf(j), job)|)
  }

  /** What opening row j makes of slot 0. */
  function OpenedRow(ring: Ring, j: nat, job: Job, row: seq<byte>): (r: seq<byte>)
    requires ring.n > 0 && ROW_HDR <= |row|
    ensures |r| == |row|
  {
    if TicketSlot(ring, j) == 0 then StartRow(ring.options, IdOf(j), job, row) else row
  }

  lemma OpenStep(ring: Ring, mem: seq<byte>, es: seq<Step>, job: Job, ts: seq<Ticket>, row: seq<byte>)
    requires Started(ring, mem) && StoresHeldFor(ring, mem, es, 1) && Quiet(ring, After(ring, mem, es), ts, row)
    ensures ROW_HDR <= |row|
    ensures var es' := es + Opened(ring, |ts|, job);
      && StoresHeldFor(ring, mem, es', 1)
      && Quiet(ring, After(ring, mem, es'), ts + [Ticket(job, [])], OpenedRow(ring, |ts|, job, row))
  {
    hide After, Next, Exec, OpenOps, StartRow, Slot, IsStore, Bookkept, IdOf, TicketSlot, Quiet, StoresHeldFor;
    var j, drawn := |ts|, es + [Draw(job)];
    var ops, s0 := OpenOps(ring.options, IdOf(j), job), After(ring, mem, es);
    QuietMeans(ring, s0, ts, row);
    AfterSnoc(ring, mem, es, Draw(job));
    StoresSnoc(ring, mem, es, Draw(job));
    var s1 := After(ring, mem, drawn);
    DrawnNext(ring, s0, job);
    assert es + Opened(ring, j, job) == drawn + Runs(j, |ops|);
    RunsRan(ring, mem, drawn, j, |ops|);
    StoresRuns(ring, mem, drawn, j, |ops|);
    BookkeepingAlways(ring, mem, drawn);
    BookkeptSlots(ring, s1);
    BookkeepingAlways(ring, mem, drawn + Runs(j, |ops|));
    OpenedQuiet(ring, s0, s1, After(ring, mem, drawn + Runs(j, |ops|)), job, ts, row);
  }

  lemma OpenedQuiet(ring: Ring, s0: State, s1: State, s2: State, job: Job, ts: seq<Ticket>, row: seq<byte>)
    requires Quiet(ring, s0, ts, row) && Bookkept(ring, s1) && Bookkept(ring, s2)
    requires |s1.rows| == |ts| + 1 && s1.mem == s0.mem && s1.rows[|ts|].ticket == Ticket(job, [])
    requires forall i :: 0 <= i < |ts| ==> s1.rows[i] == s0.rows[i]
    requires s1.rows[|ts|].todo == OpenOps(ring.options, IdOf(|ts|), job)
    requires Ran(ring, s1, s2, |ts|, |s1.rows[|ts|].todo|)
    ensures ROW_HDR <= |row| && ring.n > 0
    ensures Quiet(ring, s2, ts + [Ticket(job, [])], OpenedRow(ring, |ts|, job, row))
  {
    BookkeptSlots(ring, s1);
    BookkeptSlots(ring, s2);
    RanAll(ring, s1, s2, |ts|);
    hide Exec, OpenOps, StartRow, Slot, Bookkept, IdOf, TicketSlot, Ring.Valid, Ring.End, Ran;
    var j, w := |ts|, s1.rows[|ts|];
    ExecOpen(ring.options, IdOf(j), job, Cell(Slot(ring, s1.mem, w.slot), w.at));
    assert Tickets(s2.rows) == ts + [Ticket(job, [])];
  }

  /** Row j has made all its accesses. */
  lemma RanAll(ring: Ring, s: State, s': State, j: nat)
    requires Fits(ring, s) && Fits(ring, s') && j < |s.rows| && Ran(ring, s, s', j, |s.rows[j].todo|)
    ensures |s'.rows| == |s.rows| && s'.rows[j].todo == [] && s'.rows[j].ticket == s.rows[j].ticket
    ensures forall i :: 0 <= i < |s.rows| && i != j ==> s'.rows[i] == s.rows[i]
    ensures var w := s.rows[j];
      Slot(ring, s'.mem, w.slot) == Exec(w.todo, Cell(Slot(ring, s.mem, w.slot), w.at)).row
    ensures forall x :: 0 <= x < ring.n && x != s.rows[j].slot ==> Slot(ring, s'.mem, x) == Slot(ring, s.mem, x)
  {
    hide Exec, Slot;
    assert s.rows[j].todo[..|s.rows[j].todo|] == s.rows[j].todo;
  }

  lemma DrawnNext(ring: Ring, s: State, job: Job)
    requires Fits(ring, s)
    ensures var s', k := Next(ring, s, Draw(job)), |s.rows|;
      && |s'.rows| == k + 1 && s'.mem == s.mem && (forall i :: 0 <= i < k ==> s'.rows[i] == s.rows[i])
      && s'.rows[k].todo == OpenOps(ring.options, s.nextrow, job) && s'.rows[k].ticket == Ticket(job, [])
  {
    hide OpenOps, SlotOfId, ToU32;
  }

  /** A call is made through row j. */
  function Called(j: nat, call: Call): seq<Step> {
    [Issue(j, call)] + Runs(j, |CallOps(call)|)
  }

  /** The record of this call does not fit the row. */
  predicate NoRoom(call: Call, row: seq<byte>)
    requires ROW_HDR <= |row|
  {
    call.Append? && Size(RecOf(call.it)) > Cap(row) - Datalen(row)
  }

  /** Dropping a record stores nothing. */
  lemma {:induction false} DropsOnly(call: Call, c: Cell, k: nat)
    requires ROW_HDR <= |c.row| && NoRoom(call, c.row) && k < |CallOps(call)|
    ensures k > 0 ==> Exec(CallOps(call)[..k], c) == c.(at := DROPPED)
    ensures !IsStore(CallOps(call)[k], Exec(CallOps(call)[..k], c).at)
    decreases k
  {
    var ops := CallOps(call);
    PushOpsKinds(RecOf(call.it), k);
    if k == 0 {
    } else {
      hide CallOps, PushOps, Exec, Datalen, RecOf;
      DropsOnly(call, c, k - 1);
      PushOpsKinds(RecOf(call.it), k - 1);
      assert ops[..k] == ops[..k - 1] + [ops[k - 1]];
      ExecConcat(ops[..k - 1], [ops[k - 1]], c);
      ExecOne(ops[k - 1], Exec(ops[..k - 1], c));
      if k == 1 { ExecNothing(c); assert ops[..0] == []; }
    }
  }

  lemma PushOpsKinds(r: Rec, k: nat)
    requires k < |PushOps(r)|
    ensures k == 0 ==> PushOps(r)[k] == Test(Size(r))
    ensures k > 0 ==> var op := PushOps(r)[k]; op.Place? || op.Put? || op.LoadLen? || op.StoreLen?
  {
    BytewisePuts(DATA_HDR, r.data);
    hide Bytewise, Encode;
  }

  lemma {:induction false} BytewisePuts(off: nat, data: seq<byte>)
    ensures forall op :: op in Bytewise(off, data) ==> op.Put?
    decreases |data|
  {
    if data == [] {
    } else {
      BytewisePuts(off + 1, data[1..]);
    }
  }

  /** The tickets after a call through row j. */
  function WithCall(ts: seq<Ticket>, j: nat, call: Call): seq<Ticket>
    requires j < |ts|
  {
    ts[j := ts[j].(calls := ts[j].calls + [call])]
  }

  lemma CallStep(ring: Ring, mem: seq<byte>, es: seq<Step>, j: nat, call: Call, ts: seq<Ticket>, row: seq<byte>)
    requires Started(ring, mem) && StoresHeldFor(ring, mem, es, 1) && Quiet(ring, After(ring, mem, es), ts, row)
    requires j < |ts| && TicketSlot(ring, j) == 0 && ROW_HDR <= |row| && (j == |ts| - 1 || NoRoom(call, row))
    ensures var es' := es + Called(j, call);
      StoresHeldFor(ring, mem, es', 1) && Quiet(ring, After(ring, mem, es'), WithCall(ts, j, call), DoCall(row, call))
  {
    hide After, Next, Exec, CallOps, DoCall, Slot, IsStore, TicketSlot, Quiet, StoresHeldFor, Bookkept, NoRoom;
    var ops, issued, s0 := CallOps(call), es + [Issue(j, call)], After(ring, mem, es);
    QuietMeans(ring, s0, ts, row);
    AfterSnoc(ring, mem, es, Issue(j, call));
    StoresSnoc(ring, mem, es, Issue(j, call));
    IssuedNext(ring, s0, j, call);
    var s1 := After(ring, mem, issued);
    assert es + Called(j, call) == issued + Runs(j, |ops|);
    RunsRan(ring, mem, issued, j, |ops|);
    assert Slot(ring, s1.mem, 0) == row by { QuietRow(ring, s0, ts, row); }
    forall c | 0 <= c < |ops| && NoRoom(call, row)
      ensures !IsStore(ops[c], Exec(ops[..c], Cell(row, s1.rows[j].at)).at)
    {
      DropsOnly(call, Cell(row, s1.rows[j].at), c);
    }
    assert Harmless(ring, s1, j);
    StoresRuns(ring, mem, issued, j, |ops|);
    BookkeepingAlways(ring, mem, issued + Runs(j, |ops|));
    CalledQuiet(ring, s0, s1, After(ring, mem, issued + Runs(j, |ops|)), j, call, ts, row);
  }

  lemma QuietRow(ring: Ring, s: State, ts: seq<Ticket>, row: seq<byte>)
    requires Quiet(ring, s, ts, row)
    ensures Fits(ring, s) && Slot(ring, s.mem, 0) == row
  {
  }

  lemma CalledQuiet(ring: Ring, s0: State, s1: State, s2: State, j: nat, call: Call, ts: seq<Ticket>, row: seq<byte>)
    requires Quiet(ring, s0, ts, row) && Fits(ring, s1) && Bookkept(ring, s2)
    requires j < |ts| && TicketSlot(ring, j) == 0 && |s1.rows| == |ts| && s1.mem == s0.mem
    requires forall i :: 0 <= i < |ts| && i != j ==> s1.rows[i] == s0.rows[i]
    requires s1.rows[j].todo == CallOps(call) && s1.rows[j].slot == 0
    requires s1.rows[j].ticket == ts[j].(calls := ts[j].calls + [call])
    requires Ran(ring, s1, s2, j, |s1.rows[j].todo|)
    ensures ROW_HDR <= |row| && Quiet(ring, s2, WithCall(ts, j, call), DoCall(row, call))
  {
    BookkeptSlots(ring, s2);
    RanAll(ring, s1, s2, j);
    hide Exec, CallOps, DoCall, Slot, Bookkept, TicketSlot, Ring.Valid, Ring.End, Ran;
    var w := s1.rows[j];
    ExecCall(call, Cell(row, w.at));
    TicketsAre(s2.rows, WithCall(ts, j, call));
  }

  lemma TicketsAre(ws: seq<DrawnRow>, ts: seq<Ticket>)
    requires |ws| == |ts| && forall i :: 0 <= i < |ts| ==> ws[i].ticket == ts[i]
    ensures Tickets(ws) == ts
  {
  }

  lemma IssuedNext(ring: Ring, s: State, j: nat, call: Call)
    requires Fits(ring, s) && j < |s.rows| && s.rows[j].todo == []
    ensures var s' := Next(ring, s, Issue(j, call));
      && |s'.rows| == |s.rows| && s'.mem == s.mem
      && (forall i :: 0 <= i < |s.rows| && i != j ==> s'.rows[i] == s.rows[i])
      && s'.rows[j].todo == CallOps(call) && s'.rows[j].slot == s.rows[j].slot
      && s'.rows[j].ticket == s.rows[j].ticket.(calls := s.rows[j].ticket.calls + [call])
  {
    hide CallOps;
  }

  // ------------------------------------------------------------------- the witness

  /** m rows are opened. */
  function AllOpened(ring: Ring, job: Job, m: nat): seq<Step> {
    if m == 0 then [] else AllOpened(ring, job, m - 1) + Opened(ring, m - 1, job)
  }

  function Bare(job: Job, m: nat): (ts: seq<Ticket>)
    ensures |ts| == m && forall i :: 0 <= i < m ==> ts[i] == Ticket(job, [])
  {
    seq(m, i => Ticket(job, []))
  }

  /** A string of one repeated character that fills an empty row. */
  function Filling(ring: Ring, c: byte): Item
    requires ROW_HDR + 11 <= ring.size
  {
    Str(seq(ring.size - ROW_HDR - 9, i => c))
  }

  /** num_rows + 1 rows are opened; the last takes a character; then comes a string for the first. */
  function LoadSchedule(ring: Ring, job: Job, c: byte): seq<Step>
    requires ROW_HDR + 11 <= ring.size
  {
    AllOpened(ring, job, ring.n + 1) + Called(ring.n, Append(Char(0))) + Called(0, Append(Filling(ring, c)))
  }

  lemma Beginning(ring: Ring, mem: seq<byte>)
    requires Started(ring, mem)
    ensures StoresHeldFor(ring, mem, [], 1) && Quiet(ring, After(ring, mem, []), [], Slot(ring, mem, 0))
  {
    hide Slot, Next, Ring.Valid, Ring.End;
    IdOfZero();
  }

  lemma FirstSlots(ring: Ring, j: nat)
    requires ring.n > 0
    ensures j < ring.n ==> TicketSlot(ring, j) == j
    ensures j == ring.n ==> TicketSlot(ring, j) == 0
  {
    if j < ring.n { DivModUnique(j, ring.n, 0, j); } else if j == ring.n { DivModUnique(j, ring.n, 1, 0); }
  }

  /** Opening the rows of the other slots leaves slot 0 as the first opening made it. */
  lemma {:induction false} OpenedOnce(ring: Ring, mem: seq<byte>, job: Job, m: nat)
    requires Started(ring, mem) && 1 <= m <= ring.n
    ensures StoresHeldFor(ring, mem, AllOpened(ring, job, m), 1)
    ensures Quiet(ring, After(ring, mem, AllOpened(ring, job, m)), Bare(job, m),
                  StartRow(ring.options, IdOf(0), job, Slot(ring, mem, 0)))
    decreases m
  {
    hide After, StartRow, Slot, Opened, StoresHeldFor, Quiet, TicketSlot, IdOf;
    FirstSlots(ring, m - 1);
    assert Bare(job, m) == Bare(job, m - 1) + [Ticket(job, [])];
    if m == 1 {
      Beginning(ring, mem);
      OpenStep(ring, mem, [], job, [], Slot(ring, mem, 0));
      assert Bare(job, 0) == [];
      assert AllOpened(ring, job, 0) == [];
    } else {
      OpenedOnce(ring, mem, job, m - 1);
      OpenStep(ring, mem, AllOpened(ring, job, m - 1), job, Bare(job, m - 1),
               StartRow(ring.options, IdOf(0), job, Slot(ring, mem, 0)));
    }
  }

  lemma OpenedTwice(ring: Ring, mem: seq<byte>, job: Job)
    requires Started(ring, mem)
    ensures StoresHeldFor(ring, mem, AllOpened(ring, job, ring.n + 1), 1)
    ensures var r1 := StartRow(ring.options, IdOf(0), job, Slot(ring, mem, 0));
      Quiet(ring, After(ring, mem, AllOpened(ring, job, ring.n + 1)), Bare(job, ring.n + 1),
            StartRow(ring.options, IdOf(ring.n), job, r1))
  {
    hide After, StartRow, Slot, Opened, StoresHeldFor, Quiet, TicketSlot, IdOf;
    FirstSlots(ring, ring.n);
    OpenedOnce(ring, mem, job, ring.n);
    OpenStep(ring, mem, AllOpened(ring, job, ring.n), job, Bare(job, ring.n),
             StartRow(ring.options, IdOf(0), job, Slot(ring, mem, 0)));
    assert Bare(job, ring.n + 1) == Bare(job, ring.n) + [Ticket(job, [])];
  }

  /** The row after opening. */
  lemma OpenedEmpty(options: nat, id: uint32, job: Job, row: seq<byte>)
    requires IsRow(row) && job.how == GetRow(None)
    ensures var s := StartRow(options, id, job, row);
      Datalen(s) == 0 && forall k :: ROW_HDR <= k < |row| ==> s[k] == row[k]
  {
    HeaderSetReads(options, id, job, row);
    hide And, Datalen;
    PushAllNil(HeaderSet(options, id, job, row));
  }

  /** The character takes 9 payload bytes; the filling string reaches the byte behind them. */
  lemma CharThere(row: seq<byte>)
    requires IsRow(row) && ROW_HDR + 11 <= |row| && Datalen(row) == 0
    ensures var s := Push(row, RecOf(Char(0)));
      Datalen(s) == 9 && s[ROW_HDR + 9] == row[ROW_HDR + 9]
  {
    var r := RecOf(Char(0));
    assert Size(r) == 9;
    hide RecOf, Datalen, PutRec, SetDatalen;
    PushFirst(row, r);
    PutRecReads(row, ROW_HDR, r);
    SetDatalenReads(PutRec(row, ROW_HDR, r), 9);
  }

  lemma StringThere(ring: Ring, row: seq<byte>, c: byte)
    requires |row| == ring.size && IsRow(row) && ROW_HDR + 11 <= |row| && Datalen(row) == 0
    ensures Size(RecOf(Filling(ring, c))) == Cap(row)
    ensures Push(row, RecOf(Filling(ring, c)))[ROW_HDR + 9] == c
  {
    var r := RecOf(Filling(ring, c));
    assert Size(r) == Cap(row) && r.data[1] == c;
    hide RecOf, Datalen, PutRec, SetDatalen, Filling;
    PushFirst(row, r);
    PutRecReads(row, ROW_HDR, r);
    var s := PutRec(row, ROW_HDR, r);
    SetDatalenReads(s, Size(r));
    assert s[ROW_HDR + 8..ROW_HDR + Size(r)][1] == s[ROW_HDR + 9];
  }

  /** In every region whose rows have 11 payload bytes or more: all stores are by the newest row, all
      threads return, and yet the region is not that of the tickets run one at a time. */
  lemma LoadsMatter(ring: Ring, mem: seq<byte>, job: Job, c: byte) returns (es: seq<Step>, s: State)
    requires Started(ring, mem) && ROW_HDR + 11 <= ring.size && job.how == GetRow(None)
    requires c != Slot(ring, mem, 0)[ROW_HDR + 9]
    ensures es == LoadSchedule(ring, job, c) && s == After(ring, mem, es)
    ensures StoresHeldFor(ring, mem, es, 1) && StoresInOrder(ring, mem, es) && Quiescent(s)
    ensures s.mem != RunTickets(ring, mem, Tickets(s.rows))
  {
    ValidSize(ring);
    var r0 := Slot(ring, mem, 0);
    var r1 := StartRow(ring.options, IdOf(0), job, r0);
    var r2 := StartRow(ring.options, IdOf(ring.n), job, r1);
    OpenedEmpty(ring.options, IdOf(0), job, r0);
    OpenedEmpty(ring.options, IdOf(ring.n), job, r1);
    CharThere(r2);
    hide StartRow, Slot, Called, AllOpened, Datalen, StoresHeldFor, StoresInOrder, After, RunTickets, Push, RecOf,
      IdOf, Quiet, Filling, Ring.Valid;
    var ts;
    es, ts := LateDrop(ring, mem, job, c, r2);
    s := After(ring, mem, es);
    QuietMeans(ring, s, ts, Push(r2, RecOf(Char(0))));
    QuietRow(ring, s, ts, Push(r2, RecOf(Char(0))));
    assert Tickets(s.rows) == ts;
    NewestIsRecent(ring, mem, es);
    SerialByte(ring, mem, job, c, ts);
  }

  lemma NewestIsRecent(ring: Ring, mem: seq<byte>, es: seq<Step>)
    requires Started(ring, mem) && StoresHeldFor(ring, mem, es, 1)
    ensures StoresInOrder(ring, mem, es)
  {
    hide After, StoresNext, StoresInOrder;
    StoreDisciplineOrders(ring, mem, es);
  }

  /** The tickets of the schedule. */
  function LoadTickets(ring: Ring, job: Job, c: byte): (ts: seq<Ticket>)
    requires ROW_HDR + 11 <= ring.size
  {
    WithCall(WithCall(Bare(job, ring.n + 1), ring.n, Append(Char(0))), 0, Append(Filling(ring, c)))
  }

  lemma LateDrop(ring: Ring, mem: seq<byte>, job: Job, c: byte, r2: seq<byte>)
      returns (es: seq<Step>, ts: seq<Ticket>)
    requires Started(ring, mem) && ROW_HDR + 11 <= ring.size && |r2| == ring.size && Datalen(r2) == 0
    requires r2 == StartRow(ring.options, IdOf(ring.n), job, StartRow(ring.options, IdOf(0), job, Slot(ring, mem, 0)))
    ensures es == LoadSchedule(ring, job, c) && ts == LoadTickets(ring, job, c)
    ensures StoresHeldFor(ring, mem, es, 1)
    ensures Quiet(ring, After(ring, mem, es), ts, Push(r2, RecOf(Char(0))))
  {
    hide StartRow, Slot, Called, AllOpened, Datalen, StoresHeldFor, After, RecOf, Push, IdOf, Quiet, NoRoom,
      DoCall, Filling, TicketSlot, Ring.Valid;
    var e2, ci, cd := AllOpened(ring, job, ring.n + 1), Append(Char(0)), Append(Filling(ring, c));
    var r3 := Push(r2, RecOf(Char(0)));
    StringDropped(ring, r2, r3, c);
    OpenedTwice(ring, mem, job);
    FirstSlots(ring, ring.n);
    FirstSlots(ring, 0);
    CallStep(ring, mem, e2, ring.n, ci, Bare(job, ring.n + 1), r2);
    CallStep(ring, mem, e2 + Called(ring.n, ci), 0, cd, WithCall(Bare(job, ring.n + 1), ring.n, ci), r3);
    es, ts := LoadSchedule(ring, job, c), LoadTickets(ring, job, c);
  }

  lemma StringDropped(ring: Ring, r2: seq<byte>, r3: seq<byte>, c: byte)
    requires ring.Valid() && ROW_HDR + 11 <= ring.size == |r2| && Datalen(r2) == 0 && r3 == Push(r2, RecOf(Char(0)))
    ensures r3 == DoCall(r2, Append(Char(0)))
    ensures NoRoom(Append(Filling(ring, c)), r3) && DoCall(r3, Append(Filling(ring, c))) == r3
  {
    ValidSize(ring);
    CharThere(r2);
    StringThere(ring, r2, c);
    hide RecOf, Datalen, Filling;
  }

  /** One ticket at a time, the byte behind the character is the string's. */
  lemma SerialByte(ring: Ring, mem: seq<byte>, job: Job, c: byte, ts: seq<Ticket>)
    requires Started(ring, mem) && ROW_HDR + 11 <= ring.size && job.how == GetRow(None)
    requires ts == LoadTickets(ring, job, c)
    ensures Slot(ring, RunTickets(ring, mem, ts), 0)[ROW_HDR + 9] == c
  {
    ValidSize(ring);
    var r0, n := Slot(ring, mem, 0), ring.n;
    var r1 := Played(ring, ts[0], 0, r0);
    var o0 := StartRow(ring.options, IdOf(0), job, r0);
    var o1 := StartRow(ring.options, IdOf(n), job, r1);
    assert [] + [Append(Char(0))] == [Append(Char(0))] && [] + [Append(Filling(ring, c))] == [Append(Filling(ring, c))];
    OpenedEmpty(ring.options, IdOf(0), job, r0);
    OneCall(ring, ts[0], 0, r0, Append(Filling(ring, c)));
    StringThere(ring, o0, c);
    OpenedEmpty(ring.options, IdOf(n), job, r1);
    OneCall(ring, ts[n], n, r1, Append(Char(0)));
    CharThere(o1);
    hide StartRow, Slot, SetSlot, Played, RunTickets, Push, RecOf, IdOf, Ring.Valid, Ring.End, Filling, Datalen,
      LoadTickets;
    LastOfSlot(ring, mem, ts);
  }

  lemma OneCall(ring: Ring, t: Ticket, j: nat, row: seq<byte>, call: Call)
    requires ROW_HDR <= |row| && t.calls == [call]
    ensures Played(ring, t, j, row) == DoCall(StartRow(ring.options, IdOf(j), t.job, row), call)
  {
    hide StartRow, DoCall;
    var o := StartRow(ring.options, IdOf(j), t.job, row);
    assert [call][1..] == [];
    assert DoCalls(o, [call]) == DoCalls(DoCall(o, call), []);
  }

  /** The first num_rows tickets leave slot 0 to the first of them. */
  lemma {:induction false} FirstKept(ring: Ring, mem: seq<byte>, ts: seq<Ticket>, m: nat)
    requires Started(ring, mem) && 1 <= m <= ring.n && m <= |ts|
    ensures Slot(ring, RunTickets(ring, mem, ts[..m]), 0) == Played(ring, ts[0], 0, Slot(ring, mem, 0))
    decreases m
  {
    hide Slot, SetSlot, Played, RunTickets, Ring.Valid, Ring.End, TicketSlot;
    var j := m - 1;
    var prev := RunTickets(ring, mem, ts[..j]);
    RunTicketsStep(ring, mem, ts, j);
    FirstSlots(ring, j);
    SlotOfSet(ring, prev, TicketSlot(ring, j), Played(ring, ts[j], j, Slot(ring, prev, TicketSlot(ring, j))), 0);
    if m == 1 {
      RunNothing(ring, mem, ts);
    } else {
      FirstKept(ring, mem, ts, m - 1);
    }
  }

  lemma RunNothing(ring: Ring, mem: seq<byte>, ts: seq<Ticket>)
    requires Started(ring, mem)
    ensures RunTickets(ring, mem, ts[..0]) == mem
  {
  }

  lemma LastOfSlot(ring: Ring, mem: seq<byte>, ts: seq<Ticket>)
    requires Started(ring, mem) && |ts| == ring.n + 1
    ensures Slot(ring, RunTickets(ring, mem, ts), 0)
         == Played(ring, ts[ring.n], ring.n, Played(ring, ts[0], 0, Slot(ring, mem, 0)))
  {
    hide Slot, SetSlot, Played, RunTickets, Ring.Valid, Ring.End, TicketSlot;
    var n := ring.n;
    assert ts[..n + 1] == ts;
    FirstKept(ring, mem, ts, n);
    RunTicketsStep(ring, mem, ts, n);
    FirstSlots(ring, n);
    var prev := RunTickets(ring, mem, ts[..n]);
    SlotOfSet(ring, prev, 0, Played(ring, ts[n], n, Slot(ring, prev, 0)), 0);
  }
}
