/** The row operations broken into single memory accesses, as a thread executes them, and the proof
    that executing them in sequence is what the row functions say. */
module Stores {
  import opened Bits
  import opened Bytes
  import opened Records
  import opened Rows
  import opened Slots

  /** One memory access of a writer to its row. Its register holds the place a record goes to, then the
      new datalen; DROPPED while a record that does not fit is passed over. */
  datatype Op =
    | Hdr(off: nat, data: seq<byte>)   // store a header word
    | Test(tot: nat)                   // load datalen, and drop the record if it does not fit what remains
    | Place                            // load datalen again: an accepted record goes behind it
    | Put(off: nat, data: seq<byte>)   // store part of an accepted record
    | LoadLen(tot: nat)                // the load of datalen += tot
    | StoreLen                         // and its store

  const DROPPED: int := -1

  /** A row's bytes and the register of the thread that writes it. */
  datatype Cell = Cell(row: seq<byte>, at: int)

  function Apply(op: Op, c: Cell): (d: Cell)
    requires ROW_HDR <= |c.row|
    ensures |d.row| == |c.row|
  {
    match op
    case Hdr(off, data) =>
      if off + |data| <= |c.row| then c.(row := Store(c.row, off, data)) else c
    case Test(tot) =>
      c.(at := if tot <= Cap(c.row) - Datalen(c.row) then 0 else DROPPED)
    case Place =>
      if c.at >= 0 then c.(at := Datalen(c.row)) else c
    case Put(off, data) =>
      if c.at >= 0 && ROW_HDR + c.at + off + |data| <= |c.row|
      then c.(row := Store(c.row, ROW_HDR + c.at + off, data)) else c
    case LoadLen(tot) =>
      if c.at >= 0 then c.(at := Datalen(c.row) + tot) else c
    case StoreLen =>
      if c.at >= 0 then c.(row := SetDatalen(c.row, c.at)) else c
  }

  function Exec(ops: seq<Op>, c: Cell): (d: Cell)
    requires ROW_HDR <= |c.row|
    ensures |d.row| == |c.row|
    decreases |ops|
  {
    if ops == [] then c else Exec(ops[1..], Apply(ops[0], c))
  }

  /** memcpy, one byte at a time. */
  function Bytewise(off: nat, data: seq<byte>): seq<Op>
    decreases |data|
  {
    if data == [] then [] else [Put(off, data[..1])] + Bytewise(off + 1, data[1..])
  }

  /** The stores of one record at `off` from the reserved place. */
  function PutOps(off: nat, r: Rec): seq<Op> {
    [Put(off, [r.ty]), Put(off + 4, Encode(Size(r), 4))] + Bytewise(off + DATA_HDR, r.data)
  }

  function PushOps(r: Rec): seq<Op> {
    [Test(Size(r)), Place] + PutOps(0, r) + [LoadLen(Size(r)), StoreLen]
  }

  function PushAllOps(items: seq<Item>): seq<Op> {
    if items == [] then [] else PushOps(RecOf(items[0])) + PushAllOps(items[1..])
  }

  /** The fast path places its records at payload offset 0 without loading datalen again. */
  function FastOps(e: Event): seq<Op> {
    [Test(e.Needed())]
    + PutOps(0, RecOf(Int(e.flowid))) + PutOps(12, RecOf(Int(e.msgref)))
    + (if e.HasStr() then PutOps(24, RecOf(Str(e.str.value))) else [])
    + [LoadLen(e.Needed()), StoreLen]
  }

  function HeaderOps(options: nat, id: uint32, job: Job): seq<Op> {
    (if WantsTid(options) then [Hdr(TID, Encode(IntBits(job.tid), 4))] else [])
    + (if ClockSource(options) != 0 then [Hdr(TS, Encode(JobTs(options, job), 8))] else [])
    + [Hdr(ID, Encode(id, 4)), Hdr(DATALEN, Encode(0, 4))]
  }

  function OpenOps(options: nat, id: uint32, job: Job): seq<Op> {
    HeaderOps(options, id, job) + PushAllOps(LocationItems(options, job))
    + (if job.how.TimeEvent? then FastOps(job.how.e) else [])
  }

  function CallOps(c: Call): seq<Op> {
    match c
    case Append(it) => PushOps(RecOf(it))
    case SetTs(ts) => [Hdr(TS, Encode(ts, 8))]
  }

  function CallsOps(calls: seq<Call>): seq<Op> {
    if calls == [] then [] else CallsOps(calls[..|calls| - 1]) + CallOps(calls[|calls| - 1])
  }

  /** Everything a ticket's thread does to its row. */
  function TicketOps(options: nat, id: uint32, t: Ticket): seq<Op> {
    OpenOps(options, id, t.job) + CallsOps(t.calls)
  }

  // -------------------------------------------------------- sequential execution

  lemma {:induction false} ExecConcat(a: seq<Op>, b: seq<Op>, c: Cell)
    requires ROW_HDR <= |c.row|
    ensures Exec(a + b, c) == Exec(b, Exec(a, c))
    decreases |a|
  {
    hide Apply;
    if a == [] {
      assert a + b == b;
    } else {
      assert (a + b)[1..] == a[1..] + b;
      ExecConcat(a[1..], b, Apply(a[0], c));
    }
  }

  lemma ExecOne(op: Op, c: Cell)
    requires ROW_HDR <= |c.row|
    ensures Exec([op], c) == Apply(op, c)
  {
    hide Apply;
    assert Exec([op], c) == Exec([], Apply(op, c));
  }

  lemma ExecTwo(op: Op, op': Op, c: Cell)
    requires ROW_HDR <= |c.row|
    ensures Exec([op, op'], c) == Apply(op', Apply(op, c))
  {
    hide Apply;
    assert [op, op'] == [op] + [op'];
    ExecConcat([op], [op'], c);
    ExecOne(op, c);
    ExecOne(op', Apply(op, c));
  }

  lemma {:induction false} ExecBytewise(off: nat, data: seq<byte>, c: Cell)
    requires ROW_HDR <= |c.row|
    requires c.at >= 0 ==> ROW_HDR + c.at + off + |data| <= |c.row|
    ensures Exec(Bytewise(off, data), c)
         == if c.at >= 0 then c.(row := Store(c.row, ROW_HDR + c.at + off, data)) else c
    decreases |data|
  {
    assert data != [] ==> Bytewise(off, data) == [Put(off, data[..1])] + Bytewise(off + 1, data[1..]);
    if data == [] {
      assert c.at >= 0 ==> Store(c.row, ROW_HDR + c.at + off, []) == c.row;
    } else {
      var op, rest := Put(off, data[..1]), Bytewise(off + 1, data[1..]);
      hide Exec, Apply, Store, Bytewise;
      ExecConcat([op], rest, c);
      ExecOne(op, c);
      ApplyPut(off, data[..1], c);
      ExecBytewise(off + 1, data[1..], Apply(op, c));
      if c.at >= 0 {
        StoreAdjacent(c.row, ROW_HDR + c.at + off, data[..1], data[1..]);
        assert data[..1] + data[1..] == data;
      }
    }
  }

  lemma ExecPutOps(off: nat, r: Rec, c: Cell)
    requires ROW_HDR <= |c.row|
    requires c.at >= 0 ==> ROW_HDR + c.at + off + Size(r) <= |c.row|
    ensures Exec(PutOps(off, r), c) == if c.at >= 0 then c.(row := PutRec(c.row, ROW_HDR + c.at + off, r)) else c
  {
    hide Encode, Store, Exec, Bytewise, Apply;
    var o1, o2 := Put(off, [r.ty]), Put(off + 4, Encode(Size(r), 4));
    ExecConcat([o1, o2], Bytewise(off + DATA_HDR, r.data), c);
    ExecTwo(o1, o2, c);
    var c1 := Apply(o1, c);
    ApplyPut(off, [r.ty], c);
    var c2 := Apply(o2, c1);
    ApplyPut(off + 4, Encode(Size(r), 4), c1);
    ExecBytewise(off + DATA_HDR, r.data, c2);
  }

  /** One store of an accepted record lands where it should; a dropped record stores nothing. */
  lemma ApplyPut(off: nat, data: seq<byte>, c: Cell)
    requires ROW_HDR <= |c.row|
    requires c.at >= 0 ==> ROW_HDR + c.at + off + |data| <= |c.row|
    ensures Apply(Put(off, data), c) == if c.at >= 0 then c.(row := Store(c.row, ROW_HDR + c.at + off, data)) else c
  {
  }

  /** The stores of one append, in sequence, are Push. */
  lemma ExecPush(r: Rec, c: Cell)
    requires ROW_HDR <= |c.row|
    ensures Exec(PushOps(r), c).row == Push(c.row, r)
  {
    hide Exec, PutOps, PutRec, SetDatalen, Datalen;
    var head, tail := [Test(Size(r)), Place], [LoadLen(Size(r)), StoreLen];
    ExecConcat(head + PutOps(0, r), tail, c);
    ExecConcat(head, PutOps(0, r), c);
    ExecTwo(Test(Size(r)), Place, c);
    var c1 := Exec(head, c);
    ExecPutOps(0, r, c1);
    var c2 := Exec(PutOps(0, r), c1);
    ExecTwo(LoadLen(Size(r)), StoreLen, c2);
    if Size(r) <= Cap(c.row) - Datalen(c.row) {
      PutRecKeepsDatalen(c.row, ROW_HDR + Datalen(c.row), r);
    }
  }

  lemma PutRecKeepsDatalen(row: seq<byte>, p: nat, r: Rec)
    requires ROW_HDR <= p && p + Size(r) <= |row|
    ensures Datalen(PutRec(row, p, r)) == Datalen(row)
  {
    hide Encode, Decode;
    assert PutRec(row, p, r)[DATALEN..DATALEN + 4] == row[DATALEN..DATALEN + 4];
  }

  lemma {:induction false} ExecPushAll(items: seq<Item>, c: Cell)
    requires ROW_HDR <= |c.row|
    ensures Exec(PushAllOps(items), c).row == PushAll(c.row, items)
    decreases |items|
  {
    hide Exec, PushOps, Push, RecOf;
    if items == [] {
      assert Exec([], c) == c by { ExecNothing(c); }
    } else {
      var ops := PushOps(RecOf(items[0]));
      ExecConcat(ops, PushAllOps(items[1..]), c);
      ExecPush(RecOf(items[0]), c);
      ExecPushAll(items[1..], Exec(ops, c));
    }
  }

  lemma ExecNothing(c: Cell)
    requires ROW_HDR <= |c.row|
    ensures Exec([], c) == c
  {
  }

  /** The stores of the fast path, in sequence, are FastPath. */
  lemma ExecFast(e: Event, c: Cell)
    requires ROW_HDR <= |c.row|
    ensures Exec(FastOps(e), c).row == FastPath(c.row, e)
  {
    hide Exec, PutOps, PutRec, SetDatalen, Datalen, RecOf, Encode;
    var head := [Test(e.Needed())] + PutOps(0, RecOf(Int(e.flowid))) + PutOps(12, RecOf(Int(e.msgref)));
    var tail := if e.HasStr() then PutOps(24, RecOf(Str(e.str.value))) else [];
    ExecConcat(head + tail, [LoadLen(e.Needed()), StoreLen], c);
    ExecConcat(head, tail, c);
    ExecHead(e, c);
    var c2 := Exec(head, c);
    ExecTail(e, c2, e.Needed() <= Cap(c.row) - Datalen(c.row));
    ExecTwo(LoadLen(e.Needed()), StoreLen, Exec(tail, c2));
  }

  lemma ExecHead(e: Event, c: Cell)
    requires ROW_HDR <= |c.row|
    ensures var r1, r2 := RecOf(Int(e.flowid)), RecOf(Int(e.msgref));
      var d := Exec([Test(e.Needed())] + PutOps(0, r1) + PutOps(12, r2), c);
      Size(r1) == Size(r2) == 12 &&
      if e.Needed() <= Cap(c.row) - Datalen(c.row) then
        d == Cell(PutRec(PutRec(c.row, ROW_HDR, r1), ROW_HDR + 12, r2), 0) && Datalen(d.row) == Datalen(c.row)
      else d == Cell(c.row, DROPPED)
  {
    assert Size(RecOf(Int(e.flowid))) == 12 && Size(RecOf(Int(e.msgref))) == 12;
    hide Exec, PutOps, PutRec, SetDatalen, Datalen, RecOf, Encode;
    var r1, r2 := RecOf(Int(e.flowid)), RecOf(Int(e.msgref));
    var op := Test(e.Needed());
    ExecConcat([op] + PutOps(0, r1), PutOps(12, r2), c);
    ExecConcat([op], PutOps(0, r1), c);
    ExecOne(op, c);
    var c0 := Apply(op, c);
    ExecPutOps(0, r1, c0);
    var c1 := Exec(PutOps(0, r1), c0);
    ExecPutOps(12, r2, c1);
    if e.Needed() <= Cap(c.row) - Datalen(c.row) {
      PutRecKeepsDatalen(c.row, ROW_HDR, r1);
      PutRecKeepsDatalen(c1.row, ROW_HDR + 12, r2);
    }
  }

  lemma ExecTail(e: Event, c: Cell, fits: bool)
    requires ROW_HDR <= |c.row| && c.at == (if fits then 0 else DROPPED)
    requires fits ==> e.Needed() <= Cap(c.row)
    ensures var d := Exec(if e.HasStr() then PutOps(24, RecOf(Str(e.str.value))) else [], c);
      if fits && e.HasStr() then
        d == c.(row := PutRec(c.row, ROW_HDR + 24, RecOf(Str(e.str.value)))) && Datalen(d.row) == Datalen(c.row)
      else d == c
  {
    if e.HasStr() {
      var r := RecOf(Str(e.str.value));
      hide Exec, PutOps, PutRec, Datalen;
      ExecPutOps(24, r, c);
      if fits { PutRecKeepsDatalen(c.row, ROW_HDR + 24, r); }
    }
  }

  lemma ExecHeader(options: nat, id: uint32, job: Job, c: Cell)
    requires ROW_HDR <= |c.row|
    ensures Exec(HeaderOps(options, id, job), c) == c.(row := HeaderSet(options, id, job, c.row))
  {
    hide Exec, Encode, Store, And;
    var tid := if WantsTid(options) then [Hdr(TID, Encode(IntBits(job.tid), 4))] else [];
    var ts := if ClockSource(options) != 0 then [Hdr(TS, Encode(JobTs(options, job), 8))] else [];
    var o1, o2 := Hdr(ID, Encode(id, 4)), Hdr(DATALEN, Encode(0, 4));
    ExecConcat(tid + ts, [o1, o2], c);
    ExecConcat(tid, ts, c);
    ExecNothing(c);
    ExecOne(Hdr(TID, Encode(IntBits(job.tid), 4)), c);
    var c1 := Exec(tid, c);
    ExecNothing(c1);
    ExecOne(Hdr(TS, Encode(JobTs(options, job), 8)), c1);
    ExecTwo(o1, o2, Exec(ts, c1));
  }

  lemma ExecOpen(options: nat, id: uint32, job: Job, c: Cell)
    requires ROW_HDR <= |c.row|
    ensures Exec(OpenOps(options, id, job), c).row == StartRow(options, id, job, c.row)
  {
    hide Exec, HeaderOps, PushAllOps, FastOps, FastPath, HeaderSet, PushAll, LocationItems;
    var h, l := HeaderOps(options, id, job), PushAllOps(LocationItems(options, job));
    var f := if job.how.TimeEvent? then FastOps(job.how.e) else [];
    ExecConcat(h + l, f, c);
    ExecConcat(h, l, c);
    ExecHeader(options, id, job, c);
    ExecPushAll(LocationItems(options, job), Exec(h, c));
    var c2 := Exec(l, Exec(h, c));
    if job.how.TimeEvent? {
      ExecFast(job.how.e, c2);
      LocationOfEvent(options, job);
    } else {
      ExecNothing(c2);
    }
  }

  lemma LocationOfEvent(options: nat, job: Job)
    requires job.how.TimeEvent?
    ensures LocationItems(options, job) == []
  {
  }

  lemma ExecCall(call: Call, c: Cell)
    requires ROW_HDR <= |c.row|
    ensures Exec(CallOps(call), c).row == DoCall(c.row, call)
  {
    hide Exec, PushOps, Push, RecOf, Encode, Store;
    match call
    case Append(it) => ExecPush(RecOf(it), c);
    case SetTs(ts) => ExecOne(Hdr(TS, Encode(ts, 8)), c);
  }

  lemma {:induction false} ExecCalls(calls: seq<Call>, c: Cell)
    requires ROW_HDR <= |c.row|
    ensures Exec(CallsOps(calls), c).row == DoCalls(c.row, calls)
    decreases |calls|
  {
    hide Exec, CallOps, DoCall;
    if calls == [] {
      ExecNothing(c);
    } else {
      var init, last := calls[..|calls| - 1], calls[|calls| - 1];
      ExecConcat(CallsOps(init), CallOps(last), c);
      ExecCalls(init, c);
      ExecCall(last, Exec(CallsOps(init), c));
      DoCallsSnoc(c.row, init, last);
      assert init + [last] == calls;
    }
  }

  /** All accesses of a ticket, in sequence, are its row operations. */
  lemma ExecTicket(options: nat, id: uint32, t: Ticket, c: Cell)
    requires ROW_HDR <= |c.row|
    ensures Exec(TicketOps(options, id, t), c).row == RowAfter(options, id, t.job, t.calls, c.row)
  {
    hide Exec, OpenOps, CallsOps, StartRow, DoCalls;
    ExecConcat(OpenOps(options, id, t.job), CallsOps(t.calls), c);
    ExecOpen(options, id, t.job, c);
    ExecCalls(t.calls, Exec(OpenOps(options, id, t.job), c));
  }
}
