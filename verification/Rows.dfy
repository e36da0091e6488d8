/** One log row as a run of bytes (header, then payload) and the row operations of the library
    as functions on those bytes. Padding is never written, so reused rows keep stale bytes. */
module Rows {
  import opened Bits
  import opened Bytes
  import opened Options
  import opened Records
  import opened Timestamps

  // struct log2mem_row: tid, four bytes of padding, ts, id, datalen
  const ROW_HDR: nat := 24
  const TID: nat := 0
  const TS: nat := 8
  const ID: nat := 16
  const DATALEN: nat := 20

  const MEMLOG_FILELINE: nat := 1
  const MEMLOG_THREADID: nat := 2
  const CLOCKSOURCE_MASK: nat := 0x0C

  predicate WantsLocation(options: nat) {
    And(options, MEMLOG_FILELINE) != 0
  }

  predicate WantsTid(options: nat) {
    And(options, MEMLOG_THREADID) != 0
  }

  function ClockSource(options: nat): nat {
    And(options, CLOCKSOURCE_MASK)
  }

  /** The options, bit by bit: 1 for file and line, 2 for the thread id, 4 and 8 for the clock. */
  lemma OptionBits(options: nat)
    ensures WantsLocation(options) <==> options % 2 == 1
    ensures WantsTid(options) <==> options / 2 % 2 == 1
    ensures ClockSource(options) == 4 * (options / 4 % 4)
  {
    AndOdd(options, 0);
    AndDoubled(options, 1);
    AndOdd(options / 2, 0);
    AndDoubled(options, 6);
    AndDoubled(options / 2, 3);
    assert Pow2(2) == 4;
    MaskIsMod(options / 2 / 2, 2);
    assert options / 2 / 2 == options / 4;
  }

  /** The bytes of one row, stale or not; row_len is below 2^31. */
  ghost predicate IsRow(row: seq<byte>) {
    ROW_HDR <= |row| < ROW_HDR + 0x8000_0000
  }

  /** The payload space, row_len. */
  function Cap(row: seq<byte>): nat
    requires ROW_HDR <= |row|
  {
    |row| - ROW_HDR
  }

  function Datalen(row: seq<byte>): nat
    requires ROW_HDR <= |row|
  {
    Load(row, DATALEN, 4)
  }

  function SetDatalen(row: seq<byte>, v: nat): (r: seq<byte>)
    requires ROW_HDR <= |row|
    ensures |r| == |row|
  {
    Store(row, DATALEN, Encode(v, 4))
  }

  /** The type, length and data stores of one record whose header is at offset p. */
  function PutRec(row: seq<byte>, p: nat, r: Rec): (s: seq<byte>)
    requires p + Size(r) <= |row|
    ensures |s| == |row|
  {
    Store(Store(Store(row, p, [r.ty]), p + 4, Encode(Size(r), 4)), p + DATA_HDR, r.data)
  }

  /** __log2mem_push and __log2mem_push_str: append the record if it fits what remains, else change nothing. */
  function Push(row: seq<byte>, r: Rec): (s: seq<byte>)
    requires ROW_HDR <= |row|
    ensures |s| == |row|
  {
    if Size(r) <= Cap(row) - Datalen(row) then
      SetDatalen(PutRec(row, ROW_HDR + Datalen(row), r), Datalen(row) + Size(r))
    else
      row
  }

  function PushAll(row: seq<byte>, items: seq<Item>): (s: seq<byte>)
    requires ROW_HDR <= |row|
    ensures |s| == |row|
    decreases |items|
  {
    if items == [] then row else PushAll(Push(row, RecOf(items[0])), items[1..])
  }

  // ----------------------------------------------------------- walking the records

  /** Following the stored lengths from offset i lands exactly on e. */
  ghost predicate Chain(row: seq<byte>, i: nat, e: nat)
    decreases e - i
  {
    i <= e <= |row| &&
    (i < e ==>
      i + DATA_HDR <= e &&
      var len := Load(row, i + 4, 4);
      DATA_HDR <= len && i + len <= e && Chain(row, i + len, e))
  }

  /** The records met on that walk. */
  ghost function RecsFrom(row: seq<byte>, i: nat, e: nat): seq<Rec>
    requires Chain(row, i, e)
    decreases e - i
  {
    if i == e then []
    else
      var len := Load(row, i + 4, 4);
      [Rec(row[i], row[i + DATA_HDR..i + len])] + RecsFrom(row, i + len, e)
  }

  lemma {:induction false} ChainFrame(row: seq<byte>, row': seq<byte>, i: nat, e: nat)
    requires Chain(row, i, e) && |row'| == |row|
    requires forall k :: i <= k < e ==> row'[k] == row[k]
    ensures Chain(row', i, e) && RecsFrom(row', i, e) == RecsFrom(row, i, e)
    decreases e - i
  {
    hide Load;
    if i == e {
    } else {
      var len := Load(row, i + 4, 4);
      LoadSame(row, row', i + 4, 4);
      SliceSame(row, row', i + DATA_HDR, i + len);
      ChainFrame(row, row', i + len, e);
    }
  }

  lemma SliceSame(row: seq<byte>, row': seq<byte>, a: nat, b: nat)
    requires a <= b <= |row| == |row'| && forall k :: a <= k < b ==> row'[k] == row[k]
    ensures row'[a..b] == row[a..b]
  {
  }

  lemma LoadSame(row: seq<byte>, row': seq<byte>, off: nat, n: nat)
    requires off + n <= |row| == |row'| && forall k :: off <= k < off + n ==> row'[k] == row[k]
    ensures Load(row', off, n) == Load(row, off, n)
  {
    SliceSame(row, row', off, off + n);
  }

  lemma {:induction false} ChainSnoc(row: seq<byte>, i: nat, e: nat, len: nat)
    requires Chain(row, i, e) && DATA_HDR <= len && e + len <= |row|
    requires Load(row, e + 4, 4) == len
    ensures Chain(row, i, e + len)
    ensures RecsFrom(row, i, e + len) == RecsFrom(row, i, e) + [Rec(row[e], row[e + DATA_HDR..e + len])]
    decreases e - i
  {
    hide Load;
    if i == e {
      assert Chain(row, e + len, e + len);
      assert RecsFrom(row, e, e + len) == [Rec(row[e], row[e + DATA_HDR..e + len])] + RecsFrom(row, e + len, e + len);
    } else {
      ChainSnoc(row, i + Load(row, i + 4, 4), e, len);
    }
  }

  /** The row's payload decodes to exactly these items, and datalen is the space they use. */
  ghost predicate Holds(row: seq<byte>, items: seq<Item>) {
    IsRow(row) && Datalen(row) == Used(items) &&
    Chain(row, ROW_HDR, ROW_HDR + Datalen(row)) &&
    RecsFrom(row, ROW_HDR, ROW_HDR + Datalen(row)) == RecsOf(items)
  }

  lemma SetDatalenReads(row: seq<byte>, v: nat)
    requires ROW_HDR <= |row| && v < U32
    ensures Datalen(SetDatalen(row, v)) == v
    ensures forall k :: 0 <= k < |row| && !(DATALEN <= k < ROW_HDR) ==> SetDatalen(row, v)[k] == row[k]
  {
    RangeOfWords();
    LoadStored(row, DATALEN, v, 4);
  }

  lemma PutRecReads(row: seq<byte>, p: nat, r: Rec)
    requires ROW_HDR <= p && p + Size(r) <= |row| && Size(r) < U32
    ensures var s := PutRec(row, p, r);
      && s[p] == r.ty && Load(s, p + 4, 4) == Size(r) && s[p + DATA_HDR..p + Size(r)] == r.data
      && (forall k :: 0 <= k < |row| && !(p <= k < p + Size(r)) ==> s[k] == row[k])
  {
    RangeOfWords();
    var a := Store(row, p, [r.ty]);
    LoadStored(a, p + 4, Size(r), 4);
    LoadElsewhere(Store(a, p + 4, Encode(Size(r), 4)), p + DATA_HDR, r.data, p + 4, 4);
  }

  /** The stores of an accepted append: datalen grows by the record, which now sits where datalen was. */
  lemma PushWrites(row: seq<byte>, r: Rec)
    requires IsRow(row) && Size(r) <= Cap(row) - Datalen(row)
    ensures var s, p := Push(row, r), ROW_HDR + Datalen(row);
      && Datalen(s) == Datalen(row) + Size(r)
      && s[p] == r.ty && Load(s, p + 4, 4) == Size(r) && s[p + DATA_HDR..p + Size(r)] == r.data
      && (forall k :: ROW_HDR <= k < p ==> s[k] == row[k])
  {
    hide PutRec, SetDatalen, Datalen, Encode, Decode;
    var p := ROW_HDR + Datalen(row);
    var a := PutRec(row, p, r);
    PutRecReads(row, p, r);
    var b := SetDatalen(a, Datalen(row) + Size(r));
    SetDatalenReads(a, Datalen(row) + Size(r));
    assert b[p + 4..p + 8] == a[p + 4..p + 8];
    assert b[p + 8..p + Size(r)] == a[p + 8..p + Size(r)];
  }

  /** An accepted append adds one record behind the others; a rejected one changes nothing. */
  lemma PushHolds(row: seq<byte>, items: seq<Item>, it: Item)
    requires Holds(row, items)
    ensures Holds(Push(row, RecOf(it)), KeepOne(Cap(row), items, it))
  {
    var r, at := RecOf(it), Datalen(row);
    if Size(r) <= Cap(row) - at {
      PushWrites(row, r);
      HoldsOneMore(row, Push(row, r), items, it);
    }
  }

  lemma HoldsOneMore(row: seq<byte>, s: seq<byte>, items: seq<Item>, it: Item)
    requires Holds(row, items) && |s| == |row| && Size(RecOf(it)) <= Cap(row) - Datalen(row)
    requires var p, r := ROW_HDR + Datalen(row), RecOf(it);
      && Datalen(s) == Datalen(row) + Size(r)
      && s[p] == r.ty && Load(s, p + 4, 4) == Size(r) && s[p + DATA_HDR..p + Size(r)] == r.data
      && (forall k :: ROW_HDR <= k < p ==> s[k] == row[k])
    ensures Holds(s, items + [it])
  {
    hide Payload, TypeCode, Used, Load, Chain, RecsFrom;
    var p, r := ROW_HDR + Datalen(row), RecOf(it);
    UsedSnoc(items, it);
    ChainFrame(row, s, ROW_HDR, p);
    ChainSnoc(s, ROW_HDR, p, Size(r));
    assert RecsOf(items + [it]) == RecsOf(items) + [r];
  }

  lemma {:induction false} PushAllHolds(row: seq<byte>, kept: seq<Item>, items: seq<Item>)
    requires Holds(row, kept)
    ensures Holds(PushAll(row, items), KeepAll(Cap(row), kept, items))
    decreases |items|
  {
    hide Holds, Push, KeepOne, Used, RecOf;
    if items == [] {
    } else {
      PushHolds(row, kept, items[0]);
      PushAllHolds(Push(row, RecOf(items[0])), KeepOne(Cap(row), kept, items[0]), items[1..]);
    }
  }

  lemma EmptyHolds(row: seq<byte>)
    requires IsRow(row) && Datalen(row) == 0
    ensures Holds(row, [])
  {
  }

  /** Whatever a slot held before: emptying it and appending leaves, for a walk by stored lengths,
      exactly the greedily accepted items, and the walk ends exactly at datalen. */
  lemma RoundTrip(stale: seq<byte>, items: seq<Item>)
    requires IsRow(stale)
    ensures var row := PushAll(SetDatalen(stale, 0), items);
      && Chain(row, ROW_HDR, ROW_HDR + Datalen(row))
      && RecsFrom(row, ROW_HDR, ROW_HDR + Datalen(row)) == RecsOf(KeepAll(Cap(stale), [], items))
      && Datalen(row) == Used(KeepAll(Cap(stale), [], items)) <= Cap(stale)
  {
    SetDatalenReads(stale, 0);
    EmptyHolds(SetDatalen(stale, 0));
    PushAllHolds(SetDatalen(stale, 0), [], items);
  }

  /** Appends leave the row's header words (tid, ts, id) alone. */
  lemma PushKeepsHeader(row: seq<byte>, r: Rec)
    requires IsRow(row)
    ensures forall k :: 0 <= k < DATALEN ==> Push(row, r)[k] == row[k]
  {
  }

  // ------------------------------------------------------------- opening a row

  /** Where the call was made from: a file name (null when None) and a line. */
  datatype Location = Location(file: seq<byte>, line: int32)

  /** How a row comes into being: log2mem_get_row (also behind log2mem_write), or log2mem_time_event4. */
  datatype Opening = GetRow(loc: Option<Location>) | TimeEvent(e: Event)

  /** One ticket's opening call with what the environment supplies: thread id and clock readings. */
  datatype Job = Job(tid: int32, clock: Clock, how: Opening)

  /** The stamp of a row at its opening, if the options name a clock source. */
  function JobTs(options: nat, job: Job): uint64 {
    Stamp(ClockSource(options), job.clock)
  }

  /** The mask leaves no clock source, or one of the three. */
  lemma ClockSources(options: nat)
    ensures ClockSource(options) in {0, GETTIMEOFDAY, CLOCKGETTIME, RDTSC}
  {
    OptionBits(options);
  }

  /** Arguments of log2mem_time_event4; the string is absent when null or when len <= 0. */
  datatype Event = Event(flowid: int32, msgref: int32, str: Option<seq<byte>>) {
    predicate HasStr() {
      str.Some? && |str.value| > 0
    }

    function Items(): seq<Item> {
      [Int(flowid), Int(msgref)] + (if HasStr() then [Str(str.value)] else [])
    }

    /** len_needed of the source. */
    function Needed(): nat {
      2 * DATA_HDR + 2 * 4 + (if HasStr() then DATA_HDR + |str.value| + 1 else 0)
    }
  }

  function HeaderSet(options: nat, id: uint32, job: Job, row: seq<byte>): (s: seq<byte>)
    requires ROW_HDR <= |row|
    ensures |s| == |row|
  {
    var a := if WantsTid(options) then Store(row, TID, Encode(IntBits(job.tid), 4)) else row;
    var b := if ClockSource(options) != 0 then Store(a, TS, Encode(JobTs(options, job), 8)) else a;
    SetDatalen(Store(b, ID, Encode(id, 4)), 0)
  }

  /** The records that row initialisation itself pushes; log2mem_time_event4 passes no file name. */
  function LocationItems(options: nat, job: Job): seq<Item> {
    if WantsLocation(options) && job.how.GetRow? && job.how.loc.Some? then
      [FileName(job.how.loc.value.file), LineNo(job.how.loc.value.line)]
    else []
  }

  /** __log2mem_init_row on the slot's previous bytes. */
  function OpenRow(options: nat, id: uint32, job: Job, row: seq<byte>): (s: seq<byte>)
    requires ROW_HDR <= |row|
    ensures |s| == |row|
  {
    PushAll(HeaderSet(options, id, job, row), LocationItems(options, job))
  }

  /** The hand-unrolled body of log2mem_time_event4: it writes from payload offset 0. */
  function FastPath(row: seq<byte>, e: Event): (s: seq<byte>)
    requires ROW_HDR <= |row|
    ensures |s| == |row|
  {
    if e.Needed() <= Cap(row) - Datalen(row) then
      var a := PutRec(row, ROW_HDR, RecOf(Int(e.flowid)));
      var b := PutRec(a, ROW_HDR + 12, RecOf(Int(e.msgref)));
      var c := if e.HasStr() then PutRec(b, ROW_HDR + 24, RecOf(Str(e.str.value))) else b;
      SetDatalen(c, Datalen(row) + e.Needed())
    else row
  }

  lemma EventSizes(e: Event)
    ensures e.Needed() == Used(e.Items())
    ensures Used([Int(e.flowid)]) == 12 && Used([Int(e.flowid), Int(e.msgref)]) == 24
  {
    var i1, i2 := Int(e.flowid), Int(e.msgref);
    assert Used([]) == 0;
    UsedSnoc([], i1);
    assert [] + [i1] == [i1];
    UsedSnoc([i1], i2);
    assert [i1] + [i2] == [i1, i2];
    if e.HasStr() {
      UsedSnoc([i1, i2], Str(e.str.value));
    } else {
      assert e.Items() == [i1, i2];
    }
  }

  /** Updating datalen and writing a record behind it do not interfere. */
  lemma DatalenCommutes(row: seq<byte>, v: nat, w: nat, p: nat, r: Rec)
    requires ROW_HDR <= p && p + Size(r) <= |row|
    ensures SetDatalen(PutRec(SetDatalen(row, v), p, r), w) == SetDatalen(PutRec(row, p, r), w)
  {
  }

  /** An accepted append behind v payload bytes, when datalen has just been set to v. */
  lemma PushBehind(row: seq<byte>, v: nat, r: Rec)
    requires IsRow(row) && v + Size(r) <= Cap(row)
    ensures Push(SetDatalen(row, v), r) == SetDatalen(PutRec(row, ROW_HDR + v, r), v + Size(r))
  {
    SetDatalenReads(row, v);
    DatalenCommutes(row, v, v + Size(r), ROW_HDR + v, r);
    hide Datalen, PutRec, SetDatalen;
  }

  lemma PushFirst(row: seq<byte>, r: Rec)
    requires IsRow(row) && Datalen(row) == 0 && Size(r) <= Cap(row)
    ensures Push(row, r) == SetDatalen(PutRec(row, ROW_HDR, r), Size(r))
  {
  }

  /** On an empty row the fast path is, byte for byte, the appends of both ints and of a string that is
      given and not empty, when all of them fit; otherwise the row stays empty. */
  lemma FastPathIsAppends(row: seq<byte>, flowid: int32, msgref: int32, str: Option<seq<byte>>)
    requires IsRow(row) && Datalen(row) == 0
    ensures var items := [Int(flowid), Int(msgref)] + (if str.Some? && |str.value| > 0 then [Str(str.value)] else []);
      && Used(items) == 24 + (if str.Some? && |str.value| > 0 then 9 + |str.value| else 0)
      && FastPath(row, Event(flowid, msgref, str)) == if Used(items) <= |row| - 24 then PushAll(row, items) else row
  {
    hide Used, FastPath, PushAll, Datalen;
    var e := Event(flowid, msgref, str);
    EventSizes(e);
    FastPathPushes(row, e);
  }

  lemma FastPathPushes(row: seq<byte>, e: Event)
    requires IsRow(row) && Datalen(row) == 0
    ensures e.Needed() <= Cap(row) ==> FastPath(row, e) == PushAll(row, e.Items())
    ensures e.Needed() > Cap(row) ==> FastPath(row, e) == row
  {
    if e.Needed() <= Cap(row) {
      var i1, i2 := Int(e.flowid), Int(e.msgref);
      hide Datalen, PutRec, SetDatalen, RecOf, Push, PushAll;
      FastPathHead(row, i1, i2);
      PushTwo(row, i1, i2);
      if e.HasStr() {
        var i3 := Str(e.str.value);
        StrSize(e.str.value);
        PushBehind(PutRec(PutRec(row, ROW_HDR, RecOf(i1)), ROW_HDR + 12, RecOf(i2)), 24, RecOf(i3));
        PushThree(row, i1, i2, i3);
      } else {
        assert e.Items() == [i1, i2];
      }
    }
  }

  /** The two ints of the fast path. */
  lemma FastPathHead(row: seq<byte>, i1: Item, i2: Item)
    requires IsRow(row) && Datalen(row) == 0 && i1.Int? && i2.Int? && 24 <= Cap(row)
    ensures Size(RecOf(i1)) == Size(RecOf(i2)) == 12
    ensures Push(Push(row, RecOf(i1)), RecOf(i2))
         == SetDatalen(PutRec(PutRec(row, ROW_HDR, RecOf(i1)), ROW_HDR + 12, RecOf(i2)), 24)
  {
    assert Size(RecOf(i1)) == Size(RecOf(i2)) == 12;
    hide Datalen, PutRec, SetDatalen, RecOf, Push;
    PushFirst(row, RecOf(i1));
    PushBehind(PutRec(row, ROW_HDR, RecOf(i1)), 12, RecOf(i2));
  }

  lemma StrSize(s: seq<byte>)
    ensures Size(RecOf(Str(s))) == DATA_HDR + |s| + 1
  {
  }

  lemma {:induction false} PushAllConcat(row: seq<byte>, a: seq<Item>, b: seq<Item>)
    requires ROW_HDR <= |row|
    ensures PushAll(row, a + b) == PushAll(PushAll(row, a), b)
    decreases |a|
  {
    hide Push, RecOf;
    if a == [] {
      assert a + b == b;
    } else {
      assert (a + b)[1..] == a[1..] + b;
      PushAllConcat(Push(row, RecOf(a[0])), a[1..], b);
    }
  }

  lemma PushOne(row: seq<byte>, it: Item)
    requires ROW_HDR <= |row|
    ensures PushAll(row, [it]) == Push(row, RecOf(it))
  {
    hide Push, RecOf;
    assert PushAll(row, [it]) == PushAll(Push(row, RecOf(it)), []);
  }

  lemma PushTwo(row: seq<byte>, i: Item, j: Item)
    requires ROW_HDR <= |row|
    ensures PushAll(row, [i, j]) == Push(Push(row, RecOf(i)), RecOf(j))
  {
    hide Push, RecOf, PushAll;
    PushAllConcat(row, [i], [j]);
    assert [i] + [j] == [i, j];
    PushOne(row, i);
    PushOne(Push(row, RecOf(i)), j);
  }

  lemma PushThree(row: seq<byte>, i: Item, j: Item, k: Item)
    requires ROW_HDR <= |row|
    ensures PushAll(row, [i, j] + [k]) == Push(Push(Push(row, RecOf(i)), RecOf(j)), RecOf(k))
  {
    hide Push, RecOf, PushAll;
    PushAllConcat(row, [i, j], [k]);
    PushTwo(row, i, j);
    PushOne(Push(Push(row, RecOf(i)), RecOf(j)), k);
  }

  // ------------------------------------------------------------ the whole life of a row

  /** A later call through the row pointer. */
  datatype Call = Append(it: Item) | SetTs(ts: uint64)

  function DoCall(row: seq<byte>, c: Call): (s: seq<byte>)
    requires ROW_HDR <= |row|
    ensures |s| == |row|
  {
    match c
    case Append(it) => Push(row, RecOf(it))
    case SetTs(ts) => Store(row, TS, Encode(ts, 8))
  }

  function DoCalls(row: seq<byte>, calls: seq<Call>): (s: seq<byte>)
    requires ROW_HDR <= |row|
    ensures |s| == |row|
    decreases |calls|
  {
    if calls == [] then row else DoCalls(DoCall(row, calls[0]), calls[1..])
  }

  lemma {:induction false} DoCallsSnoc(row: seq<byte>, calls: seq<Call>, c: Call)
    requires ROW_HDR <= |row|
    ensures DoCalls(row, calls + [c]) == DoCall(DoCalls(row, calls), c)
    decreases |calls|
  {
    hide DoCall;
    if calls == [] {
      assert calls + [c] == [c];
      assert DoCalls(row, [c]) == DoCalls(DoCall(row, c), []);
    } else {
      assert (calls + [c])[1..] == calls[1..] + [c];
      DoCallsSnoc(DoCall(row, calls[0]), calls[1..], c);
    }
  }

  /** The slot's bytes after the opening call. */
  function StartRow(options: nat, id: uint32, job: Job, row: seq<byte>): (s: seq<byte>)
    requires ROW_HDR <= |row|
    ensures |s| == |row|
  {
    var o := OpenRow(options, id, job, row);
    if job.how.TimeEvent? then FastPath(o, job.how.e) else o
  }

  /** The slot's bytes after the opening call and all later calls of one ticket. */
  function RowAfter(options: nat, id: uint32, job: Job, calls: seq<Call>, row: seq<byte>): (s: seq<byte>)
    requires ROW_HDR <= |row|
    ensures |s| == |row|
  {
    DoCalls(StartRow(options, id, job, row), calls)
  }

  /** The items the opening call leaves in a row of `cap` payload bytes; the fast path is all or nothing. */
  function StartItems(cap: nat, options: nat, job: Job): seq<Item> {
    match job.how
    case GetRow(_) => KeepAll(cap, [], LocationItems(options, job))
    case TimeEvent(e) => if Used(e.Items()) <= cap then e.Items() else []
  }

  function Appended(calls: seq<Call>): seq<Item> {
    if calls == [] then []
    else (if calls[0].Append? then [calls[0].it] else []) + Appended(calls[1..])
  }

  /** The accepted items of a ticket, in order. */
  function RowItems(cap: nat, options: nat, job: Job, calls: seq<Call>): seq<Item> {
    KeepAll(cap, StartItems(cap, options, job), Appended(calls))
  }

  /** The time stamp a ticket ends with: the last log2mem_set_ts, else the clock reading. */
  function FinalTs(ts: uint64, calls: seq<Call>): uint64
    decreases |calls|
  {
    if calls == [] then ts
    else FinalTs(if calls[0].SetTs? then calls[0].ts else ts, calls[1..])
  }

  /** The stamp last set, if any. */
  function LastSet(calls: seq<Call>): Option<uint64> {
    if calls == [] then None
    else if LastSet(calls[1..]).Some? then LastSet(calls[1..])
    else if calls[0].SetTs? then Some(calls[0].ts)
    else None
  }

  lemma {:induction false} FinalTsIs(ts: uint64, calls: seq<Call>)
    ensures FinalTs(ts, calls) == if LastSet(calls).Some? then LastSet(calls).value else ts
    decreases |calls|
  {
    if calls == [] {
    } else {
      FinalTsIs(if calls[0].SetTs? then calls[0].ts else ts, calls[1..]);
    }
  }

  /** The header words of a row, as far as the options cause them to be written. */
  ghost predicate HasHeader(options: nat, row: seq<byte>, id: uint32, tid: int32, ts: uint64) {
    IsRow(row) &&
    Load(row, ID, 4) == id &&
    (WantsTid(options) ==> Load(row, TID, 4) == IntBits(tid)) &&
    (ClockSource(options) != 0 ==> Load(row, TS, 8) == ts)
  }

  lemma HeaderSetReads(options: nat, id: uint32, job: Job, row: seq<byte>)
    requires IsRow(row)
    ensures Datalen(HeaderSet(options, id, job, row)) == 0
    ensures HasHeader(options, HeaderSet(options, id, job, row), id, job.tid, JobTs(options, job))
  {
    hide And, Encode, Decode;
    RangeOfWords();
    var a := if WantsTid(options) then Store(row, TID, Encode(IntBits(job.tid), 4)) else row;
    LoadStored(row, TID, IntBits(job.tid), 4);
    var b := if ClockSource(options) != 0 then Store(a, TS, Encode(JobTs(options, job), 8)) else a;
    LoadStored(a, TS, JobTs(options, job), 8);
    LoadElsewhere(a, TS, Encode(JobTs(options, job), 8), TID, 4);
    var c := Store(b, ID, Encode(id, 4));
    LoadStored(b, ID, id, 4);
    LoadElsewhere(b, ID, Encode(id, 4), TID, 4);
    LoadElsewhere(b, ID, Encode(id, 4), TS, 8);
    LoadStored(c, DATALEN, 0, 4);
    LoadElsewhere(c, DATALEN, Encode(0, 4), TID, 4);
    LoadElsewhere(c, DATALEN, Encode(0, 4), TS, 8);
    LoadElsewhere(c, DATALEN, Encode(0, 4), ID, 4);
  }

  lemma HeaderIgnoresOpening(options: nat, id: uint32, job: Job, job': Job, row: seq<byte>)
    requires ROW_HDR <= |row| && job.tid == job'.tid && job.clock == job'.clock
    ensures HeaderSet(options, id, job, row) == HeaderSet(options, id, job', row)
  {
  }

  lemma HeaderFrame(options: nat, row: seq<byte>, s: seq<byte>, id: uint32, tid: int32, ts: uint64)
    requires HasHeader(options, row, id, tid, ts) && |s| == |row|
    requires forall k :: 0 <= k < DATALEN ==> s[k] == row[k]
    ensures HasHeader(options, s, id, tid, ts)
  {
    hide And, Decode;
    assert s[TID..TID + 4] == row[TID..TID + 4];
    assert s[TS..TS + 8] == row[TS..TS + 8];
    assert s[ID..ID + 4] == row[ID..ID + 4];
  }

  lemma {:induction false} PushAllKeepsHeader(row: seq<byte>, items: seq<Item>)
    requires IsRow(row)
    ensures forall k :: 0 <= k < DATALEN ==> PushAll(row, items)[k] == row[k]
    decreases |items|
  {
    hide Push, RecOf;
    if items == [] {
    } else {
      PushKeepsHeader(row, RecOf(items[0]));
      PushAllKeepsHeader(Push(row, RecOf(items[0])), items[1..]);
    }
  }

  /** What the opening call leaves, whatever the slot held before. */
  lemma StartFacts(options: nat, id: uint32, job: Job, row: seq<byte>)
    requires IsRow(row)
    ensures var s := StartRow(options, id, job, row);
      Holds(s, StartItems(Cap(row), options, job)) && HasHeader(options, s, id, job.tid, JobTs(options, job))
  {
    hide HeaderSet, Holds, HasHeader, FastPath, Used, KeepAll, PushAll, And;
    var h := HeaderSet(options, id, job, row);
    HeaderSetReads(options, id, job, row);
    EmptyHolds(h);
    match job.how
    case GetRow(_) =>
      var items := LocationItems(options, job);
      PushAllHolds(h, [], items);
      PushAllKeepsHeader(h, items);
      HeaderFrame(options, h, PushAll(h, items), id, job.tid, JobTs(options, job));
    case TimeEvent(e) =>
      assert PushAll(h, []) == h by { PushAllNil(h); }
      FastPathPushes(h, e);
      EventSizes(e);
      if e.Needed() <= Cap(h) {
        PushAllHolds(h, [], e.Items());
        assert [] + e.Items() == e.Items();
        KeepAllWhenFitting(Cap(h), [], e.Items());
        PushAllKeepsHeader(h, e.Items());
        HeaderFrame(options, h, PushAll(h, e.Items()), id, job.tid, JobTs(options, job));
      }
  }

  /** A row just opened over stale bytes, in numbers: the id always; the thread id and a stamp of the
      chosen clock if the options ask for them, and the stale bytes else; and these records. */
  ghost predicate OpenedAs(options: nat, id: uint32, tid: int32, c: Clock, stale: seq<byte>, row: seq<byte>,
                           items: seq<Item>) {
    && |row| == |stale| && 24 <= |row| && Holds(row, items)
    && Load(row, 16, 4) == id
    && (if options / 2 % 2 == 1 then Load(row, 0, 4) == tid % 0x1_0000_0000 else row[0..4] == stale[0..4])
    && (options / 4 % 4 == 0 ==> row[8..16] == stale[8..16])
    && (options / 4 % 4 == 1 ==> Load(row, 8, 8) == c.sec * 0x4000_0000 + c.usec * 1000)
    && (options / 4 % 4 == 2 ==> Load(row, 8, 8) == c.sec * 0x4000_0000 + c.nsec)
    && (options / 4 % 4 == 3 ==> Load(row, 8, 8) == c.tsc)
  }

  /** log2mem_get_row records file name and line if option bit 0 is set and a file name is given, each
      if it fits; log2mem_time_event4 its ints and a non-empty string, all or nothing. */
  lemma OpenedRow(options: nat, id: uint32, job: Job, row: seq<byte>)
    requires IsRow(row)
    ensures job.how.GetRow? ==> var loc := job.how.loc;
      OpenedAs(options, id, job.tid, job.clock, row, StartRow(options, id, job, row),
        if options % 2 == 1 && loc.Some?
        then KeepAll(|row| - 24, [], [FileName(loc.value.file), LineNo(loc.value.line)]) else [])
    ensures job.how.TimeEvent? ==> var e := job.how.e;
      var items := [Int(e.flowid), Int(e.msgref)]
        + (if e.str.Some? && |e.str.value| > 0 then [Str(e.str.value)] else []);
      OpenedAs(options, id, job.tid, job.clock, row, StartRow(options, id, job, row),
        if Used(items) <= |row| - 24 then items else [])
  {
    hide Holds, Used, KeepAll, And, Load, StartRow, StartItems, HeaderSet, JobTs, ClockSource, WantsTid;
    StartItemsAre(|row| - 24, options, job);
    StartFacts(options, id, job, row);
    OpenedHeader(options, id, job, row);
  }

  lemma StartItemsAre(cap: nat, options: nat, job: Job)
    ensures job.how.GetRow? ==> var loc := job.how.loc;
      StartItems(cap, options, job) ==
        if options % 2 == 1 && loc.Some?
        then KeepAll(cap, [], [FileName(loc.value.file), LineNo(loc.value.line)]) else []
    ensures job.how.TimeEvent? ==> var e := job.how.e;
      var items := [Int(e.flowid), Int(e.msgref)]
        + (if e.str.Some? && |e.str.value| > 0 then [Str(e.str.value)] else []);
      StartItems(cap, options, job) == if Used(items) <= cap then items else []
  {
    hide KeepAll, Used, And;
    OptionBits(options);
    KeepNothing(cap);
  }

  lemma OpenedHeader(options: nat, id: uint32, job: Job, row: seq<byte>)
    requires IsRow(row)
    ensures var s, c := StartRow(options, id, job, row), job.clock;
      && (if options / 2 % 2 == 1 then Load(s, 0, 4) == job.tid % 0x1_0000_0000 else s[0..4] == row[0..4])
      && Load(s, 16, 4) == id
      && (options / 4 % 4 == 0 ==> s[8..16] == row[8..16])
      && (options / 4 % 4 == 1 ==> Load(s, 8, 8) == c.sec * 0x4000_0000 + c.usec * 1000)
      && (options / 4 % 4 == 2 ==> Load(s, 8, 8) == c.sec * 0x4000_0000 + c.nsec)
      && (options / 4 % 4 == 3 ==> Load(s, 8, 8) == c.tsc)
  {
    hide Holds, And, Load, HeaderSet, StartRow, StartItems, ClockSource, WantsTid, Encode;
    OptionBits(options);
    StartFacts(options, id, job, row);
    StartKeepsHeader(options, id, job, row);
    HeaderStale(options, id, job, row);
    var s, h := StartRow(options, id, job, row), HeaderSet(options, id, job, row);
    SliceSame(h, s, 0, 4);
    SliceSame(h, s, 8, 16);
  }

  lemma KeepNothing(cap: nat)
    ensures KeepAll(cap, [], []) == []
  {
  }

  lemma StartKeepsHeader(options: nat, id: uint32, job: Job, row: seq<byte>)
    requires IsRow(row)
    ensures forall k :: 0 <= k < 20 ==> StartRow(options, id, job, row)[k] == HeaderSet(options, id, job, row)[k]
  {
    hide HeaderSet, PushAll, And, LocationItems, PutRec;
    PushAllKeepsHeader(HeaderSet(options, id, job, row), LocationItems(options, job));
    if job.how.TimeEvent? {
      FastKeepsHeader(OpenRow(options, id, job, row), job.how.e);
    }
  }

  lemma FastKeepsHeader(row: seq<byte>, e: Event)
    requires IsRow(row)
    ensures forall k :: 0 <= k < 20 ==> FastPath(row, e)[k] == row[k]
  {
    hide Encode, Datalen, Payload;
  }

  lemma HeaderStale(options: nat, id: uint32, job: Job, row: seq<byte>)
    requires IsRow(row)
    ensures var h := HeaderSet(options, id, job, row);
      && (!WantsTid(options) ==> h[0..4] == row[0..4])
      && (ClockSource(options) == 0 ==> h[8..16] == row[8..16])
  {
    hide And, Encode;
  }

  /** One append, in numbers: a record of which eight bytes and the data fit what the payload space
      leaves is written behind the others, its type in one byte, three bytes of padding left alone, its
      length in four, then the data; a record that does not fit changes nothing. */
  lemma AppendInBytes(row: seq<byte>, r: Rec)
    requires IsRow(row) && 8 + |r.data| < U32
    ensures var d, s, n := Load(row, 20, 4), Push(row, r), 8 + |r.data|;
      && |s| == |row|
      && (n > |row| - 24 - d ==> s == row)
      && (n <= |row| - 24 - d ==>
           && Load(s, 20, 4) == d + n
           && s[24 + d] == r.ty && Load(s, 28 + d, 4) == n && s[32 + d..24 + d + n] == r.data
           && (forall k :: 25 + d <= k < 28 + d ==> s[k] == row[k])
           && (forall k :: 0 <= k < 20 || 24 <= k < 24 + d || 24 + d + n <= k < |row| ==> s[k] == row[k]))
  {
    hide Encode, Load;
    if Size(r) <= Cap(row) - Datalen(row) {
      PushWrites(row, r);
      PushFrame(row, r);
    }
  }

  lemma PushFrame(row: seq<byte>, r: Rec)
    requires IsRow(row) && Size(r) <= Cap(row) - Datalen(row)
    ensures var s, p := Push(row, r), ROW_HDR + Datalen(row);
      && (forall k :: p < k < p + 4 ==> s[k] == row[k])
      && (forall k :: 0 <= k < DATALEN || ROW_HDR <= k < p || p + Size(r) <= k < |row| ==> s[k] == row[k])
  {
    hide Encode, Datalen;
  }

  lemma PushAllNil(row: seq<byte>)
    requires ROW_HDR <= |row|
    ensures PushAll(row, []) == row
  {
  }

  lemma SetTsReads(options: nat, row: seq<byte>, items: seq<Item>, id: uint32, tid: int32, old_ts: uint64, ts: uint64)
    requires Holds(row, items) && HasHeader(options, row, id, tid, old_ts)
    ensures var s := Store(row, TS, Encode(ts, 8));
      Holds(s, items) && HasHeader(options, s, id, tid, ts)
  {
    hide And, Encode, Decode, Used, RecsOf;
    var b := Encode(ts, 8);
    var s := Store(row, TS, b);
    RangeOfWords();
    LoadStored(row, TS, ts, 8);
    LoadElsewhere(row, TS, b, TID, 4);
    LoadElsewhere(row, TS, b, ID, 4);
    LoadElsewhere(row, TS, b, DATALEN, 4);
    ChainFrame(row, s, ROW_HDR, ROW_HDR + Datalen(row));
  }

  lemma {:induction false} CallsFacts(options: nat, row: seq<byte>, items: seq<Item>, id: uint32, tid: int32,
                                      ts: uint64, calls: seq<Call>)
    requires Holds(row, items) && HasHeader(options, row, id, tid, ts)
    ensures var s := DoCalls(row, calls);
      Holds(s, KeepAll(Cap(row), items, Appended(calls))) && HasHeader(options, s, id, tid, FinalTs(ts, calls))
    decreases |calls|
  {
    hide Holds, HasHeader, Push, KeepOne, RecOf;
    if calls == [] {
    } else {
      var c := calls[0];
      HoldsIsRow(row, items);
      var row' := DoCall(row, c);
      match c
      case Append(it) =>
        PushHolds(row, items, it);
        PushKeepsHeader(row, RecOf(it));
        HeaderFrame(options, row, row', id, tid, ts);
        CallsFacts(options, row', KeepOne(Cap(row), items, it), id, tid, ts, calls[1..]);
        assert Appended(calls) == [it] + Appended(calls[1..]);
        assert Appended(calls)[1..] == Appended(calls[1..]);
      case SetTs(t) =>
        SetTsReads(options, row, items, id, tid, ts, t);
        CallsFacts(options, row', items, id, tid, t, calls[1..]);
        assert Appended(calls) == Appended(calls[1..]);
    }
  }

  lemma HoldsIsRow(row: seq<byte>, items: seq<Item>)
    requires Holds(row, items)
    ensures IsRow(row)
  {
  }

  lemma HoldsFits(row: seq<byte>, items: seq<Item>)
    requires Holds(row, items)
    ensures IsRow(row) && Datalen(row) <= Cap(row)
  {
  }

  /** Every row ends up with its own id, its own tid and time stamp as far as the options write them,
      and exactly its own accepted items, whatever bytes the slot held before. */
  lemma RowFacts(options: nat, id: uint32, job: Job, calls: seq<Call>, stale: seq<byte>)
    requires IsRow(stale)
    ensures var s := RowAfter(options, id, job, calls, stale);
      && Holds(s, RowItems(Cap(stale), options, job, calls))
      && HasHeader(options, s, id, job.tid, FinalTs(JobTs(options, job), calls))
  {
    hide Holds, HasHeader, StartRow, DoCalls, StartItems, FinalTs, KeepAll, Appended;
    StartFacts(options, id, job, stale);
    CallsFacts(options, StartRow(options, id, job, stale), StartItems(Cap(stale), options, job), id, job.tid,
               JobTs(options, job), calls);
  }

  lemma {:induction false} NothingUsed(items: seq<Item>)
    ensures Used(items) == 0 <==> items == []
  {
    if items != [] {
      assert Used(items) >= Size(RecOf(items[|items| - 1])) >= DATA_HDR;
    }
  }
}
