/** `print_rows` as loops over the mapped region: the scan for the lowest row id, the walk over all
    slots from there, and the record loop of each row. */
module Reader {
  import opened Bits
  import opened Bytes
  import opened CStrings
  import opened Records
  import opened Rows
  import opened Slots
  import opened Timestamps
  import opened Printing

  /** A record whose data can be read without leaving it: a number of its type's size, a terminated string. */
  predicate WellTyped(r: Rec) {
    ReadItem(r).Some? && (r.ty == T_FILENAME || r.ty == T_STRING ==> 0 in r.data)
  }

  /** Stored lengths lead from p to e, over well typed records. */
  ghost predicate Walkable(row: seq<byte>, p: nat, e: nat) {
    Chain(row, p, e) && forall r :: r in RecsFrom(row, p, e) ==> WellTyped(r)
  }

  /** A row that the reader can follow. */
  ghost predicate Readable(row: seq<byte>) {
    IsRow(row) && Walkable(row, ROW_HDR, ROW_HDR + Datalen(row))
  }

  /** The line of a row that the reader can follow. */
  ghost function ReadableText(options: nat, f: Format, d: Display, row: seq<byte>): seq<byte>
    requires Readable(row)
  {
    RowText(options, f, d, row)
  }

  lemma WrittenIsWellTyped(it: Item)
    ensures WellTyped(RecOf(it))
  {
    hide Encode, CString;
    ReadBack(it);
    match it
    case FileName(s) => assert (s + [0])[|s|] == 0;
    case Str(s) => assert (s + [0])[|s|] == 0;
    case _ =>
  }

  /** Rows that hold items written by the library are readable. */
  lemma HoldsReadable(row: seq<byte>, items: seq<Item>)
    requires Holds(row, items)
    ensures Readable(row)
  {
    hide RecOf, WellTyped, Used;
    forall r | r in RecsFrom(row, ROW_HDR, ROW_HDR + Datalen(row)) ensures WellTyped(r) {
      var k :| 0 <= k < |items| && r == RecsOf(items)[k];
      WrittenIsWellTyped(items[k]);
    }
  }

  /** printf("%s"): the characters up to the first NUL. */
  method ReadCString(m: seq<byte>, p: nat, ghost e: nat) returns (s: seq<byte>)
    requires p <= e <= |m| && 0 in m[p..e]
    ensures s == CString(m[p..e], 0)
  {
    s := [];
    var i := p;
    while m[i] != 0
      invariant p <= i < e && 0 in m[i..e]
      invariant s + CString(m[i..e], 0) == CString(m[p..e], 0)
      decreases e - i
    {
      assert m[i..e] == [m[i]] + m[i + 1..e];
      assert m[i..e][1..] == m[i + 1..e];
      s := s + [m[i]];
      i := i + 1;
    }
  }

  /** The value of four or eight bytes read as a signed integer. */
  function SignedInt(v: nat): int {
    if v < 0x8000_0000 then v else v - 0x1_0000_0000
  }

  function SignedLong(v: nat): int {
    if v < 0x8000_0000_0000_0000 then v else v - 0x1_0000_0000_0000_0000
  }

  /** A record's data is as long as its type's values are. */
  predicate SizedRecord(row: seq<byte>, p: nat, len: nat) {
    p + 8 <= p + len <= |row| && 1 <= row[p] <= 10 &&
    (row[p] in {3, 4, 7, 10} ==> len == 12) && (row[p] in {5, 6, 8} ==> len == 16) && (row[p] == 9 ==> len == 9)
  }

  /** What is printed for a record at p, type code by type code, from the bytes behind its header. */
  function PrintedRecord(row: seq<byte>, p: nat, len: nat, f: Format, terse: bool): seq<byte>
    requires SizedRecord(row, p, len)
  {
    var ty, text := row[p], row[p + 8..p + len];
    if ty == 1 then (if terse then [] else [40] + CString(text, 0) + [58])
    else if ty == 10 then (if terse then [] else f.dec(SignedInt(Load(row, p + 8, 4))) + [41, 32])
    else if ty == 2 then CString(text, 0)
    else if ty == 3 then f.udec(Load(row, p + 8, 4))
    else if ty == 4 then f.dec(SignedInt(Load(row, p + 8, 4)))
    else if ty == 5 then f.udec(Load(row, p + 8, 8))
    else if ty == 6 then f.dec(SignedLong(Load(row, p + 8, 8)))
    else if ty == 7 then f.float(Load(row, p + 8, 4))
    else if ty == 8 then f.double(Load(row, p + 8, 8))
    else [row[p + 8]]
  }

  lemma RecordSized(row: seq<byte>, p: nat, len: nat)
    requires p + 8 <= p + len <= |row| && WellTyped(Rec(row[p], row[p + 8..p + len]))
    ensures SizedRecord(row, p, len)
  {
    hide CString, Decode;
  }

  lemma RecordPrinted(row: seq<byte>, p: nat, len: nat, f: Format, terse: bool)
    requires p + 8 <= p + len <= |row| && WellTyped(Rec(row[p], row[p + 8..p + len]))
    ensures SizedRecord(row, p, len)
    ensures PrintedRecord(row, p, len, f, terse) == RecText(f, terse, Rec(row[p], row[p + 8..p + len]))
  {
    hide CString, Decode;
    RecordSized(row, p, len);
    DecodeBound(row[p + 8..p + len]);
    RangeOfWords();
  }

  lemma StringTerminated(r: Rec)
    requires WellTyped(r) && (r.ty == 1 || r.ty == 2)
    ensures 0 in r.data
  {
  }

  /** The switch on the record type: what is printed for the record with header at p and stored length len. */
  method ShowRecord(row: seq<byte>, p: nat, len: nat, f: Format, terse: bool) returns (out: seq<byte>)
    requires p + DATA_HDR <= p + len <= |row|
    requires WellTyped(Rec(row[p], row[p + DATA_HDR..p + len]))
    ensures out == RecText(f, terse, Rec(row[p], row[p + DATA_HDR..p + len]))
    ensures SizedRecord(row, p, len) && out == PrintedRecord(row, p, len, f, terse)
  {
    RecordPrinted(row, p, len, f, terse);
    hide CString, Decode, RecText, WellTyped;
    var data := p + DATA_HDR;
    ghost var bytes := row[data..p + len];
    DecodeBound(bytes);
    RangeOfWords();
    out := [];
    var ty := row[p];
    if ty == T_FILENAME || ty == T_STRING { StringTerminated(Rec(ty, bytes)); }
    if ty == T_FILENAME {
      if !terse {
        var s := ReadCString(row, data, p + len);
        out := OPEN_PAREN + s + COLON;
      }
    } else if ty == T_LINENO {
      if !terse {
        var v := ReadWord(row, data, 4);
        out := f.dec(ToS32(v)) + CLOSE_PAREN;
      }
    } else if ty == T_STRING {
      out := ReadCString(row, data, p + len);
    } else if ty == T_UINT {
      var v := ReadWord(row, data, 4);
      out := f.udec(v);
    } else if ty == T_INT {
      var v := ReadWord(row, data, 4);
      out := f.dec(ToS32(v));
    } else if ty == T_ULONG {
      var v := ReadWord(row, data, 8);
      out := f.udec(v);
    } else if ty == T_LONG {
      var v := ReadWord(row, data, 8);
      out := f.dec(ToS64(v));
    } else if ty == T_FLOAT {
      var v := ReadWord(row, data, 4);
      out := f.float(v);
    } else if ty == T_DOUBLE {
      var v := ReadWord(row, data, 8);
      out := f.double(v);
    } else if ty == T_CHAR {
      out := [row[data]];
    }
  }

  /** The walk from p reads one record and goes on behind it. */
  lemma WalkStep(row: seq<byte>, p: nat, e: nat)
    requires Chain(row, p, e) && p < e
    ensures p + DATA_HDR <= e
    ensures var len := Load(row, p + 4, 4);
      && DATA_HDR <= len && p + len <= e && Chain(row, p + len, e)
      && RecsFrom(row, p, e) == [Rec(row[p], row[p + DATA_HDR..p + len])] + RecsFrom(row, p + len, e)
  {
  }

  lemma WalkEnd(row: seq<byte>, e: nat, f: Format, d: Display, want: bool)
    requires Walkable(row, e, e)
    ensures WalkText(row, e, e, f, d, want) == []
  {
  }

  /** The body of the record loop: what it prints for the record at p, and its effect on i and wantdelim. */
  method ShowNext(row: seq<byte>, p: nat, ghost e: nat, f: Format, d: Display, want: bool)
      returns (text: seq<byte>, len: nat, wantdelim: bool)
    requires Walkable(row, p, e) && p < e
    ensures DATA_HDR <= len && p + len <= e && Walkable(row, p + len, e)
    ensures text + WalkText(row, p + len, e, f, d, wantdelim) == WalkText(row, p, e, f, d, want)
  {
    hide Load, WellTyped, RecText, RecsFrom, LoopText;
    assert e <= |row|;
    hide Chain;
    WalkStep(row, p, e);
    len := ReadWord(row, p + 4, 4);
    ghost var rec := Rec(row[p], row[p + DATA_HDR..p + len]);
    ghost var rest := RecsFrom(row, p + len, e);
    LoopTextStep(f, d, rec, rest, want);
    assert rec in RecsFrom(row, p, e);
    text := [];
    wantdelim := want;
    if d.showdelim && wantdelim {
      text := d.delim;
    } else {
      wantdelim := true;
    }
    var shown := ShowRecord(row, p, len, f, d.terse);
    text := text + shown;
    if row[p] == T_FILENAME || row[p] == T_LINENO {
      wantdelim := false;
    }
    assert forall r :: r in rest ==> r in RecsFrom(row, p, e);
  }

  /** The record loop of one row. */
  method ShowRecords(row: seq<byte>, f: Format, d: Display) returns (out: seq<byte>)
    requires Readable(row)
    ensures out == LoopText(f, d, RecsFrom(row, ROW_HDR, ROW_HDR + Datalen(row)), false)
  {
    var datalen := ReadWord(row, DATALEN, 4);
    ghost var e := ROW_HDR + datalen;
    ghost var total := WalkText(row, ROW_HDR, e, f, d, false);
    assert total == LoopText(f, d, RecsFrom(row, ROW_HDR, e), false);
    hide Load, Walkable, WalkText, RecsFrom, LoopText, Chain;
    out := [];
    var i := 0;
    var wantdelim := false;
    while i < datalen
      invariant 0 <= i <= datalen && Walkable(row, ROW_HDR + i, e)
      invariant out + WalkText(row, ROW_HDR + i, e, f, d, wantdelim) == total
      decreases datalen - i
    {
      var text, len;
      ghost var before := out;
      text, len, wantdelim := ShowNext(row, ROW_HDR + i, e, f, d, wantdelim);
      out := out + text;
      i := i + len;
      Associative(before, text, WalkText(row, ROW_HDR + i, e, f, d, wantdelim));
    }
    WalkEnd(row, e, f, d, wantdelim);
  }

  /** What the record loop prints from p on. */
  ghost function WalkText(row: seq<byte>, p: nat, e: nat, f: Format, d: Display, want: bool): seq<byte>
    requires Walkable(row, p, e)
  {
    LoopText(f, d, RecsFrom(row, p, e), want)
  }

  lemma Associative(a: seq<byte>, b: seq<byte>, c: seq<byte>)
    ensures (a + b) + c == a + (b + c)
  {
  }

  /** The clock field of a printed row, from the options' two clock bits and the row's stamp. */
  ghost predicate PrintedClock(options: nat, f: Format, ts: nat, text: seq<byte>) {
    && (options / 4 % 4 == 0 ==> text == [])
    && (options / 4 % 4 == 1 ==> text == f.micros(ts / 0x4000_0000, ts % 0x4000_0000 / 1000))
    && (options / 4 % 4 == 2 ==> text == f.nanos(ts / 0x4000_0000, ts % 0x4000_0000))
    && (options / 4 % 4 == 3 ==> text == f.udec(ts) + [32])
  }

  lemma ClockPrinted(options: nat, f: Format, ts: uint64)
    ensures PrintedClock(options, f, ts, ClockText(options, f, ts))
  {
    hide And, ClockSource, Seconds, Nanos;
    OptionBits(options);
    StampParts(ts);
  }

  /** What is printed for a row, from its bytes: nothing if it holds no records; else its records between
      the header fields, which terse mode leaves out, and a newline. */
  ghost predicate PrintedRow(options: nat, f: Format, d: Display, row: seq<byte>, clock: seq<byte>, out: seq<byte>)
    requires 24 <= |row| && Chain(row, 24, 24 + Load(row, 20, 4))
  {
    var records := LoopText(f, d, RecsFrom(row, 24, 24 + Load(row, 20, 4)), false);
    && PrintedClock(options, f, Load(row, 8, 8), clock)
    && out ==
       if Load(row, 20, 4) == 0 then []
       else PrintedHeader(options, f, d.terse, Load(row, 16, 4), clock, Load(row, 0, 4)) + records + [10]
  }

  /** The header fields, in numbers. */
  function PrintedHeader(options: nat, f: Format, terse: bool, id: nat, clock: seq<byte>, tid: nat): seq<byte> {
    if terse then []
    else f.dec(SignedInt(id)) + [32] + clock
         + (if options / 2 % 2 == 1 then [91] + f.dec(SignedInt(tid)) + [93, 32] else [])
  }

  lemma ReadableChain(row: seq<byte>)
    requires Readable(row)
    ensures ROW_HDR <= |row| && Chain(row, ROW_HDR, ROW_HDR + Datalen(row))
  {
  }

  lemma RowPrinted(options: nat, f: Format, d: Display, row: seq<byte>)
    requires Readable(row)
    ensures ROW_HDR <= |row| && Chain(row, ROW_HDR, ROW_HDR + Datalen(row)) && Load(row, TS, 8) < U64
    ensures PrintedRow(options, f, d, row, ClockText(options, f, Load(row, TS, 8)), ReadableText(options, f, d, row))
  {
    hide Load, LoopText, ClockText, PrintedClock, RecsFrom, Chain, Readable, RowText, PrintedHeader;
    ReadableChain(row);
    RowTextParts(options, f, d, row);
    ClockPrinted(options, f, Load(row, TS, 8));
  }

  lemma RowTextParts(options: nat, f: Format, d: Display, row: seq<byte>)
    requires 24 <= |row| && Chain(row, 24, 24 + Load(row, 20, 4))
    ensures Load(row, 8, 8) < U64
    ensures RowText(options, f, d, row) ==
      if Load(row, 20, 4) == 0 then []
      else PrintedHeader(options, f, d.terse, Load(row, 16, 4), ClockText(options, f, Load(row, 8, 8)), Load(row, 0, 4))
           + LoopText(f, d, RecsFrom(row, 24, 24 + Load(row, 20, 4)), false) + [10]
  {
    WordBounds(row);
    hide Load, HeaderText, PrintedHeader, LoopText, ClockText, Chain, RecsFrom;
    HeaderParts(options, f, d, Load(row, ID, 4), Load(row, TID, 4), ClockText(options, f, Load(row, TS, 8)));
  }

  lemma HeaderParts(options: nat, f: Format, d: Display, id: uint32, tid: uint32, clock: seq<byte>)
    ensures HeaderText(options, f, d, id, ToS32(tid), clock) == PrintedHeader(options, f, d.terse, id, clock, tid)
  {
    hide And, WantsTid;
    OptionBits(options);
  }

  /** The header fields of a row: id, clock and thread id. */
  method ShowHeader(row: seq<byte>, options: nat, f: Format, ghost d: Display) returns (out: seq<byte>)
    requires ROW_HDR <= |row| && !d.terse
    ensures Load(row, ID, 4) < U32 && Load(row, TID, 4) < U32 && Load(row, TS, 8) < U64
    ensures out == HeaderText(options, f, d, Load(row, ID, 4), ToS32(Load(row, TID, 4)),
                              ClockText(options, f, Load(row, TS, 8)))
  {
    hide And, Load;
    WordBounds(row);
    var id := ReadWord(row, ID, 4);
    out := f.dec(ToS32(id)) + BLANK;
    var ts := ReadWord(row, TS, 8);
    var source := ClockSource(options);
    if source == RDTSC {
      out := out + (f.udec(ts) + BLANK);
    } else if source == GETTIMEOFDAY {
      out := out + f.micros(Seconds(ts), Micros(ts));
    } else if source == CLOCKGETTIME {
      out := out + f.nanos(Seconds(ts), Nanos(ts));
    }
    if WantsTid(options) {
      var tid := ReadWord(row, TID, 4);
      out := out + (OPEN_BRACKET + f.dec(ToS32(tid)) + CLOSE_BRACKET);
    }
  }

  /** One iteration of the second loop of print_rows: a line, or nothing for an empty row. */
  method ShowRow(row: seq<byte>, options: nat, f: Format, d: Display) returns (out: seq<byte>)
    requires Readable(row)
    ensures out == ReadableText(options, f, d, row)
    ensures 24 <= |row| && Chain(row, 24, 24 + Load(row, 20, 4))
    ensures exists clock :: PrintedRow(options, f, d, row, clock, out)
  {
    RowPrinted(options, f, d, row);
    ReadableChain(row);
    hide And, Load, WellTyped, LoopText, PrintedRow, ClockText, HeaderText, Readable, RecsFrom, Chain;
    var datalen := ReadWord(row, DATALEN, 4);
    if datalen == 0 { return []; }
    out := [];
    if !d.terse {
      out := ShowHeader(row, options, f, d);
    }
    var records := ShowRecords(row, f, d);
    out := out + records + NEWLINE;
  }

  // -------------------------------------------------------- the walk over the slots

  function IdAt(ring: Ring, mem: seq<byte>, s: nat): nat
    requires ring.Within(mem) && ROW_HDR <= ring.size && s < ring.n
  {
    Load(Slot(ring, mem, s), ID, 4)
  }

  /** The least row id among the first i slots, not above 2^32-1. */
  function LowestId(ring: Ring, mem: seq<byte>, i: nat): (l: uint32)
    requires ring.Within(mem) && ROW_HDR <= ring.size && i <= ring.n
    ensures forall s :: 0 <= s < i ==> l <= IdAt(ring, mem, s)
    ensures l == U32 - 1 || exists s :: 0 <= s < i && l == IdAt(ring, mem, s)
  {
    if i == 0 then U32 - 1
    else
      var l := LowestId(ring, mem, i - 1);
      if IdAt(ring, mem, i - 1) <= l then IdAt(ring, mem, i - 1) else l
  }

  /** The slot visited i steps after the slot of row id `first`. */
  function Visited(ring: Ring, first: uint32, i: nat): nat
    requires ring.n > 0
  {
    SlotOfId(ring, ToU32(first + i))
  }

  /** Whatever the first row id, the walk visits every slot exactly once. */
  lemma VisitsEachSlotOnce(ring: Ring, first: uint32, s: nat)
    requires ring.Valid() && s < ring.n
    ensures exists i: nat :: i < ring.n && Visited(ring, first, i) == s
    ensures forall i: nat, i': nat :: i < i' < ring.n ==> Visited(ring, first, i) != Visited(ring, first, i')
  {
    hide Ring.Valid, SlotOfId;
    ConsecutiveTicketsCover(ring, first, s);
    var j: nat :| first <= j < first + ring.n && SlotOfId(ring, IdOf(j)) == s;
    assert Visited(ring, first, j - first) == s;
    forall i: nat, i': nat | i < i' < ring.n ensures Visited(ring, first, i) != Visited(ring, first, i') {
      assert SlotOfId(ring, IdOf(first + i)) != SlotOfId(ring, IdOf(first + i'));
    }
  }

  ghost predicate AllReadable(ring: Ring, mem: seq<byte>) {
    ring.Valid() && ring.Within(mem) && ROW_HDR <= ring.size && ring.n > 0 &&
    forall s :: 0 <= s < ring.n ==> Readable(Slot(ring, mem, s))
  }

  /** The lines of the first i visited slots. */
  ghost function Listing(ring: Ring, mem: seq<byte>, f: Format, d: Display, first: uint32, i: nat): seq<byte>
    requires AllReadable(ring, mem)
  {
    if i == 0 then []
    else
      MaskedSlot(ring, ToU32(first + (i - 1)));
      Listing(ring, mem, f, d, first, i - 1)
      + ReadableText(ring.options, f, d, Slot(ring, mem, Visited(ring, first, i - 1)))
  }

  /** print_rows. */
  method PrintRows(mem: seq<byte>, ring: Ring, f: Format, d: Display) returns (out: seq<byte>)
    requires AllReadable(ring, mem)
    ensures out == Listing(ring, mem, f, d, LowestId(ring, mem, ring.n), ring.n)
  {
    hide AllReadable, Readable, SlotOfId, ReadableText, ToU32, Slot, Visited, LowestId, Listing;
    ListingNone(ring, mem, f, d, 0);
    var lowest := LowestRowId(mem, ring);
    var next_rowid := lowest;
    SmallWord(lowest);
    ListingNone(ring, mem, f, d, lowest);
    out := [];
    var i := 0;
    while i < ring.n
      invariant 0 <= i <= ring.n && next_rowid == ToU32(lowest + i)
      invariant out == Listing(ring, mem, f, d, lowest, i)
    {
      ListingNext(ring, mem, f, d, lowest, i);
      var rowidx := And(next_rowid, ring.n - 1);
      var line := ShowRow(Slot(ring, mem, rowidx), ring.options, f, d);
      out := out + line;
      NextWord(lowest, i);
      next_rowid := ToU32(next_rowid as int + 1);
      i := i + 1;
    }
  }

  /** The first loop of print_rows: the scan for the lowest row id. */
  method LowestRowId(mem: seq<byte>, ring: Ring) returns (lowest: uint32)
    requires ring.Within(mem) && ROW_HDR <= ring.size
    ensures lowest == LowestId(ring, mem, ring.n)
  {
    hide Load, Slot;
    lowest := 0xFFFF_FFFF;
    var i := 0;
    while i < ring.n
      invariant 0 <= i <= ring.n && lowest == LowestId(ring, mem, i)
    {
      var id := ReadWord(Slot(ring, mem, i), ID, 4);
      if id <= lowest { lowest := id; }
      i := i + 1;
    }
  }

  lemma ListingNone(ring: Ring, mem: seq<byte>, f: Format, d: Display, first: uint32)
    requires AllReadable(ring, mem)
    ensures Listing(ring, mem, f, d, first, 0) == []
    ensures ring.Valid() && ring.Within(mem) && ROW_HDR <= ring.size
  {
  }

  /** The slot visited next, and what its line adds to the listing. */
  lemma ListingNext(ring: Ring, mem: seq<byte>, f: Format, d: Display, first: uint32, i: nat)
    requires AllReadable(ring, mem)
    ensures ring.n > 0
    ensures var s := And(ToU32(first + i), ring.n - 1);
      && s < ring.n && s == Visited(ring, first, i) && ring.Within(mem)
      && Readable(Slot(ring, mem, s))
      && Listing(ring, mem, f, d, first, i + 1)
         == Listing(ring, mem, f, d, first, i) + ReadableText(ring.options, f, d, Slot(ring, mem, s))
  {
    hide Readable, ReadableText, ToU32, Slot, And, Ring.Valid;
    MaskedSlot(ring, ToU32(first + i));
  }

  lemma NextWord(first: uint32, i: nat)
    ensures ToU32(ToU32(first + i) + 1) == ToU32(first + i + 1)
  {
    IdOfNext(first + i);
  }
}
