/** What `print_rows` prints for one row: header fields, then the record loop with its delimiter flag. */
module Printing {
  import opened Bits
  import opened Bytes
  import opened CStrings
  import opened Options
  import opened Records
  import opened Rows
  import opened Timestamps

  /** printf number and time formatting, left open: what `%d`, `%u`, `%f` and the two time formats produce. */
  datatype Format = Format(
    dec: int -> seq<byte>,            // %d, %i, %ld
    udec: nat -> seq<byte>,           // %u, %lu
    float: nat -> seq<byte>,          // %f of a float's bits
    double: nat -> seq<byte>,         // %f of a double's bits
    micros: (nat, nat) -> seq<byte>,  // local time of day with microseconds, and a blank
    nanos: (nat, nat) -> seq<byte>)   // local time of day with nanoseconds, and a blank

  /** g_delim, g_showdelim, g_terse. */
  datatype Display = Display(delim: seq<byte>, showdelim: bool, terse: bool)

  const BLANK: seq<byte> := [32]
  const NEWLINE: seq<byte> := [10]
  const OPEN_PAREN: seq<byte> := [40]
  const COLON: seq<byte> := [58]
  const CLOSE_PAREN: seq<byte> := [41, 32]
  const OPEN_BRACKET: seq<byte> := [91]
  const CLOSE_BRACKET: seq<byte> := [93, 32]

  /** The text of one value. */
  function ItemText(f: Format, terse: bool, it: Item): seq<byte> {
    match it
    case FileName(s) => if terse then [] else OPEN_PAREN + s + COLON
    case LineNo(i) => if terse then [] else f.dec(i) + CLOSE_PAREN
    case Str(s) => s
    case UInt(u) => f.udec(u)
    case Int(i) => f.dec(i)
    case ULong(u) => f.udec(u)
    case Long(l) => f.dec(l)
    case Float(b) => f.float(b)
    case Double(b) => f.double(b)
    case Char(c) => [c]
  }

  function RecText(f: Format, terse: bool, r: Rec): seq<byte> {
    match ReadItem(r)
    case None => []
    case Some(it) => ItemText(f, terse, it)
  }

  predicate IsLocationRec(r: Rec) {
    r.ty == T_FILENAME || r.ty == T_LINENO
  }

  /** What the record loop prints from some point on, given its `wantdelim` flag. */
  function LoopText(f: Format, d: Display, recs: seq<Rec>, wantdelim: bool): seq<byte>
    decreases |recs|
  {
    if recs == [] then []
    else
      (if d.showdelim && wantdelim then d.delim else [])
      + RecText(f, d.terse, recs[0])
      + LoopText(f, d, recs[1..], !IsLocationRec(recs[0]))
  }

  lemma LoopTextStep(f: Format, d: Display, r: Rec, rest: seq<Rec>, wantdelim: bool)
    ensures LoopText(f, d, [r] + rest, wantdelim)
         == (if d.showdelim && wantdelim then d.delim else []) + RecText(f, d.terse, r)
            + LoopText(f, d, rest, !IsLocationRec(r))
  {
    hide RecText;
    assert ([r] + rest)[1..] == rest;
  }

  // -------------------------------------------------------- the loop is a join

  function Texts(f: Format, terse: bool, items: seq<Item>): (ts: seq<seq<byte>>)
    ensures |ts| == |items|
  {
    seq(|items|, k requires 0 <= k < |items| => ItemText(f, terse, Shown(items[k])))
  }

  function Flatten(ts: seq<seq<byte>>): seq<byte> {
    if ts == [] then [] else ts[0] + Flatten(ts[1..])
  }

  function Join(sep: seq<byte>, ts: seq<seq<byte>>): seq<byte> {
    if ts == [] then [] else if |ts| == 1 then ts[0] else ts[0] + sep + Join(sep, ts[1..])
  }

  /** Flatten writes the texts one after the other. */
  lemma {:induction false} FlattenIs(a: seq<seq<byte>>, b: seq<seq<byte>>, t: seq<byte>)
    ensures Flatten([]) == [] && Flatten([t]) == t
    ensures Flatten(a + b) == Flatten(a) + Flatten(b)
    decreases |a|
  {
    assert Flatten([t]) == t + Flatten([]);
    if a == [] {
      assert a + b == b;
    } else {
      assert (a + b)[1..] == a[1..] + b;
      FlattenIs(a[1..], b, t);
    }
  }

  /** Join writes them with the separator between any two neighbours. */
  lemma {:induction false} JoinIs(sep: seq<byte>, a: seq<seq<byte>>, b: seq<seq<byte>>, t: seq<byte>)
    ensures Join(sep, []) == [] && Join(sep, [t]) == t
    ensures a != [] && b != [] ==> Join(sep, a + b) == Join(sep, a) + sep + Join(sep, b)
    decreases |a|
  {
    if a == [] || b == [] {
    } else {
      var rest := a[1..];
      assert a == [a[0]] + rest && a + b == [a[0]] + (rest + b);
      JoinStep(sep, a[0], rest);
      JoinStep(sep, a[0], rest + b);
      if rest == [] { assert rest + b == b; }
      hide Join;
      JoinIs(sep, rest, b, t);
    }
  }

  /** The separator in force: the delimiter, or nothing under -z. */
  function Separator(d: Display): seq<byte> {
    if d.showdelim then d.delim else []
  }

  /** The texts of the leading location records, and the joined texts of the values. */
  function JoinedText(f: Format, d: Display, lead: seq<Item>, vals: seq<Item>): seq<byte> {
    Flatten(Texts(f, d.terse, lead)) + Join(Separator(d), Texts(f, d.terse, vals))
  }

  lemma RecTextOf(f: Format, terse: bool, it: Item)
    ensures RecText(f, terse, RecOf(it)) == ItemText(f, terse, Shown(it))
    ensures IsLocationRec(RecOf(it)) == it.IsLocation()
  {
    hide Payload, ItemText;
    ReadBack(it);
  }

  /** The first item's record and text, and the others'. */
  lemma FirstOfItems(f: Format, terse: bool, items: seq<Item>)
    requires items != []
    ensures RecsOf(items) == [RecOf(items[0])] + RecsOf(items[1..])
    ensures Texts(f, terse, items) == [ItemText(f, terse, Shown(items[0]))] + Texts(f, terse, items[1..])
  {
    hide RecOf, ItemText, Shown;
  }

  lemma JoinStep(sep: seq<byte>, t: seq<byte>, rest: seq<seq<byte>>)
    ensures Join(sep, [t] + rest) == t + (if rest == [] then [] else sep + Join(sep, rest))
  {
    assert ([t] + rest)[1..] == rest;
  }

  lemma {:induction false} ValuesJoined(f: Format, d: Display, vals: seq<Item>, wantdelim: bool)
    requires forall it :: it in vals ==> !it.IsLocation()
    ensures LoopText(f, d, RecsOf(vals), wantdelim)
         == (if vals != [] && wantdelim then Separator(d) else []) + Join(Separator(d), Texts(f, d.terse, vals))
    decreases |vals|
  {
    hide RecOf, RecText, ItemText, Shown, IsLocationRec, Join, RecsOf, Texts;
    if vals == [] {
      NoValues(f, d);
    } else {
      hide LoopText;
      var rest := vals[1..];
      FirstOfItems(f, d.terse, vals);
      RecTextOf(f, d.terse, vals[0]);
      assert vals[0] in vals;
      LoopTextStep(f, d, RecOf(vals[0]), RecsOf(rest), wantdelim);
      JoinStep(Separator(d), ItemText(f, d.terse, Shown(vals[0])), Texts(f, d.terse, rest));
      ValuesJoined(f, d, rest, true);
    }
  }

  lemma NoValues(f: Format, d: Display)
    ensures RecsOf([]) == [] && Texts(f, d.terse, []) == []
    ensures Join(Separator(d), []) == []
  {
  }

  /** The record loop prints the leading location texts and then the values joined by the delimiter. */
  lemma {:induction false} LoopIsJoin(f: Format, d: Display, lead: seq<Item>, vals: seq<Item>)
    requires forall it :: it in lead ==> it.IsLocation()
    requires forall it :: it in vals ==> !it.IsLocation()
    ensures LoopText(f, d, RecsOf(lead + vals), false) == JoinedText(f, d, lead, vals)
    decreases |lead|
  {
    hide RecOf, RecText, ItemText, Join;
    if lead == [] {
      assert lead + vals == vals;
      ValuesJoined(f, d, vals, false);
    } else {
      RecTextOf(f, d.terse, lead[0]);
      assert lead[0] in lead;
      assert RecsOf(lead + vals)[1..] == RecsOf(lead[1..] + vals);
      assert Texts(f, d.terse, lead)[1..] == Texts(f, d.terse, lead[1..]);
      LoopIsJoin(f, d, lead[1..], vals);
    }
  }

  lemma {:induction false} TerseHidesLocation(f: Format, lead: seq<Item>)
    requires forall it :: it in lead ==> it.IsLocation()
    ensures Flatten(Texts(f, true, lead)) == []
    decreases |lead|
  {
    if lead == [] {
    } else {
      assert lead[0] in lead;
      assert Texts(f, true, lead)[1..] == Texts(f, true, lead[1..]);
      TerseHidesLocation(f, lead[1..]);
    }
  }

  // ------------------------------------------------------------ one printed row

  /** The clock field, in the format of the clock source of the options. */
  function ClockText(options: nat, f: Format, ts: uint64): seq<byte> {
    if ClockSource(options) == RDTSC then f.udec(ts) + BLANK
    else if ClockSource(options) == GETTIMEOFDAY then f.micros(Seconds(ts), Micros(ts))
    else if ClockSource(options) == CLOCKGETTIME then f.nanos(Seconds(ts), Nanos(ts))
    else []
  }

  /** The time that was read, in the format of the clock it was read from. */
  function ReadingText(options: nat, f: Format, c: Clock): seq<byte> {
    if ClockSource(options) == RDTSC then f.udec(c.tsc) + BLANK
    else if ClockSource(options) == GETTIMEOFDAY then f.micros(c.sec, c.usec)
    else if ClockSource(options) == CLOCKGETTIME then f.nanos(c.sec, c.nsec)
    else []
  }

  /** A stamp taken from the clock that the options name is shown as the time that was read. */
  lemma ClockShown(options: nat, f: Format, job: Job)
    ensures ClockText(options, f, JobTs(options, job)) == ReadingText(options, f, job.clock)
  {
    hide ClockSource, Seconds, Nanos, Micros;
    TimevalRoundTrip(job.clock.sec, job.clock.usec);
    TimespecRoundTrip(job.clock.sec, job.clock.nsec);
  }

  /** The time shown for a row: the reading at its opening, unless a call has set another stamp. */
  function TimeText(options: nat, f: Format, job: Job, calls: seq<Call>): seq<byte> {
    if LastSet(calls).Some? then ClockText(options, f, LastSet(calls).value) else ReadingText(options, f, job.clock)
  }

  lemma TimeShown(options: nat, f: Format, job: Job, calls: seq<Call>)
    ensures ClockText(options, f, FinalTs(JobTs(options, job), calls)) == TimeText(options, f, job, calls)
  {
    hide ClockText, ReadingText, JobTs;
    FinalTsIs(JobTs(options, job), calls);
    ClockShown(options, f, job);
  }

  /** The fields in front of the records, with the clock field as given; nothing in terse mode. */
  function HeaderText(options: nat, f: Format, d: Display, id: uint32, tid: int32, time: seq<byte>): seq<byte> {
    if d.terse then []
    else
      f.dec(ToS32(id)) + BLANK + time
      + (if WantsTid(options) then OPEN_BRACKET + f.dec(tid) + CLOSE_BRACKET else [])
  }

  /** The line printed for a row's bytes; nothing for an empty row. */
  ghost function RowText(options: nat, f: Format, d: Display, row: seq<byte>): seq<byte>
    requires ROW_HDR <= |row| && Chain(row, ROW_HDR, ROW_HDR + Datalen(row))
  {
    if Datalen(row) == 0 then []
    else
      WordBounds(row);
      HeaderText(options, f, d, Load(row, ID, 4), ToS32(Load(row, TID, 4)), ClockText(options, f, Load(row, TS, 8)))
      + LoopText(f, d, RecsFrom(row, ROW_HDR, ROW_HDR + Datalen(row)), false)
      + NEWLINE
  }

  lemma WordBounds(row: seq<byte>)
    requires ROW_HDR <= |row|
    ensures Load(row, ID, 4) < U32 && Load(row, TID, 4) < U32 && Load(row, TS, 8) < U64 && Load(row, DATALEN, 4) < U32
  {
    hide Decode;
    RangeOfWords();
    DecodeBound(row[ID..ID + 4]);
    DecodeBound(row[TID..TID + 4]);
    DecodeBound(row[TS..TS + 8]);
    DecodeBound(row[DATALEN..DATALEN + 4]);
  }

  /** What is printed for a value: a string to its first NUL, numbers by their printf conversions, a
      character as itself, a file name behind an opening parenthesis, a line number before a closing one. */
  ghost predicate ValueText(f: Format, it: Item, text: seq<byte>) {
    match it
    case FileName(s) => text == [40] + CString(s, 0) + [58]
    case Str(s) => text == CString(s, 0)
    case UInt(u) => text == f.udec(u)
    case Int(i) => text == f.dec(i)
    case ULong(u) => text == f.udec(u)
    case Long(i) => text == f.dec(i)
    case Float(b) => text == f.float(b)
    case Double(b) => text == f.double(b)
    case Char(c) => text == [c]
    case LineNo(i) => text == f.dec(i) + [41, 32]
  }

  ghost predicate TextsOf(f: Format, items: seq<Item>, texts: seq<seq<byte>>) {
    |texts| == |items| && forall k :: 0 <= k < |items| ==> ValueText(f, items[k], texts[k])
  }

  lemma TextsCount(f: Format, items: seq<Item>, texts: seq<seq<byte>>)
    requires TextsOf(f, items, texts)
    ensures |texts| == |items|
  {
  }

  lemma TextsAre(f: Format, terse: bool, items: seq<Item>, texts: seq<seq<byte>>)
    requires TextsOf(f, items, texts)
    requires terse ==> forall it :: it in items ==> !it.IsLocation()
    ensures Texts(f, terse, items) == texts
  {
    forall k | 0 <= k < |items| ensures ItemText(f, terse, Shown(items[k])) == texts[k] {
      assert items[k] in items && ValueText(f, items[k], texts[k]);
    }
  }

  /** The line of a row, part by part: nothing without texts; in terse mode the values with the delimiter
      between them and a newline; else in front of that the id as a signed int, a blank, the clock field,
      the thread id in brackets if option bit 1 is set, and the locations. Without delimiters the values
      are adjacent. */
  function FullLine(options: nat, f: Format, d: Display, id: nat, tid: int, time: seq<byte>,
                    ltexts: seq<seq<byte>>, vtexts: seq<seq<byte>>): seq<byte> {
    var values := Join(if d.showdelim then d.delim else [], vtexts);
    if |ltexts| + |vtexts| == 0 then []
    else if d.terse then values + [10]
    else f.dec(if id < 0x8000_0000 then id else id - 0x1_0000_0000) + [32] + time
         + (if options / 2 % 2 == 1 then [91] + f.dec(tid) + [93, 32] else [])
         + Flatten(ltexts) + values + [10]
  }

  /** The line of a row whose items have these texts. */
  lemma LineInFull(options: nat, f: Format, d: Display, id: uint32, tid: int32, time: seq<byte>,
                   lead: seq<Item>, vals: seq<Item>, ltexts: seq<seq<byte>>, vtexts: seq<seq<byte>>)
    requires TextsOf(f, lead, ltexts) && TextsOf(f, vals, vtexts)
    requires forall it :: it in lead ==> it.IsLocation()
    requires forall it :: it in vals ==> !it.IsLocation()
    ensures LineText(options, f, d, id, tid, time, lead, vals) == FullLine(options, f, d, id, tid, time, ltexts, vtexts)
  {
    hide And, Flatten, Join, Texts, TextsOf, WantsTid;
    OptionBits(options);
    TextsCount(f, lead, ltexts);
    TextsCount(f, vals, vtexts);
    TextsAre(f, d.terse, vals, vtexts);
    if d.terse { TerseHidesLocation(f, lead); } else { TextsAre(f, false, lead, ltexts); }
  }

  /** The clock field in numbers: the reading of the clock that option bits 2 and 3 choose, unless a stamp
      has been set since. */
  lemma TimeInNumbers(options: nat, f: Format, job: Job, calls: seq<Call>)
    requires forall c :: c in calls ==> !c.SetTs?
    ensures var c, time := job.clock, TimeText(options, f, job, calls);
      && (options / 4 % 4 == 0 ==> time == [])
      && (options / 4 % 4 == 1 ==> time == f.micros(c.sec, c.usec))
      && (options / 4 % 4 == 2 ==> time == f.nanos(c.sec, c.nsec))
      && (options / 4 % 4 == 3 ==> time == f.udec(c.tsc) + [32])
  {
    hide ClockSource;
    OptionBits(options);
    NoneSet(calls);
  }

  lemma {:induction false} NoneSet(calls: seq<Call>)
    requires forall c :: c in calls ==> !c.SetTs?
    ensures LastSet(calls) == None
    decreases |calls|
  {
    if calls == [] {
    } else {
      assert calls[0] in calls;
      NoneSet(calls[1..]);
    }
  }

  /** A stamp set by log2mem_set_ts is shown as its seconds and parts of a second; the last one counts. */
  lemma SetTimeInNumbers(options: nat, f: Format, job: Job, before: seq<Call>, ts: uint64, later: seq<Call>)
    requires forall c :: c in later ==> !c.SetTs?
    ensures var time := TimeText(options, f, job, before + [SetTs(ts)] + later);
      && (options / 4 % 4 == 0 ==> time == [])
      && (options / 4 % 4 == 1 ==> time == f.micros(ts / 0x4000_0000, ts % 0x4000_0000 / 1000))
      && (options / 4 % 4 == 2 ==> time == f.nanos(ts / 0x4000_0000, ts % 0x4000_0000))
      && (options / 4 % 4 == 3 ==> time == f.udec(ts) + [32])
  {
    hide ClockSource, Seconds, Nanos;
    OptionBits(options);
    StampParts(ts);
    LastIsSet(before, ts, later);
  }

  lemma {:induction false} LastIsSet(before: seq<Call>, ts: uint64, later: seq<Call>)
    requires forall c :: c in later ==> !c.SetTs?
    ensures LastSet(before + [SetTs(ts)] + later) == Some(ts)
    decreases |before|
  {
    var all := before + [SetTs(ts)] + later;
    if before == [] {
      assert all[1..] == later;
      NoneSet(later);
    } else {
      assert all[1..] == before[1..] + [SetTs(ts)] + later;
      LastIsSet(before[1..], ts, later);
    }
  }

  /** The line for given header values and items; nothing without items. */
  function LineText(options: nat, f: Format, d: Display, id: uint32, tid: int32, time: seq<byte>,
                    lead: seq<Item>, vals: seq<Item>): seq<byte> {
    if lead + vals == [] then []
    else HeaderText(options, f, d, id, tid, time) + JoinedText(f, d, lead, vals) + NEWLINE
  }

  /** A row that holds these items under this header prints as their line: stale header words that
      the options leave unwritten are not shown. */
  lemma RowTextIsLine(options: nat, f: Format, d: Display, row: seq<byte>, id: uint32, tid: int32, ts: uint64,
                      lead: seq<Item>, vals: seq<Item>)
    requires Holds(row, lead + vals) && HasHeader(options, row, id, tid, ts)
    requires forall it :: it in lead ==> it.IsLocation()
    requires forall it :: it in vals ==> !it.IsLocation()
    ensures Chain(row, ROW_HDR, ROW_HDR + Datalen(row))
    ensures RowText(options, f, d, row) == LineText(options, f, d, id, tid, ClockText(options, f, ts), lead, vals)
  {
    hide And, Load, Used, RecsOf, JoinedText, LoopText, Chain, RecsFrom;
    NothingUsed(lead + vals);
    LoopIsJoin(f, d, lead, vals);
  }
}
