/** From any permitted run of the writers to the printed listing. */
module EndToEnd {
  import opened Bits
  import opened Bytes
  import opened Records
  import opened Rows
  import opened Slots
  import opened Schedule
  import opened Survivors
  import opened Printing
  import opened Reader
  import opened Window
  import RegionLayout

  /** The rows section as __log2mem_create leaves it: all zero bytes. */
  ghost predicate Zeroed(ring: Ring, mem: seq<byte>) {
    forall k :: ring.base <= k < ring.End() && k < |mem| ==> mem[k] == 0
  }

  /** The append functions write values; only row initialisation writes locations. */
  predicate ByApi(calls: seq<Call>) {
    forall c :: c in calls ==> (c.Append? ==> !c.it.IsLocation())
  }

  // --------------------------------------------------- which items a ticket shows

  /** The accepted location records of the opening call. */
  function Lead(cap: nat, options: nat, t: Ticket): seq<Item> {
    if t.job.how.GetRow? then StartItems(cap, options, t.job) else []
  }

  /** The accepted values, in order. */
  function Values(cap: nat, options: nat, t: Ticket): seq<Item> {
    var items := RowItems(cap, options, t.job, t.calls);
    if |Lead(cap, options, t)| <= |items| then items[|Lead(cap, options, t)|..] else []
  }

  /** Keeping more items extends what is kept, by items among those offered. */
  lemma {:induction false} KeepAllExtends(cap: nat, kept: seq<Item>, items: seq<Item>)
    ensures kept <= KeepAll(cap, kept, items)
    ensures forall it :: it in KeepAll(cap, kept, items)[|kept|..] ==> it in items
    decreases |items|
  {
    hide Used, RecOf;
    if items == [] {
    } else {
      var kept' := KeepOne(cap, kept, items[0]);
      KeepAllExtends(cap, kept', items[1..]);
      var all := KeepAll(cap, kept, items);
      forall it | it in all[|kept|..] ensures it in items {
        var k :| |kept| <= k < |all| && all[k] == it;
        if k >= |kept'| {
          assert all[|kept'|..][k - |kept'|] == it;
          assert it in items[1..];
        } else {
          assert all[k] == kept'[k] == items[0];
        }
      }
    }
  }

  lemma {:induction false} AppendedByApi(calls: seq<Call>)
    requires ByApi(calls)
    ensures forall it :: it in Appended(calls) ==> !it.IsLocation()
    decreases |calls|
  {
    if calls == [] {
    } else {
      assert calls[0] in calls;
      forall c | c in calls[1..] ensures c.Append? ==> !c.it.IsLocation() { assert c in calls; }
      AppendedByApi(calls[1..]);
    }
  }

  lemma ItemsSplit(cap: nat, options: nat, t: Ticket)
    requires ByApi(t.calls)
    ensures RowItems(cap, options, t.job, t.calls) == Lead(cap, options, t) + Values(cap, options, t)
    ensures forall it :: it in Lead(cap, options, t) ==> it.IsLocation()
    ensures forall it :: it in Values(cap, options, t) ==> !it.IsLocation()
  {
    hide Used, KeepAll, Appended, And;
    var start := StartItems(cap, options, t.job);
    var items := RowItems(cap, options, t.job, t.calls);
    KeepAllExtends(cap, start, Appended(t.calls));
    AppendedByApi(t.calls);
    match t.job.how
    case GetRow(_) =>
      KeepAllExtends(cap, [], LocationItems(options, t.job));
      assert start[0..] == start;
    case TimeEvent(e) =>
      forall it | it in Values(cap, options, t) ensures !it.IsLocation() {
        var k :| 0 <= k < |items| && items[k] == it;
        if k >= |start| { assert items[|start|..][k - |start|] == it; } else { assert it in e.Items(); }
      }
  }

  /** The line of ticket j: its own id, thread, time and accepted values, and nothing else. */
  function TicketLine(ring: Ring, f: Format, d: Display, t: Ticket, j: nat): seq<byte>
    requires ROW_HDR <= ring.size
  {
    var cap := ring.size - ROW_HDR;
    LineText(ring.options, f, d, IdOf(j), t.job.tid, TimeText(ring.options, f, t.job, t.calls),
             Lead(cap, ring.options, t), Values(cap, ring.options, t))
  }

  /** The line of ticket j part by part, the id being the ticket number in 32 bits: see FullLine, and
      TimeInNumbers and SetTimeInNumbers for the clock field. */
  lemma TicketLineInFull(ring: Ring, f: Format, d: Display, t: Ticket, j: nat, ltexts: seq<seq<byte>>,
                         vtexts: seq<seq<byte>>)
    requires 24 <= ring.size && ByApi(t.calls)
    requires TextsOf(f, Lead(ring.size - 24, ring.options, t), ltexts)
    requires TextsOf(f, Values(ring.size - 24, ring.options, t), vtexts)
    ensures TicketLine(ring, f, d, t, j) ==
      FullLine(ring.options, f, d, j % 0x1_0000_0000, t.job.tid, TimeText(ring.options, f, t.job, t.calls),
               ltexts, vtexts)
  {
    hide Lead, Values, TimeText, LineText, FullLine, ByApi, TextsOf, IdOf, RowItems, StartItems;
    var cap := ring.size - 24;
    IdInNumbers(j);
    ItemsSplit(cap, ring.options, t);
    LineInFull(ring.options, f, d, IdOf(j), t.job.tid, TimeText(ring.options, f, t.job, t.calls),
               Lead(cap, ring.options, t), Values(cap, ring.options, t), ltexts, vtexts);
  }

  lemma IdInNumbers(j: nat)
    ensures IdOf(j) == j % 0x1_0000_0000
  {
  }

  // ------------------------------------------------------------ what each slot holds

  /** What a ticket's operations make of a row: readable, stamped with the id, printed as the ticket's line. */
  lemma PlayedRow(ring: Ring, t: Ticket, f: Format, d: Display, j: nat, row: seq<byte>)
    requires ring.Valid() && ROW_HDR <= ring.size && PlayedOnSome(ring, t, j, row) && ByApi(t.calls)
    ensures Readable(row) && ROW_HDR <= |row| && Load(row, ID, 4) == IdOf(j)
    ensures ReadableText(ring.options, f, d, row) == TicketLine(ring, f, d, t, j)
  {
    hide RowAfter, Holds, Readable, RowItems, FinalTs, JobTs, TimeText, ClockText, LineText, RowText,
      Lead, Values, Load, And;
    ValidSize(ring);
    var stale: seq<byte> :| |stale| == ring.size && ROW_HDR <= |stale| && row == Played(ring, t, j, stale);
    var cap := ring.size - ROW_HDR;
    RowFacts(ring.options, IdOf(j), t.job, t.calls, stale);
    ItemsSplit(cap, ring.options, t);
    RowTextIsLine(ring.options, f, d, row, IdOf(j), t.job.tid, FinalTs(JobTs(ring.options, t.job), t.calls),
                  Lead(cap, ring.options, t), Values(cap, ring.options, t));
    TimeShown(ring.options, f, t.job, t.calls);
    HoldsReadable(row, RowItems(cap, ring.options, t.job, t.calls));
  }

  /** Preconditions shared by the statements about a finished run. */
  ghost predicate Written(ring: Ring, mem: seq<byte>, m: seq<byte>, ts: seq<Ticket>) {
    HoldsLatest(ring, mem, m, ts) && Zeroed(ring, mem) && forall t :: t in ts ==> ByApi(t.calls)
  }

  lemma WrittenStarts(ring: Ring, mem: seq<byte>, m: seq<byte>, ts: seq<Ticket>)
    requires Written(ring, mem, m, ts)
    ensures Started(ring, mem) && Started(ring, m)
  {
  }

  /** A live ticket's slot: readable, stamped with its id, and printed as its line. */
  lemma LiveSlot(ring: Ring, mem: seq<byte>, m: seq<byte>, ts: seq<Ticket>, f: Format, d: Display, j: nat)
    requires Started(ring, m) && Written(ring, mem, m, ts) && j < |ts| <= j + ring.n
    ensures var row := Slot(ring, m, TicketSlot(ring, j));
      && Readable(row) && Load(row, ID, 4) == IdOf(j)
      && ReadableText(ring.options, f, d, row) == TicketLine(ring, f, d, ts[j], j)
  {
    hide Slot, PlayedOnSome, Readable, ReadableText, TicketLine, Load, ByApi;
    assert ts[j] in ts;
    PlayedRow(ring, ts[j], f, d, j, Slot(ring, m, TicketSlot(ring, j)));
  }

  lemma {:induction false} DecodeZeros(b: seq<byte>)
    requires forall k :: 0 <= k < |b| ==> b[k] == 0
    ensures Decode(b) == 0
    decreases |b|
  {
    if b == [] {
    } else {
      DecodeZeros(b[1..]);
    }
  }

  lemma BlankBytes(ring: Ring, mem: seq<byte>, s: nat)
    requires ring.Within(mem) && Zeroed(ring, mem) && s < ring.n
    ensures forall k :: 0 <= k < ring.size ==> Slot(ring, mem, s)[k] == 0
  {
    SlotInRegion(ring, s);
    forall k | 0 <= k < ring.size ensures Slot(ring, mem, s)[k] == 0 {
      assert mem[ring.Addr(s) + k] == 0;
    }
  }

  /** A slot never written: id 0, no records, not listed. */
  lemma BlankSlot(ring: Ring, mem: seq<byte>, m: seq<byte>, ts: seq<Ticket>, f: Format, d: Display, s: nat)
    requires Started(ring, m) && Written(ring, mem, m, ts) && |ts| <= s < ring.n
    ensures var row := Slot(ring, m, s);
      Readable(row) && Load(row, ID, 4) == 0 && ReadableText(ring.options, f, d, row) == []
  {
    hide Slot, PlayedOnSome, Readable, ReadableText, ByApi, Zeroed, Load;
    BlankBytes(ring, mem, s);
    ValidSize(ring);
    BlankRow(ring.options, f, d, Slot(ring, mem, s));
  }

  lemma BlankRow(options: nat, f: Format, d: Display, row: seq<byte>)
    requires IsRow(row) && forall k :: 0 <= k < |row| ==> row[k] == 0
    ensures Readable(row) && Load(row, ID, 4) == 0 && ReadableText(options, f, d, row) == []
  {
    hide Holds, Readable, Decode;
    DecodeZeros(row[ID..ID + 4]);
    DecodeZeros(row[DATALEN..DATALEN + 4]);
    EmptyHolds(row);
    HoldsReadable(row, []);
    ReadableChain(row);
  }

  // --------------------------------------------------------- the listing of a run

  lemma AllSlotsReadable(ring: Ring, mem: seq<byte>, m: seq<byte>, ts: seq<Ticket>, f: Format, d: Display)
    requires Written(ring, mem, m, ts)
    ensures AllReadable(ring, m)
  {
    hide Written, Readable, Slot, ReadableText, TicketLine, Load, TicketSlot;
    WrittenStarts(ring, mem, m, ts);
    forall s | 0 <= s < ring.n ensures Readable(Slot(ring, m, s)) {
      if s < |ts| {
        var j := TicketOf(ring, |ts|, s);
        LiveSlot(ring, mem, m, ts, f, d, j);
      } else {
        BlankSlot(ring, mem, m, ts, f, d, s);
      }
    }
  }

  lemma TicketOf(ring: Ring, k: nat, s: nat) returns (j: nat)
    requires s < ring.n && s < k
    ensures Oldest(k, ring.n) <= j < k <= j + ring.n && TicketSlot(ring, j) == s
  {
    j := LiveTicketOf(k, ring.n, s);
  }

  /** The scan finds the row id that First predicts. */
  lemma LowestIdIsFirst(ring: Ring, mem: seq<byte>, m: seq<byte>, ts: seq<Ticket>, f: Format, d: Display)
    requires Started(ring, m) && Written(ring, mem, m, ts)
    ensures LowestId(ring, m, ring.n) == First(|ts|, ring.n)
  {
    hide Written, Readable, Slot, ReadableText, TicketLine, Load, WrapPoint, IdOf, LowestId, Ring.Valid, TicketSlot;
    var k, n := |ts|, ring.n;
    var w := Oldest(k, n);
    WrapPointFacts(w);
    IdOfZero();
    forall s | 0 <= s < n
      ensures First(k, n) <= IdAt(ring, m, s)
      ensures s >= k ==> IdAt(ring, m, s) == 0
    {
      if s < k {
        var j := TicketOf(ring, k, s);
        LiveSlot(ring, mem, m, ts, f, d, j);
        if WrapPoint(w) >= k { IdsGrow(w, j); }
      } else {
        BlankSlot(ring, mem, m, ts, f, d, s);
      }
    }
    if k == 0 {
      assert IdAt(ring, m, 0) == 0;
    } else {
      var j := if WrapPoint(w) < k then WrapPoint(w) else w;
      LiveSlot(ring, mem, m, ts, f, d, j);
      IdOfMultiple(WrapPoint(w));
      assert IdAt(ring, m, TicketSlot(ring, j)) == First(k, n);
    }
  }

  lemma IdOfMultiple(m: nat)
    ensures m % U32 == 0 ==> IdOf(m) == 0
  {
  }

  /** The lines of these tickets. */
  function Lines(ring: Ring, f: Format, d: Display, ts: seq<Ticket>, order: seq<nat>): (ls: seq<seq<byte>>)
    requires ROW_HDR <= ring.size
    requires forall j :: j in order ==> j < |ts|
    ensures |ls| == |order|
  {
    seq(|order|, i requires 0 <= i < |order| =>
      assert order[i] in order; TicketLine(ring, f, d, ts[order[i]], order[i]))
  }

  lemma {:induction false} FlattenSnoc(ls: seq<seq<byte>>, l: seq<byte>)
    ensures Flatten(ls + [l]) == Flatten(ls) + l
    decreases |ls|
  {
    if ls == [] {
      assert Flatten([l]) == l + Flatten([]);
    } else {
      assert (ls + [l])[1..] == ls[1..] + [l];
      FlattenSnoc(ls[1..], l);
    }
  }

  lemma OrderInRange(k: nat, n: nat)
    requires n > 0
    ensures forall j :: j in LiveOrder(k, n) ==> j < k
  {
    hide LiveOrder;
    forall j | j in LiveOrder(k, n) ensures j < k {
      var i :| 0 <= i < |LiveOrder(k, n)| && LiveOrder(k, n)[i] == j;
      LiveOrderIsLive(k, n, i);
    }
  }

  /** What one visit of the walk adds to the listing. */
  lemma VisitedText(ring: Ring, mem: seq<byte>, m: seq<byte>, ts: seq<Ticket>, f: Format, d: Display, i: nat)
    requires Started(ring, m) && Written(ring, mem, m, ts) && i < ring.n
    ensures var order := LiveOrder(|ts|, ring.n);
      var s := Visited(ring, First(|ts|, ring.n), i);
      && s < ring.n
      && (i < |order| ==> order[i] < |ts|)
      && Readable(Slot(ring, m, s))
      && ReadableText(ring.options, f, d, Slot(ring, m, s))
         == if i < |order| then TicketLine(ring, f, d, ts[order[i]], order[i]) else []
  {
    hide Written, Readable, Slot, ReadableText, TicketLine, Load, IdOf, SlotOfId, Ring.Valid, LiveOrder, First, ToU32;
    var k, n := |ts|, ring.n;
    var first := First(k, n);
    ValidCount(ring);
    var c: nat :| c > 0 && n * c == U32;
    MaskedSlot(ring, ToU32(first + i));
    WordMod(first + i, n, c);
    VisitOrder(k, n, c, i);
    if i < |LiveOrder(k, n)| {
      LiveOrderIsLive(k, n, i);
      LiveSlot(ring, mem, m, ts, f, d, LiveOrder(k, n)[i]);
    } else {
      BlankSlot(ring, mem, m, ts, f, d, i);
    }
  }

  lemma {:induction false} ListingUpTo(ring: Ring, mem: seq<byte>, m: seq<byte>, ts: seq<Ticket>,
                                       f: Format, d: Display, i: nat)
    requires Started(ring, m) && Written(ring, mem, m, ts) && i <= ring.n && AllReadable(ring, m)
    ensures forall j :: j in LiveOrder(|ts|, ring.n) ==> j < |ts|
    ensures var order := LiveOrder(|ts|, ring.n);
      Listing(ring, m, f, d, First(|ts|, ring.n), i)
      == Flatten(Lines(ring, f, d, ts, order)[..if i < |order| then i else |order|])
    decreases i
  {
    hide Written, AllReadable, Readable, ReadableText, Slot, TicketLine, LiveOrder, First, Visited;
    var order := LiveOrder(|ts|, ring.n);
    OrderInRange(|ts|, ring.n);
    var ls := Lines(ring, f, d, ts, order);
    if i == 0 {
    } else {
      ListingUpTo(ring, mem, m, ts, f, d, i - 1);
      VisitedText(ring, mem, m, ts, f, d, i - 1);
      if i <= |order| {
        assert ls[..i] == ls[..i - 1] + [ls[i - 1]];
        FlattenSnoc(ls[..i - 1], ls[i - 1]);
      }
    }
  }

  /** What print_rows prints: the lines of the live tickets, in LiveOrder. */
  ghost predicate ListsAll(ring: Ring, m: seq<byte>, ts: seq<Ticket>, f: Format, d: Display, order: seq<nat>) {
    && AllReadable(ring, m)
    && (forall j :: j in order ==> j < |ts|)
    && Listing(ring, m, f, d, LowestId(ring, m, ring.n), ring.n) == Flatten(Lines(ring, f, d, ts, order))
  }

  lemma ListingOfRun(ring: Ring, mem: seq<byte>, m: seq<byte>, ts: seq<Ticket>, f: Format, d: Display)
    requires Written(ring, mem, m, ts)
    ensures ListsAll(ring, m, ts, f, d, LiveOrder(|ts|, ring.n))
  {
    hide Written, Readable, TicketLine, LiveOrder, First, Visited, Listing, LowestId, Lines, Slot;
    WrittenStarts(ring, mem, m, ts);
    AllSlotsReadable(ring, mem, m, ts, f, d);
    hide AllReadable;
    LowestIdIsFirst(ring, mem, m, ts, f, d);
    ListingUpTo(ring, mem, m, ts, f, d, ring.n);
    var order := LiveOrder(|ts|, ring.n);
    OrderLength(|ts|, ring.n);
    var ls := Lines(ring, f, d, ts, order);
    assert ls[..|order|] == ls;
  }

  lemma OrderLength(k: nat, n: nat)
    requires n > 0
    ensures |LiveOrder(k, n)| == if k <= n then k else n
  {
    hide WrapPoint;
    WrapPointFacts(Oldest(k, n));
  }

  /** The region that __log2mem_create maps and clears, with whatever it then writes to the header
      structure, is a start for any such run. */
  lemma CreatedRegionStarts(cfg: RegionLayout.Config, ps: nat, header: seq<byte>)
    requires cfg.row_len < 0x8000_0000 && ps > 0 && |header| == RegionLayout.HEADER
    ensures var c := RegionLayout.Created(cfg);
      RegionLayout.HEADER <= RegionLayout.ExactSize(c, ps) &&
      var mem: seq<byte> := header + seq(RegionLayout.ExactSize(c, ps) - RegionLayout.HEADER, k => 0);
      Started(RingOf(c), mem) && Zeroed(RingOf(c), mem)
  {
    var c := RegionLayout.Created(cfg);
    RegionLayout.BytesWritten(c);
    RegionLayout.EndsBefore(c, RegionLayout.Counters, RegionLayout.Rows);
    hide RegionLayout.ExactSize, RegionLayout.Created, Ring.Valid, RegionLayout.Offset, RegionLayout.Bytes;
    RingOfCreated(cfg, ps);
    ValidCount(RingOf(c));
    ValidSize(RingOf(c));
  }

  // ------------------------------------------------------------------ main theorems

  /** A finished run: the stores of any number of threads on a cleared region came in slot order, all
      threads have returned, and values were appended only through the API. */
  ghost predicate Finished(ring: Ring, mem: seq<byte>, es: seq<Step>) {
    && Started(ring, mem) && Zeroed(ring, mem)
    && StoresInOrder(ring, mem, es) && Quiescent(After(ring, mem, es))
    && forall t :: t in Tickets(After(ring, mem, es).rows) ==> ByApi(t.calls)
  }

  /** After any such run, the text that PrintRows produces is the lines of the last min(k, num_rows)
      tickets that accepted at least one record; each line is that ticket's own. */
  lemma PrintedAfterAnyRun(ring: Ring, mem: seq<byte>, es: seq<Step>, f: Format, d: Display)
    requires Started(ring, mem) && Finished(ring, mem, es)
    ensures var s := After(ring, mem, es);
      ListsAll(ring, s.mem, Tickets(s.rows), f, d, LiveOrder(|s.rows|, ring.n))
  {
    hide After, HoldsLatest, Zeroed, ByApi, ListsAll, LiveOrder, StoresInOrder, Quiescent;
    var s := After(ring, mem, es);
    SurvivorsIntact(ring, mem, es);
    ListingOfRun(ring, mem, s.mem, Tickets(s.rows), f, d);
  }

  /** As long as no multiple of 2^32 lies strictly inside the live window, however many rows have been
      created, the order is the order of creation. */
  lemma PrintedInOrder(ring: Ring, mem: seq<byte>, es: seq<Step>, f: Format, d: Display)
    requires Started(ring, mem) && Finished(ring, mem, es)
    requires var k := |After(ring, mem, es).rows|;
      !(exists m: nat :: m % U32 == 0 && Oldest(k, ring.n) < m < k)
    ensures var s := After(ring, mem, es);
      ListsAll(ring, s.mem, Tickets(s.rows), f, d, Chronological(|s.rows|, ring.n))
  {
    ValidCount(ring);
    hide After, ListsAll, Finished, LiveOrder, Chronological, Oldest;
    PrintedAfterAnyRun(ring, mem, es, f, d);
    ChronologicalIff(|After(ring, mem, es).rows|, ring.n);
  }

  /** That is so for the first 2^32 rows. */
  lemma PrintedInOrderAtFirst(ring: Ring, mem: seq<byte>, es: seq<Step>, f: Format, d: Display)
    requires Started(ring, mem) && Finished(ring, mem, es)
    requires |After(ring, mem, es).rows| <= U32
    ensures var s := After(ring, mem, es);
      ListsAll(ring, s.mem, Tickets(s.rows), f, d, Chronological(|s.rows|, ring.n))
  {
    ValidCount(ring);
    hide After, ListsAll, Finished, LiveOrder, Chronological;
    PrintedAfterAnyRun(ring, mem, es, f, d);
    ChronologicalAtFirst(|After(ring, mem, es).rows|, ring.n);
  }

  /** A program in which no thread keeps a row while num_rows others are created gets that listing,
      and so does one that runs its tickets one at a time. */
  lemma PrintedUnderDiscipline(ring: Ring, mem: seq<byte>, es: seq<Step>, f: Format, d: Display)
    requires Started(ring, mem) && Zeroed(ring, mem)
    requires Disciplined(ring, mem, es) && Quiescent(After(ring, mem, es))
    requires forall t :: t in Tickets(After(ring, mem, es).rows) ==> ByApi(t.calls)
    ensures var s := After(ring, mem, es);
      ListsAll(ring, s.mem, Tickets(s.rows), f, d, LiveOrder(|s.rows|, ring.n))
  {
    hide After, ListsAll, Zeroed, ByApi, LiveOrder, Disciplined, Quiescent, InOrder, StoresInOrder;
    DisciplineOrders(ring, mem, es);
    PrintedAfterAnyRun(ring, mem, es, f, d);
  }

  lemma PrintedAfterTickets(ring: Ring, mem: seq<byte>, ts: seq<Ticket>, f: Format, d: Display)
    requires Started(ring, mem) && Zeroed(ring, mem) && forall t :: t in ts ==> ByApi(t.calls)
    ensures ListsAll(ring, RunTickets(ring, mem, ts), ts, f, d, LiveOrder(|ts|, ring.n))
  {
    hide RunTickets, ListsAll, Zeroed, ByApi, LiveOrder, HoldsLatest;
    SerialHoldsLatest(ring, mem, ts);
    ListingOfRun(ring, mem, RunTickets(ring, mem, ts), ts, f, d);
  }
}
