/** The ring writer as the library runs it: fields and a byte array updated in place. */
module RingWriter {
  import opened Bits
  import opened Bytes
  import opened Options
  import opened Records
  import opened Rows
  import opened Slots
  import opened Timestamps

  class Writer {
    const ring: Ring
    const mem: array<byte>   // the whole mapped region
    var nextrow: uint32      // header->nextrow

    ghost predicate Valid()
      reads this
    {
      ring.Valid() && ring.End() <= mem.Length
    }

    constructor (ring: Ring, mem: array<byte>)
      requires ring.Valid() && ring.End() <= mem.Length
      ensures Valid() && this.ring == ring && this.mem == mem && nextrow == 0
    {
      this.ring := ring;
      this.mem := mem;
      nextrow := 0;
    }

    /** The row a row pointer points to. */
    ghost function Row(s: nat): (row: seq<byte>)
      requires Valid() && s < ring.n
      reads this, mem
    {
      Slot(ring, mem[..], s)
    }

    /** log2mem_atomic_incr_fetch_uint on nextrow: one indivisible wrapping addition. */
    method AtomicIncrFetch(value: uint32) returns (r: uint32)
      modifies this`nextrow
      ensures nextrow == ToU32(old(nextrow) + value) && r == nextrow
    {
      nextrow := ToU32(nextrow + value);
      r := nextrow;
    }

    /** memcpy into the region. */
    method StoreBytes(off: nat, data: seq<byte>)
      requires off + |data| <= mem.Length
      modifies mem
      ensures mem[..] == Store(old(mem[..]), off, data)
    {
      var i := 0;
      while i < |data|
        invariant 0 <= i <= |data|
        invariant mem[..] == Store(old(mem[..]), off, data[..i])
      {
        ghost var before := mem[..];
        mem[off + i] := data[i];
        assert mem[..] == before[off + i := data[i]];
        assert data[..i + 1] == data[..i] + [data[i]];
        i := i + 1;
      }
      assert data[..i] == data;
    }

    /** A store to the row in slot s, seen as a change of that row only. */
    method StoreInRow(s: nat, off: nat, data: seq<byte>, ghost before: seq<byte>, ghost row: seq<byte>)
      requires Valid() && s < ring.n && |before| == mem.Length && |row| == ring.size
      requires mem[..] == SetSlot(ring, before, s, row)
      requires off + |data| <= ring.size
      modifies mem
      ensures mem[..] == SetSlot(ring, before, s, Store(row, off, data))
    {
      hide SetSlot, Store, Ring.Valid;
      StoreInSlot(ring, before, s, row, off, data);
      StoreBytes(ring.Addr(s) + off, data);
    }

    method LoadDatalen(s: nat) returns (v: nat)
      requires Valid() && s < ring.n
      ensures v == Datalen(Row(s))
    {
      SlotInRegion(ring, s);
      var a := ring.Addr(s);
      SliceOfSlice(mem[..], a, a + ring.size, DATALEN, DATALEN + 4);
      v := ReadWord(mem[..], a + DATALEN, 4);
    }

    /** MEMLOG_PUT_HDR and the copy behind it: the stores of one record at offset p of the row. */
    method PutRecord(s: nat, p: nat, ty: byte, data: seq<byte>, ghost before: seq<byte>, ghost row: seq<byte>)
      requires Valid() && s < ring.n && |before| == mem.Length && |row| == ring.size
      requires mem[..] == SetSlot(ring, before, s, row)
      requires p + DATA_HDR + |data| <= ring.size
      modifies mem
      ensures mem[..] == SetSlot(ring, before, s, PutRec(row, p, Rec(ty, data)))
    {
      hide SetSlot, Store, Ring.Valid, Encode;
      StoreInRow(s, p, [ty], before, row);
      ghost var r1 := Store(row, p, [ty]);
      StoreInRow(s, p + 4, Encode(DATA_HDR + |data|, 4), before, r1);
      StoreInRow(s, p + DATA_HDR, data, before, Store(r1, p + 4, Encode(DATA_HDR + |data|, 4)));
    }

    /** The same for a string, its terminating NUL stored behind the copied characters. */
    method PutString(s: nat, p: nat, ty: byte, str: seq<byte>, ghost before: seq<byte>, ghost row: seq<byte>)
      requires Valid() && s < ring.n && |before| == mem.Length && |row| == ring.size
      requires mem[..] == SetSlot(ring, before, s, row)
      requires p + DATA_HDR + |str| + 1 <= ring.size
      modifies mem
      ensures mem[..] == SetSlot(ring, before, s, PutRec(row, p, Rec(ty, str + [0])))
    {
      hide SetSlot, Store, Ring.Valid, Encode;
      var len := DATA_HDR + |str| + 1;
      StoreInRow(s, p, [ty], before, row);
      ghost var r1 := Store(row, p, [ty]);
      StoreInRow(s, p + 4, Encode(len, 4), before, r1);
      ghost var r2 := Store(r1, p + 4, Encode(len, 4));
      StoreInRow(s, p + DATA_HDR, str, before, r2);
      StoreInRow(s, p + DATA_HDR + |str|, [0], before, Store(r2, p + DATA_HDR, str));
      StoreAdjacent(r2, p + DATA_HDR, str, [0]);
    }

    /** `row_len - datalen`, an unsigned difference assigned to an int. */
    method Remaining(s: nat) returns (datalen: nat, remain: int32)
      requires Valid() && s < ring.n && Datalen(Row(s)) <= Cap(Row(s))
      ensures datalen == Datalen(Row(s)) && remain == Cap(Row(s)) - datalen
    {
      datalen := LoadDatalen(s);
      SmallWord(ring.size - ROW_HDR - datalen);
      remain := ToS32(ToU32(ring.size - ROW_HDR - datalen));
    }

    /** __log2mem_push. */
    method PushRecord(s: nat, ty: byte, data: seq<byte>)
      requires Valid() && s < ring.n
      requires Datalen(Row(s)) <= Cap(Row(s)) && DATA_HDR + |data| < 0x8000_0000
      modifies mem
      ensures mem[..] == SetSlot(ring, old(mem[..]), s, Push(old(Row(s)), Rec(ty, data)))
    {
      hide SetSlot, Ring.Valid, Datalen, PutRec, Encode;
      ghost var before, row := mem[..], Row(s);
      SetSlotSame(ring, before, s);
      var datalen, remain := Remaining(s);
      var totlen: int32 := DATA_HDR + |data|;
      if totlen <= remain {
        PutRecord(s, ROW_HDR + datalen, ty, data, before, row);
        StoreInRow(s, DATALEN, Encode(datalen + totlen, 4), before, PutRec(row, ROW_HDR + datalen, Rec(ty, data)));
      }
    }

    /** __log2mem_push_str. */
    method PushStr(s: nat, ty: byte, str: seq<byte>)
      requires Valid() && s < ring.n
      requires Datalen(Row(s)) <= Cap(Row(s)) && DATA_HDR + |str| + 1 < 0x8000_0000
      modifies mem
      ensures mem[..] == SetSlot(ring, old(mem[..]), s, Push(old(Row(s)), Rec(ty, str + [0])))
    {
      hide SetSlot, Ring.Valid, Datalen, PutRec, Encode;
      ghost var before, row := mem[..], Row(s);
      SetSlotSame(ring, before, s);
      var datalen, remain := Remaining(s);
      var totlen: int32 := DATA_HDR + (|str| + 1);
      if totlen <= remain {
        PutString(s, ROW_HDR + datalen, ty, str, before, row);
        StoreInRow(s, DATALEN, Encode(datalen + totlen, 4), before, PutRec(row, ROW_HDR + datalen, Rec(ty, str + [0])));
      }
    }

    /** The append functions of the API. */
    method AppendItem(s: nat, it: Item)
      requires Valid() && s < ring.n
      requires Datalen(Row(s)) <= Cap(Row(s)) && Size(RecOf(it)) < 0x8000_0000
      modifies mem
      ensures mem[..] == SetSlot(ring, old(mem[..]), s, Push(old(Row(s)), RecOf(it)))
    {
      match it
      case FileName(str) => PushStr(s, T_FILENAME, str);
      case Str(str) => PushStr(s, T_STRING, str);
      case _ => PushRecord(s, TypeCode(it), Payload(it));
    }

    /** A store to the time stamp of a row. */
    method StoreStamp(s: nat, ts: uint64, ghost before: seq<byte>, ghost row: seq<byte>)
      requires Valid() && s < ring.n && |before| == mem.Length && |row| == ring.size
      requires mem[..] == SetSlot(ring, before, s, row)
      modifies mem
      ensures mem[..] == SetSlot(ring, before, s, Store(row, TS, Encode(ts, 8)))
    {
      hide SetSlot, Store, Encode;
      StoreInRow(s, TS, Encode(ts, 8), before, row);
    }

    /** log2mem_set_ts. */
    method SetTimestamp(s: nat, ts: uint64)
      requires Valid() && s < ring.n
      modifies mem
      ensures mem[..] == SetSlot(ring, old(mem[..]), s, Store(old(Row(s)), TS, Encode(ts, 8)))
    {
      hide SetSlot, Store, Encode;
      SetSlotSame(ring, mem[..], s);
      StoreStamp(s, ts, mem[..], Row(s));
    }

    /** The row id: the counter's value before the increment, `fetched - 1` in 32 bits. */
    method DrawRowId() returns (rowid: uint32)
      modifies this`nextrow
      ensures rowid == old(nextrow) && nextrow == ToU32(old(nextrow) + 1)
    {
      var fetched := AtomicIncrFetch(1);
      rowid := ToU32(fetched as int - 1);
    }

    /** __log2mem_init_row: draw a row id, mask it to a slot, and initialise that slot. */
    method InitRow(tid: int32, clock: Clock, loc: Option<Location>) returns (s: nat)
      requires Valid()
      requires loc.Some? ==> DATA_HDR + |loc.value.file| + 1 < 0x8000_0000
      modifies this`nextrow, mem
      ensures nextrow == ToU32(old(nextrow) + 1)
      ensures s < ring.n && s == SlotOfId(ring, old(nextrow))
      ensures s == old(nextrow) % ring.n
      ensures mem[..] == SetSlot(ring, old(mem[..]), s,
                           OpenRow(ring.options, old(nextrow), Job(tid, clock, GetRow(loc)), old(Row(s))))
      ensures OpenedAs(ring.options, old(nextrow), tid, clock, old(Row(s)), Row(s),
                if ring.options % 2 == 1 && loc.Some?
                then KeepAll(ring.size - 24, [], [FileName(loc.value.file), LineNo(loc.value.line)]) else [])
    {
      var rowid := DrawRowId();
      ValidSize(ring);
      hide SetSlot, HeaderSet, PushAll, Ring.Valid, And, HasHeader, Datalen, JobTs, ToU32, OpenedAs, KeepAll;
      MaskedSlot(ring, rowid);
      s := And(rowid, ring.n - 1);
      ghost var before, job := mem[..], Job(tid, clock, GetRow(loc));
      ghost var h := HeaderSet(ring.options, rowid, job, Row(s));
      HeaderSetReads(ring.options, rowid, job, Row(s)) by { ValidSize(ring); }
      InitHeader(s, rowid, tid, clock, loc);
      if WantsLocation(ring.options) && loc.Some? {
        InitLocation(s, loc.value, before, h);
      } else {
        PushAllNil(h);
      }
      OpenedThere(ring, before, mem[..], s, rowid, job);
    }

    /** The header stores of __log2mem_init_row. */
    method InitHeader(s: nat, rowid: uint32, tid: int32, clock: Clock, ghost loc: Option<Location>)
      requires Valid() && s < ring.n
      modifies mem
      ensures mem[..] == SetSlot(ring, old(mem[..]), s,
                           HeaderSet(ring.options, rowid, Job(tid, clock, GetRow(loc)), old(Row(s))))
    {
      hide SetSlot, Store, Encode, And;
      ghost var before, row := mem[..], Row(s);
      SetSlotSame(ring, before, s);
      if WantsTid(ring.options) {
        StoreInRow(s, TID, Encode(IntBits(tid), 4), before, row);
        row := Store(row, TID, Encode(IntBits(tid), 4));
      }
      var source := ClockSource(ring.options);
      if source == RDTSC {
        StoreStamp(s, clock.tsc, before, row);
      } else if source == GETTIMEOFDAY {
        StoreStamp(s, FromTimeval(clock.sec, clock.usec), before, row);
      } else if source == CLOCKGETTIME {
        StoreStamp(s, FromTimespec(clock.sec, clock.nsec), before, row);
      }
      ClockSources(ring.options);
      if source != 0 {
        row := Store(row, TS, Encode(Stamp(source, clock), 8));
      }
      StoreInRow(s, ID, Encode(rowid, 4), before, row);
      row := Store(row, ID, Encode(rowid, 4));
      StoreInRow(s, DATALEN, Encode(0, 4), before, row);
    }

    /** The file name and line pushes of __log2mem_init_row, each kept or dropped on its own. */
    method InitLocation(s: nat, loc: Location, ghost before: seq<byte>, ghost h: seq<byte>)
      requires Valid() && s < ring.n && |before| == mem.Length && |h| == ring.size
      requires mem[..] == SetSlot(ring, before, s, h) && Datalen(h) == 0
      requires DATA_HDR + |loc.file| + 1 < 0x8000_0000
      modifies mem
      ensures mem[..] == SetSlot(ring, before, s, PushAll(h, [FileName(loc.file), LineNo(loc.line)]))
    {
      var i1, i2 := FileName(loc.file), LineNo(loc.line);
      assert Size(RecOf(i1)) < 0x8000_0000 && Size(RecOf(i2)) < 0x8000_0000;
      hide SetSlot, Push, PushAll, RecOf, Holds, Datalen, KeepOne;
      SlotOfSet(ring, before, s, h, s);
      AppendItem(s, i1);
      ghost var h1 := Push(h, RecOf(i1));
      SetSlotTwice(ring, before, s, h, h1);
      SlotOfSet(ring, before, s, h1, s);
      EmptyHolds(h);
      PushHolds(h, [], i1);
      HoldsFits(h1, KeepOne(Cap(h), [], i1));
      AppendItem(s, i2);
      SetSlotTwice(ring, before, s, h1, Push(h1, RecOf(i2)));
      PushTwo(h, i1, i2);
    }

    /** log2mem_time_event4: a fresh row, then both ints and the string written by hand from payload offset 0. */
    method TimeEvent4(tid: int32, clock: Clock, e: Event) returns (s: nat)
      requires Valid() && e.Needed() < 0x8000_0000
      modifies this`nextrow, mem
      ensures nextrow == ToU32(old(nextrow) + 1)
      ensures s < ring.n && s == SlotOfId(ring, old(nextrow))
      ensures s == old(nextrow) % ring.n
      ensures mem[..] == SetSlot(ring, old(mem[..]), s,
                           StartRow(ring.options, old(nextrow), Job(tid, clock, TimeEvent(e)), old(Row(s))))
      ensures var items := [Int(e.flowid), Int(e.msgref)]
                + (if e.str.Some? && |e.str.value| > 0 then [Str(e.str.value)] else []);
        OpenedAs(ring.options, old(nextrow), tid, clock, old(Row(s)), Row(s),
          if Used(items) <= ring.size - 24 then items else [])
    {
      hide OpenedAs;
      s := InitRow(tid, clock, None);
      ghost var before := old(mem[..]);
      ghost var h := HeaderSet(ring.options, old(nextrow), Job(tid, clock, TimeEvent(e)), Slot(ring, before, s));
      assert mem[..] == SetSlot(ring, before, s, h) && Datalen(h) == 0 by {
        hide SetSlot, HeaderSet, PushAll, Ring.Valid, And, HasHeader, Datalen;
        ghost var job := Job(tid, clock, GetRow(None));
        ghost var h' := HeaderSet(ring.options, old(nextrow), job, Slot(ring, before, s));
        PushAllNil(h');
        ValidSize(ring);
        HeaderSetReads(ring.options, old(nextrow), job, Slot(ring, before, s));
        HeaderIgnoresOpening(ring.options, old(nextrow), job, Job(tid, clock, TimeEvent(e)), Slot(ring, before, s));
      }
      hide SetSlot, HeaderSet, PushAll, Ring.Valid, And, HasHeader, Datalen;
      PushAllNil(h);
      FastStores(s, e, before, h);
      OpenedThere(ring, before, mem[..], s, old(nextrow), Job(tid, clock, TimeEvent(e)));
    }

    /** The body of log2mem_time_event4 behind its __log2mem_init_row call. */
    method FastStores(s: nat, e: Event, ghost before: seq<byte>, ghost h: seq<byte>)
      requires Valid() && s < ring.n && |before| == mem.Length && |h| == ring.size
      requires mem[..] == SetSlot(ring, before, s, h) && Datalen(h) == 0 && e.Needed() < 0x8000_0000
      modifies mem
      ensures mem[..] == SetSlot(ring, before, s, FastPath(h, e))
    {
      hide SetSlot, Ring.Valid, Datalen, PutRec, Encode;
      SlotOfSet(ring, before, s, h, s);
      var len_needed: int32 := 2 * DATA_HDR + 2 * 4;
      if e.HasStr() {
        len_needed := len_needed + DATA_HDR + (|e.str.value| + 1);
      }
      ValidSize(ring);
      var datalen, avail := Remaining(s);
      if len_needed <= avail {
        ghost var r1, r2 := RecOf(Int(e.flowid)), RecOf(Int(e.msgref));
        PutRecord(s, ROW_HDR, T_INT, Encode(IntBits(e.flowid), 4), before, h);
        ghost var a := PutRec(h, ROW_HDR, r1);
        PutRecord(s, ROW_HDR + 12, T_INT, Encode(IntBits(e.msgref), 4), before, a);
        ghost var row := PutRec(a, ROW_HDR + 12, r2);
        if e.HasStr() {
          PutString(s, ROW_HDR + 24, T_STRING, e.str.value, before, row);
          row := PutRec(row, ROW_HDR + 24, RecOf(Str(e.str.value)));
        }
        StoreInRow(s, DATALEN, Encode(datalen + len_needed, 4), before, row);
      }
    }

    /** One call through a row pointer. */
    method Perform(s: nat, c: Call)
      requires Valid() && s < ring.n && SizedCall(c)
      requires Datalen(Row(s)) <= Cap(Row(s))
      modifies mem
      ensures mem[..] == SetSlot(ring, old(mem[..]), s, DoCall(old(Row(s)), c))
    {
      match c
      case Append(it) => AppendItem(s, it);
      case SetTs(ts) => SetTimestamp(s, ts);
    }

    /** The opening call of a ticket. */
    method Open(job: Job) returns (s: nat)
      requires Valid() && SizedJob(job)
      modifies this`nextrow, mem
      ensures nextrow == ToU32(old(nextrow) + 1)
      ensures s < ring.n && s == SlotOfId(ring, old(nextrow))
      ensures mem[..] == SetSlot(ring, old(mem[..]), s, StartRow(ring.options, old(nextrow), job, old(Row(s))))
    {
      match job.how
      case GetRow(loc) => s := InitRow(job.tid, job.clock, loc);
      case TimeEvent(e) => s := TimeEvent4(job.tid, job.clock, e);
    }

    /** One call on a row already changed from `before`. */
    method PerformNext(s: nat, c: Call, ghost before: seq<byte>, ghost row: seq<byte>)
      requires Valid() && s < ring.n && SizedCall(c) && |before| == mem.Length && |row| == ring.size
      requires ROW_HDR <= ring.size && Datalen(row) <= Cap(row)
      requires mem[..] == SetSlot(ring, before, s, row)
      modifies mem
      ensures mem[..] == SetSlot(ring, before, s, DoCall(row, c))
    {
      hide SetSlot, Ring.Valid, Ring.End, DoCall, Datalen, SizedCall;
      SlotOfSet(ring, before, s, row, s);
      Perform(s, c);
      SetSlotTwice(ring, before, s, row, DoCall(row, c));
    }

    /** The later calls of a ticket whose row is open and holds these items. */
    method PerformAll(s: nat, calls: seq<Call>, ghost before: seq<byte>, ghost start: seq<byte>,
                      ghost items: seq<Item>, ghost id: uint32, ghost job: Job)
      requires Valid() && s < ring.n && |before| == mem.Length && |start| == ring.size
      requires forall c :: c in calls ==> SizedCall(c)
      requires mem[..] == SetSlot(ring, before, s, start)
      requires Holds(start, items) && HasHeader(ring.options, start, id, job.tid, JobTs(ring.options, job))
      modifies mem
      ensures mem[..] == SetSlot(ring, before, s, DoCalls(start, calls))
    {
      ValidSize(ring);
      hide SetSlot, Ring.Valid, Ring.End, DoCall, Holds, HasHeader, Datalen, SizedCall;
      assert calls[..0] == [];
      var i := 0;
      while i < |calls|
        invariant 0 <= i <= |calls|
        invariant mem[..] == SetSlot(ring, before, s, DoCalls(start, calls[..i]))
      {
        ghost var row := DoCalls(start, calls[..i]);
        PrefixFits(ring.options, start, items, id, job, calls, i);
        PerformNext(s, calls[i], before, row);
        i := i + 1;
      }
      assert calls[..i] == calls;
    }

    /** All calls of one ticket, from drawing the row to the last append. */
    method PlayTicket(t: Ticket) returns (s: nat)
      requires Valid() && SizedTicket(t)
      modifies this`nextrow, mem
      ensures nextrow == ToU32(old(nextrow) + 1)
      ensures s < ring.n && s == SlotOfId(ring, old(nextrow))
      ensures mem[..] == SetSlot(ring, old(mem[..]), s,
                           RowAfter(ring.options, old(nextrow), t.job, t.calls, old(Row(s))))
    {
      hide SetSlot, StartRow, DoCalls, SizedJob, SizedCall, Holds, HasHeader, StartItems;
      s := Open(t.job);
      ghost var stale := Slot(ring, old(mem[..]), s);
      ValidSize(ring);
      StartFacts(ring.options, old(nextrow), t.job, stale);
      PerformAll(s, t.calls, old(mem[..]), StartRow(ring.options, old(nextrow), t.job, stale),
                 StartItems(Cap(stale), ring.options, t.job), old(nextrow), t.job);
    }

    /** One more ticket of a run in which tickets take their turns. */
    method PlayNext(ts: seq<Ticket>, j: nat, ghost before: seq<byte>)
      requires Valid() && j < |ts| && SizedTicket(ts[j]) && |before| == mem.Length
      requires ring.n > 0 && ROW_HDR <= ring.size
      requires nextrow == IdOf(j) && mem[..] == RunTickets(ring, before, ts[..j])
      modifies this`nextrow, mem
      ensures nextrow == IdOf(j + 1) && mem[..] == RunTickets(ring, before, ts[..j + 1])
    {
      hide SetSlot, SlotOfId, RowAfter, SizedTicket, IdOf, ToU32, RunTickets, Slot, Ring.Valid, Ring.End;
      SlotAssignment(ring, j);
      IdOfNext(j);
      RunTicketsStep(ring, before, ts, j);
      var s := PlayTicket(ts[j]);
    }

    /** A run of the library with the row operations of each ticket done before the next ticket is drawn:
        the reference that every permitted interleaving is compared with. */
    method PlayAll(ts: seq<Ticket>)
      requires Valid() && nextrow == 0 && forall t :: t in ts ==> SizedTicket(t)
      modifies this`nextrow, mem
      ensures nextrow == IdOf(|ts|)
      ensures ring.n > 0 && ROW_HDR <= ring.size
      ensures mem[..] == RunTickets(ring, old(mem[..]), ts)
    {
      ValidSize(ring);
      ValidCount(ring);
      ghost var before := mem[..];
      assert RunTickets(ring, before, ts[..0]) == before;
      hide SizedTicket, IdOf, RunTickets, Ring.Valid, Ring.End;
      IdOfZero();
      var j := 0;
      while j < |ts|
        invariant 0 <= j <= |ts| && nextrow == IdOf(j)
        invariant mem[..] == RunTickets(ring, before, ts[..j])
      {
        PlayNext(ts, j, before);
        j := j + 1;
      }
      assert ts[..j] == ts;
    }
  }

  /** What an opening call leaves in its slot, in numbers. */
  lemma OpenedThere(ring: Ring, before: seq<byte>, m: seq<byte>, s: nat, id: uint32, job: Job)
    requires ring.Valid() && ROW_HDR <= ring.size && s < ring.n && ring.Within(before) && |m| == |before|
    requires m == SetSlot(ring, before, s, StartRow(ring.options, id, job, Slot(ring, before, s)))
    ensures job.how.GetRow? ==> var loc := job.how.loc;
      OpenedAs(ring.options, id, job.tid, job.clock, Slot(ring, before, s), Slot(ring, m, s),
        if ring.options % 2 == 1 && loc.Some?
        then KeepAll(ring.size - 24, [], [FileName(loc.value.file), LineNo(loc.value.line)]) else [])
    ensures job.how.TimeEvent? ==> var e := job.how.e;
      var items := [Int(e.flowid), Int(e.msgref)]
        + (if e.str.Some? && |e.str.value| > 0 then [Str(e.str.value)] else []);
      OpenedAs(ring.options, id, job.tid, job.clock, Slot(ring, before, s), Slot(ring, m, s),
        if Used(items) <= ring.size - 24 then items else [])
  {
    ValidSize(ring);
    hide SetSlot, Slot, StartRow, OpenedAs, KeepAll, Used, Ring.Valid, Ring.End;
    var stale := Slot(ring, before, s);
    OpenedRow(ring.options, id, job, stale);
    SlotOfSet(ring, before, s, StartRow(ring.options, id, job, stale), s);
  }

  /** A row never holds more than its payload space, and calls are performed in order. */
  lemma PrefixFits(options: nat, start: seq<byte>, items: seq<Item>, id: uint32, job: Job, calls: seq<Call>, i: nat)
    requires Holds(start, items) && HasHeader(options, start, id, job.tid, JobTs(options, job)) && i < |calls|
    ensures var row := DoCalls(start, calls[..i]);
      Datalen(row) <= Cap(row) && DoCalls(start, calls[..i + 1]) == DoCall(row, calls[i])
  {
    hide Holds, HasHeader, KeepAll, DoCall, DoCalls, Datalen;
    HoldsIsRow(start, items);
    CallsFacts(options, start, items, id, job.tid, JobTs(options, job), calls[..i]);
    HoldsFits(DoCalls(start, calls[..i]), KeepAll(Cap(start), items, Appended(calls[..i])));
    assert calls[..i + 1] == calls[..i] + [calls[i]];
    DoCallsSnoc(start, calls[..i], calls[i]);
  }

  predicate SizedJob(job: Job) {
    match job.how
    case GetRow(loc) => loc.Some? ==> DATA_HDR + |loc.value.file| + 1 < 0x8000_0000
    case TimeEvent(e) => e.Needed() < 0x8000_0000
  }

  predicate SizedTicket(t: Ticket) {
    SizedJob(t.job) && forall c :: c in t.calls ==> SizedCall(c)
  }

  /** Record sizes stay within int. */
  predicate SizedCall(c: Call) {
    c.Append? ==> Size(RecOf(c.it)) < 0x8000_0000
  }
}
