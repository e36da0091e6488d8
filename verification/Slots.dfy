/** The rows section as equal slots inside the byte region: addresses, frames, and which slot a ticket gets. */
module Slots {
  import opened Bits
  import opened Bytes
  import opened Rows
  import RegionLayout

  /** The rows section: where it starts, how many slots it has, their size, and the row options. */
  datatype Ring = Ring(base: nat, n: nat, size: nat, options: nat) {

    ghost predicate Valid() {
      (exists e: nat :: e <= 31 && n == Pow2(e)) && ROW_HDR <= size < ROW_HDR + 0x8000_0000
    }

    /** The byte behind the last slot. */
    function End(): nat {
      base + n * size
    }

    /** The bytes of the region hold all slots. */
    predicate Within(mem: seq<byte>) {
      End() <= |mem|
    }

    function Addr(s: nat): nat {
      base + s * size
    }
  }

  /** The rows section of a created configuration. */
  function RingOf(cfg: RegionLayout.Config): Ring {
    Ring(RegionLayout.Offset(cfg, RegionLayout.Rows), cfg.num_rows, RegionLayout.RowSize(cfg), cfg.options)
  }

  lemma RingOfCreated(cfg: RegionLayout.Config, ps: nat)
    requires cfg.row_len < 0x8000_0000 && ps > 0
    ensures var c := RegionLayout.Created(cfg);
      RingOf(c).Valid() && RingOf(c).End() <= RegionLayout.ExactSize(c, ps)
  {
    hide Pow2, RoundedUp, RegionLayout.Offset, RegionLayout.AlignUp;
    var c := RegionLayout.Created(cfg);
    RegionLayout.RoundedBounds(cfg.num_rows);
    RegionLayout.BelowEnd(c, RegionLayout.Rows);
    RegionLayout.AlignUpIsLeast(RegionLayout.End(c), ps);
  }

  /** The ring's slots are the elements of the layout's rows section, so a store to one row leaves
      every byte of every other row, counter, label, variable and of the header alone. */
  lemma RowStoreLeavesOthers(cfg: RegionLayout.Config, mem: seq<byte>, s: nat, row: seq<byte>,
                             t: RegionLayout.Section, j: nat, k: nat)
    requires var ring := RingOf(cfg); s < ring.n && ring.Within(mem) && |row| == ring.size
    requires j < RegionLayout.Count(cfg, t) && (t != RegionLayout.Rows || j != s)
    requires RegionLayout.Start(cfg, t, j) <= k < RegionLayout.Stop(cfg, t, j) && k < |mem|
    ensures SetSlot(RingOf(cfg), mem, s, row)[k] == mem[k]
  {
    hide RegionLayout.Offset;
    var ring := RingOf(cfg);
    SlotInRegion(ring, s);
    assert ring.Addr(s) == RegionLayout.Start(cfg, RegionLayout.Rows, s);
    RegionLayout.ElementsApart(cfg, RegionLayout.Rows, s, t, j);
  }

  lemma ValidSize(ring: Ring)
    requires ring.Valid()
    ensures ROW_HDR <= ring.size < ROW_HDR + 0x8000_0000
  {
  }

  lemma SlotInRegion(ring: Ring, s: nat)
    requires s < ring.n
    ensures ring.Addr(s) + ring.size <= ring.End()
  {
    Stacked(s, ring.n, ring.size);
  }

  /** The bytes of slot s. */
  function Slot(ring: Ring, mem: seq<byte>, s: nat): (row: seq<byte>)
    requires s < ring.n && ring.Within(mem)
    ensures |row| == ring.size
  {
    SlotInRegion(ring, s);
    mem[ring.Addr(s)..ring.Addr(s) + ring.size]
  }

  /** The region with slot s replaced. */
  function SetSlot(ring: Ring, mem: seq<byte>, s: nat, row: seq<byte>): (m: seq<byte>)
    requires s < ring.n && ring.Within(mem) && |row| == ring.size
    ensures |m| == |mem|
  {
    SlotInRegion(ring, s);
    Store(mem, ring.Addr(s), row)
  }

  lemma SlotOfSet(ring: Ring, mem: seq<byte>, s: nat, row: seq<byte>, s': nat)
    requires s < ring.n && s' < ring.n && ring.Within(mem) && |row| == ring.size
    ensures Slot(ring, SetSlot(ring, mem, s, row), s') == if s == s' then row else Slot(ring, mem, s')
  {
    SlotInRegion(ring, s);
    SlotInRegion(ring, s');
    Stacked(s, s', ring.size);
    Stacked(s', s, ring.size);
  }

  lemma SetSlotTwice(ring: Ring, mem: seq<byte>, s: nat, row: seq<byte>, row': seq<byte>)
    requires s < ring.n && ring.Within(mem) && |row| == |row'| == ring.size
    ensures SetSlot(ring, SetSlot(ring, mem, s, row), s, row') == SetSlot(ring, mem, s, row')
  {
  }

  lemma SetSlotSame(ring: Ring, mem: seq<byte>, s: nat)
    requires s < ring.n && ring.Within(mem)
    ensures SetSlot(ring, mem, s, Slot(ring, mem, s)) == mem
  {
  }

  lemma SetSlotsCommute(ring: Ring, mem: seq<byte>, s: nat, row: seq<byte>, s': nat, row': seq<byte>)
    requires s < ring.n && s' < ring.n && s != s' && ring.Within(mem) && |row| == |row'| == ring.size
    ensures SetSlot(ring, SetSlot(ring, mem, s, row), s', row') == SetSlot(ring, SetSlot(ring, mem, s', row'), s, row)
  {
    SlotInRegion(ring, s);
    SlotInRegion(ring, s');
    Stacked(s, s', ring.size);
    Stacked(s', s, ring.size);
  }

  /** A store inside a slot is a store to that slot's row. */
  lemma StoreInSlot(ring: Ring, mem: seq<byte>, s: nat, row: seq<byte>, off: nat, b: seq<byte>)
    requires s < ring.n && ring.Within(mem) && |row| == ring.size && off + |b| <= ring.size
    ensures ring.Addr(s) + off + |b| <= |mem|
    ensures Store(SetSlot(ring, mem, s, row), ring.Addr(s) + off, b) == SetSlot(ring, mem, s, Store(row, off, b))
  {
    SlotInRegion(ring, s);
  }

  // ------------------------------------------------------------------------ tickets

  /** The row id of the j-th row ever drawn: the 32-bit counter value it was given. */
  function IdOf(j: nat): uint32 {
    ToU32(j)
  }

  lemma IdOfZero()
    ensures IdOf(0) == 0
  {
  }

  lemma IdOfNext(j: nat)
    ensures ToU32(IdOf(j) + 1) == IdOf(j + 1)
  {
    var q, r := j / U32, j % U32;
    if r + 1 < U32 {
      DivModUnique(j + 1, U32, q, r + 1);
    } else {
      DivModUnique(j + 1, U32, q + 1, 0);
    }
  }

  /** The slot of a row id: `rowid & (num_rows-1)`. */
  function SlotOfId(ring: Ring, id: uint32): nat
    requires ring.n > 0
  {
    And(id, ring.n - 1)
  }

  lemma ValidCount(ring: Ring)
    requires ring.Valid()
    ensures 1 <= ring.n <= 0x8000_0000
    ensures exists m: nat :: m > 0 && ring.n * m == U32
  {
    hide Pow2;
    var e: nat :| e <= 31 && ring.n == Pow2(e);
    Pow2Of32();
    Pow2Mono(e, 31);
    Pow2Add(e, 32 - e);
    assert ring.n * Pow2(32 - e) == U32;
  }

  /** Masking any 32-bit value with num_rows-1 takes it modulo num_rows. */
  lemma MaskedSlot(ring: Ring, id: uint32)
    requires ring.Valid()
    ensures ring.n > 0 && SlotOfId(ring, id) == id % ring.n < ring.n
  {
    hide Pow2, And;
    var e: nat :| e <= 31 && ring.n == Pow2(e);
    MaskIsMod(id, e);
  }

  /** The j-th row ever drawn gets slot j mod num_rows, however often the 32-bit counter has wrapped. */
  lemma SlotAssignment(ring: Ring, j: nat)
    requires ring.Valid()
    ensures ring.n > 0 && SlotOfId(ring, IdOf(j)) == j % ring.n < ring.n
  {
    hide Pow2, And;
    ValidCount(ring);
    MaskedSlot(ring, IdOf(j));
    var m: nat :| m > 0 && ring.n * m == U32;
    WordMod(j, ring.n, m);
  }

  /** Any num_rows consecutive tickets take num_rows different slots, and so cover all of them. */
  lemma ConsecutiveTicketsCover(ring: Ring, j: nat, s: nat)
    requires ring.Valid() && s < ring.n
    ensures exists i: nat :: j <= i < j + ring.n && SlotOfId(ring, IdOf(i)) == s
    ensures forall i: nat, i': nat :: j <= i < i' < j + ring.n ==> SlotOfId(ring, IdOf(i)) != SlotOfId(ring, IdOf(i'))
  {
    hide Ring.Valid, SlotOfId, IdOf;
    SlotAssignment(ring, 0);
    var n := ring.n;
    var i := j + (s - j) % n;
    SameResidue(j, s, n);
    SlotAssignment(ring, i);
    forall i: nat, i': nat | j <= i < i' < j + n
      ensures SlotOfId(ring, IdOf(i)) != SlotOfId(ring, IdOf(i'))
    {
      SlotAssignment(ring, i);
      SlotAssignment(ring, i');
      ResiduesDiffer(i, i', n);
    }
  }

  lemma SameResidue(j: nat, s: nat, n: nat)
    requires s < n
    ensures (j + (s - j) % n) % n == s
  {
    var q := (s - j) / n;
    DivModUnique(j + (s - j) % n, n, -q, s);
  }

  /** Two tickets less than num_rows apart have different slots. */
  lemma ResiduesDiffer(i: nat, i': nat, n: nat)
    requires i < i' < i + n
    ensures i % n != i' % n
  {
    if i % n == i' % n {
      var q, q' := i / n, i' / n;
      assert (q' - q) * n == i' - i;
      NonzeroMultiple(q' - q, n);
      assert false;
    }
  }

  // ------------------------------------------- rows written one at a time, in ticket order

  /** Everything done through one drawn row: the opening call and the later calls. */
  datatype Ticket = Ticket(job: Job, calls: seq<Call>)

  /** The slot of ticket j, and what the ticket's operations make of that slot. */
  function TicketSlot(ring: Ring, j: nat): (s: nat)
    requires ring.n > 0
    ensures s < ring.n
  {
    j % ring.n
  }

  function Played(ring: Ring, t: Ticket, j: nat, row: seq<byte>): (r: seq<byte>)
    requires ROW_HDR <= |row|
    ensures |r| == |row|
  {
    RowAfter(ring.options, IdOf(j), t.job, t.calls, row)
  }

  /** The region after the row operations of these tickets, run one ticket at a time. */
  function RunTickets(ring: Ring, mem: seq<byte>, ts: seq<Ticket>): (m: seq<byte>)
    requires ring.n > 0 && ROW_HDR <= ring.size && ring.Within(mem)
    ensures |m| == |mem|
  {
    if ts == [] then mem
    else
      var j := |ts| - 1;
      var prev := RunTickets(ring, mem, ts[..j]);
      SetSlot(ring, prev, TicketSlot(ring, j), Played(ring, ts[j], j, Slot(ring, prev, TicketSlot(ring, j))))
  }

  lemma RunTicketsStep(ring: Ring, mem: seq<byte>, ts: seq<Ticket>, j: nat)
    requires ring.n > 0 && ROW_HDR <= ring.size && ring.Within(mem) && j < |ts|
    ensures var prev := RunTickets(ring, mem, ts[..j]);
      RunTickets(ring, mem, ts[..j + 1])
      == SetSlot(ring, prev, TicketSlot(ring, j), Played(ring, ts[j], j, Slot(ring, prev, TicketSlot(ring, j))))
  {
    hide SetSlot, Slot, Played;
    assert ts[..j + 1][..j] == ts[..j];
  }
}
