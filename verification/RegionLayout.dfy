/** How the memory-mapped region is divided into sections: configuration rounding, the layout
    computation of the writer and the attacher, and why no two elements ever share a byte. */
module RegionLayout {
  import opened Bits
  import Rows

  // Structure sizes on x86_64
  const MM_HEADER_SIZE: nat := 256  // MEMLOG_MM_HEADER_SIZE, the space set aside
  const HEADER: nat := 92           // sizeof(struct log2mem_mm_header)
  const COUNTER: nat := 8
  const LABEL: nat := 64
  const VAR_DOUBLE: nat := 80
  const VAR_INT: nat := 72

  /** struct log2mem_config. */
  datatype Config = Config(options: nat, num_counters: uint32, num_rows: uint32, row_len: uint32, num_vars: uint32)

  /** calc_row_total_size. */
  function RowSize(cfg: Config): nat {
    Rows.ROW_HDR + cfg.row_len
  }

  // ------------------------------------------------------------- rounding the counts

  /** A count after rounding and the bump away from zero. */
  function Rounded(n: uint32): nat {
    if RoundedUp(n) == 0 then 1 else RoundedUp(n)
  }

  /** The configuration stored in the header by __log2mem_create; num_vars is not bumped. */
  function Created(cfg: Config): (c: Config) {
    RoundedBounds(cfg.num_counters);
    RoundedBounds(cfg.num_rows);
    RoundedBounds(cfg.num_vars);
    cfg.(num_counters := Rounded(cfg.num_counters), num_rows := Rounded(cfg.num_rows),
         num_vars := RoundedUp(cfg.num_vars))
  }

  lemma RoundedBounds(n: uint32)
    ensures 0 <= RoundedUp(n) <= 0x8000_0000
    ensures exists e: nat :: e <= 31 && Rounded(n) == Pow2(e)
    ensures RoundedUp(n) != 0 <==> 1 <= n <= 0x8000_0000
  {
    if 1 <= n <= 0x8000_0000 {
      RoundedUpIsLeast(n);
    } else {
      assert Rounded(n) == Pow2(0);
    }
  }

  /** n is the least power of two that is not below v. */
  ghost predicate LeastPow2(n: nat, v: nat) {
    IsPow2(n) && v <= n && forall p: nat :: IsPow2(p) && v <= p ==> n <= p
  }

  /** How a count is stored: the least power of two not below the request, and `other` if the request
      is 0 or above 2^31. */
  ghost predicate StoredCount(n: nat, v: nat, other: nat) {
    if 1 <= v <= 0x8000_0000 then LeastPow2(n, v) else n == other
  }

  /** What __log2mem_create makes of a requested configuration. */
  ghost predicate StoredFor(cfg: Config, c: Config) {
    && StoredCount(c.num_counters, cfg.num_counters, 1)
    && StoredCount(c.num_rows, cfg.num_rows, 1)
    && StoredCount(c.num_vars, cfg.num_vars, 0)
    && c.row_len == cfg.row_len && c.options == cfg.options
  }

  lemma CreatedIsStored(cfg: Config)
    ensures StoredFor(cfg, Created(cfg))
  {
    RoundedIsStored(cfg.num_counters);
    RoundedIsStored(cfg.num_rows);
    RoundedIsStored(cfg.num_vars);
  }

  lemma RoundedIsStored(n: uint32)
    ensures StoredCount(RoundedUp(n), n, 0) && StoredCount(Rounded(n), n, 1)
  {
    hide Pow2, RoundedUp;
    RoundedBounds(n);
    if 1 <= n <= 0x8000_0000 {
      RoundedUpIsLeast(n);
      assert IsPow2(RoundedUp(n));
    }
  }

  /** There is only one such configuration. */
  lemma StoredIsCreated(cfg: Config, c: Config)
    requires StoredFor(cfg, c)
    ensures c == Created(cfg)
  {
    CreatedIsStored(cfg);
    hide IsPow2;
  }

  /** The rounding statements of __log2mem_create. */
  method RoundCounts(cfg: Config) returns (c: Config)
    ensures StoredFor(cfg, c) && c == Created(cfg)
  {
    c := cfg;
    RoundedBounds(cfg.num_counters);
    RoundedBounds(cfg.num_rows);
    RoundedBounds(cfg.num_vars);
    CreatedIsStored(cfg);
    hide StoredFor;
    var n := RoundUpNextPowerOf2(c.num_counters);
    c := c.(num_counters := n);
    c := c.(num_counters := c.num_counters + (if c.num_counters == 0 then 1 else 0));
    n := RoundUpNextPowerOf2(c.num_rows);
    c := c.(num_rows := n);
    c := c.(num_rows := c.num_rows + (if c.num_rows == 0 then 1 else 0));
    n := RoundUpNextPowerOf2(c.num_vars);
    c := c.(num_vars := n);
  }

  /** The index an id selects among `count` elements: `id & (count-1)` on 32-bit words. */
  function Index(id: int, count: nat): nat {
    And(ToU32(id), ToU32(count - 1))
  }

  /** Counters and rows: in the stored configuration every id, negative ones included, selects the
      element id mod count. */
  lemma IndexInCreated(cfg: Config, c: Config, id: int)
    requires StoredFor(cfg, c)
    ensures Index(id, c.num_counters) == id % c.num_counters < c.num_counters
    ensures Index(id, c.num_rows) == id % c.num_rows < c.num_rows
  {
    hide Index, StoredFor, RoundedUp;
    StoredIsCreated(cfg, c);
    RoundedBounds(cfg.num_counters);
    RoundedBounds(cfg.num_rows);
    var e: nat :| e <= 31 && c.num_counters == Pow2(e);
    IndexIsMod(id, e);
    var e': nat :| e' <= 31 && c.num_rows == Pow2(e');
    IndexIsMod(id, e');
  }

  lemma IndexIsMod(id: int, e: nat)
    requires e <= 31
    ensures Index(id, Pow2(e)) == id % Pow2(e)
  {
    hide And, Pow2;
    var n := Pow2(e);
    MaskIsMod(ToU32(id), e);
    Pow2Of32();
    Pow2Mono(e, 31);
    SmallWord(n - 1);
    Pow2Add(e, 32 - e);
    WordMod(id, n, Pow2(32 - e));
  }

  /** Variables, whose count is not bumped: the index stays in the section for every id exactly
      when the requested count was between 1 and 2^31. */
  lemma VarIndexInBounds(cfg: Config, c: Config)
    requires StoredFor(cfg, c)
    ensures (forall id: uint32 :: Index(id, c.num_vars) < c.num_vars) <==> 1 <= cfg.num_vars <= 0x8000_0000
    ensures 1 <= cfg.num_vars <= 0x8000_0000 ==> forall id: uint32 :: Index(id, c.num_vars) == id % c.num_vars
  {
    StoredIsCreated(cfg, c);
    hide StoredFor;
    RoundedBounds(cfg.num_vars);
    if 1 <= cfg.num_vars <= 0x8000_0000 {
      hide Index, RoundedUp;
      var e: nat :| e <= 31 && c.num_vars == Pow2(e);
      forall id: uint32 ensures Index(id, c.num_vars) == id % c.num_vars < c.num_vars {
        IndexIsMod(id, e);
      }
    } else {
      var id: uint32 := 0;
      assert !(Index(id, c.num_vars) < c.num_vars);
    }
  }

  /** With no variables requested, the mask is all ones and every id indexes itself: out of bounds. */
  lemma NoVarsIndexEscapes(cfg: Config, c: Config, id: uint32)
    requires StoredFor(cfg, c) && cfg.num_vars == 0
    ensures Index(id, c.num_vars) == id
  {
    hide And, Pow2;
    Pow2Of32();
    MaskIsMod(id, 32);
    SmallWord(id);
  }

  // --------------------------------------------------------------------- the layout

  /** x rounded up to a multiple of a. */
  function AlignUp(x: nat, a: nat): nat
    requires a > 0
  {
    x + a - 1 - (x + a - 1) % a
  }

  lemma AlignUpIsLeast(x: nat, a: nat)
    requires a > 0
    ensures AlignUp(x, a) % a == 0 && x <= AlignUp(x, a) < x + a
    ensures forall m: nat :: m % a == 0 && x <= m ==> AlignUp(x, a) <= m
  {
    var y := AlignUp(x, a);
    var q := (x + a - 1) / a;
    assert y == q * a + 0;
    DivModUnique(y, a, q, 0);
    forall m: nat | m % a == 0 && x <= m ensures y <= m {
      var k := m / a;
      assert m == k * a;
      if m < y {
        assert (q - k) * a == y - m;
        NonzeroMultiple(q - k, a);
        NonzeroMultiple(k - q, a);
      }
    }
  }

  /** The sections, in address order. */
  datatype Section = Header | Counters | Rows | Labels | DoubleVars | IntVars

  function Count(cfg: Config, s: Section): nat {
    match s
    case Header => 1
    case Counters => cfg.num_counters
    case Rows => cfg.num_rows
    case Labels => cfg.num_counters
    case DoubleVars => cfg.num_vars
    case IntVars => cfg.num_vars
  }

  function ElemSize(cfg: Config, s: Section): nat {
    match s
    case Header => HEADER
    case Counters => COUNTER
    case Rows => RowSize(cfg)
    case Labels => LABEL
    case DoubleVars => VAR_DOUBLE
    case IntVars => VAR_INT
  }

  function Bytes(cfg: Config, s: Section): nat {
    Count(cfg, s) * ElemSize(cfg, s)
  }

  /** The position of a section in address order. */
  function Rank(s: Section): nat {
    match s
    case Header => 0
    case Counters => 1
    case Rows => 2
    case Labels => 3
    case DoubleVars => 4
    case IntVars => 5
  }

  function Previous(s: Section): (p: Section)
    requires s != Header
    ensures Rank(p) == Rank(s) - 1
  {
    match s
    case Counters => Header
    case Rows => Counters
    case Labels => Rows
    case DoubleVars => Labels
    case IntVars => DoubleVars
  }

  /** The offset of a section in unbounded arithmetic: behind the previous one, on an 8-byte boundary. */
  function Offset(cfg: Config, s: Section): nat
    decreases Rank(s)
  {
    if s == Header then 0
    else if s == Counters then MM_HEADER_SIZE
    else Offset(cfg, Previous(s)) + AlignUp(Bytes(cfg, Previous(s)), 8)
  }

  /** x rounded up to a multiple of 8, as bytes of a section. */
  function UpTo8(x: int): int {
    (x + 7) / 8 * 8
  }

  /** The layout in numbers: 256 bytes for the header, then 8 bytes a counter, 24 and the payload a row,
      64 bytes a counter label, 80 a double and 72 an int variable, in this order, each section from the
      next multiple of 8; and the end of the last. */
  lemma LayoutInNumbers(cfg: Config)
    ensures Offset(cfg, Counters) == 256
    ensures Offset(cfg, Rows) == 256 + UpTo8(8 * cfg.num_counters)
    ensures Offset(cfg, Labels) == Offset(cfg, Rows) + UpTo8((24 + cfg.row_len) * cfg.num_rows)
    ensures Offset(cfg, DoubleVars) == Offset(cfg, Labels) + UpTo8(64 * cfg.num_counters)
    ensures Offset(cfg, IntVars) == Offset(cfg, DoubleVars) + UpTo8(80 * cfg.num_vars)
    ensures End(cfg) == Offset(cfg, IntVars) + 72 * cfg.num_vars
  {
    AlignIsUpTo8(Bytes(cfg, Counters));
    AlignIsUpTo8(Bytes(cfg, Rows));
    AlignIsUpTo8(Bytes(cfg, Labels));
    AlignIsUpTo8(Bytes(cfg, DoubleVars));
    BytesInNumbers(cfg);
    hide AlignUp, UpTo8, Bytes;
  }

  lemma BytesInNumbers(cfg: Config)
    ensures Bytes(cfg, Counters) == 8 * cfg.num_counters && Bytes(cfg, Rows) == (24 + cfg.row_len) * cfg.num_rows
    ensures Bytes(cfg, Labels) == 64 * cfg.num_counters
    ensures Bytes(cfg, DoubleVars) == 80 * cfg.num_vars && Bytes(cfg, IntVars) == 72 * cfg.num_vars
  {
  }

  lemma AlignIsUpTo8(x: nat)
    ensures AlignUp(x, 8) == UpTo8(x)
  {
  }

  /** The end of the last section. */
  function End(cfg: Config): nat {
    Offset(cfg, IntVars) + Bytes(cfg, IntVars)
  }

  function ExactSize(cfg: Config, ps: nat): nat
    requires ps > 0
  {
    AlignUp(End(cfg), ps)
  }

  /** No int in the layout computation overflows: the page-rounding sum stays below 2^31. */
  ghost predicate Fits(cfg: Config, ps: nat) {
    IsPow2(ps) && End(cfg) + ps - 1 < 0x8000_0000
  }

  /** __default_log2mem_init: file and line, thread id, 16 counters, 2^16 rows of 256 bytes, 10 variables. */
  const DEFAULT: Config := Config(3, 16, 0x1_0000, 256, 10)

  /** The default configuration, as created: only the variable count is rounded; and it fits on common pages. */
  lemma DefaultFits()
    ensures Created(DEFAULT) == DEFAULT.(num_vars := 16) && Fits(Created(DEFAULT), 4096)
  {
    hide AlignUp, Offset, Bytes;
    assert Pow2(4) == 16 && Pow2(8) == 256;
    Pow2Add(8, 4);
    Pow2Add(8, 8);
    RoundedPower(16, 4);
    RoundedPower(0x1_0000, 16);
    assert BitLen(9) == 4;
    DefaultSections(DEFAULT.(num_vars := 16));
  }

  /** A power of two is not changed by rounding. */
  lemma RoundedPower(n: uint32, e: nat)
    requires e <= 31 && n == Pow2(e)
    ensures RoundedUp(n) == n
  {
    Pow2Of32();
    Pow2Mono(e, 31);
    RoundedUpIsLeast(n);
    assert IsPow2(n);
  }

  lemma DefaultSections(c: Config)
    requires c == DEFAULT.(num_vars := 16)
    ensures End(c) == 18_353_920
  {
    assert AlignUp(16 * COUNTER, 8) == 128 && AlignUp(16 * LABEL, 8) == 1024 && AlignUp(16 * VAR_DOUBLE, 8) == 1280;
    assert AlignUp(0x1_0000 * 280, 8) == 0x1_0000 * 280;
    hide AlignUp;
    assert Offset(c, Rows) == 384;
    assert Offset(c, Labels) == 384 + 0x1_0000 * 280;
    assert Offset(c, DoubleVars) == Offset(c, Labels) + 1024;
    assert Offset(c, IntVars) == Offset(c, DoubleVars) + 1280;
  }

  // ---- the machine arithmetic of the source

  /** Assignment of a size_t (or int) value to an int. */
  function Int32(x: nat): int32 {
    ToS32(x % U32)
  }

  /** `(x + 8-1) & ~(8-1)` in size_t. */
  function AlignSizeT(x: nat): nat {
    And((x + 7) % U64, U64 - 8)
  }

  /** `(x + ps - 1) & ~(ps - 1)` in int, for values that stay non-negative. */
  function AlignInt(x: nat, ps: nat): nat
    requires 1 <= ps <= 0x8000_0000
  {
    And(ToU32(x + ps - 1), U32 - ps)
  }

  lemma AlignSizeTIsAlignUp(x: nat)
    requires x + 7 < U64
    ensures AlignSizeT(x) == AlignUp(x, 8)
  {
    assert Pow2(3) == 8;
    hide And, Pow2;
    Pow2Of64();
    DivModUnique(x + 7, U64, 0, x + 7);
    MaskHighRoundsDown(x + 7, 3, 64);
  }

  lemma AlignIntIsAlignUp(x: nat, ps: nat)
    requires IsPow2(ps) && x + ps - 1 < 0x8000_0000
    ensures 1 <= ps <= 0x8000_0000
    ensures AlignInt(x, ps) == AlignUp(x, ps)
  {
    hide And, Pow2;
    var k: nat :| ps == Pow2(k);
    Pow2Of32();
    if k > 31 { Pow2Mono(32, k); }
    SmallWord(x + ps - 1);
    MaskHighRoundsDown(x + ps - 1, k, 32);
  }

  /** One section step of the source, `int = int + aligned size_t`, is exact while it fits an int. */
  lemma SectionStep(off: nat, bytes: nat)
    requires off + AlignUp(bytes, 8) < 0x8000_0000
    ensures Int32((off + AlignSizeT(bytes % U64)) % U64) == off + AlignUp(bytes, 8)
  {
    hide AlignUp, AlignSizeT, Int32;
    AlignUpIsLeast(bytes, 8);
    Int32Exact(bytes);
    AlignSizeTIsAlignUp(bytes);
    Int32Exact(off + AlignUp(bytes, 8));
  }

  /** The last section's end, and its rounding to pages, are exact while they fit an int. */
  lemma PageStep(cfg: Config, ps: nat)
    requires ps > 0 && Fits(cfg, ps)
    ensures Int32((Offset(cfg, IntVars) + (cfg.num_vars * VAR_INT) % U64) % U64) == End(cfg)
    ensures ps <= 0x8000_0000 && Int32(AlignInt(End(cfg), ps)) == ExactSize(cfg, ps)
  {
    hide Offset, AlignUp, AlignInt, Int32, Fits;
    var last := cfg.num_vars * VAR_INT;
    assert End(cfg) == Offset(cfg, IntVars) + last;
    assert IsPow2(ps) && End(cfg) + ps - 1 < 0x8000_0000 by { FitsMeans(cfg, ps); }
    Int32Exact(last);
    Int32Exact(End(cfg));
    AlignIntIsAlignUp(End(cfg), ps);
    AlignUpIsLeast(End(cfg), ps);
    Int32Exact(AlignUp(End(cfg), ps));
  }

  lemma FitsMeans(cfg: Config, ps: nat)
    requires Fits(cfg, ps)
    ensures IsPow2(ps) && End(cfg) + ps - 1 < 0x8000_0000
  {
  }

  lemma Int32Exact(x: nat)
    requires x < 0x8000_0000
    ensures Int32(x) == x && x % U64 == x
  {
  }

  lemma OffsetBounded(cfg: Config, ps: nat, s: Section)
    requires ps > 0 && Fits(cfg, ps)
    ensures Offset(cfg, s) < 0x8000_0000
  {
    hide Offset, Bytes, IsPow2;
    BelowEnd(cfg, s);
  }

  /** struct log2mem_layout. */
  class Layout {
    var size: int32
    var counters_off: int32
    var rows_off: int32
    var counter_labels_off: int32
    var double_vars_off: int32
    var int_vars_off: int32

    constructor () {
      size, counters_off, rows_off, counter_labels_off, double_vars_off, int_vars_off := 0, 0, 0, 0, 0, 0;
    }

    /** The layout is the exact one for cfg, with no truncation anywhere. */
    ghost predicate IsFor(cfg: Config, ps: nat)
      requires ps > 0
      reads this
    {
      counters_off == Offset(cfg, Counters) && rows_off == Offset(cfg, Rows) &&
      counter_labels_off == Offset(cfg, Labels) && double_vars_off == Offset(cfg, DoubleVars) &&
      int_vars_off == Offset(cfg, IntVars) && size == ExactSize(cfg, ps)
    }

    /** log2mem_calculate_layout, in the 32-bit and 64-bit arithmetic of the source. */
    method Calculate(cfg: Config, ps: nat)
      requires ps > 0 && Fits(cfg, ps)
      modifies this
      ensures IsFor(cfg, ps)
    {
      hide AlignUp, AlignSizeT, AlignInt, Int32, Fits, Bytes, Offset, End, ExactSize, RowSize, Layout.IsFor;
      BytesWritten(cfg);
      counters_off := MM_HEADER_SIZE;
      NextOffset(cfg, ps, Rows);
      rows_off := Int32((counters_off + AlignSizeT((cfg.num_counters * COUNTER) % U64)) % U64);
      NextOffset(cfg, ps, Labels);
      counter_labels_off := Int32((rows_off + AlignSizeT((cfg.num_rows * RowSize(cfg)) % U64)) % U64);
      NextOffset(cfg, ps, DoubleVars);
      double_vars_off := Int32((counter_labels_off + AlignSizeT((cfg.num_counters * LABEL) % U64)) % U64);
      NextOffset(cfg, ps, IntVars);
      int_vars_off := Int32((double_vars_off + AlignSizeT((cfg.num_vars * VAR_DOUBLE) % U64)) % U64);
      PageStep(cfg, ps);
      size := Int32((int_vars_off + (cfg.num_vars * VAR_INT) % U64) % U64);
      size := Int32(AlignInt(size, ps));
      LaidOut(cfg, ps);
    }

    lemma LaidOut(cfg: Config, ps: nat)
      requires ps > 0 && counters_off == Offset(cfg, Counters)
      requires rows_off == Offset(cfg, Rows) && counter_labels_off == Offset(cfg, Labels)
      requires double_vars_off == Offset(cfg, DoubleVars) && int_vars_off == Offset(cfg, IntVars)
      requires size == ExactSize(cfg, ps)
      ensures IsFor(cfg, ps)
    {
    }
  }

  /** The products of the source are the section sizes. */
  lemma BytesWritten(cfg: Config)
    ensures Offset(cfg, Counters) == MM_HEADER_SIZE
    ensures cfg.num_counters * COUNTER == Bytes(cfg, Counters)
    ensures cfg.num_rows * RowSize(cfg) == Bytes(cfg, Rows)
    ensures cfg.num_counters * LABEL == Bytes(cfg, Labels)
    ensures cfg.num_vars * VAR_DOUBLE == Bytes(cfg, DoubleVars)
  {
  }

  lemma NextOffset(cfg: Config, ps: nat, s: Section)
    requires ps > 0 && Fits(cfg, ps) && Rank(s) >= 2
    ensures s != Header
    ensures Int32((Offset(cfg, Previous(s)) + AlignSizeT(Bytes(cfg, Previous(s)) % U64)) % U64) == Offset(cfg, s)
    ensures Previous(Rows) == Counters && Previous(Labels) == Rows && Previous(DoubleVars) == Labels
         && Previous(IntVars) == DoubleVars
  {
    hide AlignUp, AlignSizeT, Int32, Fits, Bytes;
    OffsetBounded(cfg, ps, s);
    SectionStep(Offset(cfg, Previous(s)), Bytes(cfg, Previous(s)));
  }

  /** A section ends before any later one begins. */
  lemma {:induction false} EndsBefore(cfg: Config, s: Section, t: Section)
    requires Rank(s) < Rank(t)
    ensures Offset(cfg, s) + Bytes(cfg, s) <= Offset(cfg, t)
    decreases Rank(t)
  {
    hide AlignUp;
    var p := Previous(t);
    if t == Counters {
      assert s == Header;
    } else {
      AlignUpIsLeast(Bytes(cfg, p), 8);
      if s != p { EndsBefore(cfg, s, p); }
    }
  }

  lemma BelowEnd(cfg: Config, s: Section)
    ensures Offset(cfg, s) + Bytes(cfg, s) <= End(cfg)
  {
    hide Bytes, Offset;
    if s != IntVars { EndsBefore(cfg, s, IntVars); }
  }

  // ------------------------------------------------------------- layout soundness

  /** The first byte of element i of a section, and the byte behind it. */
  function Start(cfg: Config, s: Section, i: nat): nat {
    Offset(cfg, s) + i * ElemSize(cfg, s)
  }

  function Stop(cfg: Config, s: Section, i: nat): nat {
    Start(cfg, s, i) + ElemSize(cfg, s)
  }

  /** An element lies inside its own section, and that inside the region. */
  lemma ElementInside(cfg: Config, s: Section, i: nat, ps: nat)
    requires ps > 0 && i < Count(cfg, s)
    ensures Offset(cfg, s) <= Start(cfg, s, i)
    ensures Stop(cfg, s, i) <= Offset(cfg, s) + Bytes(cfg, s) <= ExactSize(cfg, ps)
  {
    hide Offset, Count, ElemSize, ExactSize;
    Stacked(i, Count(cfg, s), ElemSize(cfg, s));
    SectionInside(cfg, s, ps);
  }

  lemma SectionInside(cfg: Config, s: Section, ps: nat)
    requires ps > 0
    ensures Offset(cfg, s) + Bytes(cfg, s) <= ExactSize(cfg, ps)
  {
    hide Offset, AlignUp, Bytes, End;
    BelowEnd(cfg, s);
    AlignUpIsLeast(End(cfg), ps);
  }

  /** No two elements, of the same or of different sections, share a byte. */
  lemma ElementsApart(cfg: Config, s: Section, i: nat, t: Section, j: nat)
    requires i < Count(cfg, s) && j < Count(cfg, t) && (s != t || i != j)
    ensures Stop(cfg, s, i) <= Start(cfg, t, j) || Stop(cfg, t, j) <= Start(cfg, s, i)
  {
    hide Offset, Count, ElemSize;
    ElementInside(cfg, s, i, 1);
    ElementInside(cfg, t, j, 1);
    if s == t {
      Stacked(i, j, ElemSize(cfg, s));
      Stacked(j, i, ElemSize(cfg, s));
    } else {
      RanksDiffer(s, t);
      if Rank(s) < Rank(t) { EndsBefore(cfg, s, t); } else { EndsBefore(cfg, t, s); }
    }
  }

  lemma RanksDiffer(s: Section, t: Section)
    requires s != t
    ensures Rank(s) != Rank(t)
  {
  }

  /** Every section starts on an 8-byte boundary. */
  lemma {:induction false} SectionsAligned(cfg: Config, s: Section)
    ensures Offset(cfg, s) % 8 == 0
    decreases Rank(s)
  {
    hide AlignUp, Bytes;
    if s == Header || s == Counters {
    } else {
      var p := Previous(s);
      SectionsAligned(cfg, p);
      AlignUpIsLeast(Bytes(cfg, p), 8);
      SumAligned(Offset(cfg, p), AlignUp(Bytes(cfg, p), 8));
    }
  }

  lemma SumAligned(a: nat, b: nat)
    requires a % 8 == 0 && b % 8 == 0
    ensures (a + b) % 8 == 0
  {
  }

  /** The region is the smallest number of whole pages that holds all sections. */
  lemma SizeIsLeast(cfg: Config, ps: nat)
    requires ps > 0
    ensures ExactSize(cfg, ps) % ps == 0 && End(cfg) <= ExactSize(cfg, ps)
    ensures forall m: nat :: m % ps == 0 && End(cfg) <= m ==> ExactSize(cfg, ps) <= m
  {
    hide AlignUp;
    AlignUpIsLeast(End(cfg), ps);
  }

  // -------------------------------------------------------- creating and attaching

  /** struct log2mem_mm_header, as far as it is read back. */
  class MmHeader {
    var config: Config
    var nextrow: uint32

    constructor (config: Config)
      ensures this.config == config && nextrow == 0
    {
      this.config := config;
      nextrow := 0;
    }
  }

  /** struct log2mem_handle: the section pointers, as offsets from the start of the mapping. */
  class Handle {
    const header: MmHeader
    var counters: int32
    var rows: int32
    var counter_labels: int32
    var double_vars: int32
    var int_vars: int32

    /** The pointers are the exact section offsets of the configuration in the header. */
    ghost predicate Points()
      reads this, header
    {
      counters == Offset(header.config, Counters) && rows == Offset(header.config, Rows) &&
      counter_labels == Offset(header.config, Labels) && double_vars == Offset(header.config, DoubleVars) &&
      int_vars == Offset(header.config, IntVars)
    }

    /** __log2mem_create: round the counts, lay out, store the rounded configuration. */
    constructor Create(userconfig: Config, ps: nat)
      requires ps > 0 && Fits(Created(userconfig), ps)
      ensures fresh(header) && StoredFor(userconfig, header.config) && header.nextrow == 0
      ensures header.config == Created(userconfig)
      ensures Points()
    {
      var config := RoundCounts(userconfig);
      var layout := new Layout();
      layout.Calculate(config, ps);
      counters := layout.counters_off;
      rows := layout.rows_off;
      counter_labels := layout.counter_labels_off;
      double_vars := layout.double_vars_off;
      int_vars := layout.int_vars_off;
      header := new MmHeader(config);
    }

    /** __log2mem_calculate_section_pointers on a mapping whose header is already there:
        it ends with the same pointers as the creator's, since both are those of the stored configuration. */
    constructor Attach(mmhdr: MmHeader, ps: nat)
      requires ps > 0 && Fits(mmhdr.config, ps)
      ensures header == mmhdr && Points()
    {
      var layout := new Layout();
      layout.Calculate(mmhdr.config, ps);
      header := mmhdr;
      counters := layout.counters_off;
      rows := layout.rows_off;
      counter_labels := layout.counter_labels_off;
      double_vars := layout.double_vars_off;
      int_vars := layout.int_vars_off;
    }
  }
}
