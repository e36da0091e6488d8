/** Counters added to by any number of threads: no addition is lost. */
module Counters {
  import opened Bits
  import RegionLayout

  /** One log2mem_counter_add call. */
  datatype Add = Add(id: int32, amount: int32)

  /** The counters section, and for each thread the calls it still has to make. */
  datatype State = State(values: seq<int32>, todo: seq<seq<Add>>)

  /** The value of a signed 32-bit int that wraps around. */
  function Wrap(x: int): (r: int32)
    ensures (r - x) % 0x1_0000_0000 == 0
  {
    ToS32(ToU32(x))
  }

  /** The counters after one call: the slot of the id grows by the amount, wrapping to an int. */
  function Added(values: seq<int32>, a: Add): (r: seq<int32>)
    ensures |r| == |values|
  {
    var idx := RegionLayout.Index(a.id, |values|);
    if idx < |values| then values[idx := Wrap(values[idx] + a.amount)] else values
  }

  /** The counters section, updated in place. */
  class CounterSection {
    const values: array<int32>

    constructor (values: array<int32>)
      ensures this.values == values
    {
      this.values := values;
    }

    /** log2mem_counter_add: `counterid & (num_counters-1)`, then one indivisible addition. */
    method CounterAdd(id: int32, amount: int32)
      requires exists e: nat :: e <= 31 && values.Length == Pow2(e)
      modifies values
      ensures values[..] == Added(old(values[..]), Add(id, amount))
      ensures values.Length > 0 && values[id % values.Length] == Wrap(old(values[id % values.Length]) + amount)
    {
      hide Pow2, Wrap;
      ghost var e: nat :| e <= 31 && values.Length == Pow2(e);
      RegionLayout.IndexIsMod(id, e);
      var idx := And(ToU32(id), ToU32(values.Length - 1));
      values[idx] := Wrap(values[idx] + amount);
    }
  }

  /** Thread i's next addition, one indivisible step (log2mem_atomic_incr_fetch_int). */
  ghost function Next(s: State, i: nat): (s': State)
    ensures |s'.values| == |s.values| && |s'.todo| == |s.todo|
  {
    if i < |s.todo| && s.todo[i] != [] then
      State(Added(s.values, s.todo[i][0]), s.todo[i := s.todo[i][1..]])
    else s
  }

  ghost function After(s: State, schedule: seq<nat>): (s': State)
    ensures |s'.values| == |s.values| && |s'.todo| == |s.todo|
    decreases |schedule|
  {
    if schedule == [] then s else After(Next(s, schedule[0]), schedule[1..])
  }

  /** The sum of all amounts added under ids congruent to a slot. */
  function Total(adds: seq<Add>, n: nat, slot: nat): int
    requires n > 0
  {
    if adds == [] then 0
    else (if adds[0].id % n == slot then adds[0].amount else 0) + Total(adds[1..], n, slot)
  }

  function TotalOfThreads(todo: seq<seq<Add>>, n: nat, slot: nat): int
    requires n > 0
  {
    if todo == [] then 0 else Total(todo[0], n, slot) + TotalOfThreads(todo[1..], n, slot)
  }

  lemma WrapAdd(x: int, y: int)
    ensures Wrap(Wrap(x) + y) == Wrap(x + y)
  {
    var q, r := x / U32, x % U32;
    assert x == q * U32 + r;
    var w := Wrap(x);
    var c := if r < 0x8000_0000 then 0 else 1;
    assert w == r - c * U32;
    var q', r' := (x + y) / U32, (x + y) % U32;
    DivModUnique(w + y, U32, q' - q - c, r');
  }

  lemma {:induction false} TotalAfterCall(todo: seq<seq<Add>>, n: nat, slot: nat, i: nat)
    requires n > 0 && i < |todo| && todo[i] != []
    ensures TotalOfThreads(todo[i := todo[i][1..]], n, slot)
         == TotalOfThreads(todo, n, slot) - (if todo[i][0].id % n == slot then todo[i][0].amount else 0)
    decreases |todo|
  {
    if i == 0 {
      assert todo[0 := todo[0][1..]][1..] == todo[1..];
    } else {
      assert todo[i := todo[i][1..]][1..] == todo[1..][i - 1 := todo[1..][i - 1][1..]];
      TotalAfterCall(todo[1..], n, slot, i - 1);
    }
  }

  /** A counter's value and the amounts still to be added always make up the same final value. */
  lemma NextConserves(s: State, i: nat, e: nat, slot: nat)
    requires e <= 31 && |s.values| == Pow2(e) && slot < |s.values|
    ensures var s', n := Next(s, i), |s.values|;
      Wrap(s'.values[slot] + TotalOfThreads(s'.todo, n, slot)) == Wrap(s.values[slot] + TotalOfThreads(s.todo, n, slot))
  {
    hide Wrap, RegionLayout.Index, Pow2, TotalOfThreads;
    var n := |s.values|;
    if i < |s.todo| && s.todo[i] != [] {
      var a := s.todo[i][0];
      RegionLayout.IndexIsMod(a.id, e);
      TotalAfterCall(s.todo, n, slot, i);
      if a.id % n == slot {
        WrapAdd(s.values[slot] + a.amount, TotalOfThreads(Next(s, i).todo, n, slot));
      }
    }
  }

  lemma {:induction false} AfterConserves(s: State, schedule: seq<nat>, e: nat, slot: nat)
    requires e <= 31 && |s.values| == Pow2(e) && slot < |s.values|
    ensures var s', n := After(s, schedule), |s.values|;
      Wrap(s'.values[slot] + TotalOfThreads(s'.todo, n, slot)) == Wrap(s.values[slot] + TotalOfThreads(s.todo, n, slot))
    decreases |schedule|
  {
    hide Wrap, Pow2, TotalOfThreads, Next;
    if schedule == [] {
    } else {
      NextConserves(s, schedule[0], e, slot);
      AfterConserves(Next(s, schedule[0]), schedule[1..], e, slot);
    }
  }

  lemma {:induction false} NothingLeft(todo: seq<seq<Add>>, n: nat, slot: nat)
    requires n > 0 && forall i :: 0 <= i < |todo| ==> todo[i] == []
    ensures TotalOfThreads(todo, n, slot) == 0
    decreases |todo|
  {
    if todo == [] {
    } else {
      NothingLeft(todo[1..], n, slot);
    }
  }

  /** In every interleaving that lets all threads finish, each counter of a fresh region ends as the
      sum of all amounts added under ids congruent to it, wrapped to an int; there are as many counters
      as the stored configuration says. */
  lemma CountersConserve(threads: seq<seq<Add>>, schedule: seq<nat>, cfg: RegionLayout.Config, c: RegionLayout.Config,
                         slot: nat)
    requires RegionLayout.StoredFor(cfg, c) && slot < c.num_counters
    requires var s := After(State(seq(c.num_counters, k => 0), threads), schedule);
      forall i :: 0 <= i < |s.todo| ==> s.todo[i] == []
    ensures var n := c.num_counters;
      After(State(seq(n, k => 0), threads), schedule).values[slot] == Wrap(TotalOfThreads(threads, n, slot))
  {
    RegionLayout.StoredIsCreated(cfg, c);
    hide After, Pow2, TotalOfThreads, RegionLayout.StoredFor, RoundedUp;
    var n := c.num_counters;
    RegionLayout.RoundedBounds(cfg.num_counters);
    var e: nat :| e <= 31 && n == Pow2(e);
    var s := State(seq(n, k => 0), threads);
    var s' := After(s, schedule);
    AfterConserves(s, schedule, e, slot);
    NothingLeft(s'.todo, n, slot);
    WrapOfInt(s'.values[slot]);
  }

  lemma WrapOfInt(x: int32)
    ensures Wrap(x) == x
  {
    if x >= 0 { DivModUnique(x, U32, 0, x); } else { DivModUnique(x, U32, -1, x + U32); }
  }
}
