/** Double-checked initialisation under a spinlock: all interleavings of any number of first callers. */
module InitLock {
  import opened Options

  /** How far a caller of log2mem_init (through any API function) has come. A thread that calls
      log2mem_init itself is one whose Prepare step has been scheduled before everything else. */
  datatype PC =
    | Prepare        // the unlocked test of the PREPARE_PTR macro
    | FirstCheck     // the unlocked test inside log2mem_init
    | Spin           // while (test_and_set(lock, 1)) {}
    | SecondCheck    // the locked test
    | Build(i: nat)  // __log2mem_create: i stages of the handle are done
    | Publish        // g_log2mem = handle
    | Unlock         // release the lock
    | Returned

  /** The number of stages in which __log2mem_create fills in the handle it has allocated. */
  const STAGES: nat := 6  // filename, file, mapping, cleared memory, section pointers, header

  /** The global handle and lock word, how far each handle ever allocated has been built, and the callers. */
  datatype State = State(handle: Option<nat>, lock: bool, built: seq<nat>, pcs: seq<PC>)

  ghost function Init(callers: nat): State {
    State(None, false, [], seq(callers, i => Prepare))
  }

  /** Caller i takes its next step; an unsuccessful test-and-set leaves everything as it is. */
  ghost function Next(s: State, i: nat): State
    requires i < |s.pcs|
  {
    match s.pcs[i]
    case Prepare => s.(pcs := s.pcs[i := if s.handle == None then FirstCheck else Returned])
    case FirstCheck => s.(pcs := s.pcs[i := if s.handle == None then Spin else Returned])
    case Spin => if s.lock then s else s.(lock := true, pcs := s.pcs[i := SecondCheck])
    case SecondCheck =>
      if s.handle == None then s.(built := s.built + [0], pcs := s.pcs[i := Build(0)])
      else s.(pcs := s.pcs[i := Unlock])
    case Build(k) =>
      if k < STAGES && s.built != [] then
        s.(built := s.built[|s.built| - 1 := k + 1], pcs := s.pcs[i := Build(k + 1)])
      else s.(pcs := s.pcs[i := Publish])
    case Publish =>
      if s.built != [] then s.(handle := Some(|s.built| - 1), pcs := s.pcs[i := Unlock]) else s
    case Unlock => s.(lock := false, pcs := s.pcs[i := Returned])
    case Returned => s
  }

  /** The state after a schedule, a sequence of caller numbers. */
  ghost function After(callers: nat, schedule: seq<nat>): (s: State)
    requires forall k :: 0 <= k < |schedule| ==> schedule[k] < callers
    ensures |s.pcs| == callers
  {
    if schedule == [] then Init(callers)
    else Next(After(callers, schedule[..|schedule| - 1]), schedule[|schedule| - 1])
  }

  /** Between taking the lock and releasing it. */
  predicate Locked(pc: PC) {
    pc.SecondCheck? || pc.Build? || pc.Publish? || pc.Unlock?
  }

  /** Inside __log2mem_create, up to the assignment of its result. */
  predicate Creating(pc: PC) {
    pc.Build? || pc.Publish?
  }

  /** A handle that can be used: set, and built to the end. */
  predicate Ready(s: State) {
    s.handle == Some(0) && |s.built| == 1 && s.built[0] == STAGES
  }

  ghost predicate Inv(s: State) {
    && (forall i, j :: 0 <= i < j < |s.pcs| ==> !(Locked(s.pcs[i]) && Locked(s.pcs[j])))
    && (s.lock <==> exists i :: 0 <= i < |s.pcs| && Locked(s.pcs[i]))
    && (s.handle == None || Ready(s))
    && (s.handle == None ==> (s.built == [] || exists i :: 0 <= i < |s.pcs| && Creating(s.pcs[i])))
    && (forall i :: 0 <= i < |s.pcs| && Creating(s.pcs[i]) ==>
          s.handle == None && |s.built| == 1
          && s.built[0] == (if s.pcs[i].Build? then s.pcs[i].i else STAGES) <= STAGES)
    && (forall i :: 0 <= i < |s.pcs| && (s.pcs[i].Unlock? || s.pcs[i].Returned?) ==> Ready(s))
  }

  lemma InvStep(s: State, i: nat)
    requires Inv(s) && i < |s.pcs|
    ensures Inv(Next(s, i))
  {
    var s' := Next(s, i);
    forall j | 0 <= j < |s.pcs| && j != i ensures s'.pcs[j] == s.pcs[j] {}
    match s.pcs[i]
    case Prepare =>
    case FirstCheck =>
    case Spin => if !s.lock { assert Locked(s'.pcs[i]); }
    case SecondCheck =>
      assert Locked(s.pcs[i]) && Locked(s'.pcs[i]);
      if s.handle == None { assert Creating(s'.pcs[i]); }
    case Build(k) => assert Locked(s.pcs[i]) && Creating(s.pcs[i]) && Locked(s'.pcs[i]) && Creating(s'.pcs[i]);
    case Publish => assert Locked(s.pcs[i]) && Creating(s.pcs[i]) && Locked(s'.pcs[i]);
    case Unlock => assert Locked(s.pcs[i]);
    case Returned =>
  }

  lemma {:induction false} InvAlways(callers: nat, schedule: seq<nat>)
    requires forall k :: 0 <= k < |schedule| ==> schedule[k] < callers
    ensures Inv(After(callers, schedule))
    decreases |schedule|
  {
    if schedule == [] {
    } else {
      InvAlways(callers, schedule[..|schedule| - 1]);
      InvStep(After(callers, schedule[..|schedule| - 1]), schedule[|schedule| - 1]);
    }
  }

  /** In every interleaving: at most one caller is between lock and unlock, __log2mem_create is
      entered at most once, and whoever returned sees the one handle, completely built. */
  lemma SafeInitialisation(callers: nat, schedule: seq<nat>)
    requires forall k :: 0 <= k < |schedule| ==> schedule[k] < callers
    ensures var s := After(callers, schedule);
      && (forall i, j :: 0 <= i < callers && 0 <= j < callers && Locked(s.pcs[i]) && Locked(s.pcs[j]) ==> i == j)
      && |s.built| <= 1
      && (s.handle.Some? ==> Ready(s))
      && (forall i :: 0 <= i < callers && s.pcs[i].Returned? ==> Ready(s))
  {
    InvAlways(callers, schedule);
    var s := After(callers, schedule);
    assert s.handle == None && s.built != [] ==> exists i :: 0 <= i < |s.pcs| && Creating(s.pcs[i]);
  }

  lemma HandleKept(s: State, i: nat)
    requires Inv(s) && i < |s.pcs| && s.handle.Some?
    ensures Next(s, i).handle == s.handle && Next(s, i).built == s.built
  {
  }

  /** A published handle is never replaced and never changes again, however the run goes on. */
  lemma {:induction false} HandleNeverChanges(callers: nat, schedule: seq<nat>, a: nat)
    requires forall k :: 0 <= k < |schedule| ==> schedule[k] < callers
    requires a <= |schedule| && After(callers, schedule[..a]).handle.Some?
    ensures After(callers, schedule).handle == After(callers, schedule[..a]).handle
    ensures After(callers, schedule).built == After(callers, schedule[..a]).built
    decreases |schedule|
  {
    hide Next, Inv;
    if a == |schedule| {
      assert schedule[..a] == schedule;
    } else {
      var init := schedule[..|schedule| - 1];
      assert init[..a] == schedule[..a];
      HandleNeverChanges(callers, init, a);
      InvAlways(callers, init);
      HandleKept(After(callers, init), schedule[|schedule| - 1]);
    }
  }

  // ---------------------------------------------------------------- progress

  /** An upper bound on the steps a caller still has to make, spinning aside. */
  function Rank(pc: PC): nat {
    match pc
    case Prepare => STAGES + 7
    case FirstCheck => STAGES + 6
    case Spin => STAGES + 5
    case SecondCheck => STAGES + 4
    case Build(k) => 3 + (if k < STAGES then STAGES - k else 0)
    case Publish => 2
    case Unlock => 1
    case Returned => 0
  }

  function Work(pcs: seq<PC>): nat {
    if pcs == [] then 0 else Rank(pcs[0]) + Work(pcs[1..])
  }

  lemma {:induction false} WorkUpdate(pcs: seq<PC>, i: nat, pc: PC)
    requires i < |pcs|
    ensures Work(pcs[i := pc]) == Work(pcs) - Rank(pcs[i]) + Rank(pc)
    decreases |pcs|
  {
    hide Rank;
    if i == 0 {
      assert pcs[0 := pc][1..] == pcs[1..];
    } else {
      assert pcs[i := pc][1..] == pcs[1..][i - 1 := pc];
      WorkUpdate(pcs[1..], i - 1, pc);
    }
  }

  /** Every step that is not a failed test-and-set, or made after returning, uses up work. */
  lemma StepsUseWork(s: State, i: nat)
    requires Inv(s) && i < |s.pcs|
    ensures !s.pcs[i].Returned? && !(s.pcs[i].Spin? && s.lock) ==> Work(Next(s, i).pcs) < Work(s.pcs)
  {
    if !s.pcs[i].Returned? && !(s.pcs[i].Spin? && s.lock) {
      var pc := Next(s, i).pcs[i];
      assert s.pcs[i].Build? || s.pcs[i].Publish? ==> Creating(s.pcs[i]);
      assert Next(s, i).pcs == s.pcs[i := pc];
      WorkUpdate(s.pcs, i, pc);
    }
  }

  /** Until all callers have returned, some caller can make a step that uses up work: they cannot
      all be left spinning. */
  lemma NoDeadlock(callers: nat, schedule: seq<nat>)
    requires forall k :: 0 <= k < |schedule| ==> schedule[k] < callers
    ensures var s := After(callers, schedule);
      (exists i :: 0 <= i < callers && !s.pcs[i].Returned?) ==>
      exists i :: 0 <= i < callers && Work(Next(s, i).pcs) < Work(s.pcs)
  {
    InvAlways(callers, schedule);
    var s := After(callers, schedule);
    if exists i :: 0 <= i < callers && !s.pcs[i].Returned? {
      var i :| 0 <= i < callers && !s.pcs[i].Returned?;
      if s.pcs[i].Spin? && s.lock {
        var j :| 0 <= j < |s.pcs| && Locked(s.pcs[j]);
        StepsUseWork(s, j);
      } else {
        StepsUseWork(s, i);
      }
    }
  }

  /** The number of steps of a schedule that are not failed test-and-sets or made after returning. */
  ghost function Effective(callers: nat, schedule: seq<nat>): nat
    requires forall k :: 0 <= k < |schedule| ==> schedule[k] < callers
  {
    if schedule == [] then 0
    else
      var s, i := After(callers, schedule[..|schedule| - 1]), schedule[|schedule| - 1];
      Effective(callers, schedule[..|schedule| - 1])
      + (if s.pcs[i].Returned? || (s.pcs[i].Spin? && s.lock) then 0 else 1)
  }

  /** The initialisation ends: no run makes more effective steps than the work there is at the start. */
  lemma {:induction false} WorkBoundsRun(callers: nat, schedule: seq<nat>)
    requires forall k :: 0 <= k < |schedule| ==> schedule[k] < callers
    ensures Effective(callers, schedule) + Work(After(callers, schedule).pcs) <= Work(Init(callers).pcs)
    decreases |schedule|
  {
    hide Inv, Work;
    if schedule == [] {
    } else {
      var init, i := schedule[..|schedule| - 1], schedule[|schedule| - 1];
      WorkBoundsRun(callers, init);
      InvAlways(callers, init);
      StepsUseWork(After(callers, init), i);
    }
  }
}
