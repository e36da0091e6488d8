/** The shared variables: values that the first initialisation or any assignment writes, flags that
    only ever get set, and labels by which the utility finds them. */
module Variables {
  import opened Bits
  import opened Options
  import opened CStrings
  import RegionLayout

  const LABEL_LEN: nat := 64
  const NUL: char := '\0'

  /** struct log2mem_var_double and log2mem_var_int: value, the two flag bits, label buffer. */
  datatype Var<T> = Var(value: T, initialised: bool, used: bool, text: seq<char>)

  function Min(a: nat, b: nat): nat {
    if a <= b then a else b
  }

  /** strncpy of a C string: at most n characters, the rest of the n filled with NULs. */
  function StrNCpy(dst: seq<char>, src: string, n: nat): (r: seq<char>)
    requires n <= |dst|
    ensures |r| == |dst|
  {
    src[..Min(n, |src|)] + seq(n - Min(n, |src|), i => NUL) + dst[n..]
  }

  /** A buffer after the label has been copied in and terminated. */
  function Labelled(text: seq<char>, src: string): (r: seq<char>)
    requires |text| == LABEL_LEN
    ensures |r| == LABEL_LEN
  {
    StrNCpy(text, src, LABEL_LEN - 1)[LABEL_LEN - 1 := NUL]
  }

  /** The part of a label that a buffer keeps. */
  function KeptLabel(src: string): string {
    src[..Min(LABEL_LEN - 1, |src|)]
  }

  /** A label of up to 63 characters is kept whole, a longer one is cut to its first 63. */
  lemma LabelKept(text: seq<char>, src: string)
    requires |text| == 64 && '\0' !in src
    ensures CString(Labelled(text, src), '\0') == KeptLabel(src)
    ensures KeptLabel(src) == if |src| <= 63 then src else src[..63]
  {
    var b, k := Labelled(text, src), KeptLabel(src);
    var rest := b[|k| + 1..];
    assert b == k + [NUL] + rest;
    assert forall c :: c in k ==> c in src;
    CStringOfTerminated(k, NUL, rest);
    CStringUnchanged(k, NUL);
  }

  // -------------------------------------------------------------- calls and histories

  /** log2mem_var_*_init and log2mem_var_*_set. */
  datatype Op<T> = InitVar(id: uint32, value: T, name: Option<string>) | SetVar(id: uint32, value: T)

  /** The slot an id selects in a section of n variables. */
  function SlotOf(id: uint32, n: nat): nat {
    RegionLayout.Index(id, n)
  }

  ghost predicate ValidVars<T>(vars: seq<Var<T>>) {
    (exists e: nat :: e <= 31 && |vars| == Pow2(e)) && forall i :: 0 <= i < |vars| ==> |vars[i].text| == LABEL_LEN
  }

  lemma SlotInRange<T>(vars: seq<Var<T>>, id: uint32)
    requires ValidVars(vars)
    ensures SlotOf(id, |vars|) < |vars|
    ensures |vars| > 0 && SlotOf(id, |vars|) == id % |vars|
  {
    hide Pow2, RegionLayout.Index;
    var e: nat :| e <= 31 && |vars| == Pow2(e);
    RegionLayout.IndexIsMod(id, e);
  }

  /** A variable after one call on its slot. */
  function Updated<T>(v: Var<T>, op: Op<T>): (w: Var<T>)
    requires |v.text| == LABEL_LEN
    ensures |w.text| == LABEL_LEN
  {
    match op
    case InitVar(_, value, name) =>
      if v.initialised then v
      else Var(value, true, true, if name.Some? then Labelled(v.text, name.value) else v.text)
    case SetVar(_, value) => v.(value := value, used := true)
  }

  ghost function Do<T>(vars: seq<Var<T>>, op: Op<T>): (r: seq<Var<T>>)
    requires ValidVars(vars)
    ensures ValidVars(r) && |r| == |vars|
  {
    SlotInRange(vars, op.id);
    var i := SlotOf(op.id, |vars|);
    vars[i := Updated(vars[i], op)]
  }

  ghost function DoAll<T>(vars: seq<Var<T>>, ops: seq<Op<T>>): (r: seq<Var<T>>)
    requires ValidVars(vars)
    ensures ValidVars(r) && |r| == |vars|
  {
    if ops == [] then vars else Do(DoAll(vars, ops[..|ops| - 1]), ops[|ops| - 1])
  }

  /** A section as the cleared region holds it. */
  predicate Blank<T(==)>(vars: seq<Var<T>>, zero: T) {
    forall i :: 0 <= i < |vars| ==> vars[i] == Var(zero, false, false, seq(LABEL_LEN, j => NUL))
  }

  /** Call k concerns this slot. */
  predicate On<T>(ops: seq<Op<T>>, k: nat, slot: nat, n: nat)
    requires k < |ops|
  {
    SlotOf(ops[k].id, n) == slot
  }

  /** Call k is the first initialisation of the slot. */
  ghost predicate FirstInit<T>(ops: seq<Op<T>>, k: nat, slot: nat, n: nat)
    requires k < |ops|
  {
    On(ops, k, slot, n) && ops[k].InitVar? && forall j :: 0 <= j < k && On(ops, j, slot, n) ==> ops[j].SetVar?
  }

  /** Call k writes the slot's value: an assignment, or the first initialisation. */
  ghost predicate Writes<T>(ops: seq<Op<T>>, k: nat, slot: nat, n: nat)
    requires k < |ops|
  {
    On(ops, k, slot, n) && (ops[k].SetVar? || FirstInit(ops, k, slot, n))
  }

  /** No later call writes the slot's value. */
  ghost predicate LastWrite<T>(ops: seq<Op<T>>, k: nat, slot: nat, n: nat)
    requires k < |ops|
  {
    Writes(ops, k, slot, n) && forall j :: k < j < |ops| ==> !Writes(ops, j, slot, n)
  }

  /** What a history leaves in a slot. */
  ghost predicate Remembers<T>(ops: seq<Op<T>>, v: Var<T>, slot: nat, n: nat, zero: T) {
    && (v.used <==> exists k :: 0 <= k < |ops| && On(ops, k, slot, n))
    && (v.initialised <==> exists k :: 0 <= k < |ops| && FirstInit(ops, k, slot, n))
    && ((forall k :: 0 <= k < |ops| ==> !Writes(ops, k, slot, n)) ==> v.value == zero)
    && (forall k :: 0 <= k < |ops| && LastWrite(ops, k, slot, n) ==> v.value == ops[k].value)
    && ((forall k :: 0 <= k < |ops| ==> !FirstInit(ops, k, slot, n)) ==> CString(v.text, NUL) == [])
    && (forall k :: 0 <= k < |ops| && FirstInit(ops, k, slot, n) ==>
          CString(v.text, NUL) == if ops[k].name.Some? then KeptLabel(ops[k].name.value) else [])
  }

  /** Labels are C strings. */
  predicate CLabels<T>(ops: seq<Op<T>>) {
    forall k :: 0 <= k < |ops| && ops[k].InitVar? && ops[k].name.Some? ==> NUL !in ops[k].name.value
  }

  lemma PrefixJudgements<T>(ops: seq<Op<T>>, op: Op<T>, slot: nat, n: nat)
    ensures forall k :: 0 <= k < |ops| ==>
      && On(ops + [op], k, slot, n) == On(ops, k, slot, n)
      && FirstInit(ops + [op], k, slot, n) == FirstInit(ops, k, slot, n)
      && Writes(ops + [op], k, slot, n) == Writes(ops, k, slot, n)
  {
    hide SlotOf;
    var all := ops + [op];
    forall k | 0 <= k < |ops|
      ensures On(all, k, slot, n) == On(ops, k, slot, n)
      ensures FirstInit(all, k, slot, n) == FirstInit(ops, k, slot, n)
    {
      assert forall j :: 0 <= j < k ==> On(all, j, slot, n) == On(ops, j, slot, n);
    }
  }

  lemma NextElsewhere<T>(ops: seq<Op<T>>, op: Op<T>, v: Var<T>, slot: nat, n: nat, zero: T)
    requires Remembers(ops, v, slot, n, zero) && SlotOf(op.id, n) != slot
    ensures Remembers(ops + [op], v, slot, n, zero)
  {
    hide SlotOf, CString;
    var all := ops + [op];
    PrefixJudgements(ops, op, slot, n);
    assert !On(all, |ops|, slot, n);
    forall k | 0 <= k < |all| && LastWrite(all, k, slot, n) ensures v.value == all[k].value {
      assert forall j :: k < j < |ops| ==> !Writes(all, j, slot, n);
      assert LastWrite(ops, k, slot, n);
    }
    if v.used { var k :| 0 <= k < |ops| && On(ops, k, slot, n); assert On(all, k, slot, n); }
    if v.initialised { var k :| 0 <= k < |ops| && FirstInit(ops, k, slot, n); assert FirstInit(all, k, slot, n); }
  }

  lemma NextHere<T>(ops: seq<Op<T>>, op: Op<T>, v: Var<T>, slot: nat, n: nat, zero: T)
    requires Remembers(ops, v, slot, n, zero) && SlotOf(op.id, n) == slot && |v.text| == LABEL_LEN
    requires op.InitVar? && op.name.Some? ==> NUL !in op.name.value
    ensures Remembers(ops + [op], Updated(v, op), slot, n, zero)
  {
    hide SlotOf, CString, Labelled;
    var all, w := ops + [op], Updated(v, op);
    PrefixJudgements(ops, op, slot, n);
    assert On(all, |ops|, slot, n);
    FirstInitHere(ops, op, v, slot, n, zero);
    if op.InitVar? && op.name.Some? { LabelKept(v.text, op.name.value); }
    if Writes(all, |ops|, slot, n) {
      assert forall k :: 0 <= k < |ops| ==> !LastWrite(all, k, slot, n);
    } else {
      forall k | 0 <= k < |all| && LastWrite(all, k, slot, n) ensures v.value == all[k].value {
        assert forall j :: k < j < |ops| ==> !Writes(all, j, slot, n);
        assert LastWrite(ops, k, slot, n);
      }
    }
  }

  /** The initialised flag says whether a call would be the first initialisation. */
  lemma FirstInitHere<T>(ops: seq<Op<T>>, op: Op<T>, v: Var<T>, slot: nat, n: nat, zero: T)
    requires Remembers(ops, v, slot, n, zero) && SlotOf(op.id, n) == slot
    ensures FirstInit(ops + [op], |ops|, slot, n) == (op.InitVar? && !v.initialised)
    ensures Updated(v, op).initialised <==> exists k :: 0 <= k <= |ops| && FirstInit(ops + [op], k, slot, n)
    ensures FirstInit(ops + [op], |ops|, slot, n) ==> forall k :: 0 <= k < |ops| ==> !FirstInit(ops + [op], k, slot, n)
    requires |v.text| == LABEL_LEN
  {
    hide SlotOf, CString, Labelled;
    var all := ops + [op];
    PrefixJudgements(ops, op, slot, n);
    assert On(all, |ops|, slot, n);
    if v.initialised {
      var k :| 0 <= k < |ops| && FirstInit(ops, k, slot, n);
      assert FirstInit(all, k, slot, n);
      assert On(all, k, slot, n) && !all[k].SetVar?;
    } else if exists j :: 0 <= j < |ops| && On(ops, j, slot, n) && ops[j].InitVar? {
      var j :| 0 <= j < |ops| && On(ops, j, slot, n) && ops[j].InitVar?;
      var k := FirstOf(ops, j, slot, n);
    }
  }

  /** Where there is an initialisation there is a first one. */
  lemma {:induction false} FirstOf<T>(ops: seq<Op<T>>, j: nat, slot: nat, n: nat) returns (k: nat)
    requires j < |ops| && On(ops, j, slot, n) && ops[j].InitVar?
    ensures k <= j && FirstInit(ops, k, slot, n)
    decreases j
  {
    hide SlotOf;
    if i :| 0 <= i < j && On(ops, i, slot, n) && ops[i].InitVar? {
      k := FirstOf(ops, i, slot, n);
    } else {
      k := j;
    }
  }

  lemma {:induction false} BlankCString(m: nat)
    ensures CString(seq(m, i => NUL), NUL) == []
  {
  }

  lemma NoHistory<T>(slot: nat, n: nat, zero: T)
    ensures Remembers([], Var(zero, false, false, seq(LABEL_LEN, j => NUL)), slot, n, zero)
  {
    hide SlotOf, CString;
    BlankCString(LABEL_LEN);
  }

  lemma DoAt<T>(vars: seq<Var<T>>, op: Op<T>, slot: nat)
    requires ValidVars(vars) && slot < |vars|
    ensures |vars[slot].text| == LABEL_LEN
    ensures Do(vars, op)[slot] == if SlotOf(op.id, |vars|) == slot then Updated(vars[slot], op) else vars[slot]
  {
    hide SlotOf, Updated;
    SlotInRange(vars, op.id);
  }

  /** After any history on a blank section, a slot's value is that of the latest effective write (zero
      if there is none), its label that of the first initialisation, and its flags say what happened. */
  lemma {:induction false} History<T>(vars: seq<Var<T>>, ops: seq<Op<T>>, slot: nat, zero: T)
    requires ValidVars(vars) && Blank(vars, zero) && slot < |vars| && CLabels(ops)
    ensures Remembers(ops, DoAll(vars, ops)[slot], slot, |vars|, zero)
    decreases |ops|
  {
    hide SlotOf, Updated, Remembers, ValidVars, Do;
    if ops == [] {
      NoHistory(slot, |vars|, zero);
    } else {
      var init, op := ops[..|ops| - 1], ops[|ops| - 1];
      var before := DoAll(vars, init);
      assert forall k :: 0 <= k < |init| ==> init[k] == ops[k];
      History(vars, init, slot, zero);
      DoAt(before, op, slot);
      assert init + [op] == ops;
      if SlotOf(op.id, |vars|) == slot {
        NextHere(init, op, before[slot], slot, |vars|, zero);
      } else {
        NextElsewhere(init, op, before[slot], slot, |vars|, zero);
      }
    }
  }

  lemma {:induction false} DoAllConcat<T>(vars: seq<Var<T>>, ops: seq<Op<T>>, more: seq<Op<T>>)
    requires ValidVars(vars)
    ensures DoAll(vars, ops + more) == DoAll(DoAll(vars, ops), more)
    decreases |more|
  {
    hide Do, ValidVars;
    if more == [] {
      assert ops + more == ops;
    } else {
      var k := |more| - 1;
      DoAllConcat(vars, ops, more[..k]);
      assert (ops + more)[..|ops + more| - 1] == ops + more[..k];
    }
  }

  /** One call only sets flags, and leaves the label of an initialised variable alone. */
  predicate Grown<T(==)>(v: Var<T>, w: Var<T>) {
    (v.used ==> w.used) && (v.initialised ==> w.initialised && w.text == v.text) &&
    ((v.initialised ==> v.used) ==> (w.initialised ==> w.used))
  }

  lemma GrownByOne<T>(v: Var<T>, op: Op<T>)
    requires |v.text| == LABEL_LEN
    ensures Grown(v, Updated(v, op))
  {
    hide Labelled;
  }

  lemma {:induction false} GrownByAll<T>(vars: seq<Var<T>>, ops: seq<Op<T>>, slot: nat)
    requires ValidVars(vars) && slot < |vars|
    ensures Grown(vars[slot], DoAll(vars, ops)[slot])
    decreases |ops|
  {
    hide SlotOf, Updated, ValidVars, Do;
    if ops == [] {
    } else {
      var before := DoAll(vars, ops[..|ops| - 1]);
      GrownByAll(vars, ops[..|ops| - 1], slot);
      DoAt(before, ops[|ops| - 1], slot);
      GrownByOne(before[slot], ops[|ops| - 1]);
    }
  }

  /** Over any history of a fresh section and any longer one: an initialised variable counts as used, no
      flag is ever cleared, and the label of an initialised variable never changes again. */
  lemma FlagsOnlyGrow<T>(vars: seq<Var<T>>, ops: seq<Op<T>>, more: seq<Op<T>>, zero: T, slot: nat)
    requires ValidVars(vars) && Blank(vars, zero) && slot < |vars|
    ensures var v, w := DoAll(vars, ops)[slot], DoAll(vars, ops + more)[slot];
      && (v.initialised ==> v.used) && (w.initialised ==> w.used)
      && (v.used ==> w.used) && (v.initialised ==> w.initialised && w.text == v.text)
  {
    hide DoAll, ValidVars;
    GrownByAll(vars, ops, slot);
    DoAllConcat(vars, ops, more);
    GrownByAll(DoAll(vars, ops), more, slot);
  }

  // -------------------------------------------------------------- setting by name

  /** strcmp(label, text) == 0 on a used variable. */
  predicate Matches<T>(v: Var<T>, name: string) {
    v.used && CString(v.text, NUL) == name
  }

  /** One variable after the search for a name; None when sscanf finds no number. */
  function Named<T>(v: Var<T>, name: string, parsed: Option<T>): Var<T> {
    if Matches(v, name) && parsed.Some? then v.(value := parsed.value) else v
  }

  function NamedAll<T>(vars: seq<Var<T>>, name: string, parsed: Option<T>): (r: seq<Var<T>>)
    ensures |r| == |vars|
  {
    seq(|vars|, i requires 0 <= i < |vars| => Named(vars[i], name, parsed))
  }

  /** Call k was the slot's first initialisation, and the slot's buffer keeps its label as this name. */
  ghost predicate LabelledBy<T>(ops: seq<Op<T>>, k: nat, slot: nat, n: nat, name: string)
    requires k < |ops|
  {
    FirstInit(ops, k, slot, n) && ops[k].name.Some? && KeptLabel(ops[k].name.value) == name
  }

  /** Labels and flags as some history left them; values may have been set since. */
  predicate LabelsOf<T>(vars: seq<Var<T>>, kept: seq<Var<T>>) {
    |vars| == |kept| && forall i :: 0 <= i < |vars| ==> vars[i].used == kept[i].used && vars[i].text == kept[i].text
  }

  /** The search for a non-empty name finds exactly the slots whose first initialisation gave them that label. */
  lemma {:induction false} MatchIff<T>(vars: seq<Var<T>>, blank: seq<Var<T>>, ops: seq<Op<T>>, zero: T,
                                       slot: nat, name: string)
    requires ValidVars(blank) && Blank(blank, zero) && CLabels(ops) && name != ""
    requires LabelsOf(vars, DoAll(blank, ops)) && slot < |vars|
    ensures Matches(vars[slot], name) <==> exists k :: 0 <= k < |ops| && LabelledBy(ops, k, slot, |vars|, name)
  {
    hide SlotOf, CString, DoAll, ValidVars, Blank, KeptLabel;
    History(blank, ops, slot, zero);
    var v := DoAll(blank, ops)[slot];
    if Matches(v, name) {
      var k :| 0 <= k < |ops| && FirstInit(ops, k, slot, |vars|);
      assert LabelledBy(ops, k, slot, |vars|, name);
    }
    forall k | 0 <= k < |ops| && LabelledBy(ops, k, slot, |vars|, name) ensures Matches(v, name) {
      assert On(ops, k, slot, |vars|);
    }
  }

  lemma FirstInitUnique<T>(ops: seq<Op<T>>, k: nat, k': nat, slot: nat, n: nat)
    requires k < |ops| && k' < |ops| && FirstInit(ops, k, slot, n) && FirstInit(ops, k', slot, n)
    ensures k == k'
  {
    hide SlotOf;
    assert On(ops, k, slot, n) && On(ops, k', slot, n);
  }

  // ------------------------------------------------------- the section, updated in place

  /** The double or the int variables of the mapped region. */
  class VarSection<T> {
    const vars: array<Var<T>>

    constructor (vars: array<Var<T>>)
      ensures this.vars == vars
    {
      this.vars := vars;
    }

    ghost predicate Valid()
      reads vars
    {
      ValidVars(vars[..])
    }

    /** `id & (num_vars-1)`. */
    method Locate(id: uint32) returns (idx: nat)
      requires Valid()
      ensures idx == SlotOf(id, vars.Length) < vars.Length
    {
      SlotInRange(vars[..], id);
      idx := And(ToU32(id), ToU32(vars.Length - 1));
    }

    /** log2mem_var_double_init, log2mem_var_int_init. */
    method InitValue(id: uint32, value: T, src: Option<string>)
      requires Valid()
      modifies vars
      ensures Valid() && vars[..] == Do(old(vars[..]), InitVar(id, value, src))
    {
      var idx := Locate(id);
      if vars[idx].initialised { return; }
      ghost var before := vars[..];
      vars[idx] := vars[idx].(value := value);
      vars[idx] := vars[idx].(used := true, initialised := true);
      if src.Some? {
        vars[idx] := vars[idx].(text := StrNCpy(vars[idx].text, src.value, LABEL_LEN - 1));
        vars[idx] := vars[idx].(text := vars[idx].text[LABEL_LEN - 1 := NUL]);
      }
      assert vars[..] == before[idx := Updated(before[idx], InitVar(id, value, src))];
    }

    /** log2mem_var_double_set, log2mem_var_int_set. */
    method SetValue(id: uint32, value: T)
      requires Valid()
      modifies vars
      ensures Valid() && vars[..] == Do(old(vars[..]), SetVar(id, value))
    {
      var idx := Locate(id);
      ghost var before := vars[..];
      vars[idx] := vars[idx].(value := value);
      vars[idx] := vars[idx].(used := true);
      assert vars[..] == before[idx := Updated(before[idx], SetVar(id, value))];
    }

    /** log2mem_var_double_get, log2mem_var_int_get. */
    method GetValue(id: uint32) returns (value: T)
      requires Valid()
      ensures SlotOf(id, vars.Length) < vars.Length && value == vars[SlotOf(id, vars.Length)].value
    {
      var idx := Locate(id);
      value := vars[idx].value;
    }

    /** One of the two search loops of set_var_by_name. */
    method SetNamed(name: string, parsed: Option<T>) returns (found: bool)
      requires Valid()
      modifies vars
      ensures Valid() && vars[..] == NamedAll(old(vars[..]), name, parsed)
      ensures found <==> exists i :: 0 <= i < vars.Length && Matches(old(vars[i]), name)
      ensures forall i :: 0 <= i < vars.Length && !old(vars[i]).used ==> vars[i] == old(vars[i])
    {
      ghost var before := vars[..];
      var i := 0;
      found := false;
      while i < vars.Length
        invariant 0 <= i <= vars.Length
        invariant forall j :: 0 <= j < i ==> vars[j] == Named(before[j], name, parsed)
        invariant forall j :: i <= j < vars.Length ==> vars[j] == before[j]
        invariant found <==> exists j :: 0 <= j < i && Matches(before[j], name)
      {
        if vars[i].used && CString(vars[i].text, NUL) == name {
          if parsed.Some? { vars[i] := vars[i].(value := parsed.value); }
          found := true;
        }
        i := i + 1;
      }
      assert vars[..] == NamedAll(before, name, parsed);
    }
  }
}
