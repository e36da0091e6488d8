/** Which variables can be set by name from the command line, and what setting by name does. */
module Names {
  import opened Bits
  import opened Options
  import opened Variables
  import opened Arguments
  import opened CommandLine
  import opened Utility

  // ------------------------------------------------------------ what --NAME=N is read as

  /** The name collides with one of the indexed options. */
  predicate Reserved(name: string) {
    HasPrefix(name, "double") || HasPrefix(name, "int") || HasPrefix(name, "string")
  }

  /** Argument i is `--NAME=N`. */
  predicate IsNameOption(argv: seq<string>, i: nat, name: string, v: string) {
    i < |argv| && argv[i] == "--" + name + "=" + v
  }

  /** The split comes at or before the character sought, and there if it does not occur before. */
  lemma {:induction false} FindFirst(s: string, c: char, rest: string)
    ensures Find(s + [c] + rest, c).Some? && Find(s + [c] + rest, c).value <= |s|
    ensures Find(s + [c] + rest, c).value == |s| <==> c !in s
    decreases |s|
  {
    if s == [] {
    } else {
      assert (s + [c] + rest)[1..] == s[1..] + [c] + rest;
      FindFirst(s[1..], c, rest);
    }
  }

  /** Name and text that the argument is split into: cut at the first `=`, so these are name and v
      exactly when the name has none. */
  lemma NameSplit(argv: seq<string>, i: nat, name: string, v: string)
    requires IsNameOption(argv, i, name, v)
    ensures NamedArg(argv, i).Some? && NamedArg(argv, i).value.2 == i
    ensures '=' !in name ==> NamedArg(argv, i).value.0 == name && NamedArg(argv, i).value.1 == v
    ensures '=' in name ==> |NamedArg(argv, i).value.1| > |v|
  {
    hide Find;
    var rest := argv[i][2..];
    assert rest == name + ['='] + v;
    FindFirst(name, '=', v);
    if '=' !in name { assert rest[..|name|] == name && rest[|name| + 1..] == v; }
  }

  lemma PrefixOfOption(name: string, word: string, v: string)
    requires '=' !in word
    ensures HasPrefix("--" + name + "=" + v, "--" + word) <==> HasPrefix(name, word)
  {
    var a := "--" + name + "=" + v;
    if HasPrefix(name, word) {
      assert "--" + name == "--" + word + name[|word|..];
    }
    if HasPrefix(a, "--" + word) {
      assert forall k :: 0 <= k < |word| ==> a[k + 2] == word[k];
      assert a[|name| + 2] == '=';
      assert forall k :: 0 <= k < |word| ==> name[k] == word[k];
    }
  }

  lemma NotAFlag(name: string, v: string)
    ensures var a := "--" + name + "=" + v;
      && |a| > 2 && "--" <= a
      && a !in {"-h", "--help", "-s", "-c", "-r", "-v", "-a", "-F", "-z", "-t", "--version"}
  {
    var a := "--" + name + "=" + v;
    assert a[|name| + 2] == '=';
    assert '=' in a;
    assert '=' !in "--help" && '=' !in "--version";
  }

  /** What the turn for `--NAME=N` is: an indexed option for a reserved name, else an assignment by name. */
  lemma NameTurn(argv: seq<string>, i: nat, p: Parsed, name: string, v: string)
    requires IsNameOption(argv, i, name, v)
    ensures Reserved(name) ==>
      exists k: Kind :: |k.Prefix()| <= |argv[i]| && OneArg(argv, i, p) == Indexed(argv, i, k, p)
    ensures NamedArg(argv, i).Some?
    ensures !Reserved(name) ==>
      var (n, text, last) := NamedArg(argv, i).value;
      OneArg(argv, i, p) ==
        Go(i + 1, p.(settings := p.settings + [SetNamed(n, text)], locals := p.locals.(defaultshow := false)))
  {
    hide Indexed, NamedArg;
    assert "--" + "double" == OPT_DOUBLE && "--" + "int" == OPT_INT && "--" + "string" == OPT_STRING;
    PrefixOfOption(name, "double", v);
    PrefixOfOption(name, "int", v);
    PrefixOfOption(name, "string", v);
    NotAFlag(name, v);
    NameSplit(argv, i, name, v);
    if Reserved(name) {
      var k := if HasPrefix(name, "double") then DoubleOpt else if HasPrefix(name, "int") then IntOpt else StringOpt;
      assert OneArg(argv, i, p) == Indexed(argv, i, k, p);
    }
  }

  lemma IndexedSetsNoName(argv: seq<string>, i: nat, k: Kind, p: Parsed, name: string, text: string)
    requires i < |argv| && |k.Prefix()| <= |argv[i]|
    ensures Indexed(argv, i, k, p).Go? ==> Indexed(argv, i, k, p).p.settings != p.settings + [SetNamed(name, text)]
  {
    hide SetVarArg;
    match SetVarArg(argv, i, k.Prefix())
    case BadArg(_) =>
    case GoodArg(idx, value, last) =>
      var got := p.settings + k.Settings(idx, value);
      if |got| == |p.settings| + 1 { assert got[|p.settings|] != SetNamed(name, text); }
  }

  /** `--NAME=N` asks for an assignment to that name, of that text, exactly when the name neither begins
      like one of the indexed options nor contains an equals sign. */
  lemma NameReachable(argv: seq<string>, i: nat, p: Parsed, name: string, v: string)
    requires IsNameOption(argv, i, name, v)
    ensures OneArg(argv, i, p) ==
        Go(i + 1, p.(settings := p.settings + [SetNamed(name, v)], locals := p.locals.(defaultshow := false)))
      <==> !Reserved(name) && '=' !in name
  {
    hide OneArg, NamedArg, Indexed, Reserved;
    NameTurn(argv, i, p, name, v);
    NameSplit(argv, i, name, v);
    if Reserved(name) {
      var k: Kind :| |k.Prefix()| <= |argv[i]| && OneArg(argv, i, p) == Indexed(argv, i, k, p);
      IndexedSetsNoName(argv, i, k, p, name, v);
    } else if '=' in name {
      LastSetting(p.settings, SetNamed(NamedArg(argv, i).value.0, NamedArg(argv, i).value.1), SetNamed(name, v));
    }
  }

  /** With the text as the next argument, two more names are lost: those of the long flags; and `--`
      alone is a file name. */
  lemma NameReachableNext(argv: seq<string>, i: nat, p: Parsed, name: string)
    requires i + 1 < |argv| && argv[i] == "--" + name
    ensures OneArg(argv, i, p) ==
        Go(i + 2, p.(settings := p.settings + [SetNamed(name, argv[i + 1])], locals := p.locals.(defaultshow := false)))
      <==> !Reserved(name) && '=' !in name && name !in {"", "help", "version"}
  {
    var a := argv[i];
    assert a[2..] == name;
    assert "--" + "double" == OPT_DOUBLE && "--" + "int" == OPT_INT && "--" + "string" == OPT_STRING;
    assert "--" + "help" == "--help" && "--" + "version" == "--version";
    SamePrefix(name, "double");
    SamePrefix(name, "int");
    SamePrefix(name, "string");
    SameName(name, "help");
    SameName(name, "version");
    hide Find, Indexed;
    if name == "" {
    } else if Reserved(name) {
      var k := if HasPrefix(name, "double") then DoubleOpt else if HasPrefix(name, "int") then IntOpt else StringOpt;
      IndexedSetsNoName(argv, i, k, p, name, argv[i + 1]);
    }
  }

  lemma SamePrefix(name: string, word: string)
    ensures HasPrefix("--" + name, "--" + word) <==> HasPrefix(name, word)
  {
    var a, b := "--" + name, "--" + word;
    if HasPrefix(name, word) { assert a == b + name[|word|..]; }
    if HasPrefix(a, b) {
      assert a[..|b|][2..] == name[..|word|];
      assert b[2..] == word;
    }
  }

  lemma SameName(name: string, word: string)
    ensures "--" + name == "--" + word <==> name == word
  {
    assert ("--" + name)[2..] == name && ("--" + word)[2..] == word;
  }

  lemma LastSetting(ss: seq<Setting>, s: Setting, s': Setting)
    ensures ss + [s] == ss + [s'] <==> s == s'
  {
    assert (ss + [s])[|ss|] == s && (ss + [s'])[|ss|] == s';
  }

  // --------------------------------------------------------------- which labels can be set

  /** The turn asks for one assignment, of exactly this text, by a name whose search finds this variable. */
  ghost predicate FindsByName<T>(t: Turn, p: Parsed, v: Var<T>, text: string) {
    t.Go? && exists name: string ::
      t.p.settings == p.settings + [SetNamed(name, text)] && name != "" && Matches(v, name)
  }

  /** The labels under which `--LABEL=N` reaches a variable. */
  predicate Settable(src: string) {
    1 <= |src| <= 63 && '=' !in src && !Reserved(src)
  }

  /** The stored label is the whole label exactly if it fits. */
  lemma KeptWhole(src: string)
    ensures KeptLabel(src) == src <==> |src| <= 63
    ensures |src| > 63 ==> KeptLabel(src) == src[..63]
  {
  }

  /** A variable is found by its label, as the search compares it, exactly if the buffer keeps all of it. */
  lemma FoundByLabel<T>(vars: seq<Var<T>>, blank: seq<Var<T>>, ops: seq<Op<T>>, k: nat, zero: T, slot: nat)
    requires ValidVars(blank) && Blank(blank, zero) && CLabels(ops) && LabelsOf(vars, DoAll(blank, ops))
    requires k < |ops| && slot < |vars| && FirstInit(ops, k, slot, |vars|)
    requires ops[k].name.Some? && ops[k].name.value != ""
    ensures var src := ops[k].name.value;
      && (Matches(vars[slot], src) <==> |src| <= 63)
      && (|src| > 63 ==> Matches(vars[slot], src[..63]))
  {
    var src := ops[k].name.value;
    hide FirstInit, DoAll, Matches, KeptLabel, ValidVars, Blank, CLabels, LabelsOf;
    var n := |vars|;
    KeptWhole(src);
    KeptNonEmpty(src);
    MatchIff(vars, blank, ops, zero, slot, src);
    MatchIff(vars, blank, ops, zero, slot, KeptLabel(src));
    assert LabelledBy(ops, k, slot, n, KeptLabel(src));
    if k' :| 0 <= k' < |ops| && LabelledBy(ops, k', slot, n, src) {
      FirstInitUnique(ops, k, k', slot, n);
    }
  }

  lemma KeptNonEmpty(src: string)
    requires src != ""
    ensures KeptLabel(src) != ""
  {
  }

  /** For a variable first initialised with this label, after any other calls and assignments that
      keep labels: `--LABEL=N` reaches it through the search, with N as the text, if and only if the
      label has 1 to 63 characters, no equals sign, and does not begin like an indexed option. */
  lemma ReachedIff<T>(argv: seq<string>, i: nat, p: Parsed, text: string,
                      vars: seq<Var<T>>, blank: seq<Var<T>>, ops: seq<Op<T>>, k: nat, zero: T, slot: nat)
    requires ValidVars(blank) && Blank(blank, zero) && CLabels(ops) && LabelsOf(vars, DoAll(blank, ops))
    requires k < |ops| && slot < |vars| && FirstInit(ops, k, slot, |vars|) && ops[k].name.Some?
    requires IsNameOption(argv, i, ops[k].name.value, text)
    ensures FindsByName(OneArg(argv, i, p), p, vars[slot], text) <==> Settable(ops[k].name.value)
  {
    var src := ops[k].name.value;
    hide OneArg, NamedArg, Indexed, Reserved, FirstInit, DoAll, Matches, ValidVars, Blank, CLabels, LabelsOf;
    NameTurn(argv, i, p, src, text);
    NameSplit(argv, i, src, text);
    if src != "" { FoundByLabel(vars, blank, ops, k, zero, slot); }
    var t := OneArg(argv, i, p);
    if Reserved(src) {
      var kind: Kind :| |kind.Prefix()| <= |argv[i]| && t == Indexed(argv, i, kind, p);
      forall name: string ensures t.Go? ==> t.p.settings != p.settings + [SetNamed(name, text)] {
        IndexedSetsNoName(argv, i, kind, p, name, text);
      }
    } else {
      var s := SetNamed(NamedArg(argv, i).value.0, NamedArg(argv, i).value.1);
      forall name: string
        ensures t.p.settings == p.settings + [SetNamed(name, text)] <==> s == SetNamed(name, text)
      {
        LastSetting(p.settings, s, SetNamed(name, text));
      }
    }
  }

  // -------------------------------------------------------------- what an assignment by name does

  /** A variable after an assignment by name: set if the search finds it and the text is a number. */
  function AfterNamed<T>(v: Var<T>, finds: bool, parsed: Option<T>): Var<T> {
    if finds && parsed.Some? then v.(value := parsed.value) else v
  }

  /** set_var_by_name, after any calls of the library and assignments that keep labels: every double and
      every int variable whose first initialisation gave it that label, and no other, takes the number
      that the text holds; nothing else changes. The empty name sets nothing. */
  lemma SetByName(sc: Scanner, e: Effect, name: string, text: string, junk: Junk,
                  dblank: seq<Var<uint64>>, dops: seq<Op<uint64>>, iblank: seq<Var<int32>>, iops: seq<Op<int32>>,
                  di: nat, ii: nat)
    requires e.view.Valid() && di < |e.view.doubles| && ii < |e.view.ints|
    requires ValidVars(dblank) && Blank(dblank, 0) && CLabels(dops) && LabelsOf(e.view.doubles, DoAll(dblank, dops))
    requires ValidVars(iblank) && Blank(iblank, 0) && CLabels(iops) && LabelsOf(e.view.ints, DoAll(iblank, iops))
    ensures var r, dn, ins := PerformOne(sc, e, SetNamed(name, text), junk), |e.view.doubles|, |e.view.ints|;
      && |r.view.doubles| == dn && |r.view.ints| == ins
      && r.view.doubles[di] == AfterNamed(e.view.doubles[di],
           name != "" && exists k :: 0 <= k < |dops| && LabelledBy(dops, k, di, dn, name), sc.dbl(text))
      && r.view.ints[ii] == AfterNamed(e.view.ints[ii],
           name != "" && exists k :: 0 <= k < |iops| && LabelledBy(iops, k, ii, ins, name), sc.int_(text))
  {
    hide DoAll, Matches, ValidVars, Blank, CLabels, LabelsOf, LabelledBy, NotFound;
    if name != "" {
      MatchIff(e.view.doubles, dblank, dops, 0, di, name);
      MatchIff(e.view.ints, iblank, iops, 0, ii, name);
    }
  }

  /** Some slot's first initialisation left this label. */
  ghost predicate SomeLabelled<T>(ops: seq<Op<T>>, n: nat, name: string) {
    exists slot: nat, k: nat :: slot < n && k < |ops| && LabelledBy(ops, k, slot, n, name)
  }

  lemma AnyMatchIff<T>(vars: seq<Var<T>>, blank: seq<Var<T>>, ops: seq<Op<T>>, zero: T, name: string)
    requires ValidVars(blank) && Blank(blank, zero) && CLabels(ops) && name != ""
    requires LabelsOf(vars, DoAll(blank, ops))
    ensures AnyMatch(vars, name) <==> SomeLabelled(ops, |vars|, name)
  {
    hide DoAll, Matches, ValidVars, Blank, CLabels, LabelsOf, LabelledBy;
    if slot :| 0 <= slot < |vars| && Matches(vars[slot], name) {
      MatchIff(vars, blank, ops, zero, slot, name);
    }
    if slot: nat, k: nat :| slot < |vars| && k < |ops| && LabelledBy(ops, k, slot, |vars|, name) {
      MatchIff(vars, blank, ops, zero, slot, name);
    }
  }

  /** The warning, after any calls of the library and assignments that keep labels: it is printed exactly
      if the name is not empty and no variable of either kind was first initialised with that label. */
  lemma WarnedIff(sc: Scanner, e: Effect, name: string, text: string, junk: Junk,
                  dblank: seq<Var<uint64>>, dops: seq<Op<uint64>>, iblank: seq<Var<int32>>, iops: seq<Op<int32>>)
    requires e.view.Valid()
    requires ValidVars(dblank) && Blank(dblank, 0) && CLabels(dops) && LabelsOf(e.view.doubles, DoAll(dblank, dops))
    requires ValidVars(iblank) && Blank(iblank, 0) && CLabels(iops) && LabelsOf(e.view.ints, DoAll(iblank, iops))
    ensures PerformOne(sc, e, SetNamed(name, text), junk).said == e.said +
      (if name == "" || SomeLabelled(dops, |e.view.doubles|, name) || SomeLabelled(iops, |e.view.ints|, name)
       then [] else CharBytes("warning, no variable found with name \"") + CharBytes(name) + CharBytes("\"\n"))
  {
    assert NotFound(name) == CharBytes("warning, no variable found with name \"") + CharBytes(name) + CharBytes("\"\n");
    hide DoAll, AnyMatch, SomeLabelled, ValidVars, Blank, CLabels, LabelsOf, NotFound, NamedAll;
    if name != "" {
      AnyMatchIff(e.view.doubles, dblank, dops, 0, name);
      AnyMatchIff(e.view.ints, iblank, iops, 0, name);
    }
  }

  /** The turn asks for one assignment by name, whose search finds the double in this slot and gives it
      the number in the text. */
  ghost predicate DoubleWritten(t: Turn, p: Parsed, sc: Scanner, e: Effect, junk: Junk, slot: nat, text: string)
    requires e.view.Valid() && slot < |e.view.doubles| && sc.dbl(text).Some?
  {
    t.Go? && exists name: string ::
      t.p.settings == p.settings + [SetNamed(name, text)] && name != "" && Matches(e.view.doubles[slot], name) &&
      PerformOne(sc, e, SetNamed(name, text), junk).view.doubles[slot].value == sc.dbl(text).value
  }

  /** The same for an int. */
  ghost predicate IntWritten(t: Turn, p: Parsed, sc: Scanner, e: Effect, junk: Junk, slot: nat, text: string)
    requires e.view.Valid() && slot < |e.view.ints| && sc.int_(text).Some?
  {
    t.Go? && exists name: string ::
      t.p.settings == p.settings + [SetNamed(name, text)] && name != "" && Matches(e.view.ints[slot], name) &&
      PerformOne(sc, e, SetNamed(name, text), junk).view.ints[slot].value == sc.int_(text).value
  }

  /** For a double first initialised with this label: `--LABEL=N`, if N is a number, gives it that number
      through the search for its name, if and only if the label can be set. */
  lemma DoubleSetIff(argv: seq<string>, i: nat, p: Parsed, sc: Scanner, e: Effect, junk: Junk, text: string,
                     blank: seq<Var<uint64>>, ops: seq<Op<uint64>>, k: nat, slot: nat)
    requires e.view.Valid() && ValidVars(blank) && Blank(blank, 0) && CLabels(ops)
    requires LabelsOf(e.view.doubles, DoAll(blank, ops)) && slot < |e.view.doubles|
    requires k < |ops| && FirstInit(ops, k, slot, |e.view.doubles|) && ops[k].name.Some? && sc.dbl(text).Some?
    requires IsNameOption(argv, i, ops[k].name.value, text)
    ensures DoubleWritten(OneArg(argv, i, p), p, sc, e, junk, slot, text) <==> Settable(ops[k].name.value)
  {
    var src := ops[k].name.value;
    hide OneArg, FirstInit, DoAll, Matches, ValidVars, Blank, CLabels, LabelsOf, NotFound, Reserved;
    ReachedIff(argv, i, p, text, e.view.doubles, blank, ops, k, 0, slot);
    forall name: string | name != "" && Matches(e.view.doubles[slot], name)
      ensures PerformOne(sc, e, SetNamed(name, text), junk).view.doubles[slot].value == sc.dbl(text).value
    {
      NamedAt(e.view.doubles, name, sc.dbl(text), slot);
    }
  }

  /** The same for a labelled int. */
  lemma IntSetIff(argv: seq<string>, i: nat, p: Parsed, sc: Scanner, e: Effect, junk: Junk, text: string,
                  blank: seq<Var<int32>>, ops: seq<Op<int32>>, k: nat, slot: nat)
    requires e.view.Valid() && ValidVars(blank) && Blank(blank, 0) && CLabels(ops)
    requires LabelsOf(e.view.ints, DoAll(blank, ops)) && slot < |e.view.ints|
    requires k < |ops| && FirstInit(ops, k, slot, |e.view.ints|) && ops[k].name.Some? && sc.int_(text).Some?
    requires IsNameOption(argv, i, ops[k].name.value, text)
    ensures IntWritten(OneArg(argv, i, p), p, sc, e, junk, slot, text) <==> Settable(ops[k].name.value)
  {
    var src := ops[k].name.value;
    hide OneArg, FirstInit, DoAll, Matches, ValidVars, Blank, CLabels, LabelsOf, NotFound, Reserved;
    ReachedIff(argv, i, p, text, e.view.ints, blank, ops, k, 0, slot);
    forall name: string | name != "" && Matches(e.view.ints[slot], name)
      ensures PerformOne(sc, e, SetNamed(name, text), junk).view.ints[slot].value == sc.int_(text).value
    {
      NamedAt(e.view.ints, name, sc.int_(text), slot);
    }
  }

  lemma NamedAt<T>(vars: seq<Var<T>>, name: string, parsed: Option<T>, slot: nat)
    requires slot < |vars|
    ensures NamedAll(vars, name, parsed)[slot] == AfterNamed(vars[slot], Matches(vars[slot], name), parsed)
  {
  }
}
