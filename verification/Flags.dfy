/** Whole command lines: what the words that a user writes are read as, whatever their number and order. */
module Flags {
  import opened Bits
  import opened Bytes
  import opened Options
  import opened Variables
  import opened Printing
  import opened Arguments
  import opened CommandLine
  import opened Utility
  import opened Names

  /** One option as the user writes it; indices as digit strings. */
  datatype Word =
    | Delim(x: string)                                                  // -F x
    | NoDelim | Terse                                                   // -z -t
    | Summary | CounterList | RowList | VarList | All                   // -s -c -r -v -a
    | FileName(name: string)
    | DoubleAt(bracketed: bool, ds: string, text: string)               // --double[ds]=text
    | IntAt(bracketed: bool, ds: string, text: string)                  // --int[ds]=text
    | StringAt(bracketed: bool, ds: string, text: string)               // --string[ds]=text
    | Named(name: string, text: string)                                 // --name=text

  function Written(w: Word): seq<string> {
    match w
    case Delim(x) => ["-F", x]
    case NoDelim => ["-z"]
    case Terse => ["-t"]
    case Summary => ["-s"]
    case CounterList => ["-c"]
    case RowList => ["-r"]
    case VarList => ["-v"]
    case All => ["-a"]
    case FileName(name) => [name]
    case DoubleAt(b, ds, text) => ["--double" + (if b then "[" + ds + "]" else ds) + "=" + text]
    case IntAt(b, ds, text) => ["--int" + (if b then "[" + ds + "]" else ds) + "=" + text]
    case StringAt(b, ds, text) => ["--string" + (if b then "[" + ds + "]" else ds) + "=" + text]
    case Named(name, text) => ["--" + name + "=" + text]
  }

  function WrittenAll(ws: seq<Word>): seq<string> {
    if ws == [] then [] else WrittenAll(ws[..|ws| - 1]) + Written(ws[|ws| - 1])
  }

  /** An argument that parse_args takes for a file name. */
  predicate IsFileName(a: string) {
    a !in {"-h", "--help", "-s", "-c", "-r", "-v", "-a", "-F", "-z", "-t", "--version"} && !("--" <= a && |a| > 2)
  }

  predicate Sensible(w: Word) {
    (w.FileName? ==> IsFileName(w.name)) &&
    (w.DoubleAt? || w.IntAt? || w.StringAt? ==> AllDigits(w.ds)) &&
    (w.Named? ==> !Reserved(w.name) && '=' !in w.name)
  }

  predicate Assigns(w: Word) {
    w.DoubleAt? || w.IntAt? || w.StringAt? || w.Named?
  }

  /** The assignments asked for, in order. */
  function Assignments(ws: seq<Word>): seq<Setting> {
    if ws == [] then []
    else
      var w := ws[|ws| - 1];
      Assignments(ws[..|ws| - 1]) +
      (if w.DoubleAt? && AllDigits(w.ds) then [SetDouble(DecimalValue(w.ds) % 0x1_0000_0000, w.text)]
       else if w.IntAt? && AllDigits(w.ds) then [SetInt(DecimalValue(w.ds) % 0x1_0000_0000, w.text)]
       else if w.Named? then [SetNamed(w.name, w.text)] else [])
  }

  /** Word k names the delimiter that counts; word k decides whether delimiters are shown. */
  ghost predicate LastDelim(ws: seq<Word>, k: nat) {
    k < |ws| && ws[k].Delim? && forall j :: k < j < |ws| ==> !ws[j].Delim?
  }

  ghost predicate LastShowing(ws: seq<Word>, k: nat) {
    k < |ws| && (ws[k].Delim? || ws[k].NoDelim?) && forall j :: k < j < |ws| ==> !ws[j].Delim? && !ws[j].NoDelim?
  }

  /** At most one of the words is a file name. */
  predicate OneFile(ws: seq<Word>) {
    forall j, k :: 0 <= j < k < |ws| ==> !(ws[j].FileName? && ws[k].FileName?)
  }

  // ---------------------------------------------------------------------- one word

  /** What a word adds to what is known. */
  function Read(p: Parsed, w: Word): Parsed {
    var l, ov, show := p.locals, p.ov, p.locals.toshow;
    match w
    case Delim(x) => p.(ov := ov.(delim := Some(x), showdelim := Some(true)))
    case NoDelim => p.(ov := ov.(showdelim := Some(false)))
    case Terse => p.(ov := ov.(terse := true))
    case Summary => p.(locals := l.(toshow := show.(summary := true)))
    case CounterList => p.(locals := l.(toshow := show.(counters := true)))
    case RowList => p.(locals := l.(toshow := show.(rows := true)))
    case VarList => p.(locals := l.(toshow := show.(vars := true)))
    case All => p.(locals := l.(toshow := show.(counters := true, rows := true, vars := true)))
    case FileName(name) => p.(locals := l.(filename := Some(name)))
    case _ => p.(settings := p.settings + Assignments([w]), locals := l.(defaultshow := false))
  }

  lemma PlainTurn(argv: seq<string>, i: nat, p: Parsed, w: Word)
    requires i + |Written(w)| <= |argv| && argv[i..i + |Written(w)|] == Written(w)
    requires !Assigns(w) && Sensible(w) && (w.FileName? ==> p.locals.filename == None)
    ensures OneArg(argv, i, p) == Go(i + |Written(w)|, Read(p, w))
  {
    hide Indexed, NamedArg;
    assert argv[i] == Written(w)[0];
    if w.Delim? { assert argv[i + 1] == Written(w)[1]; }
    assert "--" <= OPT_DOUBLE && "--" <= OPT_INT && "--" <= OPT_STRING;
  }

  /** An argument that begins like an indexed option is read as one. */
  lemma IndexedTurn(argv: seq<string>, i: nat, p: Parsed, k: Kind)
    requires i < |argv| && k.Prefix() <= argv[i]
    ensures OneArg(argv, i, p) == Indexed(argv, i, k, p)
  {
    hide Indexed, NamedArg;
    var a := argv[i];
    assert a[2] == k.Prefix()[2];
    assert a != "--help" && a != "--version";
  }

  /** The option as prefix and the rest. */
  lemma IndexedText(k: Kind, b: bool, ds: string, text: string, a: string)
    requires a == k.Prefix() + (if b then "[" + ds + "]" else ds) + "=" + text
    ensures k.Prefix() <= a
  {
    assert a == k.Prefix() + ((if b then "[" + ds + "]" else ds) + "=" + text);
  }

  lemma IndexedWord(argv: seq<string>, i: nat, p: Parsed, k: Kind, b: bool, ds: string, text: string)
    requires i < |argv| && AllDigits(ds)
    requires argv[i] == k.Prefix() + (if b then "[" + ds + "]" else ds) + "=" + text
    ensures OneArg(argv, i, p) ==
      Go(i + 1, p.(settings := p.settings + k.Settings(DecimalValue(ds) % 0x1_0000_0000, text),
                   locals := p.locals.(defaultshow := false)))
  {
    hide OneArg, SetVarArg, DecimalValue, Kind.Prefix, AllDigits;
    IndexedText(k, b, ds, text, argv[i]);
    IndexedTurn(argv, i, p, k);
    IndexRead(argv, i, k.Prefix(), b, ds, text);
  }

  lemma AssigningTurn(argv: seq<string>, i: nat, p: Parsed, w: Word)
    requires i < |argv| && [argv[i]] == Written(w) && Assigns(w) && Sensible(w)
    ensures OneArg(argv, i, p) == Go(i + 1, Read(p, w))
  {
    assert argv[i] == Written(w)[0];
    hide OneArg, NamedArg, Reserved, Assignments, DecimalValue, AllDigits, IsFileName;
    OneAssignment(w);
    match w
    case Named(name, text) => NameReachable(argv, i, p, name, text);
    case DoubleAt(b, ds, text) => IndexedWord(argv, i, p, DoubleOpt, b, ds, text);
    case IntAt(b, ds, text) => IndexedWord(argv, i, p, IntOpt, b, ds, text);
    case StringAt(b, ds, text) => IndexedWord(argv, i, p, StringOpt, b, ds, text);
  }

  lemma OneAssignment(w: Word)
    ensures w.DoubleAt? && AllDigits(w.ds) ==>
      Assignments([w]) == [SetDouble(DecimalValue(w.ds) % 0x1_0000_0000, w.text)]
    ensures w.IntAt? && AllDigits(w.ds) ==> Assignments([w]) == [SetInt(DecimalValue(w.ds) % 0x1_0000_0000, w.text)]
    ensures w.Named? ==> Assignments([w]) == [SetNamed(w.name, w.text)]
    ensures w.StringAt? ==> Assignments([w]) == []
  {
    hide DecimalValue, AllDigits;
    assert [w][..0] == [];
    assert Assignments([]) == [];
  }

  // --------------------------------------------------------------------- all the words

  /** What is known after these words. */
  function ReadAll(ws: seq<Word>): Parsed {
    if ws == [] then NOTHING else Read(ReadAll(ws[..|ws| - 1]), ws[|ws| - 1])
  }

  lemma {:induction false} NoFileYet(ws: seq<Word>)
    requires forall w :: w in ws ==> !w.FileName?
    ensures ReadAll(ws).locals.filename == None
    decreases |ws|
  {
    hide Assignments;
    if ws == [] {
    } else {
      assert ws[|ws| - 1] in ws;
      NoFileYet(ws[..|ws| - 1]);
    }
  }

  /** The words, in front of anything else, are read as ReadAll says. */
  lemma {:induction false} ScanWords(argv: seq<string>, ws: seq<Word>, rest: seq<string>)
    requires |argv| > 0 && argv == argv[..1] + WrittenAll(ws) + rest
    requires (forall w :: w in ws ==> Sensible(w)) && OneFile(ws)
    ensures Scan(argv, 1, NOTHING) == Scan(argv, 1 + |WrittenAll(ws)|, ReadAll(ws))
    decreases |ws|
  {
    hide Scan, OneArg, Written, Sensible, Read;
    if ws == [] {
    } else {
      var k := |ws| - 1;
      var init, w := ws[..k], ws[k];
      assert w in ws;
      assert argv == argv[..1] + WrittenAll(init) + (Written(w) + rest);
      ScanWords(argv, init, Written(w) + rest);
      ReadFile(ws);
      var i := 1 + |WrittenAll(init)|;
      assert argv[i..i + |Written(w)|] == Written(w);
      WordTurn(argv, i, ReadAll(init), w);
      ScanStep(argv, i, ReadAll(init));
    }
  }

  lemma ScanStep(argv: seq<string>, i: nat, p: Parsed)
    requires i < |argv| && OneArg(argv, i, p).Go?
    ensures Scan(argv, i, p) == Scan(argv, OneArg(argv, i, p).i, OneArg(argv, i, p).p)
  {
    hide OneArg;
  }

  /** Before the only file name there was none. */
  lemma ReadFile(ws: seq<Word>)
    requires ws != [] && OneFile(ws)
    ensures ws[|ws| - 1].FileName? ==> ReadAll(ws[..|ws| - 1]).locals.filename == None
  {
    hide ReadAll;
    if ws[|ws| - 1].FileName? { NoFileYet(ws[..|ws| - 1]); }
  }

  lemma WordTurn(argv: seq<string>, i: nat, p: Parsed, w: Word)
    requires i + |Written(w)| <= |argv| && argv[i..i + |Written(w)|] == Written(w)
    requires Sensible(w) && (w.FileName? ==> p.locals.filename == None)
    ensures |Written(w)| > 0 && OneArg(argv, i, p) == Go(i + |Written(w)|, Read(p, w))
  {
    hide OneArg, Read, Sensible;
    if Assigns(w) {
      assert [argv[i]] == argv[i..i + 1];
      AssigningTurn(argv, i, p, w);
    } else {
      PlainTurn(argv, i, p, w);
    }
  }

  // ------------------------------------------------------------------ what is known

  lemma InSnoc(ws: seq<Word>, x: Word)
    requires ws != []
    ensures x in ws <==> x in ws[..|ws| - 1] || x == ws[|ws| - 1]
  {
    assert ws == ws[..|ws| - 1] + [ws[|ws| - 1]];
  }

  lemma {:induction false} SectionsRead(ws: seq<Word>)
    ensures ReadAll(ws).locals.toshow ==
      Show(Summary in ws, CounterList in ws || All in ws, RowList in ws || All in ws, VarList in ws || All in ws)
    decreases |ws|
  {
    hide Assignments;
    if ws == [] {
    } else {
      InSnoc(ws, Summary);
      InSnoc(ws, CounterList);
      InSnoc(ws, RowList);
      InSnoc(ws, VarList);
      InSnoc(ws, All);
      SectionsRead(ws[..|ws| - 1]);
    }
  }

  lemma {:induction false} DefaultRead(ws: seq<Word>)
    ensures ReadAll(ws).locals.defaultshow <==> forall w :: w in ws ==> !Assigns(w)
    decreases |ws|
  {
    hide Assignments, Assigns;
    if ws == [] {
    } else {
      var init, last := ws[..|ws| - 1], ws[|ws| - 1];
      DefaultRead(init);
      DefaultKept(ReadAll(init), last);
      assert last in ws;
      forall w | w in init ensures w in ws {}
      forall w | w in ws ensures w in init || w == last {
        InSnoc(ws, w);
      }
    }
  }

  lemma DefaultKept(p: Parsed, w: Word)
    ensures Read(p, w).locals.defaultshow == (p.locals.defaultshow && !Assigns(w))
  {
    hide Assignments;
  }

  lemma {:induction false} TerseRead(ws: seq<Word>)
    ensures ReadAll(ws).ov.terse <==> Terse in ws
    decreases |ws|
  {
    hide Assignments;
    if ws == [] {
    } else {
      var k := |ws| - 1;
      assert ws == ws[..k] + [ws[k]];
      TerseRead(ws[..k]);
    }
  }

  lemma {:induction false} DelimRead(ws: seq<Word>, k: nat)
    ensures LastDelim(ws, k) ==> ReadAll(ws).ov.delim == Some(ws[k].x)
    ensures (forall w :: w in ws ==> !w.Delim?) ==> ReadAll(ws).ov.delim == None
    decreases |ws|
  {
    hide Assignments;
    if ws == [] {
    } else {
      var n := |ws| - 1;
      var init := ws[..n];
      assert ws == init + [ws[n]];
      DelimRead(init, k);
      if LastDelim(ws, k) && k < n { assert LastDelim(init, k) && !ws[n].Delim?; }
    }
  }

  lemma {:induction false} ShowingRead(ws: seq<Word>, k: nat)
    ensures LastShowing(ws, k) ==> ReadAll(ws).ov.showdelim == Some(ws[k].Delim?)
    ensures (forall w :: w in ws ==> !w.Delim? && !w.NoDelim?) ==> ReadAll(ws).ov.showdelim == None
    decreases |ws|
  {
    hide Assignments;
    if ws == [] {
    } else {
      var n := |ws| - 1;
      var init := ws[..n];
      assert ws == init + [ws[n]];
      ShowingRead(init, k);
      if LastShowing(ws, k) && k < n { assert LastShowing(init, k) && !ws[n].Delim? && !ws[n].NoDelim?; }
    }
  }

  lemma {:induction false} FileRead(ws: seq<Word>, k: nat)
    requires OneFile(ws)
    ensures k < |ws| && ws[k].FileName? ==> ReadAll(ws).locals.filename == Some(ws[k].name)
    ensures (forall w :: w in ws ==> !w.FileName?) ==> ReadAll(ws).locals.filename == None
    decreases |ws|
  {
    hide Assignments;
    if ws == [] {
    } else {
      var n := |ws| - 1;
      assert ws == ws[..n] + [ws[n]];
      FileRead(ws[..n], k);
    }
  }

  lemma {:induction false} AssignmentsRead(ws: seq<Word>)
    ensures ReadAll(ws).settings == Assignments(ws)
    decreases |ws|
  {
    hide Assignments, Read;
    if ws == [] {
      assert Assignments([]) == [] by { NoAssignments(); }
    } else {
      var n := |ws| - 1;
      AssignmentsRead(ws[..n]);
      assert ws == ws[..n] + [ws[n]];
      AssignMore(ws[..n], ws[n]);
      SettingsRead(ReadAll(ws[..n]), ws[n]);
    }
  }

  lemma NoAssignments()
    ensures Assignments([]) == []
  {
  }

  lemma SettingsRead(p: Parsed, w: Word)
    ensures Read(p, w).settings == p.settings + Assignments([w])
  {
    AssignMore([], w);
    hide Assignments;
  }

  lemma AssignMore(ws: seq<Word>, w: Word)
    ensures Assignments(ws + [w]) == Assignments(ws) + Assignments([w])
    ensures !Assigns(w) ==> Assignments([w]) == []
  {
    hide DecimalValue, AllDigits;
    assert (ws + [w])[..|ws|] == ws;
    assert [w][..0] == [];
    assert Assignments([]) == [];
  }

  // ------------------------------------------------------------------ main theorems

  /** The argument vector of these words, behind the program's name. */
  ghost predicate CommandLineOf(argv: seq<string>, ws: seq<Word>, rest: seq<string>) {
    |argv| > 0 && argv == argv[..1] + WrittenAll(ws) + rest && (forall w :: w in ws ==> Sensible(w)) && OneFile(ws)
  }

  /** -s, -c, -r, -v or -a. */
  predicate NamesSection(w: Word) {
    w.Summary? || w.CounterList? || w.RowList? || w.VarList? || w.All?
  }

  /** Character by character, as bytes. */
  predicate IsBytesOf(b: seq<byte>, s: string) {
    |b| == |s| && forall i :: 0 <= i < |s| ==> b[i] == s[i] as int % 0x100
  }

  lemma WordsScanned(argv: seq<string>, ws: seq<Word>)
    requires CommandLineOf(argv, ws, [])
    ensures Scan(argv, 1, NOTHING) == Done(ReadAll(ws))
  {
    hide OneArg, ReadAll, Sensible, OneFile;
    ScanWords(argv, ws, []);
  }

  /** Any words in any order parse. The delimiter shown is that of the last -F, and delimiters are shown
      unless -z came after it; -t hides the locations and header fields; if no section is named and
      nothing assigned all four are printed, else those named, -a standing for all but the summary. */
  lemma DisplayAndSections(argv: seq<string>, ws: seq<Word>, d: Display, j: nat, k: nat)
    requires CommandLineOf(argv, ws, [])
    ensures Scan(argv, 1, NOTHING).Done?
    ensures var shown := Scan(argv, 1, NOTHING).p.ov.Over(d);
      && (LastDelim(ws, j) ==> IsBytesOf(shown.delim, ws[j].x))
      && ((forall w :: w in ws ==> !w.Delim?) ==> shown.delim == d.delim)
      && (LastShowing(ws, k) ==> shown.showdelim == ws[k].Delim?)
      && ((forall w :: w in ws ==> !w.Delim? && !w.NoDelim?) ==> shown.showdelim == d.showdelim)
      && shown.terse == (d.terse || Terse in ws)
    ensures ResultOf(Scan(argv, 1, NOTHING)).Returns?
    ensures ResultOf(Scan(argv, 1, NOTHING)).toshow ==
      if forall w :: w in ws ==> !NamesSection(w) && !Assigns(w) then Show(true, true, true, true)
      else Show(Summary in ws, CounterList in ws || All in ws, RowList in ws || All in ws, VarList in ws || All in ws)
  {
    hide Scan, ReadAll, CommandLineOf, LastDelim, LastShowing, Assigns;
    WordsScanned(argv, ws);
    SectionsRead(ws);
    DefaultRead(ws);
    TerseRead(ws);
    DelimRead(ws, j);
    ShowingRead(ws, k);
    NamesNone(ws);
  }

  lemma NamesNone(ws: seq<Word>)
    ensures (forall w :: w in ws ==> !NamesSection(w)) <==>
      !(Summary in ws || CounterList in ws || RowList in ws || VarList in ws || All in ws)
  {
    assert NamesSection(Summary) && NamesSection(CounterList) && NamesSection(RowList);
    assert NamesSection(VarList) && NamesSection(All);
  }

  /** The file name and the assignments asked for, in order. */
  lemma FileAndAssignments(argv: seq<string>, ws: seq<Word>, k: nat)
    requires CommandLineOf(argv, ws, [])
    ensures Scan(argv, 1, NOTHING).Done?
    ensures k < |ws| && ws[k].FileName? ==> ResultOf(Scan(argv, 1, NOTHING)).filename == Some(ws[k].name)
    ensures (forall w :: w in ws ==> !w.FileName?) ==> ResultOf(Scan(argv, 1, NOTHING)).filename == None
    ensures Scan(argv, 1, NOTHING).p.settings == Assignments(ws)
  {
    hide Scan, ReadAll, Assignments;
    assert OneFile(ws);
    WordsScanned(argv, ws);
    FileRead(ws, k);
    AssignmentsRead(ws);
  }

  /** The words that end the program behind any others: help, version, -F without its delimiter, and a
      second file name. */
  lemma CommandLineStops(argv: seq<string>, ws: seq<Word>, w: string, rest: seq<string>)
    requires CommandLineOf(argv, ws, [w] + rest)
    ensures var r := ResultOf(Scan(argv, 1, NOTHING));
      && (w == "-h" || w == "--help" ==> r == Exits(Help))
      && (w == "--version" ==> r == Exits(Version))
      && (w == "-F" && rest == [] ==> r == Exits(Die("missing argument to -F", "")))
      && (IsFileName(w) && (exists x :: x in ws && x.FileName?) ==> r == Exits(Die("unexpected argument: ", w)))
  {
    hide Scan, ReadAll;
    var i, p := 1 + |WrittenAll(ws)|, ReadAll(ws);
    ScanWords(argv, ws, [w] + rest);
    assert argv[i] == ([w] + rest)[0];
    if x :| x in ws && x.FileName? {
      var k :| 0 <= k < |ws| && ws[k] == x;
      FileRead(ws, k);
    }
    StopTurn(argv, i, p);
    ScanStops(argv, i, p);
  }

  lemma StopTurn(argv: seq<string>, i: nat, p: Parsed)
    requires i < |argv|
    ensures argv[i] == "-h" || argv[i] == "--help" ==> OneArg(argv, i, p) == Halt(Help)
    ensures argv[i] == "--version" ==> OneArg(argv, i, p) == Halt(Version)
    ensures argv[i] == "-F" && i + 1 >= |argv| ==> OneArg(argv, i, p) == Halt(Die("missing argument to -F", ""))
    ensures IsFileName(argv[i]) && p.locals.filename != None ==>
      OneArg(argv, i, p) == Halt(Die("unexpected argument: ", argv[i]))
  {
    hide Indexed, NamedArg;
    assert "--" <= OPT_DOUBLE && "--" <= OPT_INT && "--" <= OPT_STRING;
  }

  lemma ScanStops(argv: seq<string>, i: nat, p: Parsed)
    requires i < |argv|
    ensures OneArg(argv, i, p).Halt? ==> Scan(argv, i, p) == Stopped(OneArg(argv, i, p).why, p)
  {
    hide OneArg;
  }

  // -------------------------------------------------------------- the indexed options

  /** Argument i is this option with index n, in brackets or not, and v follows behind `=` or as the next
      argument. */
  predicate IsIndexOption(argv: seq<string>, i: nat, option: string, bracketed: bool, n: nat, v: string) {
    i < |argv| &&
    var a := option + (if bracketed then "[" + Decimal(n) + "]" else Decimal(n));
    argv[i] == a + "=" + v || (argv[i] == a && i + 1 < |argv| && argv[i + 1] == v)
  }

  lemma IndexOptionTurn(argv: seq<string>, i: nat, p: Parsed, k: Kind, bracketed: bool, n: uint32, v: string)
    requires IsIndexOption(argv, i, k.Prefix(), bracketed, n, v)
    ensures OneArg(argv, i, p).Go?
    ensures OneArg(argv, i, p).p.settings == p.settings + k.Settings(n, v)
  {
    hide OneArg, SetVarArg, Decimal, Kind.Prefix, Kind.Settings;
    OptionRoundTrip(argv, i, k.Prefix(), bracketed, n, v);
    var t := if bracketed then "[" + Decimal(n) + "]" else Decimal(n);
    assert argv[i] == k.Prefix() + t + "=" + v ==> argv[i] == k.Prefix() + (t + "=" + v);
    IndexedTurn(argv, i, p, k);
  }

  /** Only the variable in this slot has changed: its value, and its used flag is set. */
  ghost predicate OnlySet<T>(vars: seq<Var<T>>, r: seq<Var<T>>, slot: nat, value: T) {
    && |r| == |vars|
    && (forall k :: 0 <= k < |vars| && k != slot ==> r[k] == vars[k])
    && (slot < |vars| ==> r[slot] == Var(value, vars[slot].initialised, true, vars[slot].text))
  }

  /** `--double[I]=N`: one assignment, which gives double I modulo num_vars the number N and the used flag
      (a text that is no number leaves an arbitrary number), and changes nothing else. */
  lemma DoubleOptionSets(argv: seq<string>, i: nat, p: Parsed, bracketed: bool, n: uint32, v: string,
                         sc: Scanner, e: Effect, junk: Junk)
    requires IsIndexOption(argv, i, "--double", bracketed, n, v) && e.view.Valid()
    ensures OneArg(argv, i, p).Go? && |OneArg(argv, i, p).p.settings| == |p.settings| + 1
    ensures OneArg(argv, i, p).p.settings[..|p.settings|] == p.settings
    ensures var s, vars := OneArg(argv, i, p).p.settings[|p.settings|], e.view.doubles;
      var r := PerformOne(sc, e, s, junk);
      && r.view.ints == e.view.ints && r.said == e.said && |vars| > 0
      && OnlySet(vars, r.view.doubles, n % |vars|, if sc.dbl(v).Some? then sc.dbl(v).value else junk.dbl)
  {
    hide OneArg, ValidVars;
    IndexOptionTurn(argv, i, p, DoubleOpt, bracketed, n, v);
    assert OneArg(argv, i, p).p.settings == p.settings + [SetDouble(n, v)];
    SlotInRange(e.view.doubles, n);
    hide SlotOf;
  }

  /** `--int[I]=N` does the same for an int. */
  lemma IntOptionSets(argv: seq<string>, i: nat, p: Parsed, bracketed: bool, n: uint32, v: string,
                      sc: Scanner, e: Effect, junk: Junk)
    requires IsIndexOption(argv, i, "--int", bracketed, n, v) && e.view.Valid()
    ensures OneArg(argv, i, p).Go? && |OneArg(argv, i, p).p.settings| == |p.settings| + 1
    ensures OneArg(argv, i, p).p.settings[..|p.settings|] == p.settings
    ensures var s, vars := OneArg(argv, i, p).p.settings[|p.settings|], e.view.ints;
      var r := PerformOne(sc, e, s, junk);
      && r.view.doubles == e.view.doubles && r.said == e.said && |vars| > 0
      && OnlySet(vars, r.view.ints, n % |vars|, if sc.int_(v).Some? then sc.int_(v).value else junk.int_)
  {
    hide OneArg, ValidVars;
    IndexOptionTurn(argv, i, p, IntOpt, bracketed, n, v);
    assert OneArg(argv, i, p).p.settings == p.settings + [SetInt(n, v)];
    SlotInRange(e.view.ints, n);
    hide SlotOf;
  }

  /** `--string[I]=X` is parsed in the same way and sets nothing. */
  lemma StringOptionSetsNothing(argv: seq<string>, i: nat, p: Parsed, bracketed: bool, n: uint32, v: string)
    requires IsIndexOption(argv, i, "--string", bracketed, n, v)
    ensures OneArg(argv, i, p).Go? && OneArg(argv, i, p).p.settings == p.settings
  {
    hide OneArg;
    IndexOptionTurn(argv, i, p, StringOpt, bracketed, n, v);
  }
}
