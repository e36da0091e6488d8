/** The utility at work: parse_args over the attached map and the display globals, and its two passes. */
module Utility {
  import opened Bits
  import opened Bytes
  import opened Options
  import opened Variables
  import opened Slots
  import opened Printing
  import opened Reader
  import opened Arguments
  import opened CommandLine

  // ----------------------------------------------------- assigning to an attached map

  /** sscanf with %lf and %i, left open; None when no number is found. */
  datatype Scanner = Scanner(dbl: string -> Option<uint64>, int_: string -> Option<int32>)

  /** What the uninitialised locals of set_var_double and set_var_int hold, each time anew. */
  datatype Junk = Junk(dbl: uint64, int_: int32)

  /** The two variable sections of an attached map. */
  datatype View = View(doubles: seq<Var<uint64>>, ints: seq<Var<int32>>) {
    ghost predicate Valid() {
      ValidVars(doubles) && ValidVars(ints)
    }
  }

  /** Variables and output of the utility at some point. */
  datatype Effect = Effect(view: View, said: seq<byte>)

  function ValueOr<T>(o: Option<T>, junk: T): T {
    if o.Some? then o.value else junk
  }

  /** The warning of set_var_by_name. */
  function NotFound(name: string): seq<byte> {
    CharBytes("warning, no variable found with name \"") + CharBytes(name) + CharBytes("\"\n")
  }

  predicate AnyMatch<T>(vars: seq<Var<T>>, name: string) {
    exists i :: 0 <= i < |vars| && Matches(vars[i], name)
  }

  /** set_var_double, set_var_int or set_var_by_name, behind the parsing. */
  ghost function PerformOne(sc: Scanner, e: Effect, s: Setting, junk: Junk): (r: Effect)
    requires e.view.Valid()
    ensures r.view.Valid() && |r.view.doubles| == |e.view.doubles| && |r.view.ints| == |e.view.ints|
  {
    var v := e.view;
    match s
    case SetDouble(idx, text) =>
      e.(view := v.(doubles := Do(v.doubles, SetVar(idx, ValueOr(sc.dbl(text), junk.dbl)))))
    case SetInt(idx, text) =>
      e.(view := v.(ints := Do(v.ints, SetVar(idx, ValueOr(sc.int_(text), junk.int_)))))
    case SetNamed(name, text) =>
      if name == "" then e
      else
        NamedStaysValid(v.doubles, name, sc.dbl(text));
        NamedStaysValid(v.ints, name, sc.int_(text));
        Effect(View(NamedAll(v.doubles, name, sc.dbl(text)), NamedAll(v.ints, name, sc.int_(text))),
               e.said + (if AnyMatch(v.doubles, name) || AnyMatch(v.ints, name) then [] else NotFound(name)))
  }

  lemma NamedStaysValid<T>(vars: seq<Var<T>>, name: string, parsed: Option<T>)
    requires ValidVars(vars)
    ensures ValidVars(NamedAll(vars, name, parsed))
  {
  }

  /** All assignments, in order. */
  ghost function Perform(sc: Scanner, e: Effect, ss: seq<Setting>, junk: seq<Junk>): (r: Effect)
    requires e.view.Valid() && |junk| == |ss|
    ensures r.view.Valid()
  {
    if ss == [] then e
    else
      var k := |ss| - 1;
      PerformOne(sc, Perform(sc, e, ss[..k], junk[..k]), ss[k], junk[k])
  }

  lemma PerformSnoc(sc: Scanner, e: Effect, ss: seq<Setting>, junk: seq<Junk>, s: Setting, j: Junk)
    requires e.view.Valid() && |junk| == |ss|
    ensures Perform(sc, e, ss + [s], junk + [j]) == PerformOne(sc, Perform(sc, e, ss, junk), s, j)
  {
    hide PerformOne, View.Valid;
    assert (ss + [s])[..|ss|] == ss && (junk + [j])[..|ss|] == junk;
  }

  // ------------------------------------------------------------- the sections printed

  /** The text of the sections whose formatting is left open. */
  datatype OtherText = OtherText(summary: seq<byte>, counters: seq<byte>, vars: View -> seq<byte>)

  /** The text of the rows section. */
  ghost function RowsText(ring: Ring, mem: seq<byte>, f: Format, d: Display): seq<byte>
    requires AllReadable(ring, mem)
  {
    Listing(ring, mem, f, d, LowestId(ring, mem, ring.n), ring.n)
  }

  /** What is printed for the sections asked for, in the order of parse_args. */
  function Sections(show: Show, o: OtherText, rows: seq<byte>, view: View): seq<byte> {
    (if show.summary then o.summary else []) + (if show.rows then rows else [])
    + (if show.counters then o.counters else []) + (if show.vars then o.vars(view) else [])
  }

  // ------------------------------------------------------------- maps and globals

  /** An attached map: the variables, which the utility may set, and the rows, which it only reads. */
  class Map {
    const doubles: VarSection<uint64>
    const ints: VarSection<int32>
    const ring: Ring
    const rows: seq<byte>

    constructor (doubles: VarSection<uint64>, ints: VarSection<int32>, ring: Ring, rows: seq<byte>)
      ensures this.doubles == doubles && this.ints == ints && this.ring == ring && this.rows == rows
    {
      this.doubles := doubles;
      this.ints := ints;
      this.ring := ring;
      this.rows := rows;
    }

    ghost function Contents(): View
      reads doubles.vars, ints.vars
    {
      View(doubles.vars[..], ints.vars[..])
    }

    ghost predicate Valid()
      reads doubles.vars, ints.vars
    {
      doubles.vars as object != ints.vars && Contents().Valid() && AllReadable(ring, rows)
    }

    /** set_var_double, set_var_int and set_var_by_name, behind the parsing. */
    method Assign(sc: Scanner, s: Setting) returns (said: seq<byte>, ghost junk: Junk)
      requires Valid()
      modifies doubles.vars, ints.vars
      ensures Valid()
      ensures forall before: seq<byte> ::
        Effect(Contents(), before + said) == PerformOne(sc, Effect(old(Contents()), before), s, junk)
    {
      hide ValidVars, Do, NamedAll, AllReadable, Matches, NotFound;
      assert doubles.Valid() && ints.Valid();
      said, junk := [], Junk(0, 0);
      match s
      case SetDouble(idx, text) =>
        var val: uint64 := *;
        junk := Junk(val, 0);
        doubles.SetValue(idx, ValueOr(sc.dbl(text), val));
        assert forall before: seq<byte> :: before + [] == before;
      case SetInt(idx, text) =>
        var val: int32 := *;
        junk := Junk(0, val);
        ints.SetValue(idx, ValueOr(sc.int_(text), val));
        assert forall before: seq<byte> :: before + [] == before;
      case SetNamed(name, text) =>
        assert forall before: seq<byte> :: before + [] == before;
        if name == "" { return; }
        var found := doubles.SetNamed(name, sc.dbl(text));
        var found' := ints.SetNamed(name, sc.int_(text));
        if !found && !found' { said := NotFound(name); }
    }

    /** The printing at the end of parse_args. */
    method ShowSections(show: Show, f: Format, o: OtherText, d: Display) returns (out: seq<byte>)
      requires Valid()
      ensures AllReadable(ring, rows) && out == Sections(show, o, RowsText(ring, rows, f, d), Contents())
    {
      hide AllReadable, Listing, LowestId;
      out := [];
      if show.summary { out := out + o.summary; }
      if show.rows {
        var text := PrintRows(rows, ring, f, d);
        out := out + text;
      }
      if show.counters { out := out + o.counters; }
      if show.vars { out := out + o.vars(View(doubles.vars[..], ints.vars[..])); }
    }
  }

  /** g_delim, g_showdelim, g_terse. */
  class Globals {
    var delim: string
    var showdelim: bool
    var terse: bool

    constructor ()
      ensures Display() == Printing.Display(CharBytes(" "), true, false)
    {
      delim, showdelim, terse := " ", true, false;
    }

    function Display(): Display
      reads this
    {
      Printing.Display(CharBytes(delim), showdelim, terse)
    }
  }

  /** The objects that an attached map consists of. */
  ghost function Footprint(m: Map?): set<object> {
    if m == null then {} else {m.doubles.vars as object, m.ints.vars as object}
  }

  /** Display settings and variables when a pass began. */
  datatype Start = Start(shown: Display, view: View)

  /** Globals, map and output are as the arguments seen so far have left them. */
  ghost predicate Reflects(g: Globals, m: Map?, out: seq<byte>, sc: Scanner, p: Parsed, junk: seq<Junk>, st: Start)
    reads g, Footprint(m)
  {
    g.Display() == p.ov.Over(st.shown) &&
    if m == null then out == []
    else
      m.Valid() && st.view.Valid() && |junk| == |p.settings| &&
      Effect(m.Contents(), out) == Perform(sc, Effect(st.view, []), p.settings, junk)
  }

  // ------------------------------------------------------------------- parse_args

  /** set_var_double, set_var_int, set_var_string: parse the argument, then assign if there is a map. */
  method TakeIndexed(argv: seq<string>, i: nat, k: Kind, m: Map?, sc: Scanner, g: Globals, out: seq<byte>,
                     ghost p: Parsed, ghost junk: seq<Junk>, ghost st: Start)
      returns (stop: Option<Stop>, j: nat, out': seq<byte>, ghost junk': seq<Junk>)
    requires i < |argv| && |k.Prefix()| <= |argv[i]| && Reflects(g, m, out, sc, p, junk, st)
    modifies Footprint(m)
    ensures match Indexed(argv, i, k, p)
      case Halt(why) => stop == Some(why) && Reflects(g, m, out', sc, p, junk', st)
      case Go(j', p') => stop == None && j == j' && Reflects(g, m, out', sc, p', junk', st)
  {
    hide Perform, PerformOne, View.Valid, AllReadable;
    var r := ProcessSetVarArg(argv, i, k.Prefix());
    j, out', junk' := i, out, junk;
    match r
    case BadArg(msg) => stop := Some(Die(msg, argv[i]));
    case GoodArg(idx, value, last) =>
      stop, j := None, last + 1;
      var ss := k.Settings(idx, value);
      if m != null && ss != [] {
        out', junk' := AssignNext(m, sc, ss[0], g, out, p, junk, st);
        assert p.settings + ss == p.settings + [ss[0]];
      } else {
        assert ss == [] ==> p.settings + ss == p.settings;
      }
  }

  /** One more assignment to a map. */
  method AssignNext(m: Map, sc: Scanner, s: Setting, ghost g: Globals, out: seq<byte>,
                    ghost p: Parsed, ghost junk: seq<Junk>, ghost st: Start)
      returns (out': seq<byte>, ghost junk': seq<Junk>)
    requires Reflects(g, m, out, sc, p, junk, st)
    modifies Footprint(m)
    ensures Reflects(g, m, out', sc, p.(settings := p.settings + [s]), junk', st)
  {
    hide Perform, PerformOne, View.Valid, AllReadable;
    var said, j := m.Assign(sc, s);
    out', junk' := out + said, junk + [j];
    PerformSnoc(sc, Effect(st.view, []), p.settings, junk, s, j);
  }

  /** set_var_by_name. */
  method TakeNamed(argv: seq<string>, i: nat, m: Map?, sc: Scanner, g: Globals, out: seq<byte>,
                   ghost p: Parsed, ghost junk: seq<Junk>, ghost st: Start)
      returns (stop: Option<Stop>, j: nat, out': seq<byte>, ghost junk': seq<Junk>)
    requires i < |argv| && |argv[i]| >= 2 && Reflects(g, m, out, sc, p, junk, st)
    modifies Footprint(m)
    ensures match NamedArg(argv, i)
      case None => stop == Some(Die("missing argument after ", argv[i])) && Reflects(g, m, out', sc, p, junk', st)
      case Some((name, text, last)) =>
        stop == None && j == last + 1 &&
        Reflects(g, m, out', sc, p.(settings := p.settings + [SetNamed(name, text)]), junk', st)
  {
    hide Perform, PerformOne, View.Valid, AllReadable;
    j, out', junk' := i, out, junk;
    var firstarg := argv[i][2..];
    var eq := Find(firstarg, '=');
    var name, text := firstarg, "";
    if eq.Some? {
      name := firstarg[..eq.value];
      text := firstarg[eq.value + 1..];
    } else {
      j := j + 1;
      if j >= |argv| {
        stop := Some(Die("missing argument after ", argv[i]));
        return;
      }
      text := argv[j];
    }
    stop, j := None, j + 1;
    if m != null {
      out', junk' := AssignNext(m, sc, SetNamed(name, text), g, out, p, junk, st);
    }
  }

  /** The body of the argument loop. */
  method TakeArg(argv: seq<string>, i: nat, l: Locals, m: Map?, sc: Scanner, g: Globals, out: seq<byte>,
                 ghost p: Parsed, ghost junk: seq<Junk>, ghost st: Start)
      returns (stop: Option<Stop>, j: nat, l': Locals, out': seq<byte>, ghost junk': seq<Junk>)
    requires i < |argv| && l == p.locals && Reflects(g, m, out, sc, p, junk, st)
    modifies g, Footprint(m)
    ensures match OneArg(argv, i, p)
      case Halt(why) => stop == Some(why) && Reflects(g, m, out', sc, p, junk', st)
      case Go(j', p') => stop == None && j == j' && l' == p'.locals && Reflects(g, m, out', sc, p', junk', st)
  {
    hide Perform, PerformOne, View.Valid, SetVarArg, NamedArg, AllReadable;
    stop, j, l', out', junk' := None, i + 1, l, out, junk;
    var a := argv[i];
    if a == "-h" || a == "--help" {
      stop := Some(Help);
    } else if a == "-s" {
      l' := l.(toshow := l.toshow.(summary := true));
    } else if a == "-c" {
      l' := l.(toshow := l.toshow.(counters := true));
    } else if a == "-r" {
      l' := l.(toshow := l.toshow.(rows := true));
    } else if a == "-v" {
      l' := l.(toshow := l.toshow.(vars := true));
    } else if a == "-a" {
      l' := l.(toshow := l.toshow.(counters := true, rows := true, vars := true));
    } else if a == "-F" {
      if i + 1 >= |argv| {
        stop := Some(Die("missing argument to -F", ""));
      } else {
        g.delim := argv[i + 1];
        g.showdelim := true;
        j := i + 2;
      }
    } else if a == "-z" {
      g.showdelim := false;
    } else if a == "-t" {
      g.terse := true;
    } else if a == "--version" {
      stop := Some(Version);
    } else if OPT_DOUBLE <= a {
      stop, j, out', junk' := TakeIndexed(argv, i, DoubleOpt, m, sc, g, out, p, junk, st);
      l' := l.(defaultshow := false);
    } else if OPT_INT <= a {
      stop, j, out', junk' := TakeIndexed(argv, i, IntOpt, m, sc, g, out, p, junk, st);
      l' := l.(defaultshow := false);
    } else if OPT_STRING <= a {
      stop, j, out', junk' := TakeIndexed(argv, i, StringOpt, m, sc, g, out, p, junk, st);
      l' := l.(defaultshow := false);
    } else if "--" <= a && |a| > 2 {
      stop, j, out', junk' := TakeNamed(argv, i, m, sc, g, out, p, junk, st);
      l' := l.(defaultshow := false);
    } else if l.filename == None {
      l' := l.(filename := Some(a));
    } else {
      stop := Some(Die("unexpected argument: ", a));
    }
  }

  /** What parse_args leaves and prints, for arguments that mean o: the display settings, and with a
      map the variables and the warnings and, unless only parsing, the sections asked for. */
  ghost predicate Parses(o: Outcome, parseonly: bool, m: Map?, sc: Scanner, f: Format, others: OtherText,
                         st: Start, junk: seq<Junk>, shown: Display, out: seq<byte>)
    reads Footprint(m)
  {
    && shown == o.p.ov.Over(st.shown)
    && if m == null then out == []
       else
         m.Valid() && st.view.Valid() && |junk| == |o.p.settings| &&
         var e := Perform(sc, Effect(st.view, []), o.p.settings, junk);
         m.Contents() == e.view &&
         out == e.said + (if o.Stopped? || parseonly then []
                          else Sections(FinalShow(o.p.locals), others, RowsText(m.ring, m.rows, f, shown), e.view))
  }

  /** parse_args. Whether there is a map decides only whether assignments and printing happen; everything
      else is a function of the arguments alone. */
  method ParseArgs(argv: seq<string>, parseonly: bool, m: Map?, sc: Scanner, f: Format, others: OtherText, g: Globals)
      returns (r: Result, out: seq<byte>, ghost junk: seq<Junk>)
    requires m != null ==> m.Valid()
    modifies g, Footprint(m)
    ensures r == ResultOf(Scan(argv, 1, NOTHING))
    ensures Parses(Scan(argv, 1, NOTHING), parseonly, m, sc, f, others,
                   Start(old(g.Display()), if m != null then old(m.Contents()) else View([], [])),
                   junk, g.Display(), out)
  {
    ghost var st := Start(g.Display(), if m != null then m.Contents() else View([], []));
    ghost var p := NOTHING;
    var l := START;
    var i := 1;
    out, junk := [], [];
    assert m != null ==> Perform(sc, Effect(st.view, []), [], []) == Effect(st.view, []);
    hide OneArg, Perform, PerformOne, View.Valid, AllReadable, Sections, RowsText;
    while i < |argv|
      invariant l == p.locals && Reflects(g, m, out, sc, p, junk, st)
      invariant Scan(argv, i, p) == Scan(argv, 1, NOTHING)
      decreases |argv| - i
    {
      ghost var turn := OneArg(argv, i, p);
      var stop;
      stop, i, l, out, junk := TakeArg(argv, i, l, m, sc, g, out, p, junk, st);
      if stop.Some? {
        r := Exits(stop.value);
        return;
      }
      p := turn.p;
    }
    if !parseonly && m != null {
      var text := m.ShowSections(FinalShow(l), f, others, g.Display());
      out := out + text;
    }
    r := Returns(l.filename, FinalShow(l));
  }

  // ------------------------------------------------------------------------- main

  /** main: a first pass without a map, attaching (m is what log2mem_attach gives back, null if it
      fails), and a second pass with the map. If the first pass returned, so does the second, with the
      same file name and sections; the display settings end as one pass would leave them, each
      assignment is made once, in order, and the output is that of one pass. */
  method RunUtility(argv: seq<string>, m: Map?, sc: Scanner, f: Format, others: OtherText, g: Globals)
      returns (first: Result, second: Option<Result>, out: seq<byte>, ghost junk: seq<Junk>)
    requires m != null ==> m.Valid()
    modifies g, Footprint(m)
    ensures first == ResultOf(Scan(argv, 1, NOTHING))
    ensures second == if first.Returns? && first.filename.Some? && m != null then Some(first) else None
    ensures second == None ==>
      out == [] && g.Display() == Scan(argv, 1, NOTHING).p.ov.Over(old(g.Display())) &&
      (m != null ==> m.Contents() == old(m.Contents()))
    ensures second.Some? ==>
      Parses(Scan(argv, 1, NOTHING), false, m, sc, f, others, Start(old(g.Display()), old(m.Contents())), junk,
             g.Display(), out)
  {
    hide Scan, Perform, View.Valid, AllReadable, Sections, RowsText;
    ghost var d0 := g.Display();
    first, out, junk := ParseArgs(argv, true, null, sc, f, others, g);
    second := None;
    if first.Exits? || first.filename == None || m == null { return; }
    var r;
    OverTwice(Scan(argv, 1, NOTHING).p.ov, d0);
    r, out, junk := ParseArgs(argv, false, m, sc, f, others, g);
    second := Some(r);
  }
}
