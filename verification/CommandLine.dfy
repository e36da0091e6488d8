/** What the utility's arguments mean, one after the other; no map and no display setting is consulted. */
module CommandLine {
  import opened Bits
  import opened Bytes
  import opened Options
  import opened Printing
  import opened Arguments

  /** How a run of the utility can end inside the parser. */
  datatype Stop = Help | Version | Die(msg: string, arg: string)

  /** The sections asked for with -s -c -r -v -a. */
  datatype Show = Show(summary: bool, counters: bool, rows: bool, vars: bool) {
    predicate Any() {
      summary || counters || rows || vars
    }
  }

  /** Assignments asked for, in order; the texts are still to be scanned as numbers. */
  datatype Setting =
    | SetDouble(idx: uint32, text: string)
    | SetInt(idx: uint32, text: string)
    | SetNamed(name: string, text: string)

  /** The bytes of an argument or a literal. */
  function CharBytes(s: string): (b: seq<byte>)
    ensures |b| == |s|
  {
    seq(|s|, i requires 0 <= i < |s| => s[i] as int % 0x100)
  }

  /** What the arguments so far do to g_delim, g_showdelim and g_terse. */
  datatype Overrides = Overrides(delim: Option<string>, showdelim: Option<bool>, terse: bool) {
    function Over(d: Display): Display {
      Display(if delim.Some? then CharBytes(delim.value) else d.delim,
              if showdelim.Some? then showdelim.value else d.showdelim,
              terse || d.terse)
    }
  }

  /** The local variables of parse_args. */
  datatype Locals = Locals(filename: Option<string>, defaultshow: bool, toshow: Show)

  /** Everything the arguments seen so far mean. */
  datatype Parsed = Parsed(locals: Locals, ov: Overrides, settings: seq<Setting>)

  const START: Locals := Locals(None, true, Show(false, false, false, false))
  const NOTHING: Parsed := Parsed(START, Overrides(None, None, false), [])

  datatype Turn = Halt(why: Stop) | Go(i: nat, p: Parsed)

  predicate HasPrefix(s: string, prefix: string) {
    prefix <= s
  }

  // ------------------------------------------------------------ --NAME=N

  /** strchr(s, c): the first position of c. */
  function Find(s: string, c: char): (r: Option<nat>)
    ensures r.Some? ==> r.value < |s| && s[r.value] == c && c !in s[..r.value]
    ensures r.None? ==> c !in s
  {
    if s == [] then None
    else if s[0] == c then Some(0)
    else
      var r := Find(s[1..], c);
      if r.Some? then
        assert s[..r.value + 1] == [s[0]] + s[1..][..r.value];
        Some(r.value + 1)
      else None
  }

  /** The label and the value text of a `--NAME` argument, and the last argument consumed; None if there is no value. */
  function NamedArg(argv: seq<string>, i: nat): (r: Option<(string, string, nat)>)
    requires i < |argv| && |argv[i]| >= 2
    ensures r.Some? ==> i <= r.value.2 < |argv|
  {
    var firstarg := argv[i][2..];
    var p := Find(firstarg, '=');
    if p.Some? then Some((firstarg[..p.value], firstarg[p.value + 1..], i))
    else if i + 1 < |argv| then Some((firstarg, argv[i + 1], i + 1))
    else None
  }

  // --------------------------------------------------------- what one argument means

  /** The indexed options; --string is parsed like the others but sets nothing. */
  datatype Kind = DoubleOpt | IntOpt | StringOpt {
    function Prefix(): string {
      match this
      case DoubleOpt => OPT_DOUBLE
      case IntOpt => OPT_INT
      case StringOpt => OPT_STRING
    }

    function Settings(idx: uint32, text: string): seq<Setting> {
      match this
      case DoubleOpt => [SetDouble(idx, text)]
      case IntOpt => [SetInt(idx, text)]
      case StringOpt => []
    }
  }

  function Indexed(argv: seq<string>, i: nat, k: Kind, p: Parsed): (t: Turn)
    requires i < |argv| && |k.Prefix()| <= |argv[i]|
    ensures t.Go? ==> i < t.i <= |argv|
  {
    match SetVarArg(argv, i, k.Prefix())
    case BadArg(msg) => Halt(Die(msg, argv[i]))
    case GoodArg(idx, value, last) =>
      Go(last + 1, p.(settings := p.settings + k.Settings(idx, value), locals := p.locals.(defaultshow := false)))
  }

  function Showing(p: Parsed, i: nat, show: Show): Turn {
    Go(i + 1, p.(locals := p.locals.(toshow := show)))
  }

  function OneArg(argv: seq<string>, i: nat, p: Parsed): (t: Turn)
    requires i < |argv|
    ensures t.Go? ==> i < t.i <= |argv|
  {
    var a, show := argv[i], p.locals.toshow;
    if a == "-h" || a == "--help" then Halt(Help)
    else if a == "-s" then Showing(p, i, show.(summary := true))
    else if a == "-c" then Showing(p, i, show.(counters := true))
    else if a == "-r" then Showing(p, i, show.(rows := true))
    else if a == "-v" then Showing(p, i, show.(vars := true))
    else if a == "-a" then Showing(p, i, show.(counters := true, rows := true, vars := true))
    else if a == "-F" then
      if i + 1 >= |argv| then Halt(Die("missing argument to -F", ""))
      else Go(i + 2, p.(ov := p.ov.(delim := Some(argv[i + 1]), showdelim := Some(true))))
    else if a == "-z" then Go(i + 1, p.(ov := p.ov.(showdelim := Some(false))))
    else if a == "-t" then Go(i + 1, p.(ov := p.ov.(terse := true)))
    else if a == "--version" then Halt(Version)
    else if HasPrefix(a, OPT_DOUBLE) then Indexed(argv, i, DoubleOpt, p)
    else if HasPrefix(a, OPT_INT) then Indexed(argv, i, IntOpt, p)
    else if HasPrefix(a, OPT_STRING) then Indexed(argv, i, StringOpt, p)
    else if HasPrefix(a, "--") && |a| > 2 then
      match NamedArg(argv, i)
      case None => Halt(Die("missing argument after ", a))
      case Some((name, text, last)) =>
        Go(last + 1, p.(settings := p.settings + [SetNamed(name, text)], locals := p.locals.(defaultshow := false)))
    else if p.locals.filename == None then Go(i + 1, p.(locals := p.locals.(filename := Some(a))))
    else Halt(Die("unexpected argument: ", a))
  }

  datatype Outcome = Stopped(why: Stop, p: Parsed) | Done(p: Parsed)

  /** What the arguments from i on mean. It mentions neither a map nor the current display settings. */
  function Scan(argv: seq<string>, i: nat, p: Parsed): Outcome
    decreases |argv| - i
  {
    if i >= |argv| then Done(p)
    else
      match OneArg(argv, i, p)
      case Halt(why) => Stopped(why, p)
      case Go(j, p') => Scan(argv, j, p')
  }

  /** What is shown in the end: everything when nothing was asked for and nothing was set. */
  function FinalShow(l: Locals): Show {
    if l.defaultshow && !l.toshow.Any() then Show(true, true, true, true) else l.toshow
  }

  /** How parse_args ends: by leaving the program, or with a file name and the sections to print. */
  datatype Result = Exits(why: Stop) | Returns(filename: Option<string>, toshow: Show)

  function ResultOf(o: Outcome): Result {
    match o
    case Stopped(why, _) => Exits(why)
    case Done(p) => Returns(p.locals.filename, FinalShow(p.locals))
  }

  /** Giving the display options twice changes nothing. */
  lemma OverTwice(ov: Overrides, d: Display)
    ensures ov.Over(ov.Over(d)) == ov.Over(d)
  {
  }
}
