/** From the threads of the program to the output of the utility's command line. */
module LoggedAndListed {
  import opened Bytes
  import opened Options
  import opened Arguments
  import opened Slots
  import opened Schedule
  import opened Printing
  import opened Reader
  import opened Window
  import opened EndToEnd
  import opened CommandLine
  import opened Flags
  import opened Utility

  /** The lines of the live rows of a finished run, in listing order. */
  ghost function LinesOfRun(ring: Ring, mem: seq<byte>, es: seq<Step>, f: Format, d: Display): seq<byte>
    requires Started(ring, mem) && Finished(ring, mem, es)
  {
    var rows := After(ring, mem, es).rows;
    OrderInRange(|rows|, ring.n);
    Flatten(Lines(ring, f, d, Tickets(rows), LiveOrder(|rows|, ring.n)))
  }

  /** The rows section, for the region of a finished run, is the lines of its live rows. */
  lemma RowsOfRun(ring: Ring, mem: seq<byte>, es: seq<Step>, f: Format, d: Display)
    requires Started(ring, mem) && Finished(ring, mem, es)
    ensures AllReadable(ring, After(ring, mem, es).mem)
    ensures RowsText(ring, After(ring, mem, es).mem, f, d) == LinesOfRun(ring, mem, es, f, d)
  {
    hide After, Finished, Listing, LowestId, Lines, LiveOrder, AllReadable, Started;
    PrintedAfterAnyRun(ring, mem, es, f, d);
  }

  /** For arguments that parse, run on the region that any finished run of the program has left, the
      utility prints its warnings and the sections asked for, with exactly the lines of the live rows as
      the rows section, formatted as the arguments say. */
  lemma PrintedByUtility(ring: Ring, mem: seq<byte>, es: seq<Step>, o: Outcome, m: Map, sc: Scanner,
                         f: Format, others: OtherText, st: Start, junk: seq<Junk>, shown: Display, out: seq<byte>)
    requires Started(ring, mem) && Finished(ring, mem, es)
    requires m.ring == ring && m.rows == After(ring, mem, es).mem
    requires o.Done? && Parses(o, false, m, sc, f, others, st, junk, shown, out)
    ensures st.view.Valid() && |junk| == |o.p.settings|
    ensures out == Perform(sc, Effect(st.view, []), o.p.settings, junk).said
      + Sections(FinalShow(o.p.locals), others, LinesOfRun(ring, mem, es, f, o.p.ov.Over(st.shown)), m.Contents())
  {
    hide After, Finished, RowsText, LinesOfRun, Perform, View.Valid, Started, AllReadable, Sections, FinalShow;
    RowsOfRun(ring, mem, es, f, o.p.ov.Over(st.shown));
  }

  /** For any words the output is: the warnings of the assignments; then, as far as these sections are asked
      for, the summary, the lines of the live rows, the counters, and the variables after the assignments;
      all four if no section is named and nothing assigned. */
  lemma PrintedForWords(ring: Ring, mem: seq<byte>, es: seq<Step>, argv: seq<string>, ws: seq<Word>, m: Map,
                        sc: Scanner, f: Format, others: OtherText, st: Start, junk: seq<Junk>,
                        shown: Display, out: seq<byte>)
    requires Started(ring, mem) && Finished(ring, mem, es) && CommandLineOf(argv, ws, [])
    requires m.ring == ring && m.rows == After(ring, mem, es).mem
    requires Parses(Scan(argv, 1, NOTHING), false, m, sc, f, others, st, junk, shown, out)
    ensures Scan(argv, 1, NOTHING).Done? && st.view.Valid() && |junk| == |Assignments(ws)|
    ensures var e := Perform(sc, Effect(st.view, []), Assignments(ws), junk);
      var every := forall w :: w in ws ==> !NamesSection(w) && !Assigns(w);
      out == e.said + (
        (if every || Summary in ws then others.summary else [])
        + (if every || RowList in ws || All in ws
           then LinesOfRun(ring, mem, es, f, Scan(argv, 1, NOTHING).p.ov.Over(st.shown)) else [])
        + (if every || CounterList in ws || All in ws then others.counters else [])
        + (if every || VarList in ws || All in ws then others.vars(e.view) else []))
  {
    DisplayAndSections(argv, ws, st.shown, 0, 0);
    FileAndAssignments(argv, ws, 0);
    hide After, Finished, LinesOfRun, Perform, View.Valid, Started, Scan, CommandLineOf, Assigns, NamesSection, Parses,
      FinalShow, Assignments;
    var o := Scan(argv, 1, NOTHING);
    ShowOf(o);
    PrintedByUtility(ring, mem, es, o, m, sc, f, others, st, junk, shown, out);
    ViewLeft(o, m, sc, f, others, st, junk, shown, out);
  }

  lemma ShowOf(o: Outcome)
    requires o.Done?
    ensures ResultOf(o).Returns? && ResultOf(o).toshow == FinalShow(o.p.locals)
  {
  }

  lemma ViewLeft(o: Outcome, m: Map, sc: Scanner, f: Format, others: OtherText, st: Start, junk: seq<Junk>,
                 shown: Display, out: seq<byte>)
    requires o.Done? && Parses(o, false, m, sc, f, others, st, junk, shown, out)
    ensures st.view.Valid() && |junk| == |o.p.settings|
    ensures m.Contents() == Perform(sc, Effect(st.view, []), o.p.settings, junk).view
  {
    hide Perform, View.Valid, AllReadable, Sections, RowsText;
  }

  /** From argument i on there are only -r, -F with its delimiter, -z, -t and file names; in all there is
      one file name and at least one -r. */
  predicate RowsOnly(argv: seq<string>, i: nat, hasrows: bool, hasfile: bool)
    decreases |argv| - i
  {
    if i >= |argv| then hasrows && hasfile
    else if argv[i] == "-r" then RowsOnly(argv, i + 1, true, hasfile)
    else if argv[i] == "-z" || argv[i] == "-t" then RowsOnly(argv, i + 1, hasrows, hasfile)
    else if argv[i] == "-F" then i + 1 < |argv| && RowsOnly(argv, i + 2, hasrows, hasfile)
    else IsFileName(argv[i]) && !hasfile && RowsOnly(argv, i + 1, hasrows, true)
  }

  /** Parsing has met no assignment and no section but rows. */
  predicate OnlyRowsSoFar(p: Parsed, hasrows: bool, hasfile: bool) {
    p.settings == [] && p.locals.toshow == Show(false, false, hasrows, false) && (p.locals.filename.Some? <==> hasfile)
  }

  lemma RowsArg(argv: seq<string>, i: nat, p: Parsed)
    requires i < |argv| && p.settings == []
    ensures argv[i] == "-r" ==> OneArg(argv, i, p) == Showing(p, i, p.locals.toshow.(rows := true))
    ensures argv[i] == "-z" ==> OneArg(argv, i, p) == Go(i + 1, p.(ov := p.ov.(showdelim := Some(false))))
    ensures argv[i] == "-t" ==> OneArg(argv, i, p) == Go(i + 1, p.(ov := p.ov.(terse := true)))
    ensures argv[i] == "-F" && i + 1 < |argv| ==>
      OneArg(argv, i, p) == Go(i + 2, p.(ov := p.ov.(delim := Some(argv[i + 1]), showdelim := Some(true))))
    ensures IsFileName(argv[i]) && p.locals.filename == None ==>
      OneArg(argv, i, p) == Go(i + 1, p.(locals := p.locals.(filename := Some(argv[i]))))
  {
    hide Indexed, NamedArg;
    assert "--" <= OPT_DOUBLE && "--" <= OPT_INT && "--" <= OPT_STRING;
  }

  /** Such arguments parse, to the rows section alone. */
  lemma {:induction false} ScanRowsOnly(argv: seq<string>, i: nat, p: Parsed, hasrows: bool, hasfile: bool)
    requires RowsOnly(argv, i, hasrows, hasfile) && OnlyRowsSoFar(p, hasrows, hasfile)
    ensures Scan(argv, i, p).Done? && OnlyRowsSoFar(Scan(argv, i, p).p, true, true)
    decreases |argv| - i
  {
    if i >= |argv| {
    } else {
      RowsArg(argv, i, p);
      hide OneArg, IsFileName;
      match OneArg(argv, i, p)
      case Go(j, p') =>
        ScanRowsOnly(argv, j, p', hasrows || argv[i] == "-r", p'.locals.filename.Some?);
    }
  }

  /** For such arguments the utility's whole output is the lines of the live rows. */
  lemma PrintedByRowsOption(ring: Ring, mem: seq<byte>, es: seq<Step>, argv: seq<string>, m: Map, sc: Scanner,
                            f: Format, others: OtherText, st: Start, junk: seq<Junk>, shown: Display, out: seq<byte>)
    requires Started(ring, mem) && Finished(ring, mem, es)
    requires m.ring == ring && m.rows == After(ring, mem, es).mem
    requires RowsOnly(argv, 1, false, false)
    requires Parses(Scan(argv, 1, NOTHING), false, m, sc, f, others, st, junk, shown, out)
    ensures var o := Scan(argv, 1, NOTHING);
      ResultOf(o).Returns? && ResultOf(o).filename.Some? && out == LinesOfRun(ring, mem, es, f, o.p.ov.Over(st.shown))
  {
    hide After, Finished, RowsText, LinesOfRun, View.Valid, Started, AllReadable, Parses, PerformOne, Scan, RowsOnly;
    ScanRowsOnly(argv, 1, NOTHING, false, false);
    PrintedByUtility(ring, mem, es, Scan(argv, 1, NOTHING), m, sc, f, others, st, junk, shown, out);
  }
}
