/** The utility's command line: what each argument means, and why parsing it first without and then
    with an attached map comes out the same. Arguments are the characters before their terminators. */
module Arguments {
  import opened Bits

  const OPT_DOUBLE: string := "--double"
  const OPT_STRING: string := "--string"
  const OPT_INT: string := "--int"

  // ------------------------------------------------------------ --double[I]=N and friends

  predicate IsDigit(c: char) {
    '0' <= c <= '9'
  }

  predicate AllDigits(s: string) {
    forall i :: 0 <= i < |s| ==> IsDigit(s[i])
  }

  /** The value of a digit string in unbounded arithmetic. */
  function DecimalValue(s: string): nat
    requires AllDigits(s)
  {
    if s == [] then 0 else 10 * DecimalValue(s[..|s| - 1]) + (s[|s| - 1] as int - '0' as int)
  }

  /** The end of the run of digits from p on. */
  function DigitsEnd(s: string, p: nat): (q: nat)
    requires p <= |s|
    ensures p <= q <= |s| && AllDigits(s[p..q])
    ensures q < |s| ==> !IsDigit(s[q])
    decreases |s| - p
  {
    if p < |s| && IsDigit(s[p]) then
      var q := DigitsEnd(s, p + 1);
      assert forall i :: p + 1 <= i < q ==> s[i] == s[p + 1..q][i - (p + 1)];
      q
    else p
  }

  datatype VarArg =
    | BadArg(msg: string)
    | GoodArg(idx: uint32, value: string, last: nat)  // last: the last argument consumed

  /** What the i-th argument, an option with this prefix, says. */
  function SetVarArg(argv: seq<string>, i: nat, prefix: string): (r: VarArg)
    requires i < |argv| && |prefix| <= |argv[i]|
    ensures r.GoodArg? ==> i <= r.last < |argv|
  {
    var a, p0 := argv[i], |prefix|;
    var p1 := if p0 < |a| && a[p0] == '[' then p0 + 1 else p0;
    var q := DigitsEnd(a, p1);
    var idx := ToU32(DecimalValue(a[p1..q]));
    var p2 := if q < |a| && a[q] == ']' then q + 1 else q;
    if p2 < |a| && a[p2] == '=' then GoodArg(idx, a[p2 + 1..], i)
    else if p2 < |a| then BadArg("expected numeric digits, ")
    else if i + 1 >= |argv| then BadArg("missing argument to ")
    else GoodArg(idx, argv[i + 1], i + 1)
  }

  lemma DigitStep(x: nat, d: nat)
    ensures ToU32(10 * ToU32(x) + d) == ToU32(10 * x + d)
  {
    var q, r := x / U32, x % U32;
    assert 10 * x + d == (10 * q) * U32 + (10 * r + d);
    var q', r' := (10 * r + d) / U32, (10 * r + d) % U32;
    DivModUnique(10 * x + d, U32, 10 * q + q', r');
  }

  lemma DigitsAdvance(s: string, p: nat, q: nat)
    requires p <= q < |s| && AllDigits(s[p..q]) && IsDigit(s[q])
    ensures AllDigits(s[p..q + 1])
    ensures DigitsEnd(s, q) == DigitsEnd(s, q + 1)
    ensures DecimalValue(s[p..q + 1]) == 10 * DecimalValue(s[p..q]) + (s[q] as int - '0' as int)
  {
    assert s[p..q + 1][..q - p] == s[p..q];
  }

  /** The digit loop; the index is accumulated in 32 bits, digit by digit. */
  method ReadDigits(s: string, p: nat) returns (idx: uint32, ptr: nat)
    requires p <= |s|
    ensures ptr == DigitsEnd(s, p) && idx == ToU32(DecimalValue(s[p..ptr]))
  {
    idx := 0;
    ptr := p;
    assert s[p..p] == [];
    SmallWord(0);
    hide ToU32, DecimalValue;
    while ptr < |s| && '0' <= s[ptr] <= '9'
      invariant p <= ptr <= |s| && AllDigits(s[p..ptr])
      invariant idx == ToU32(DecimalValue(s[p..ptr]))
      invariant DigitsEnd(s, p) == DigitsEnd(s, ptr)
    {
      var d := s[ptr] as int - '0' as int;
      DigitStep(DecimalValue(s[p..ptr]), d);
      DigitsAdvance(s, p, ptr);
      idx := ToU32(10 * idx as int + d);
      ptr := ptr + 1;
    }
  }

  /** process_set_var_arg. */
  method ProcessSetVarArg(argv: seq<string>, argi: nat, prefix: string) returns (r: VarArg)
    requires argi < |argv| && |prefix| <= |argv[argi]|
    ensures r == SetVarArg(argv, argi, prefix)
  {
    hide ToU32, DecimalValue, DigitsEnd;
    var firstarg := argv[argi];
    var ptr := |prefix|;
    if ptr < |firstarg| && firstarg[ptr] == '[' { ptr := ptr + 1; }
    var idx;
    idx, ptr := ReadDigits(firstarg, ptr);
    if ptr < |firstarg| && firstarg[ptr] == ']' { ptr := ptr + 1; }
    if ptr < |firstarg| && firstarg[ptr] == '=' {
      r := GoodArg(idx, firstarg[ptr + 1..], argi);
    } else if ptr < |firstarg| {
      r := BadArg("expected numeric digits, ");
    } else if argi + 1 >= |argv| {
      r := BadArg("missing argument to ");
    } else {
      r := GoodArg(idx, argv[argi + 1], argi + 1);
    }
  }

  /** The usual decimal notation. */
  function Decimal(n: nat): (s: string)
    ensures AllDigits(s) && |s| > 0
  {
    if n < 10 then [('0' as int + n) as char] else Decimal(n / 10) + [('0' as int + n % 10) as char]
  }

  lemma DecimalBack(n: nat)
    ensures DecimalValue(Decimal(n)) == n
  {
    if n >= 10 {
      DecimalBack(n / 10);
      assert Decimal(n)[..|Decimal(n)| - 1] == Decimal(n / 10);
    } else {
      assert Decimal(n)[..0] == [];
    }
  }

  lemma {:induction false} DigitsRun(pre: string, ds: string, rest: string)
    requires AllDigits(ds) && (rest != [] ==> !IsDigit(rest[0]))
    ensures DigitsEnd(pre + ds + rest, |pre|) == |pre| + |ds|
    decreases |ds|
  {
    if ds == [] {
    } else {
      assert pre + ds + rest == (pre + ds[..1]) + ds[1..] + rest;
      DigitsRun(pre + ds[..1], ds[1..], rest);
    }
  }

  /** How an index may be written behind the option name. */
  function IndexText(bracketed: bool, ds: string): string {
    if bracketed then "[" + ds + "]" else ds
  }

  lemma Parts(a: string, x: string, y: string, z: string)
    requires a == x + y + z
    ensures |x| + |y| <= |a| && a[|x|..|x| + |y|] == y && a[|x| + |y|..] == z
    ensures z != [] ==> a[|x| + |y|] == z[0] && a[|x| + |y| + 1..] == z[1..]
  {
  }

  /** The parser's pointer stops behind an opening bracket, behind the digits, and behind a closing bracket. */
  ghost predicate StopsAt(a: string, p0: nat, ds: string, tail: string)
    requires p0 <= |a|
  {
    var p1 := if p0 < |a| && a[p0] == '[' then p0 + 1 else p0;
    var q := DigitsEnd(a, p1);
    var p2 := if q < |a| && a[q] == ']' then q + 1 else q;
    a[p1..q] == ds && (tail == [] ==> p2 == |a|) &&
    (tail != [] ==> p2 < |a| && a[p2] == '=' && a[p2 + 1..] == tail[1..])
  }

  lemma Regroup(prefix: string, ds: string, tail: string)
    ensures var a := prefix + ("[" + ds + "]") + tail;
      && a == prefix + "[" + (ds + ("]" + tail))
      && a == (prefix + "[") + ds + ("]" + tail)
      && a == ((prefix + "[") + ds) + "]" + tail
  {
  }

  lemma StopsBracketed(a: string, prefix: string, ds: string, tail: string)
    requires AllDigits(ds) && (tail != [] ==> tail[0] == '=')
    requires a == prefix + ("[" + ds + "]") + tail
    ensures |prefix| <= |a| && StopsAt(a, |prefix|, ds, tail)
  {
    hide DigitsEnd, AllDigits;
    var pre, rest := prefix + "[", "]" + tail;
    Regroup(prefix, ds, tail);
    Parts(a, prefix, "[", ds + rest);
    assert !IsDigit(rest[0]);
    DigitsRun(pre, ds, rest);
    Parts(a, pre, ds, rest);
    Parts(a, pre + ds, "]", tail);
  }

  lemma StopsPlain(a: string, prefix: string, ds: string, tail: string)
    requires AllDigits(ds) && (tail != [] ==> tail[0] == '=')
    requires a == prefix + ds + tail
    ensures |prefix| <= |a| && StopsAt(a, |prefix|, ds, tail)
  {
    hide DigitsEnd;
    DigitsRun(prefix, ds, tail);
    Parts(a, prefix, ds, tail);
    if ds != [] {
      assert a[|prefix|] == ds[0];
    }
  }

  lemma StopPoints(a: string, prefix: string, bracketed: bool, ds: string, tail: string)
    requires AllDigits(ds) && (tail != [] ==> tail[0] == '=')
    requires a == prefix + IndexText(bracketed, ds) + tail
    ensures |prefix| <= |a| && StopsAt(a, |prefix|, ds, tail)
  {
    hide StopsAt, AllDigits;
    if bracketed { StopsBracketed(a, prefix, ds, tail); } else { StopsPlain(a, prefix, ds, tail); }
  }

  /** From those stops, what the argument says. */
  lemma ReadFromStops(argv: seq<string>, i: nat, prefix: string, ds: string, tail: string)
    requires AllDigits(ds) && i < |argv| && |prefix| <= |argv[i]| && StopsAt(argv[i], |prefix|, ds, tail)
    ensures tail != [] ==> SetVarArg(argv, i, prefix) == GoodArg(ToU32(DecimalValue(ds)), tail[1..], i)
    ensures tail == [] && i + 1 < |argv| ==>
      SetVarArg(argv, i, prefix) == GoodArg(ToU32(DecimalValue(ds)), argv[i + 1], i + 1)
  {
    hide ToU32, DecimalValue, DigitsEnd, AllDigits;
  }

  lemma TailOf(v: string)
    ensures ("=" + v)[0] == '=' && ("=" + v)[1..] == v
  {
  }

  lemma ReadInline(argv: seq<string>, i: nat, prefix: string, bracketed: bool, ds: string, v: string)
    requires AllDigits(ds) && i < |argv|
    requires argv[i] == prefix + IndexText(bracketed, ds) + ("=" + v)
    ensures |prefix| <= |argv[i]| && SetVarArg(argv, i, prefix) == GoodArg(ToU32(DecimalValue(ds)), v, i)
  {
    hide StopsAt, SetVarArg, ToU32, DecimalValue, IndexText, AllDigits;
    TailOf(v);
    StopPoints(argv[i], prefix, bracketed, ds, "=" + v);
    ReadFromStops(argv, i, prefix, ds, "=" + v);
  }

  lemma ReadNext(argv: seq<string>, i: nat, prefix: string, bracketed: bool, ds: string)
    requires AllDigits(ds) && i + 1 < |argv|
    requires argv[i] == prefix + IndexText(bracketed, ds) + ""
    ensures |prefix| <= |argv[i]| && SetVarArg(argv, i, prefix) == GoodArg(ToU32(DecimalValue(ds)), argv[i + 1], i + 1)
  {
    hide StopsAt, SetVarArg, ToU32, DecimalValue, IndexText, AllDigits;
    StopPoints(argv[i], prefix, bracketed, ds, "");
    ReadFromStops(argv, i, prefix, ds, "");
  }

  /** Any digit string, bracketed or not, followed by =v or by v as the next argument, is read as its
      value modulo 2^32 and v. */
  lemma IndexRead(argv: seq<string>, i: nat, prefix: string, bracketed: bool, ds: string, v: string)
    requires AllDigits(ds) && i < |argv|
    ensures argv[i] == prefix + (if bracketed then "[" + ds + "]" else ds) + "=" + v ==>
      |prefix| <= |argv[i]| && SetVarArg(argv, i, prefix) == GoodArg(DecimalValue(ds) % 0x1_0000_0000, v, i)
    ensures argv[i] == prefix + (if bracketed then "[" + ds + "]" else ds) && i + 1 < |argv| && argv[i + 1] == v ==>
      |prefix| <= |argv[i]| && SetVarArg(argv, i, prefix) == GoodArg(DecimalValue(ds) % 0x1_0000_0000, v, i + 1)
  {
    hide DecimalValue, SetVarArg;
    var t := IndexText(bracketed, ds);
    assert t == if bracketed then "[" + ds + "]" else ds;
    hide IndexText;
    if argv[i] == prefix + t + "=" + v {
      assert argv[i] == prefix + t + ("=" + v);
      ReadInline(argv, i, prefix, bracketed, ds, v);
    }
    if argv[i] == prefix + t && i + 1 < |argv| && argv[i + 1] == v {
      assert argv[i] == prefix + t + "";
      ReadNext(argv, i, prefix, bracketed, ds);
    }
  }

  /** Printing an option and parsing it gives back the index and the value, in all four forms. */
  lemma OptionRoundTrip(argv: seq<string>, i: nat, prefix: string, bracketed: bool, n: uint32, v: string)
    requires i < |argv|
    ensures argv[i] == prefix + (if bracketed then "[" + Decimal(n) + "]" else Decimal(n)) + "=" + v ==>
      |prefix| <= |argv[i]| && SetVarArg(argv, i, prefix) == GoodArg(n, v, i)
    ensures argv[i] == prefix + (if bracketed then "[" + Decimal(n) + "]" else Decimal(n))
            && i + 1 < |argv| && argv[i + 1] == v ==>
      |prefix| <= |argv[i]| && SetVarArg(argv, i, prefix) == GoodArg(n, v, i + 1)
  {
    hide SetVarArg, Decimal;
    DecimalBack(n);
    SmallWord(n);
    IndexRead(argv, i, prefix, bracketed, Decimal(n), v);
  }

  /** Decimal notation is to the base ten, most significant digit first. */
  lemma DecimalDigits(n: nat, d: nat)
    requires 1 <= n && d < 10
    ensures Decimal(10 * n + d) == Decimal(n) + ["0123456789"[d]]
    ensures Decimal(d) == ["0123456789"[d]]
  {
    assert (10 * n + d) / 10 == n && (10 * n + d) % 10 == d;
    assert d in {0, 1, 2, 3, 4, 5, 6, 7, 8, 9};
  }

  // --------------------------------------------------------------- what is accepted

  /** The argument is the option, an optional bracket, digits, an optional bracket, and this rest. */
  predicate SplitsInto(a: string, prefix: string, open: string, ds: string, close: string, rest: string) {
    open in {"", "["} && AllDigits(ds) && close in {"", "]"} && a == prefix + open + ds + close + rest
  }

  /** The position behind a character that may stand at p. */
  function Past(a: string, p: nat, c: char): (q: nat)
    requires p <= |a|
    ensures p <= q <= |a|
  {
    if p < |a| && a[p] == c then p + 1 else p
  }

  /** An option is accepted exactly if what follows the digits and brackets is `=`, or nothing while there
      is another argument; what is refused otherwise is the rest, or the missing argument. */
  lemma AcceptedIff(argv: seq<string>, i: nat, prefix: string)
    requires i < |argv| && prefix <= argv[i]
    ensures SetVarArg(argv, i, prefix).GoodArg? <==>
      exists open, ds, close, rest ::
        SplitsInto(argv[i], prefix, open, ds, close, rest) &&
        ((rest != "" && rest[0] == '=') || (rest == "" && i + 1 < |argv|))
    ensures SetVarArg(argv, i, prefix) == BadArg("missing argument to ") <==>
      i + 1 >= |argv| && exists open, ds, close :: SplitsInto(argv[i], prefix, open, ds, close, "")
    ensures SetVarArg(argv, i, prefix).BadArg? ==>
      SetVarArg(argv, i, prefix).msg in {"missing argument to ", "expected numeric digits, "}
  {
    var a, p0 := argv[i], |prefix|;
    var p1 := Past(a, p0, '[');
    var q := DigitsEnd(a, p1);
    var p2 := Past(a, q, ']');
    ResultAt(argv, i, prefix, p2);
    hide SetVarArg, SplitsInto, Past, DigitsEnd;
    SplitParts(a, prefix);
    forall open, ds, close, rest | SplitsInto(a, prefix, open, ds, close, rest) && (rest == "" || rest[0] == '=')
      ensures a[p2..] == rest
    {
      SplitUnique(a, prefix, open, ds, close, rest);
    }
    if a[p2..] == "" { assert SplitsInto(a, prefix, a[p0..p1], a[p1..q], a[q..p2], ""); }
  }

  /** The outcome as a function of where the parser's pointer stops. */
  lemma ResultAt(argv: seq<string>, i: nat, prefix: string, p2: nat)
    requires i < |argv| && |prefix| <= |argv[i]|
    requires p2 == Past(argv[i], DigitsEnd(argv[i], Past(argv[i], |prefix|, '[')), ']')
    ensures var rest, r := argv[i][p2..], SetVarArg(argv, i, prefix);
      && (r.GoodArg? <==> (rest != "" && rest[0] == '=') || (rest == "" && i + 1 < |argv|))
      && (r == BadArg("missing argument to ") <==> rest == "" && i + 1 >= |argv|)
      && (r.BadArg? ==> r.msg in {"missing argument to ", "expected numeric digits, "})
  {
    hide DigitsEnd, DecimalValue, AllDigits, ToU32;
  }

  lemma SplitParts(a: string, prefix: string)
    requires prefix <= a
    ensures var p0 := |prefix|;
      var p1 := Past(a, p0, '[');
      var q := DigitsEnd(a, p1);
      var p2 := Past(a, q, ']');
      SplitsInto(a, prefix, a[p0..p1], a[p1..q], a[q..p2], a[p2..])
  {
    hide DigitsEnd, AllDigits;
    var p1 := Past(a, |prefix|, '[');
    var q := DigitsEnd(a, p1);
    Cut(a, |prefix|, p1);
    Cut(a, p1, q);
    Cut(a, q, Past(a, q, ']'));
    PastIs(a, |prefix|, '[');
    PastIs(a, q, ']');
    var p2 := Past(a, q, ']');
    hide Past;
    assert a == a[..p2] + a[p2..];
  }

  lemma Cut(a: string, p: nat, q: nat)
    requires p <= q <= |a|
    ensures a[..q] == a[..p] + a[p..q]
  {
  }

  lemma PastIs(a: string, p: nat, c: char)
    requires p <= |a|
    ensures a[p..Past(a, p, c)] in {"", [c]}
  {
    assert a[p..p] == "" && (p < |a| ==> a[p..p + 1] == [a[p]]);
  }

  /** The parser's greedy reading is the only one that leaves nothing or an equals sign. */
  lemma SplitUnique(a: string, prefix: string, open: string, ds: string, close: string, rest: string)
    requires SplitsInto(a, prefix, open, ds, close, rest) && (rest == "" || rest[0] == '=')
    ensures |prefix| <= |a|
    ensures a[Past(a, DigitsEnd(a, Past(a, |prefix|, '[')), ']')..] == rest
  {
    hide DigitsEnd, AllDigits, Past;
    var after := close + rest;
    Associated(prefix, open, ds, close, rest);
    Behind(close, rest);
    OpenStop(a, prefix, open, ds, after);
    DigitsRun(prefix + open, ds, after);
    CloseStop(a, prefix + open + ds, close, rest);
    assert |prefix + open + ds| == |prefix + open| + |ds|;
  }

  lemma Behind(close: string, rest: string)
    requires close in {"", "]"} && (rest == "" || rest[0] == '=')
    ensures close + rest != "" ==> (close + rest)[0] != '[' && !IsDigit((close + rest)[0])
  {
  }

  lemma CloseStop(a: string, pre: string, close: string, rest: string)
    requires a == pre + close + rest && close in {"", "]"} && (rest == "" || rest[0] == '=')
    ensures |pre| <= |a| && a[Past(a, |pre|, ']')..] == rest
  {
    if close == "" {
      assert a == pre + rest;
      if rest != "" { assert a[|pre|] == rest[0]; }
      assert a[|pre|..] == rest;
    } else {
      assert a[|pre|] == ']';
      assert a[|pre| + 1..] == rest;
    }
  }

  lemma Associated(prefix: string, open: string, ds: string, close: string, rest: string)
    ensures var a := prefix + open + ds + close + rest;
      && a == prefix + open + (ds + (close + rest)) && a == (prefix + open) + ds + (close + rest)
      && a == (prefix + open + ds) + close + rest
  {
  }

  lemma OpenStop(a: string, prefix: string, open: string, ds: string, after: string)
    requires a == prefix + open + (ds + after) && open in {"", "["} && AllDigits(ds)
    requires after != "" ==> after[0] != '[' && !IsDigit(after[0])
    ensures |prefix| <= |a| && Past(a, |prefix|, '[') == |prefix + open|
  {
    if open == "" {
      if |a| > |prefix| { assert a[|prefix|] == (ds + after)[0]; }
    } else {
      assert a[|prefix|] == '[';
    }
  }
}
