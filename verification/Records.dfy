/** The typed records of a log row: type codes, payload bytes and what the reader makes of them. */
module Records {
  import opened Bits
  import opened Bytes
  import opened CStrings
  import opened Options

  const DATA_HDR: nat := 8   // sizeof(struct log2mem_data_hdr): type, three bytes of padding, len

  const T_FILENAME: byte := 1
  const T_STRING: byte := 2
  const T_UINT: byte := 3
  const T_INT: byte := 4
  const T_ULONG: byte := 5
  const T_LONG: byte := 6
  const T_FLOAT: byte := 7
  const T_DOUBLE: byte := 8
  const T_CHAR: byte := 9
  const T_LINENO: byte := 10

  /** A value handed to an append function; floats are kept as their bit patterns. */
  datatype Item =
    | FileName(s: seq<byte>)
    | Str(s: seq<byte>)
    | UInt(u: uint32)
    | Int(i: int32)
    | ULong(ul: uint64)
    | Long(l: int64)
    | Float(fbits: uint32)
    | Double(dbits: uint64)
    | Char(c: byte)
    | LineNo(i: int32)
  {
    /** A file name or a line number, which only row initialisation writes. */
    predicate IsLocation() {
      FileName? || LineNo?
    }
  }

  /** What is written for one record: its type code and the bytes behind the data header. */
  datatype Rec = Rec(ty: byte, data: seq<byte>)

  /** The space a record takes, header included. */
  function Size(r: Rec): nat {
    DATA_HDR + |r.data|
  }

  function TypeCode(it: Item): byte {
    match it
    case FileName(_) => T_FILENAME
    case Str(_) => T_STRING
    case UInt(_) => T_UINT
    case Int(_) => T_INT
    case ULong(_) => T_ULONG
    case Long(_) => T_LONG
    case Float(_) => T_FLOAT
    case Double(_) => T_DOUBLE
    case Char(_) => T_CHAR
    case LineNo(_) => T_LINENO
  }

  /** The payload: the object representation of a number, or a string and its terminating NUL. */
  function Payload(it: Item): seq<byte> {
    match it
    case FileName(s) => s + [0]
    case Str(s) => s + [0]
    case UInt(u) => Encode(u, 4)
    case Int(i) => Encode(IntBits(i), 4)
    case ULong(u) => Encode(u, 8)
    case Long(i) => Encode(LongBits(i), 8)
    case Float(b) => Encode(b, 4)
    case Double(b) => Encode(b, 8)
    case Char(c) => [c]
    case LineNo(i) => Encode(IntBits(i), 4)
  }

  function RecOf(it: Item): Rec {
    Rec(TypeCode(it), Payload(it))
  }

  /** Type codes and data bytes of every kind of value, written out. */
  lemma RecordInBytes(it: Item)
    ensures RecOf(it) ==
      match it
      case FileName(s) => Rec(1, s + [0])
      case Str(s) => Rec(2, s + [0])
      case UInt(u) => Rec(3, Encode(u, 4))
      case Int(i) => Rec(4, Encode(i % 0x1_0000_0000, 4))
      case ULong(u) => Rec(5, Encode(u, 8))
      case Long(i) => Rec(6, Encode(i % 0x1_0000_0000_0000_0000, 8))
      case Float(b) => Rec(7, Encode(b, 4))
      case Double(b) => Rec(8, Encode(b, 8))
      case Char(c) => Rec(9, [c])
      case LineNo(i) => Rec(10, Encode(i % 0x1_0000_0000, 4))
  {
    hide Encode;
  }

  function RecsOf(items: seq<Item>): (rs: seq<Rec>)
    ensures |rs| == |items|
    ensures forall k :: 0 <= k < |items| ==> rs[k] == RecOf(items[k])
  {
    seq(|items|, k requires 0 <= k < |items| => RecOf(items[k]))
  }

  /** What `print_rows` reads from a record, by its type code; None for a code it does not know. */
  function ReadItem(r: Rec): Option<Item> {
    DecodeBound(r.data);
    RangeOfWords();
    if r.ty == T_FILENAME then Some(FileName(CString(r.data, 0)))
    else if r.ty == T_STRING then Some(Str(CString(r.data, 0)))
    else if r.ty == T_UINT && |r.data| == 4 then Some(UInt(Decode(r.data)))
    else if r.ty == T_INT && |r.data| == 4 then Some(Int(ToS32(Decode(r.data))))
    else if r.ty == T_ULONG && |r.data| == 8 then Some(ULong(Decode(r.data)))
    else if r.ty == T_LONG && |r.data| == 8 then Some(Long(ToS64(Decode(r.data))))
    else if r.ty == T_FLOAT && |r.data| == 4 then Some(Float(Decode(r.data)))
    else if r.ty == T_DOUBLE && |r.data| == 8 then Some(Double(Decode(r.data)))
    else if r.ty == T_CHAR && |r.data| == 1 then Some(Char(r.data[0]))
    else if r.ty == T_LINENO && |r.data| == 4 then Some(LineNo(ToS32(Decode(r.data))))
    else None
  }

  /** The value as the reader shows it: a string stops at its first NUL, everything else is unchanged. */
  function Shown(it: Item): Item {
    match it
    case FileName(s) => FileName(CString(s, 0))
    case Str(s) => Str(CString(s, 0))
    case _ => it
  }

  lemma TerminatedString(s: seq<byte>)
    ensures CString(s + [0], 0) == CString(s, 0)
    ensures 0 !in s ==> CString(s, 0) == s
  {
    CStringOfTerminated(s, 0, []);
    assert s + [0] + [] == s + [0];
    if 0 !in s { CStringUnchanged(s, 0); }
  }

  /** Reading back a written record gives the value that was appended. */
  lemma ReadBack(it: Item)
    ensures ReadItem(RecOf(it)) == Some(Shown(it))
    ensures (it.FileName? || it.Str? ==> 0 !in it.s) ==> ReadItem(RecOf(it)) == Some(it)
  {
    match it
    case FileName(s) => TerminatedString(s);
    case Str(s) => TerminatedString(s);
    case Char(c) =>
    case ULong(_) => LongBack(it);
    case Long(_) => LongBack(it);
    case Double(_) => LongBack(it);
    case _ => IntBack(it);
  }

  lemma IntBack(it: Item)
    requires it.UInt? || it.Int? || it.Float? || it.LineNo?
    ensures ReadItem(RecOf(it)) == Some(it)
  {
    match it
    case UInt(u) => WordBack(u, 4);
    case Int(i) => WordBack(IntBits(i), 4);
    case Float(b) => WordBack(b, 4);
    case LineNo(i) => WordBack(IntBits(i), 4);
  }

  lemma LongBack(it: Item)
    requires it.ULong? || it.Long? || it.Double?
    ensures ReadItem(RecOf(it)) == Some(it)
  {
    match it
    case ULong(u) => WordBack(u, 8);
    case Long(i) => WordBack(LongBits(i), 8);
    case Double(b) => WordBack(b, 8);
  }

  lemma WordBack(v: nat, n: nat)
    requires (n == 4 && v < U32) || (n == 8 && v < U64)
    ensures Decode(Encode(v, n)) == v
  {
    RangeOfWords();
    DecodeEncode(v, n);
  }

  // --------------------------------------------------- acceptance into a bounded row

  /** The payload bytes that a list of records fills. */
  function Used(items: seq<Item>): nat {
    if items == [] then 0 else Used(items[..|items| - 1]) + Size(RecOf(items[|items| - 1]))
  }

  /** One more item for a row of `cap` payload bytes: kept whole if it fits behind the kept ones, else dropped whole. */
  function KeepOne(cap: nat, kept: seq<Item>, it: Item): seq<Item> {
    if Used(kept) + Size(RecOf(it)) <= cap then kept + [it] else kept
  }

  function KeepAll(cap: nat, kept: seq<Item>, items: seq<Item>): seq<Item>
    decreases |items|
  {
    if items == [] then kept else KeepAll(cap, KeepOne(cap, kept, items[0]), items[1..])
  }

  lemma UsedSnoc(kept: seq<Item>, it: Item)
    ensures Used(kept + [it]) == Used(kept) + Size(RecOf(it))
  {
    assert (kept + [it])[..|kept|] == kept;
  }

  lemma {:induction false} KeepAllConcat(cap: nat, kept: seq<Item>, a: seq<Item>, b: seq<Item>)
    ensures KeepAll(cap, kept, a + b) == KeepAll(cap, KeepAll(cap, kept, a), b)
    decreases |a|
  {
    if a == [] {
      assert a + b == b;
    } else {
      assert (a + b)[1..] == a[1..] + b;
      KeepAllConcat(cap, KeepOne(cap, kept, a[0]), a[1..], b);
    }
  }

  /** When everything fits, everything is kept. */
  lemma {:induction false} KeepAllWhenFitting(cap: nat, kept: seq<Item>, items: seq<Item>)
    requires Used(kept + items) <= cap
    ensures KeepAll(cap, kept, items) == kept + items
    decreases |items|
  {
    if items == [] {
      assert kept + items == kept;
    } else {
      UsedPrefix(kept + [items[0]], items[1..]);
      assert kept + items == kept + [items[0]] + items[1..];
      UsedSnoc(kept, items[0]);
      KeepAllWhenFitting(cap, kept + [items[0]], items[1..]);
    }
  }

  lemma {:induction false} UsedPrefix(a: seq<Item>, b: seq<Item>)
    ensures Used(a) <= Used(a + b)
    decreases |b|
  {
    if b == [] {
      assert a + b == a;
    } else {
      UsedPrefix(a, b[..|b| - 1]);
      assert (a + b)[..|a + b| - 1] == a + b[..|b| - 1];
    }
  }
}
