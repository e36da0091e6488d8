/** C strings in buffers, whatever the type of their characters: everything before the first NUL. */
module CStrings {

  function CString<T(==)>(b: seq<T>, nul: T): seq<T> {
    if b == [] || b[0] == nul then [] else [b[0]] + CString(b[1..], nul)
  }

  /** What stands behind the first NUL does not matter. */
  lemma {:induction false} CStringOfTerminated<T>(s: seq<T>, nul: T, rest: seq<T>)
    ensures CString(s + [nul] + rest, nul) == CString(s, nul)
    decreases |s|
  {
    if s == [] {
    } else {
      CStringOfTerminated(s[1..], nul, rest);
      assert (s + [nul] + rest)[1..] == s[1..] + [nul] + rest;
    }
  }

  lemma {:induction false} CStringUnchanged<T>(s: seq<T>, nul: T)
    requires nul !in s
    ensures CString(s, nul) == s
    decreases |s|
  {
    if s == [] {
    } else {
      CStringUnchanged(s[1..], nul);
    }
  }
}
