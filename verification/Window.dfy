/** The arithmetic of the live window: which tickets are still in the ring after k draws, and in
    which order a walk from the lowest 32-bit row id meets them. */
module Window {
  import opened Bits
  import opened Slots

  /** The oldest ticket whose row has not been given to a later one. */
  function Oldest(k: nat, n: nat): nat {
    if k <= n then 0 else k - n
  }

  /** The first multiple of 2^32 that is at least w: the first ticket from w on whose row id is 0. */
  function WrapPoint(w: nat): nat {
    (w + U32 - 1) / U32 * U32
  }

  function Between(a: nat, b: nat): (r: seq<nat>)
    requires a <= b
    ensures |r| == b - a && forall i :: 0 <= i < b - a ==> r[i] == a + i
  {
    seq(b - a, i requires 0 <= i < b - a => a + i)
  }

  /** The live tickets in the order of creation. */
  function Chronological(k: nat, n: nat): seq<nat> {
    Between(Oldest(k, n), k)
  }

  /** The live tickets in the order in which the reader lists them. */
  function LiveOrder(k: nat, n: nat): seq<nat> {
    var w := Oldest(k, n);
    var m := WrapPoint(w);
    WrapPointFacts(w);
    if m < k then Between(m, k) + Between(w, m) else Between(w, k)
  }

  lemma WrapPointFacts(w: nat)
    ensures w <= WrapPoint(w) < w + U32 && WrapPoint(w) % U32 == 0
  {
    var q := (w + U32 - 1) / U32;
    DivModUnique(q * U32, U32, q, 0);
  }

  /** Multiples of 2^32 are at least 2^32 apart. */
  lemma NextMultiple(m: nat, m': nat)
    requires m % U32 == 0 && m' % U32 == 0 && m < m'
    ensures m + U32 <= m'
  {
    var q, q' := m / U32, m' / U32;
    assert m == q * U32 && m' == q' * U32;
  }

  /** The listing is chronological exactly when no multiple of 2^32 lies strictly inside the live window. */
  lemma ChronologicalIff(k: nat, n: nat)
    requires 0 < n <= 0x8000_0000
    ensures LiveOrder(k, n) == Chronological(k, n) <==> !(exists m: nat :: m % U32 == 0 && Oldest(k, n) < m < k)
  {
    hide WrapPoint;
    var w := Oldest(k, n);
    var m := WrapPoint(w);
    WrapPointFacts(w);
    if w < m < k {
      assert LiveOrder(k, n)[0] == m && Chronological(k, n)[0] == w;
    } else {
      if m == w { assert Between(m, k) + Between(w, m) == Between(w, k); }
      forall m': nat | m' % U32 == 0 && w < m' < k ensures false {
        if m < m' { NextMultiple(m, m'); } else if m' < m { NextMultiple(m', m); }
      }
    }
  }

  /** Up to 2^32 rows, the listing is always chronological. */
  lemma ChronologicalAtFirst(k: nat, n: nat)
    requires 0 < n <= 0x8000_0000 && k <= U32
    ensures LiveOrder(k, n) == Chronological(k, n)
  {
    ChronologicalIff(k, n);
    forall m: nat | m % U32 == 0 && Oldest(k, n) < m < k ensures false {
      NextMultiple(0, m);
    }
  }

  /** The lowest row id in the ring: 0 once a row with id 0 is live or nothing was written, else the oldest row's. */
  function First(k: nat, n: nat): uint32 {
    if WrapPoint(Oldest(k, n)) < k then 0 else IdOf(Oldest(k, n))
  }

  /** The i-th slot visited from there is that of the i-th ticket of LiveOrder; the visits beyond
      its end meet slots that were never written. */
  lemma VisitOrder(k: nat, n: nat, c: nat, i: nat)
    requires n > 0 && n * c == U32 && i < n
    ensures i < |LiveOrder(k, n)| ==> (First(k, n) + i) % n == LiveOrder(k, n)[i] % n
    ensures i >= |LiveOrder(k, n)| ==> k <= (First(k, n) + i) % n == i
  {
    hide WrapPoint, IdOf;
    var w := Oldest(k, n);
    var m := WrapPoint(w);
    WrapPointFacts(w);
    DivModUnique(i, n, 0, i);
    if m < k {
      if i < k - m {
        DropMultiple(m, n, c, i);
      } else if k >= n {
        DropMultiple(m, n, c, i);
        assert LiveOrder(k, n)[i] == m + i - n;
        DropTurn(m + i - n, n);
      }
    } else if k >= n {
      DropWraps(w, n, c, i);
    } else {
      IdOfZero();
    }
  }

  lemma DropMultiple(m: nat, n: nat, c: nat, i: nat)
    requires n > 0 && n * c == U32 && m % U32 == 0
    ensures (m + i) % n == i % n
  {
    var q := m / U32;
    assert m == q * (n * c) == (q * c) * n;
    DivModUnique(m + i, n, q * c + i / n, i % n);
  }

  lemma DropTurn(x: nat, n: nat)
    requires n > 0
    ensures (x + n) % n == x % n
  {
    DivModUnique(x + n, n, x / n + 1, x % n);
  }

  /** Adding to a wrapped row id or to the ticket itself is the same modulo num_rows. */
  lemma DropWraps(w: nat, n: nat, c: nat, i: nat)
    requires n > 0 && n * c == U32
    ensures (IdOf(w) + i) % n == (w + i) % n
  {
    var q := w / U32;
    assert w == q * U32 + IdOf(w);
    DivModUnique(q * U32, U32, q, 0);
    DropMultiple(q * U32, n, c, IdOf(w) + i);
  }

  /** The live ticket of a written slot. */
  lemma LiveTicketOf(k: nat, n: nat, s: nat) returns (j: nat)
    requires s < n && s < k
    ensures Oldest(k, n) <= j < k <= j + n && j % n == s
  {
    if k <= n {
      j := s;
      DivModUnique(s, n, 0, s);
    } else {
      var w := k - n;
      j := w + (s - w) % n;
      SameResidue(w, s, n);
    }
  }

  /** Below the next multiple of 2^32, later tickets have higher row ids. */
  lemma IdsGrow(w: nat, j: nat)
    requires w <= j < WrapPoint(w)
    ensures IdOf(w) <= IdOf(j)
  {
    hide WrapPoint;
    var m := WrapPoint(w);
    WrapPointFacts(w);
    var q := m / U32;
    assert m == q * U32;
    DivModUnique(w, U32, q - 1, w - (q - 1) * U32);
    DivModUnique(j, U32, q - 1, j - (q - 1) * U32);
  }

  /** Every listed ticket is live. */
  lemma LiveOrderIsLive(k: nat, n: nat, i: nat)
    requires n > 0 && i < |LiveOrder(k, n)|
    ensures LiveOrder(k, n)[i] < k <= LiveOrder(k, n)[i] + n
    ensures |LiveOrder(k, n)| == if k <= n then k else n
  {
    hide WrapPoint;
    WrapPointFacts(Oldest(k, n));
  }

  /** Every live ticket is listed exactly once. */
  lemma LiveOrderIsPermutation(k: nat, n: nat)
    ensures multiset(LiveOrder(k, n)) == multiset(Chronological(k, n))
  {
    hide WrapPoint;
    var w := Oldest(k, n);
    var m := WrapPoint(w);
    WrapPointFacts(w);
    if m < k {
      assert Between(w, k) == Between(w, m) + Between(m, k);
    }
  }
}
