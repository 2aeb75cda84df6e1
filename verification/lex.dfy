/** Lexicographic order on sequences of integers: the order of Go's
    `bytes.Compare` and of Go's `<` on strings (compared byte by byte). */
module Lex {

  /** Three-way comparison, -1, 0 or +1; a proper prefix sorts first. */
  function Compare(a: seq<int>, b: seq<int>): (r: int)
    ensures -1 <= r <= 1
    ensures r == 0 <==> a == b
  {
    if |a| == 0 then (if |b| == 0 then 0 else -1)
    else if |b| == 0 then 1
    else if a[0] < b[0] then -1
    else if a[0] > b[0] then 1
    else
      assert a == [a[0]] + a[1..] && b == [b[0]] + b[1..];
      Compare(a[1..], b[1..])
  }

  /** Reference definition of the strict order: `a` is a proper prefix of `b`,
      or the two agree up to some position where `a` holds the smaller value. */
  ghost predicate Precedes(a: seq<int>, b: seq<int>)
  {
    || (|a| < |b| && a == b[..|a|])
    || exists k :: 0 <= k < |a| && k < |b| && a[..k] == b[..k] && a[k] < b[k]
  }

  /** Non-strict order: `a` does not come after `b`. */
  predicate AtMost(a: seq<int>, b: seq<int>)
  {
    Compare(a, b) <= 0
  }

  /** Compare agrees with the reference order. */
  lemma {:induction false} CompareMatchesPrecedes(a: seq<int>, b: seq<int>)
    ensures Compare(a, b) < 0 <==> Precedes(a, b)
    decreases |a|
  {
    if |a| == 0 || |b| == 0 {
    } else if a[0] < b[0] {
      assert a[..0] == b[..0];
    } else if a[0] > b[0] {
      forall k | 0 < k <= |a| && k <= |b|
        ensures a[..k] != b[..k]
      {
        assert a[..k][0] == a[0] && b[..k][0] == b[0];
      }
    } else {
      CompareMatchesPrecedes(a[1..], b[1..]);
      PrecedesTail(a, b);
    }
  }

  /** When the first elements agree, the order is decided by the tails. */
  lemma PrecedesTail(a: seq<int>, b: seq<int>)
    requires 0 < |a| && 0 < |b| && a[0] == b[0]
    ensures Precedes(a, b) <==> Precedes(a[1..], b[1..])
  {
    if Precedes(a, b) {
      PrecedesDropHead(a, b);
    }
    if Precedes(a[1..], b[1..]) {
      PrecedesAddHead(a, b);
    }
  }

  /** Equal first elements can be dropped from an ordered pair. */
  lemma PrecedesDropHead(a: seq<int>, b: seq<int>)
    requires 0 < |a| && 0 < |b| && a[0] == b[0] && Precedes(a, b)
    ensures Precedes(a[1..], b[1..])
  {
    var a', b' := a[1..], b[1..];
    if |a| < |b| && a == b[..|a|] {
      assert a' == b'[..|a'|];
    } else {
      var k :| 0 <= k < |a| && k < |b| && a[..k] == b[..k] && a[k] < b[k];
      assert k > 0;
      assert a'[..k - 1] == a[1..k] == b[1..k] == b'[..k - 1];
      assert a'[k - 1] < b'[k - 1];
    }
  }

  /** An equal first element can be put in front of an ordered pair. */
  lemma PrecedesAddHead(a: seq<int>, b: seq<int>)
    requires 0 < |a| && 0 < |b| && a[0] == b[0] && Precedes(a[1..], b[1..])
    ensures Precedes(a, b)
  {
    var a', b' := a[1..], b[1..];
    if |a'| < |b'| && a' == b'[..|a'|] {
      assert a == [a[0]] + a' && b[..|a|] == [b[0]] + b'[..|a'|];
    } else {
      var k :| 0 <= k < |a'| && k < |b'| && a'[..k] == b'[..k] && a'[k] < b'[k];
      assert a[..k + 1] == [a[0]] + a'[..k] && b[..k + 1] == [b[0]] + b'[..k];
      assert a[k + 1] < b[k + 1];
    }
  }

  /** Swapping the arguments negates the comparison. */
  lemma {:induction false} CompareAntisymmetric(a: seq<int>, b: seq<int>)
    ensures Compare(b, a) == -Compare(a, b)
    decreases |a|
  {
    if |a| > 0 && |b| > 0 && a[0] == b[0] {
      CompareAntisymmetric(a[1..], b[1..]);
    }
  }

  /** Any two sequences are ordered one way or the other. */
  lemma AtMostTotal(a: seq<int>, b: seq<int>)
    ensures AtMost(a, b) || AtMost(b, a)
  {
    CompareAntisymmetric(a, b);
  }

  /** The non-strict order is transitive. */
  lemma {:induction false} AtMostTransitive(a: seq<int>, b: seq<int>, c: seq<int>)
    requires AtMost(a, b) && AtMost(b, c)
    ensures AtMost(a, c)
    decreases |a|
  {
    if |a| > 0 && |b| > 0 && |c| > 0 && a[0] == b[0] == c[0] {
      AtMostTransitive(a[1..], b[1..], c[1..]);
    }
  }

  /** A strict step followed by a non-strict one is strict. */
  lemma {:induction false} PrecedesThenAtMost(a: seq<int>, b: seq<int>, c: seq<int>)
    requires Compare(a, b) < 0 && AtMost(b, c)
    ensures Compare(a, c) < 0
    decreases |a|
  {
    if |a| > 0 && |b| > 0 && |c| > 0 && a[0] == b[0] == c[0] {
      PrecedesThenAtMost(a[1..], b[1..], c[1..]);
    }
  }

  /** A shared prefix does not affect the comparison. */
  lemma {:induction false} CompareCommonPrefix(p: seq<int>, x: seq<int>, y: seq<int>)
    ensures Compare(p + x, p + y) == Compare(x, y)
    decreases |p|
  {
    if |p| > 0 {
      assert (p + x)[0] == p[0] == (p + y)[0];
      assert (p + x)[1..] == p[1..] + x && (p + y)[1..] == p[1..] + y;
      CompareCommonPrefix(p[1..], x, y);
    } else {
      assert p + x == x && p + y == y;
    }
  }
}
