/** The parts of Go's `strings` package that the core relies on: Index,
    Contains, Split and Join, and Go's ordering of strings. A Go string is
    modelled as a sequence of Unicode code points. */
module GoStrings {
  import Lex

  /** `sub` occurs in `s` starting at position `i`. */
  predicate OccursAt(s: string, sub: string, i: int)
  {
    0 <= i && i + |sub| <= |s| && s[i..i + |sub|] == sub
  }

  /** Dropping the first character shifts every occurrence one place left. */
  lemma OccursShift(s: string, sub: string)
    requires 0 < |s|
    ensures forall j :: 0 <= j ==> (OccursAt(s[1..], sub, j) <==> OccursAt(s, sub, j + 1))
    ensures forall j :: 1 <= j ==> (OccursAt(s, sub, j) <==> OccursAt(s[1..], sub, j - 1))
  {
    forall j | 0 <= j
      ensures OccursAt(s[1..], sub, j) <==> OccursAt(s, sub, j + 1)
    {
      if j + 1 + |sub| <= |s| {
        assert s[1..][j..j + |sub|] == s[j + 1..j + 1 + |sub|];
      }
    }
    forall j | 1 <= j
      ensures OccursAt(s, sub, j) <==> OccursAt(s[1..], sub, j - 1)
    {
      if j + |sub| <= |s| {
        assert s[1..][j - 1..j - 1 + |sub|] == s[j..j + |sub|];
      }
    }
  }

  /** strings.Index: the position of the first occurrence of `sub`, or -1. */
  function Index(s: string, sub: string): (r: int)
    ensures -1 <= r
    ensures r == -1 || OccursAt(s, sub, r)
    decreases |s|
  {
    if |s| < |sub| then -1
    else if s[..|sub|] == sub then 0
    else
      var k := Index(s[1..], sub);
      if k < 0 then -1
      else
        OccursShift(s, sub);
        k + 1
  }

  /** Index finds the first occurrence: there is none before the result, and
      none at all when the result is -1. */
  lemma {:induction false} IndexFirst(s: string, sub: string)
    ensures forall j :: 0 <= j && (Index(s, sub) == -1 || j < Index(s, sub)) ==> !OccursAt(s, sub, j)
    decreases |s|
  {
    if |s| < |sub| {
    } else if s[..|sub|] != sub {
      IndexFirst(s[1..], sub);
      OccursShift(s, sub);
      assert !OccursAt(s, sub, 0);
    }
  }

  /** strings.Contains: `sub` occurs somewhere in `s`, not necessarily at the start. */
  function Contains(s: string, sub: string): (r: bool)
    ensures r ==> |sub| <= |s|
    ensures sub == [] ==> r
  {
    Index(s, sub) >= 0
  }

  /** Contains holds exactly when there is an occurrence. */
  lemma ContainsOccurs(s: string, sub: string)
    ensures Contains(s, sub) <==> exists i :: OccursAt(s, sub, i)
  {
    IndexFirst(s, sub);
  }

  /** For a one-character separator, containment is plain membership. */
  lemma ContainsChar(s: string, c: char)
    ensures Contains(s, [c]) <==> c in s
  {
    ContainsOccurs(s, [c]);
    if c in s {
      var i :| 0 <= i < |s| && s[i] == c;
      assert OccursAt(s, [c], i);
    }
    if Contains(s, [c]) {
      var i :| OccursAt(s, [c], i);
      assert s[i] == s[i..i + 1][0] == c;
    }
  }

  /** A string with the separator spliced in contains it. */
  lemma ContainsSpliced(p: string, sep: string, t: string)
    ensures Contains(p + sep + t, sep)
  {
    assert (p + sep + t)[|p|..|p| + |sep|] == sep;
    assert OccursAt(p + sep + t, sep, |p|);
    ContainsOccurs(p + sep + t, sep);
  }

  /** Splitting with the empty separator yields one string per character. */
  function Explode(s: string): (parts: seq<string>)
    ensures |parts| == |s|
    ensures forall i :: 0 <= i < |s| ==> parts[i] == [s[i]]
  {
    seq(|s|, i requires 0 <= i < |s| => [s[i]])
  }

  /** strings.Split: the pieces of `s` between non-overlapping occurrences of
      `sep`, found left to right. */
  function Split(s: string, sep: string): (parts: seq<string>)
    ensures sep != [] ==> 0 < |parts|
    decreases |s|
  {
    if sep == [] then Explode(s)
    else
      var i := Index(s, sep);
      if i < 0 then [s]
      else [s[..i]] + Split(s[i + |sep|..], sep)
  }

  /** One step of Split at the first occurrence of the separator; returns what
      remains after it. */
  lemma SplitStep(s: string, sep: string) returns (rest: string)
    requires sep != [] && Index(s, sep) >= 0
    ensures |rest| < |s|
    ensures s == s[..Index(s, sep)] + sep + rest
    ensures Split(s, sep) == [s[..Index(s, sep)]] + Split(rest, sep)
  {
    var i := Index(s, sep);
    rest := s[i + |sep|..];
    assert s[i..i + |sep|] == sep;
    assert s == s[..i] + s[i..i + |sep|] + rest;
  }

  /** Split yields a single piece exactly when the separator does not occur. */
  lemma SplitSingle(s: string, sep: string)
    requires sep != []
    ensures |Split(s, sep)| == 1 <==> !Contains(s, sep)
  {
  }

  /** strings.Join: the parts with the separator between consecutive ones. */
  function Join(parts: seq<string>, sep: string): (r: string)
    ensures 0 < |parts| ==> parts[0] <= r
  {
    if |parts| == 0 then []
    else if |parts| == 1 then parts[0]
    else parts[0] + sep + Join(parts[1..], sep)
  }

  /** Joining with one more part appends the separator and that part. */
  lemma {:induction false} JoinSnoc(parts: seq<string>, last: string, sep: string)
    requires 0 < |parts|
    ensures Join(parts + [last], sep) == Join(parts, sep) + sep + last
    decreases |parts|
  {
    if |parts| > 1 {
      assert (parts + [last])[1..] == parts[1..] + [last];
      JoinSnoc(parts[1..], last, sep);
    }
  }

  /** Split followed by Join gives back the original string. */
  lemma {:induction false} JoinSplit(s: string, sep: string)
    requires sep != []
    ensures Join(Split(s, sep), sep) == s
    decreases |s|
  {
    var i := Index(s, sep);
    if i >= 0 {
      var rest := SplitStep(s, sep);
      JoinSplit(rest, sep);
    }
  }

  /** No piece produced by Split contains the separator. */
  lemma {:induction false} SplitPartsFree(s: string, sep: string)
    requires sep != []
    ensures forall k :: 0 <= k < |Split(s, sep)| ==> !Contains(Split(s, sep)[k], sep)
    decreases |s|
  {
    if Index(s, sep) < 0 {
      assert Split(s, sep) == [s];
    } else {
      var rest := SplitStep(s, sep);
      BeforeFirstIsFree(s, sep);
      SplitPartsFree(rest, sep);
    }
  }

  /** The text before the first occurrence of `sep` does not contain it. */
  lemma BeforeFirstIsFree(s: string, sep: string)
    requires sep != [] && Index(s, sep) >= 0
    ensures !Contains(s[..Index(s, sep)], sep)
  {
    var i := Index(s, sep);
    var head := s[..i];
    IndexFirst(s, sep);
    ContainsOccurs(head, sep);
    forall j | OccursAt(head, sep, j)
      ensures OccursAt(s, sep, j) && j < i
    {
      assert head[j..j + |sep|] == s[j..j + |sep|];
    }
  }

  /** Split undoes Join for a one-character separator absent from every part. */
  lemma {:induction false} SplitJoin(parts: seq<string>, sep: string)
    requires |sep| == 1 && 0 < |parts|
    requires forall k :: 0 <= k < |parts| ==> sep[0] !in parts[k]
    ensures Split(Join(parts, sep), sep) == parts
    decreases |parts|
  {
    var s := Join(parts, sep);
    var head := parts[0];
    if |parts| == 1 {
      ContainsChar(head, sep[0]);
      assert sep == [sep[0]];
    } else {
      var rest := Join(parts[1..], sep);
      assert s == head + sep + rest;
      forall j | 0 <= j < |head|
        ensures !OccursAt(s, sep, j)
      {
        assert s[j] == head[j] != sep[0];
      }
      assert s[|head|..|head| + 1] == sep;
      assert OccursAt(s, sep, |head|);
      IndexFirst(s, sep);
      assert Index(s, sep) == |head|;
      var rest' := SplitStep(s, sep);
      assert rest' == rest;
      SplitJoin(parts[1..], sep);
      assert parts == [head] + parts[1..];
    }
  }

  /** The code points of a string, the keys of Go's string comparison
      (code-point order coincides with the order of UTF-8 bytes). */
  function CodePoints(s: string): (cs: seq<int>)
    ensures |cs| == |s|
    ensures forall i :: 0 <= i < |s| ==> cs[i] == s[i] as int
  {
    seq(|s|, i requires 0 <= i < |s| => s[i] as int)
  }

  /** Go's `a < b` on strings. */
  predicate Less(a: string, b: string)
  {
    Lex.Compare(CodePoints(a), CodePoints(b)) < 0
  }

  /** Go's `a <= b` on strings. */
  predicate AtMost(a: string, b: string)
  {
    Lex.AtMost(CodePoints(a), CodePoints(b))
  }

  /** The code points of a concatenation are the concatenated code points. */
  lemma CodePointsAppend(a: string, b: string)
    ensures CodePoints(a + b) == CodePoints(a) + CodePoints(b)
  {
  }

  /** Go's string order is reflexive, total and transitive. */
  lemma AtMostReflexive(a: string)
    ensures AtMost(a, a)
  {
  }

  /** `a <= b` exactly when not `b < a`. */
  lemma AtMostIffNotLess(a: string, b: string)
    ensures AtMost(a, b) <==> !Less(b, a)
  {
    Lex.CompareAntisymmetric(CodePoints(a), CodePoints(b));
  }

  lemma AtMostTotal(a: string, b: string)
    ensures AtMost(a, b) || AtMost(b, a)
  {
    Lex.AtMostTotal(CodePoints(a), CodePoints(b));
  }

  lemma AtMostTransitive(a: string, b: string, c: string)
    requires AtMost(a, b) && AtMost(b, c)
    ensures AtMost(a, c)
  {
    Lex.AtMostTransitive(CodePoints(a), CodePoints(b), CodePoints(c));
  }
}
