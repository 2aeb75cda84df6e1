/** Latest-snapshot selection of gce/gcemanager.go: filter by a substring of
    the name, sort by name, take the last. */
module GceSnapshots {
  import opened Base
  import opened GceTypes
  import opened GoStrings
  import CollectionUtility
  import Lex

  /** BySnapshotName.Less is `<` on names, so a sorted slice has no name
      greater than a later one. */
  ghost predicate SortedByName(s: seq<Snapshot>)
  {
    forall i, j :: 0 <= i < j < |s| ==> AtMost(s[i].name, s[j].name)
  }

  /** SortedByName is what sort.Sort promises for BySnapshotName: no later
      snapshot is Less than an earlier one. */
  lemma SortedIffNoInversion(s: seq<Snapshot>)
    ensures SortedByName(s) <==> forall i, j :: 0 <= i < j < |s| ==> !Less(s[j].name, s[i].name)
  {
    forall i, j | 0 <= i < j < |s|
      ensures AtMost(s[i].name, s[j].name) <==> !Less(s[j].name, s[i].name)
    {
      AtMostIffNotLess(s[i].name, s[j].name);
    }
  }

  /** Inserts `x` in front of the first snapshot whose name is not smaller. */
  function InsertByName(x: Snapshot, s: seq<Snapshot>): seq<Snapshot>
  {
    if s == [] then [x]
    else if AtMost(x.name, s[0].name) then [x] + s
    else [s[0]] + InsertByName(x, s[1..])
  }

  /** Insertion adds exactly `x`. */
  lemma {:induction false} InsertByNameContents(x: Snapshot, s: seq<Snapshot>)
    ensures multiset(InsertByName(x, s)) == multiset(s) + multiset{x}
  {
    if s != [] && !AtMost(x.name, s[0].name) {
      InsertByNameContents(x, s[1..]);
      assert s == [s[0]] + s[1..];
    }
  }

  /** Insertion into a sorted sequence keeps it sorted. */
  lemma {:induction false} InsertByNameSorted(x: Snapshot, s: seq<Snapshot>)
    requires SortedByName(s)
    ensures SortedByName(InsertByName(x, s))
  {
    if s == [] {
    } else if AtMost(x.name, s[0].name) {
      forall j | 0 <= j < |s|
        ensures AtMost(x.name, s[j].name)
      {
        if j > 0 { AtMostTransitive(x.name, s[0].name, s[j].name); }
      }
    } else {
      AtMostTotal(x.name, s[0].name);
      var tail := s[1..];
      var rest := InsertByName(x, tail);
      InsertByNameSorted(x, tail);
      InsertByNameBounded(x, tail, s[0].name);
      var r := [s[0]] + rest;
      assert InsertByName(x, s) == r;
      forall i, j | 0 <= i < j < |r|
        ensures AtMost(r[i].name, r[j].name)
      {
        if i > 0 {
          assert r[i] == rest[i - 1] && r[j] == rest[j - 1];
        } else {
          assert r[j] == rest[j - 1];
        }
      }
    }
  }

  /** A lower bound of `x` and of every element of `s` bounds the insertion. */
  lemma {:induction false} InsertByNameBounded(x: Snapshot, s: seq<Snapshot>, low: string)
    requires AtMost(low, x.name)
    requires forall j :: 0 <= j < |s| ==> AtMost(low, s[j].name)
    ensures forall j :: 0 <= j < |InsertByName(x, s)| ==> AtMost(low, InsertByName(x, s)[j].name)
  {
    if s != [] && !AtMost(x.name, s[0].name) {
      InsertByNameBounded(x, s[1..], low);
    }
  }

  /** sort.Sort(BySnapshotName(...)): an ordering of the same snapshots by name. */
  function SortByName(xs: seq<Snapshot>): (r: seq<Snapshot>)
    ensures SortedByName(r)
    ensures multiset(r) == multiset(xs)
  {
    if xs == [] then []
    else
      var rest := SortByName(xs[1..]);
      InsertByNameSorted(xs[0], rest);
      InsertByNameContents(xs[0], rest);
      assert xs == [xs[0]] + xs[1..];
      InsertByName(xs[0], rest)
  }

  /** The last snapshot of a sorted sequence has the greatest name in it. */
  lemma LastIsGreatest(sorted: seq<Snapshot>)
    requires SortedByName(sorted) && 0 < |sorted|
    ensures forall s :: s in sorted ==> AtMost(s.name, sorted[|sorted| - 1].name)
  {
    var last := sorted[|sorted| - 1];
    forall s | s in sorted
      ensures AtMost(s.name, last.name)
    {
      var i :| 0 <= i < |sorted| && sorted[i] == s;
      if i == |sorted| - 1 {
        AtMostReflexive(s.name);
      }
    }
  }

  /** The snapshot's name contains the prefix somewhere, not only at the start. */
  predicate Matches(prefix: string, s: Snapshot)
  {
    Contains(s.name, prefix)
  }

  /** The snapshots whose name matches, in their original order. */
  function Matching(prefix: string, snapshots: seq<Snapshot>): (m: seq<Snapshot>)
    ensures forall s :: s in m <==> s in snapshots && Matches(prefix, s)
  {
    CollectionUtility.FilterMembership(snapshots, s => Matches(prefix, s));
    CollectionUtility.Filter(snapshots, s => Matches(prefix, s))
  }

  /** GetLatestSnapshot: among the snapshots whose name contains `prefix`,
      one with the greatest name; an error when there is none. */
  function GetLatestSnapshot(prefix: string, snapshots: seq<Snapshot>): (r: Result<Snapshot, Error>)
    ensures r.Err? <==> forall s :: s in snapshots ==> !Matches(prefix, s)
    ensures r.Err? ==> r.error == NoSnapshotFound
    ensures r.Ok? ==> r.value in snapshots && Matches(prefix, r.value)
    ensures r.Ok? ==> forall s :: s in snapshots && Matches(prefix, s) ==> AtMost(s.name, r.value.name)
  {
    var filtered := Matching(prefix, snapshots);
    var sorted := SortByName(filtered);
    SameElements(sorted, filtered);
    if |sorted| < 1 then
      Err(NoSnapshotFound)
    else
      LastIsGreatest(sorted);
      Ok(sorted[|sorted| - 1])
  }

  /** Sequences with equal multisets have the same elements. */
  lemma SameElements(a: seq<Snapshot>, b: seq<Snapshot>)
    requires multiset(a) == multiset(b)
    ensures forall s :: s in a <==> s in b
  {
    forall s
      ensures s in a <==> s in b
    {
      assert s in a <==> s in multiset(a);
      assert s in b <==> s in multiset(b);
    }
  }

  /** The snapshots of the package's test, newest first. */
  const AlphaSnapshots: seq<Snapshot> := [
    Snapshot(0, "zebra-rtc-alpha-snapshot-201503032021"),
    Snapshot(0, "zebra-rtc-alpha-snapshot-201502161516"),
    Snapshot(0, "zebra-rtc-alpha-snapshot-201502131103")]

  /** In the package's test, the snapshot stamped 201503032021 is the latest
      with "alpha" in its name. */
  lemma LatestSnapshotExample()
    ensures GetLatestSnapshot("alpha", AlphaSnapshots) == Ok(AlphaSnapshots[0])
  {
    var stem := AlphaStem();
    var march, feb16, feb13 := AlphaSnapshots[0], AlphaSnapshots[1], AlphaSnapshots[2];
    assert AlphaSnapshots == [march, feb16, feb13];
    AlphaMatches();
    Later(stem, "3032021", "2161516");
    Later(stem, "3032021", "2131103");
    LatestOfThree("alpha", march, feb16, feb13);
  }

  /** The three names share a stem and differ in the stamp's last seven digits. */
  lemma AlphaStem() returns (stem: string)
    ensures AlphaSnapshots[0].name == stem + "3032021"
    ensures AlphaSnapshots[1].name == stem + "2161516"
    ensures AlphaSnapshots[2].name == stem + "2131103"
  {
    stem := "zebra-rtc-alpha-snapshot-20150";
  }

  /** The newest name contains "alpha". */
  lemma AlphaMatches()
    ensures Matches("alpha", AlphaSnapshots[0])
  {
    var before, after := AlphaAround();
    assert AlphaSnapshots[0].name == "zebra-rtc-alpha-snapshot-201503032021";
    ContainsSpliced(before, "alpha", after);
  }

  /** The newest name with "alpha" marked out. */
  lemma AlphaAround() returns (before: string, after: string)
    ensures "zebra-rtc-alpha-snapshot-201503032021" == before + "alpha" + after
  {
    before, after := "zebra-rtc-", "-snapshot-201503032021";
  }

  /** A matching snapshot whose name is greater than the other two is chosen. */
  lemma LatestOfThree(prefix: string, a: Snapshot, b: Snapshot, c: Snapshot)
    requires Matches(prefix, a) && !AtMost(a.name, b.name) && !AtMost(a.name, c.name)
    ensures GetLatestSnapshot(prefix, [a, b, c]) == Ok(a)
  {
    var r := GetLatestSnapshot(prefix, [a, b, c]);
    assert a in [a, b, c];
  }

  /** Names sharing a stem are ordered by what follows it. */
  lemma Later(stem: string, x: string, y: string)
    requires 0 < |x| && 0 < |y| && x[0] > y[0]
    ensures !AtMost(stem + x, stem + y)
  {
    CodePointsAppend(stem, x);
    CodePointsAppend(stem, y);
    Lex.CompareCommonPrefix(CodePoints(stem), CodePoints(x), CodePoints(y));
  }
}
