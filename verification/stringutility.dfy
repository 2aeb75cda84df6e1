/** utility/string_utility.go: the last piece of a split string. */
module StringUtility {
  import opened GoStrings

  /** GetLastSplit returns the last element of strings.Split(src, separator).
      That slice is empty, so the indexing panics, only when both arguments
      are empty; the precondition excludes exactly that case. */
  function GetLastSplit(src: string, separator: string): (last: string)
    requires separator != [] || src != []
    ensures separator != [] ==> !Contains(last, separator)
    ensures separator != [] && !Contains(src, separator) ==> last == src
    ensures separator != [] && Contains(src, separator) ==>
      && |separator| + |last| <= |src|
      && src[|src| - |separator| - |last|..] == separator + last
    ensures separator == [] ==> last == [src[|src| - 1]]
  {
    if separator != [] then LastPieceSpec(src, separator); LastPiece(src, separator)
    else
      var split := Split(src, separator);
      split[|split| - 1]
  }

  /** The last piece of Split, for a non-empty separator. */
  function LastPiece(src: string, separator: string): string
    requires separator != []
  {
    var split := Split(src, separator);
    split[|split| - 1]
  }

  /** What the last piece of Split is, for a non-empty separator. */
  lemma LastPieceSpec(src: string, separator: string)
    requires separator != []
    ensures !Contains(LastPiece(src, separator), separator)
    ensures !Contains(src, separator) ==> LastPiece(src, separator) == src
    ensures Contains(src, separator) ==>
      && |separator| + |LastPiece(src, separator)| <= |src|
      && src[|src| - |separator| - |LastPiece(src, separator)|..] == separator + LastPiece(src, separator)
  {
    LastPieceFree(src, separator);
    if Contains(src, separator) {
      LastPieceSuffix(src, separator);
    } else {
      LastPieceWhole(src, separator);
    }
  }

  /** The last piece of Split is free of the separator. */
  lemma LastPieceFree(src: string, separator: string)
    requires separator != []
    ensures !Contains(LastPiece(src, separator), separator)
  {
    SplitPartsFree(src, separator);
  }

  /** Without a separator in `src`, the last piece is all of `src`. */
  lemma LastPieceWhole(src: string, separator: string)
    requires separator != [] && !Contains(src, separator)
    ensures LastPiece(src, separator) == src
  {
  }

  /** With a separator in `src`, the last piece follows its final occurrence. */
  lemma LastPieceSuffix(src: string, separator: string)
    requires separator != [] && Contains(src, separator)
    ensures |separator| + |LastPiece(src, separator)| <= |src|
    ensures src[|src| - |separator| - |LastPiece(src, separator)|..] == separator + LastPiece(src, separator)
  {
    var head := LastPieceSplitsOff(src, separator);
    SpliceSuffix(src, separator, head, LastPiece(src, separator));
  }

  /** With a separator in `src`, `src` is some prefix, the separator and the
      last piece; returns that prefix. */
  lemma LastPieceSplitsOff(src: string, separator: string) returns (head: string)
    requires separator != [] && Contains(src, separator)
    ensures src == head + separator + LastPiece(src, separator)
  {
    var parts := Split(src, separator);
    SplitSingle(src, separator);
    JoinSplit(src, separator);
    head := JoinEndsWithLast(parts, separator);
  }

  /** A splice of `separator` and `last` onto any prefix ends with both. */
  lemma SpliceSuffix(src: string, separator: string, head: string, last: string)
    requires src == head + separator + last
    ensures |separator| + |last| <= |src| && src[|src| - |separator| - |last|..] == separator + last
  {
    assert src[|head|..] == separator + last;
  }

  /** Joining two or more parts ends with the separator and the last part;
      returns the join of the others. */
  lemma JoinEndsWithLast(parts: seq<string>, separator: string) returns (head: string)
    requires 1 < |parts|
    ensures Join(parts, separator) == head + separator + parts[|parts| - 1]
  {
    var last := parts[|parts| - 1];
    var init := parts[..|parts| - 1];
    assert parts == init + [last];
    JoinSnoc(init, last, separator);
    head := Join(init, separator);
  }

  /** For a one-character separator, the last piece is whatever follows the
      final occurrence of that character. */
  lemma LastSplitOfSpliced(p: string, c: char, t: string)
    requires c !in t
    ensures GetLastSplit(p + [c] + t, [c]) == t
  {
    var src := p + [c] + t;
    ContainsSpliced(p, [c], t);
    var r := GetLastSplit(src, [c]);
    ContainsChar(r, c);
    assert src[|src| - |t| - 1] == c;
    assert src[|src| - |r| - 1] == c;
    assert |r| == |t|;
    assert r == src[|src| - |r|..] == t;
  }

  /** The machine-type URL of the package's test and the path in front of
      its final segment. */
  const MachineTypeUrl := "https://www.googleapis.com/compute/v1/projects/ikalacomputeenginetest/zones/asia-east1-c/machineTypes/n1-highcpu-4"
  const MachineTypesPath := "https://www.googleapis.com/compute/v1/projects/ikalacomputeenginetest/zones/asia-east1-c/machineTypes"

  /** The machine-type URL of the package's test yields its final path segment. */
  lemma MachineTypeUrlExample()
    ensures GetLastSplit(MachineTypeUrl, "/") == "n1-highcpu-4"
  {
    assert MachineTypeUrl == MachineTypesPath + ['/'] + "n1-highcpu-4";
    LastSplitOfSpliced(MachineTypesPath, '/', "n1-highcpu-4");
  }
}
