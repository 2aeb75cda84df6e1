/** Resource-URL helpers of gce/gcemanager.go: the snapshot name in a disk's
    source-snapshot URL, and replacing the last segment of a machine-type URL. */
module GcePaths {
  import opened GoStrings
  import opened StringUtility
  import opened GceTypes

  /** GetSnapshotOfDisk: the text after the last "/" of the disk's source
      snapshot, or all of it when it has no "/". */
  function GetSnapshotOfDisk(disk: Disk): (name: string)
    ensures name == GetLastSplit(disk.sourceSnapshot, "/")
    ensures !Contains(name, "/")
    ensures !Contains(disk.sourceSnapshot, "/") ==> name == disk.sourceSnapshot
    ensures Contains(disk.sourceSnapshot, "/") ==>
      var src := disk.sourceSnapshot;
      |name| < |src| && src[|src| - |name| - 1..] == "/" + name
  {
    var arr := Split(disk.sourceSnapshot, "/");
    arr[|arr| - 1]
  }

  /** The disk of the package's test, created from global/snapshots/snapshot-test,
      reports snapshot-test. */
  lemma SnapshotOfDiskExample()
    ensures GetSnapshotOfDisk(Disk("disk-test", 20, "global/snapshots/snapshot-test", "READY")) == "snapshot-test"
  {
    assert "global/snapshots/snapshot-test" == "global/snapshots" + ['/'] + "snapshot-test";
    LastSplitOfSpliced("global/snapshots", '/', "snapshot-test");
  }

  /** PatchInstanceMachineType: `machineType` with its last "/"-separated
      segment replaced by `targetType`. */
  function PatchInstanceMachineType(machineType: string, targetType: string): (patched: string)
    ensures patched == machineType[..|machineType| - |GetLastSplit(machineType, "/")|] + targetType
    ensures !Contains(targetType, "/") ==>
      var before, after := Split(machineType, "/"), Split(patched, "/");
      && |after| == |before|
      && after[..|after| - 1] == before[..|before| - 1]
      && after[|after| - 1] == targetType
  {
    var parts := PatchedParts(machineType, targetType);
    PatchReplacesLast(machineType, targetType);
    if !Contains(targetType, "/") then
      PatchKeepsSegments(machineType, targetType);
      Join(parts, "/")
    else
      Join(parts, "/")
  }

  /** The parts PatchInstanceMachineType joins: all segments but the last, then the target. */
  function PatchedParts(machineType: string, targetType: string): (parts: seq<string>)
    ensures |parts| == |Split(machineType, "/")|
  {
    var split := Split(machineType, "/");
    split[..|split| - 1] + [targetType]
  }

  /** The joined parts are the text up to the last "/" followed by the target. */
  lemma PatchReplacesLast(machineType: string, targetType: string)
    ensures Join(PatchedParts(machineType, targetType), "/")
      == machineType[..|machineType| - |GetLastSplit(machineType, "/")|] + targetType
  {
    var split := Split(machineType, "/");
    var last := split[|split| - 1];
    var init := split[..|split| - 1];
    assert GetLastSplit(machineType, "/") == last;
    JoinSplit(machineType, "/");
    if |split| == 1 {
      assert PatchedParts(machineType, targetType) == [targetType];
      assert last == machineType;
    } else {
      assert split == init + [last];
      JoinSnoc(init, last, "/");
      JoinSnoc(init, targetType, "/");
      assert machineType == Join(init, "/") + "/" + last;
      assert machineType[..|machineType| - |last|] == Join(init, "/") + "/";
    }
  }

  /** With a target free of "/", splitting the result gives back the parts. */
  lemma PatchKeepsSegments(machineType: string, targetType: string)
    requires !Contains(targetType, "/")
    ensures Split(Join(PatchedParts(machineType, targetType), "/"), "/") == PatchedParts(machineType, targetType)
  {
    var split := Split(machineType, "/");
    var parts := PatchedParts(machineType, targetType);
    SplitPartsFree(machineType, "/");
    forall k | 0 <= k < |parts|
      ensures '/' !in parts[k]
    {
      ContainsChar(parts[k], '/');
      if k < |parts| - 1 {
        assert parts[k] == split[k];
      }
    }
    SplitJoin(parts, "/");
  }
}
