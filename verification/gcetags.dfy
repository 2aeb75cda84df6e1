/** Tag adjustment of gce/gcemanager.go: adjustTags reads the VM's tags,
    computes the replacement list with the attacher or detacher closure, and
    submits it with SetTags. */
module GceTags {
  import opened Base
  import opened GceTypes
  import opened CollectionUtility

  /** The attacher closure of AttachTags: appends each new tag in turn, without
      removing duplicates. */
  function Attach(src: seq<string>, added: seq<string>): (r: seq<string>)
    ensures |r| == |src| + |added|
    ensures r[..|src|] == src && r[|src|..] == added
    decreases |added|
  {
    if added == [] then src
    else
      var r := Attach(src + [added[0]], added[1..]);
      assert added == [added[0]] + added[1..];
      r
  }

  /** The detacher closure of DetachTags: keeps, in order, every tag that
      InStringSlice does not find in `remove`. */
  function Detach(src: seq<string>, remove: seq<string>): (r: seq<string>)
    ensures |r| <= |src|
    ensures remove == [] ==> r == src
  {
    if src == [] then []
    else
      var rest := Detach(src[1..], remove);
      if InStringSlice(remove, src[0]) then rest else [src[0]] + rest
  }

  /** Detach keeps exactly the tags not in `remove`, each as often as in `src`. */
  lemma {:induction false} DetachContents(src: seq<string>, remove: seq<string>)
    ensures forall t :: t in Detach(src, remove) <==> t in src && t !in remove
    ensures forall t :: multiset(Detach(src, remove))[t] == if t in remove then 0 else multiset(src)[t]
    decreases |src|
  {
    if src != [] {
      var rest := Detach(src[1..], remove);
      DetachContents(src[1..], remove);
      assert src == [src[0]] + src[1..];
      if src[0] !in remove {
        assert forall t :: t in [src[0]] + rest <==> t == src[0] || t in rest;
      }
    }
  }

  /** Detach unfolded once: the first tag is kept unless it is to be removed. */
  lemma DetachStep(src: seq<string>, remove: seq<string>)
    requires src != []
    ensures Detach(src, remove) == (if src[0] in remove then [] else [src[0]]) + Detach(src[1..], remove)
  {
  }

  /** Detaching from a concatenation detaches from each part, in order: the
      kept tags keep their relative order. */
  lemma {:induction false} DetachAppend(a: seq<string>, b: seq<string>, remove: seq<string>)
    ensures Detach(a + b, remove) == Detach(a, remove) + Detach(b, remove)
    decreases |a|
  {
    if a == [] {
      assert a + b == b;
    } else {
      var ab := a + b;
      assert ab[1..] == a[1..] + b;
      DetachAppend(a[1..], b, remove);
      DetachStep(ab, remove);
      DetachStep(a, remove);
    }
  }

  /** Detaching the same tags twice changes nothing the second time. */
  lemma {:induction false} DetachIdempotent(src: seq<string>, remove: seq<string>)
    ensures Detach(Detach(src, remove), remove) == Detach(src, remove)
    decreases |src|
  {
    if src != [] {
      DetachIdempotent(src[1..], remove);
      if src[0] !in remove {
        var rest := Detach(src[1..], remove);
        assert ([src[0]] + rest)[1..] == rest;
      }
    }
  }

  /** Attaching a tag that is already present duplicates it. */
  lemma AttachKeepsDuplicates()
    ensures Attach(["a"], ["a"]) == ["a", "a"]
  {
    var r := Attach(["a"], ["a"]);
    assert r == r[..1] + r[1..];
  }

  /** Detaching "a" removes every occurrence of it. */
  lemma DetachRemovesAllOccurrences()
    ensures Detach(["a", "b", "a"], ["a"]) == ["b"]
  {
    assert ["a", "b", "a"] == ["a"] + ["b"] + ["a"];
    DetachAppend(["a"] + ["b"], ["a"], ["a"]);
    DetachAppend(["a"], ["b"], ["a"]);
  }

  /** Which closure adjustTags is given. */
  datatype TagEdit = AttachEdit | DetachEdit

  /** The replacement tag list the chosen closure computes. */
  function NewTags(edit: TagEdit, current: seq<string>, tags: seq<string>): seq<string>
  {
    match edit
    case AttachEdit => Attach(current, tags)
    case DetachEdit => Detach(current, tags)
  }

  /** What adjustTags sends to SetTags (nothing when it stops early) and what
      it returns. */
  datatype TagsCall = TagsCall(submitted: Option<seq<string>>, result: Result<Operation, Error>)

  /** adjustTags. `vm` is the outcome of GetVm (the VM's current tag items, or
      the API error) and `setTags` the outcome SetTags would have. */
  function AdjustTags(vm: Result<seq<string>, ApiError>, tags: seq<string>, edit: TagEdit,
                      setTags: Result<Operation, ApiError>): (c: TagsCall)
    ensures vm.Err? ==> c.submitted.None? && c.result == Err(ApiFailure(vm.error))
    ensures vm.Ok? ==> c.submitted == Some(NewTags(edit, vm.value, tags))
    ensures vm.Ok? ==> (c.result.Ok? <==> setTags.Ok?)
    ensures vm.Ok? && setTags.Ok? ==> c.result.value == setTags.value
    ensures vm.Ok? && setTags.Err? ==> c.result.error == ApiFailure(setTags.error)
  {
    match vm
    case Err(e) => TagsCall(None, Err(ApiFailure(e)))
    case Ok(items) =>
      var newItems := NewTags(edit, items, tags);
      match setTags
      case Err(e) => TagsCall(Some(newItems), Err(ApiFailure(e)))
      case Ok(op) => TagsCall(Some(newItems), Ok(op))
  }

  /** AttachTags: every attached tag is in the list submitted, after all the
      existing ones; SetTags' operation or error is returned. */
  function AttachTags(vm: Result<seq<string>, ApiError>, addedTags: seq<string>,
                      setTags: Result<Operation, ApiError>): (c: TagsCall)
    ensures vm.Ok? ==> c.submitted == Some(vm.value + addedTags)
    ensures vm.Ok? ==> forall t :: t in addedTags ==> InStringSlice(c.submitted.value, t)
    ensures vm.Err? ==> c.submitted.None? && c.result == Err(ApiFailure(vm.error))
    ensures vm.Ok? ==> (c.result.Ok? <==> setTags.Ok?)
    ensures vm.Ok? && setTags.Ok? ==> c.result.value == setTags.value
    ensures vm.Ok? && setTags.Err? ==> c.result.error == ApiFailure(setTags.error)
  {
    var c := AdjustTags(vm, addedTags, AttachEdit, setTags);
    if vm.Ok? then
      var items := c.submitted.value;
      assert items == items[..|vm.value|] + items[|vm.value|..];
      c
    else c
  }

  /** DetachTags: the detacher's output is submitted, so no detached tag is in
      it and every other existing tag still is; SetTags' operation or error
      is returned. */
  function DetachTags(vm: Result<seq<string>, ApiError>, removedTags: seq<string>,
                      setTags: Result<Operation, ApiError>): (c: TagsCall)
    ensures vm.Ok? ==> c.submitted == Some(Detach(vm.value, removedTags))
    ensures vm.Ok? ==> forall t :: t in removedTags ==> !InStringSlice(c.submitted.value, t)
    ensures vm.Ok? ==> forall t :: t in vm.value && t !in removedTags ==> InStringSlice(c.submitted.value, t)
    ensures vm.Err? ==> c.submitted.None? && c.result == Err(ApiFailure(vm.error))
    ensures vm.Ok? ==> (c.result.Ok? <==> setTags.Ok?)
    ensures vm.Ok? && setTags.Ok? ==> c.result.value == setTags.value
    ensures vm.Ok? && setTags.Err? ==> c.result.error == ApiFailure(setTags.error)
  {
    if vm.Ok? then DetachContents(vm.value, removedTags); AdjustTags(vm, removedTags, DetachEdit, setTags)
    else AdjustTags(vm, removedTags, DetachEdit, setTags)
  }
}
