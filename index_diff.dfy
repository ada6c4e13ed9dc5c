/** The rename-aware comparison of two snapshots of src/index_diff.rs, and
    the listing and filtering of its result. */
module IndexDiff {
  import opened Wrappers
  import opened Text
  import opened Paths
  import opened Snapshot

  datatype IndexDiff =
    | Created(file: string)
    | MetadataModified(file: string)
    | Modified(file: string)
    | Deleted(file: string)
    | Renamed(from: string, to: string)

  /** What makes a deleted file and a created file the same file. */
  datatype DiffKey = DiffKey(checksum: string, sizeBytes: u64, modifiedTimestampUs: Option<i64>)

  function KeyOf(info: FileInfo): DiffKey
    requires info.checksum.Some?
  {
    DiffKey(info.checksum.value, info.sizeBytes, info.modifiedTimestampUs)
  }

  /** The path a diff is listed and filtered by: the old path of a rename. */
  function PathOf(d: IndexDiff): string {
    match d
    case Renamed(from, _) => from
    case Created(f) => f
    case MetadataModified(f) => f
    case Modified(f) => f
    case Deleted(f) => f
  }

  // ---------------------------------------------------------------------
  // compare_finfo

  /** `compare_finfo`: a changed modification time is reported first; then
      a changed size; then a changed checksum, but only when the actual
      record has one. */
  function CompareFinfo(path: string, target: FileInfo, actual: FileInfo): Option<IndexDiff> {
    if target.modifiedTimestampUs != actual.modifiedTimestampUs then Some(MetadataModified(path))
    else if target.sizeBytes != actual.sizeBytes then Some(Modified(path))
    else if actual.checksum.Some? && target.checksum != actual.checksum then Some(Modified(path))
    else None
  }

  /** The three outcomes of compare_finfo and when each happens. */
  lemma CompareFinfoCases(path: string, target: FileInfo, actual: FileInfo)
    ensures target.modifiedTimestampUs != actual.modifiedTimestampUs ==>
      CompareFinfo(path, target, actual) == Some(MetadataModified(path))
    ensures target.modifiedTimestampUs == actual.modifiedTimestampUs ==>
      (CompareFinfo(path, target, actual) == Some(Modified(path)) <==>
        target.sizeBytes != actual.sizeBytes || (actual.checksum.Some? && target.checksum != actual.checksum))
    ensures CompareFinfo(path, target, actual).None? <==>
      target.modifiedTimestampUs == actual.modifiedTimestampUs && target.sizeBytes == actual.sizeBytes
      && (actual.checksum.None? || target.checksum == actual.checksum)
    ensures CompareFinfo(path, target, actual).Some? ==>
      CompareFinfo(path, target, actual).value.file == path
      && (CompareFinfo(path, target, actual).value.MetadataModified? || CompareFinfo(path, target, actual).value.Modified?)
  {
  }

  /** A record never differs from itself. */
  lemma CompareFinfoSelf(path: string, info: FileInfo)
    ensures CompareFinfo(path, info, info).None?
  {
  }

  // ---------------------------------------------------------------------
  // diff, as three passes

  /** The deleted candidates for renames, by key, each list in path order. */
  type Buckets = map<DiffKey, seq<string>>

  function Bucket(deleted: Buckets, k: DiffKey): seq<string> {
    if k in deleted then deleted[k] else []
  }

  /** The state of the pass over the target's files. */
  datatype TargetState = TargetState(diffs: seq<IndexDiff>, deleted: Buckets)

  function TargetStep(target: FileMap, actual: FileMap, st: TargetState, p: string): TargetState
    requires p in target
  {
    if p !in actual then
      TargetState(st.diffs + [Deleted(p)],
        if target[p].checksum.Some? then st.deleted[KeyOf(target[p]) := Bucket(st.deleted, KeyOf(target[p])) + [p]]
        else st.deleted)
    else
      match CompareFinfo(p, target[p], actual[p])
      case None => st
      case Some(d) => st.(diffs := st.diffs + [d])
  }

  /** The pass over the target paths `ks`. */
  function TargetPass(target: FileMap, actual: FileMap, ks: seq<string>): TargetState
    requires forall i :: 0 <= i < |ks| ==> ks[i] in target
  {
    if ks == [] then TargetState([], map[])
    else TargetStep(target, actual, TargetPass(target, actual, ks[..|ks| - 1]), ks[|ks| - 1])
  }

  /** The state of the pass over the actual files. */
  datatype ActualState = ActualState(diffs: seq<IndexDiff>, deleted: Buckets, renamed: set<string>)

  function ActualStep(target: FileMap, actual: FileMap, st: ActualState, q: string): ActualState
    requires q in actual
  {
    if q in target then st
    else if actual[q].checksum.Some? && |Bucket(st.deleted, KeyOf(actual[q]))| > 0 then
      var k := KeyOf(actual[q]);
      var from := st.deleted[k][0];
      ActualState(st.diffs + [Renamed(from, q)], st.deleted[k := st.deleted[k][1..]], st.renamed + {from})
    else st.(diffs := st.diffs + [Created(q)])
  }

  /** The pass over the actual paths `qs`, from `st`. */
  function ActualPass(target: FileMap, actual: FileMap, st: ActualState, qs: seq<string>): ActualState
    requires forall i :: 0 <= i < |qs| ==> qs[i] in actual
  {
    if qs == [] then st
    else ActualStep(target, actual, ActualPass(target, actual, st, qs[..|qs| - 1]), qs[|qs| - 1])
  }

  /** The diffs without the deletions of renamed paths. */
  function Collapse(diffs: seq<IndexDiff>, renamed: set<string>): seq<IndexDiff> {
    if diffs == [] then []
    else
      var d := diffs[|diffs| - 1];
      Collapse(diffs[..|diffs| - 1], renamed) + (if d.Deleted? && d.file in renamed then [] else [d])
  }

  ghost function TargetPassAll(target: FileMap, actual: FileMap): TargetState {
    SortedKeysMembers(target.Keys);
    TargetPass(target, actual, SortedKeys(target.Keys))
  }

  ghost function ActualPassAll(target: FileMap, actual: FileMap): ActualState {
    var t := TargetPassAll(target, actual);
    SortedKeysMembers(actual.Keys);
    ActualPass(target, actual, ActualState(t.diffs, t.deleted, {}), SortedKeys(actual.Keys))
  }

  /** What `diff(target, actual)` returns: the target's files in path
      order, then the actual files in path order, then the collapse of
      renamed deletions. */
  ghost function DiffSpec(target: FileMap, actual: FileMap): seq<IndexDiff> {
    var a := ActualPassAll(target, actual);
    Collapse(a.diffs, a.renamed)
  }

  /** `diff`. */
  method Diff(target: IndexSnapshot, actual: IndexSnapshot) returns (diffs: seq<IndexDiff>)
    ensures diffs == DiffSpec(target.files, actual.files)
  {
    var t := DiffTargetPass(target, actual);
    var a := DiffActualPass(target, actual, t);
    var renamed := a.renamed;
    diffs := [];
    for i := 0 to |a.diffs|
      invariant diffs == Collapse(a.diffs[..i], renamed)
    {
      var d := a.diffs[i];
      assert a.diffs[..i + 1][..i] == a.diffs[..i];
      match d {
        case Deleted(file) =>
          if file !in renamed {
            diffs := diffs + [d];
          }
        case _ =>
          diffs := diffs + [d];
      }
    }
    assert a.diffs[..|a.diffs|] == a.diffs;
  }

  /** The loop of `diff` over the target's files. */
  method DiffTargetPass(target: IndexSnapshot, actual: IndexSnapshot) returns (t: TargetState)
    ensures t == TargetPassAll(target.files, actual.files)
  {
    var keys := target.List();
    SortedKeysMembers(target.files.Keys);
    var diffs: seq<IndexDiff> := [];
    var deleted: Buckets := map[];
    for i := 0 to |keys|
      invariant TargetPass(target.files, actual.files, keys[..i]) == TargetState(diffs, deleted)
    {
      var p := keys[i];
      assert keys[..i + 1][..i] == keys[..i];
      var finfoTarget := target.files[p];
      var finfoActual := actual.Get(p);
      if finfoActual.None? {
        diffs := diffs + [Deleted(p)];
        if finfoTarget.checksum.Some? {
          var key := DiffKey(finfoTarget.checksum.value, finfoTarget.sizeBytes, finfoTarget.modifiedTimestampUs);
          if key !in deleted {
            deleted := deleted[key := []];
          }
          deleted := deleted[key := deleted[key] + [p]];
        }
      } else {
        var d := CompareFinfo(p, finfoTarget, finfoActual.value);
        if d.Some? {
          diffs := diffs + [d.value];
        }
      }
    }
    assert keys[..|keys|] == keys;
    t := TargetState(diffs, deleted);
  }

  /** The loop of `diff` over the actual files. */
  method DiffActualPass(target: IndexSnapshot, actual: IndexSnapshot, t: TargetState) returns (a: ActualState)
    requires t == TargetPassAll(target.files, actual.files)
    ensures a == ActualPassAll(target.files, actual.files)
  {
    var keys := actual.List();
    SortedKeysMembers(actual.files.Keys);
    var diffs := t.diffs;
    var deleted := t.deleted;
    var renamed: set<string> := {};
    ghost var st0 := ActualState(t.diffs, t.deleted, {});
    assert keys[..0] == [];
    for i := 0 to |keys|
      invariant ActualPass(target.files, actual.files, st0, keys[..i]) == ActualState(diffs, deleted, renamed)
    {
      var q := keys[i];
      assert keys[..i + 1][..i] == keys[..i];
      if target.Get(q).None? {
        var finfo := actual.files[q];
        if finfo.checksum.Some? {
          var key := DiffKey(finfo.checksum.value, finfo.sizeBytes, finfo.modifiedTimestampUs);
          if key in deleted && |deleted[key]| > 0 {
            var fpathPrev := deleted[key][0];
            diffs := diffs + [Renamed(fpathPrev, q)];
            renamed := renamed + {fpathPrev};
            deleted := deleted[key := deleted[key][1..]];
            continue;
          }
        }
        diffs := diffs + [Created(q)];
      }
    }
    assert keys[..|keys|] == keys;
    a := ActualState(diffs, deleted, renamed);
  }

  // ---------------------------------------------------------------------
  // list_files and filter_diffs

  /** `list_files`: one path per diff, in order. */
  method ListFiles(diffs: seq<IndexDiff>) returns (files: seq<string>)
    ensures |files| == |diffs|
    ensures forall i :: 0 <= i < |diffs| ==> files[i] == PathOf(diffs[i])
  {
    files := [];
    for i := 0 to |diffs|
      invariant |files| == i
      invariant forall j :: 0 <= j < i ==> files[j] == PathOf(diffs[j])
    {
      var file := match diffs[i]
        case Deleted(f) => f
        case Modified(f) => f
        case MetadataModified(f) => f
        case Renamed(from, _) => from
        case Created(f) => f;
      files := files + [file];
    }
  }

  /** The diffs of `src` whose path starts with one of `allowed`, in order. */
  function Filter(src: seq<IndexDiff>, allowed: seq<string>): seq<IndexDiff> {
    if src == [] then []
    else (if UnderAny(PathOf(src[0]), allowed) then [src[0]] else []) + Filter(src[1..], allowed)
  }

  /** One more element of `src`, as the loop of `filter_diffs` takes it. */
  lemma FilterStep(dst: seq<IndexDiff>, src: seq<IndexDiff>, allowed: seq<string>, i: nat)
    requires i < |src|
    ensures UnderAny(PathOf(src[i]), allowed) ==>
      dst + Filter(src[i..], allowed) == (dst + [src[i]]) + Filter(src[i + 1..], allowed)
    ensures !UnderAny(PathOf(src[i]), allowed) ==>
      dst + Filter(src[i..], allowed) == dst + Filter(src[i + 1..], allowed)
  {
    assert src[i..][1..] == src[i + 1..];
    if UnderAny(PathOf(src[i]), allowed) {
      assert Filter(src[i..], allowed) == [src[i]] + Filter(src[i + 1..], allowed);
    } else {
      assert Filter(src[i..], allowed) == [] + Filter(src[i + 1..], allowed);
    }
  }

  /** `filter_diffs`. */
  method FilterDiffs(src: seq<IndexDiff>, allowed: seq<string>) returns (dst: seq<IndexDiff>)
    ensures dst == Filter(src, allowed)
  {
    dst := [];
    for i := 0 to |src|
      invariant dst + Filter(src[i..], allowed) == Filter(src, allowed)
    {
      FilterStep(dst, src, allowed, i);
      var file := PathOf(src[i]);
      var keep := AnyStartsWith(file, allowed);
      if keep {
        dst := dst + [src[i]];
      }
    }
    assert dst + [] == dst;
  }

  /** `allowed_paths.iter().any(|p| file.starts_with(p))`. */
  method AnyStartsWith(file: string, allowed: seq<string>) returns (b: bool)
    ensures b <==> UnderAny(file, allowed)
  {
    for i := 0 to |allowed|
      invariant UnderAny(file, allowed) == UnderAny(file, allowed[i..])
    {
      assert allowed[i..][1..] == allowed[i + 1..];
      if StartsWith(file, allowed[i]) {
        return true;
      }
    }
    return false;
  }

  /** `a` is `b` with some elements left out, the rest in their order. */
  predicate Subsequence(a: seq<IndexDiff>, b: seq<IndexDiff>) {
    if a == [] then true
    else if b == [] then false
    else if a[0] == b[0] then Subsequence(a[1..], b[1..])
    else Subsequence(a, b[1..])
  }

  lemma {:induction false} SubsequenceSkip(a: seq<IndexDiff>, b: seq<IndexDiff>, d: IndexDiff)
    requires Subsequence(a, b)
    ensures Subsequence(a, [d] + b)
    decreases |a|, |b|, 1
  {
    assert ([d] + b)[1..] == b;
    if a != [] && a[0] == d {
      SubsequenceDropHead(a, b);
    }
  }

  lemma {:induction false} SubsequenceDropHead(a: seq<IndexDiff>, b: seq<IndexDiff>)
    requires a != [] && Subsequence(a, b)
    ensures Subsequence(a[1..], b)
    decreases |a|, |b|, 0
  {
    if a[0] == b[0] {
      SubsequenceSkip(a[1..], b[1..], b[0]);
    } else {
      SubsequenceDropHead(a, b[1..]);
      SubsequenceSkip(a[1..], b[1..], b[0]);
    }
    assert [b[0]] + b[1..] == b;
  }

  /** `filter_diffs` keeps its input's order. */
  lemma {:induction false} FilterSubsequence(src: seq<IndexDiff>, allowed: seq<string>)
    ensures Subsequence(Filter(src, allowed), src)
  {
    if src != [] {
      var tail := src[1..];
      FilterSubsequence(tail, allowed);
      if !UnderAny(PathOf(src[0]), allowed) {
        assert Filter(src, allowed) == [] + Filter(tail, allowed) == Filter(tail, allowed);
        SubsequenceSkip(Filter(tail, allowed), tail, src[0]);
        assert [src[0]] + tail == src;
      } else {
        assert Filter(src, allowed)[1..] == Filter(tail, allowed);
      }
    }
  }

  /** `filter_diffs` keeps exactly the diffs whose path starts with one of
      the allowed paths, each as often as in its input. */
  lemma {:induction false} FilterCount(src: seq<IndexDiff>, allowed: seq<string>, d: IndexDiff)
    ensures multiset(Filter(src, allowed))[d] == if UnderAny(PathOf(d), allowed) then multiset(src)[d] else 0
  {
    if src != [] {
      var tail := src[1..];
      FilterCount(tail, allowed, d);
      assert src == [src[0]] + tail;
      var kept := if UnderAny(PathOf(src[0]), allowed) then [src[0]] else [];
      assert multiset(src)[d] == multiset([src[0]])[d] + multiset(tail)[d];
      assert multiset(Filter(src, allowed))[d] == multiset(kept)[d] + multiset(Filter(tail, allowed))[d];
    }
  }

  /** With no allowed path, `filter_diffs` keeps nothing. */
  lemma {:induction false} FilterNothingAllowed(src: seq<IndexDiff>)
    ensures Filter(src, []) == []
  {
    if src != [] {
      FilterNothingAllowed(src[1..]);
    }
  }
}
