/** src/op_acknowledge.rs: checking the pathspecs given to `ack`, and
    committing the accepted diffs into the latest snapshot. */
module Acknowledge {
  import opened Wrappers
  import opened Text
  import opened Paths
  import opened Snapshot
  import opened IndexDiff
  import opened IndexDiffProperties
  import opened IndexScan
  import opened IndexDirectory
  import opened ChecksumFunction
  import opened SnapshotCodec

  const NEED_PATH := "need a path (e.g. 'fhistory ack .')"
  const OUTSIDE_REPOSITORY := "path is outside of repository: "

  // ---------------------------------------------------------------------
  // Pathspecs

  /** The pathspec loop over the first arguments: each canonicalised
      argument must lie under the canonical data directory `root`, and is
      kept relative to it. */
  function PathspecsFrom(root: string, specs: seq<Result<string>>): Result<seq<string>> {
    if specs == [] then Ok([])
    else
      match PathspecsFrom(root, specs[..|specs| - 1])
      case Err(e) => Err(e)
      case Ok(acc) =>
        match specs[|specs| - 1]
        case Err(e) => Err(e)
        case Ok(spec) =>
          if !StartsWith(spec, root) then Err(OUTSIDE_REPOSITORY + Quoted(spec))
          else Ok(acc + [StripPrefix(spec, root).value])
  }

  /** The pathspecs of `ack`, or why there are none. */
  function PathspecsSpec(root: string, specs: seq<Result<string>>): Result<seq<string>> {
    match PathspecsFrom(root, specs)
    case Err(e) => Err(e)
    case Ok(ps) => if |ps| == 0 then Err(NEED_PATH) else Ok(ps)
  }

  lemma {:induction false} PathspecsSticky(root: string, specs: seq<Result<string>>, rest: seq<Result<string>>)
    requires PathspecsFrom(root, specs).Err?
    ensures PathspecsFrom(root, specs + rest) == PathspecsFrom(root, specs)
    decreases |rest|
  {
    if rest != [] {
      PathspecsSticky(root, specs, rest[..|rest| - 1]);
      assert (specs + rest)[..|specs + rest| - 1] == specs + rest[..|rest| - 1];
    } else {
      assert specs + rest == specs;
    }
  }

  /** One more argument, as the pathspec loop takes it. */
  lemma PathspecsStep(root: string, specs: seq<Result<string>>, i: nat)
    requires i < |specs|
    ensures PathspecsFrom(root, specs[..i + 1]) ==
      if PathspecsFrom(root, specs[..i]).Err? then PathspecsFrom(root, specs[..i])
      else if specs[i].Err? then Err(specs[i].msg)
      else if !StartsWith(specs[i].value, root) then Err(OUTSIDE_REPOSITORY + Quoted(specs[i].value))
      else Ok(PathspecsFrom(root, specs[..i]).value + [StripPrefix(specs[i].value, root).value])
  {
    assert specs[..i + 1][..i] == specs[..i];
  }

  /** A failed prefix of the arguments decides the whole loop. */
  lemma PathspecsFailAt(root: string, specs: seq<Result<string>>, n: nat)
    requires n <= |specs| && PathspecsFrom(root, specs[..n]).Err?
    ensures PathspecsFrom(root, specs) == PathspecsFrom(root, specs[..n])
  {
    PathspecsSticky(root, specs[..n], specs[n..]);
    assert specs[..n] + specs[n..] == specs;
  }

  /** Pathspec validation succeeds exactly when every argument could be
      canonicalised and lies under the data directory. */
  lemma {:induction false} PathspecsFromOk(root: string, specs: seq<Result<string>>)
    ensures PathspecsFrom(root, specs).Ok? <==>
      forall i :: 0 <= i < |specs| ==> specs[i].Ok? && StartsWith(specs[i].value, root)
    decreases |specs|
  {
    if specs != [] {
      var init := specs[..|specs| - 1];
      var last := specs[|specs| - 1];
      PathspecsFromOk(root, init);
      if PathspecsFrom(root, specs).Ok? {
        assert PathspecsFrom(root, init).Ok? && last.Ok? && StartsWith(last.value, root);
        forall i | 0 <= i < |specs| ensures specs[i].Ok? && StartsWith(specs[i].value, root) {
          if i < |init| {
            assert specs[i] == init[i];
          } else {
            assert i == |specs| - 1;
            assert specs[i] == last;
          }
        }
      } else if PathspecsFrom(root, init).Err? {
        var i :| 0 <= i < |init| && !(init[i].Ok? && StartsWith(init[i].value, root));
        assert specs[i] == init[i];
      } else {
        assert !(last.Ok? && StartsWith(last.value, root));
      }
    }
  }

  /** When it succeeds, validation keeps one pathspec per argument, in
      order, each relative to the data directory. */
  lemma {:induction false} PathspecsFromValues(root: string, specs: seq<Result<string>>)
    requires PathspecsFrom(root, specs).Ok?
    ensures |PathspecsFrom(root, specs).value| == |specs|
    ensures forall i :: 0 <= i < |specs| ==>
      specs[i].Ok? && Some(PathspecsFrom(root, specs).value[i]) == StripPrefix(specs[i].value, root)
    decreases |specs|
  {
    if specs != [] {
      var init := specs[..|specs| - 1];
      var last := specs[|specs| - 1];
      assert PathspecsFrom(root, init).Ok? && last.Ok? && StartsWith(last.value, root);
      PathspecsFromValues(root, init);
      var acc := PathspecsFrom(root, init).value;
      var strip := StripPrefix(last.value, root);
      var all := PathspecsFrom(root, specs).value;
      assert all == acc + [strip.value];
      forall i | 0 <= i < |specs|
        ensures specs[i].Ok? && Some(all[i]) == StripPrefix(specs[i].value, root)
      {
        if i < |init| {
          assert specs[i] == init[i] && all[i] == acc[i];
        } else {
          assert i == |specs| - 1;
          assert specs[i] == last && all[i] == strip.value;
        }
      }
    }
  }

  /** `ack` with no pathspec fails. */
  lemma NoPathspecFails(root: string)
    ensures PathspecsSpec(root, []) == Err(NEED_PATH)
  {
  }

  /** `ack` fails when any pathspec lies outside the data directory. */
  lemma OutsideFails(root: string, specs: seq<Result<string>>, i: nat)
    requires i < |specs| && specs[i].Ok? && !StartsWith(specs[i].value, root)
    ensures PathspecsSpec(root, specs).Err?
  {
    PathspecsFromOk(root, specs);
  }

  /** The pathspec loop of `ack`, given the canonical data directory and
      the canonicalised arguments. */
  method ValidatePathspecs(root: Result<string>, specs: seq<Result<string>>) returns (r: Result<seq<string>>)
    ensures root.Err? ==> r == Err(root.msg)
    ensures root.Ok? ==> r == PathspecsSpec(root.value, specs)
  {
    if root.Err? {
      return Err(root.msg);
    }
    var dataPath := root.value;
    var pathspecs: seq<string> := [];
    for i := 0 to |specs|
      invariant PathspecsFrom(dataPath, specs[..i]) == Ok(pathspecs)
    {
      PathspecsStep(dataPath, specs, i);
      if specs[i].Err? {
        PathspecsFailAt(dataPath, specs, i + 1);
        return Err(specs[i].msg);
      }
      var spec := specs[i].value;
      if !StartsWith(spec, dataPath) {
        PathspecsFailAt(dataPath, specs, i + 1);
        return Err(OUTSIDE_REPOSITORY + Quoted(spec));
      }
      var rel := StripPrefix(spec, dataPath);
      pathspecs := pathspecs + [rel.value];
    }
    assert specs[..|specs|] == specs;
    if |pathspecs| == 0 {
      return Err(NEED_PATH);
    }
    return Ok(pathspecs);
  }

  // ---------------------------------------------------------------------
  // Applying diffs

  /** The path whose record a diff takes from the current scan. */
  function NewPath(d: IndexDiff): Option<string> {
    match d
    case Created(f) => Some(f)
    case MetadataModified(f) => Some(f)
    case Modified(f) => Some(f)
    case Renamed(_, to) => Some(to)
    case Deleted(_) => None
  }

  /** Every record the diffs take from the current scan is there. */
  predicate Applicable(current: FileMap, ds: seq<IndexDiff>) {
    forall i :: 0 <= i < |ds| && NewPath(ds[i]).Some? ==> NewPath(ds[i]).value in current
  }

  /** One arm of the commit loop as written: a metadata change has no arm
      and changes nothing. */
  function ApplyDiffAsWritten(files: FileMap, current: FileMap, d: IndexDiff): FileMap
    requires NewPath(d).Some? ==> NewPath(d).value in current
  {
    match d
    case Deleted(f) => files - {f}
    case Modified(f) => files[f := current[f]]
    case Renamed(from, to) => (files - {from})[to := current[to]]
    case Created(f) => files[f := current[f]]
    case MetadataModified(_) => files
  }

  /** One arm of the commit loop, with a metadata change recorded like a
      content change. */
  function ApplyDiff(files: FileMap, current: FileMap, d: IndexDiff): FileMap
    requires NewPath(d).Some? ==> NewPath(d).value in current
  {
    match d
    case MetadataModified(f) => files[f := current[f]]
    case _ => ApplyDiffAsWritten(files, current, d)
  }

  /** The commit loop over `ds`, as written or corrected. */
  function ApplyAll(files: FileMap, current: FileMap, ds: seq<IndexDiff>, asWritten: bool): FileMap
    requires Applicable(current, ds)
  {
    if ds == [] then files
    else
      var acc := ApplyAll(files, current, ds[..|ds| - 1], asWritten);
      if asWritten then ApplyDiffAsWritten(acc, current, ds[|ds| - 1])
      else ApplyDiff(acc, current, ds[|ds| - 1])
  }

  /** What one diff does to the record of one path. */
  datatype Effect = Untouched | Removed | TakenFromCurrent

  function EffectOf(d: IndexDiff, p: string, asWritten: bool): Effect {
    match d
    case Deleted(f) => if f == p then Removed else Untouched
    case Renamed(from, to) => if to == p then TakenFromCurrent else if from == p then Removed else Untouched
    case MetadataModified(f) => if f == p && !asWritten then TakenFromCurrent else Untouched
    case Modified(f) => if f == p then TakenFromCurrent else Untouched
    case Created(f) => if f == p then TakenFromCurrent else Untouched
  }

  /** The effect of the last diff that touches `p`. */
  function LastEffect(ds: seq<IndexDiff>, p: string, asWritten: bool): Effect {
    if ds == [] then Untouched
    else if EffectOf(ds[|ds| - 1], p, asWritten) != Untouched then EffectOf(ds[|ds| - 1], p, asWritten)
    else LastEffect(ds[..|ds| - 1], p, asWritten)
  }

  /** The last effect is the effect of one of the diffs; when there is none,
      no diff touches the path. */
  lemma {:induction false} LastEffectIsSomeEffect(ds: seq<IndexDiff>, p: string, asWritten: bool)
    ensures LastEffect(ds, p, asWritten) == Untouched ==>
      forall i :: 0 <= i < |ds| ==> EffectOf(ds[i], p, asWritten) == Untouched
    ensures LastEffect(ds, p, asWritten) != Untouched ==>
      exists i :: 0 <= i < |ds| && EffectOf(ds[i], p, asWritten) == LastEffect(ds, p, asWritten)
    decreases |ds|
  {
    if ds != [] {
      var init := ds[..|ds| - 1];
      LastEffectIsSomeEffect(init, p, asWritten);
      assert forall i :: 0 <= i < |init| ==> init[i] == ds[i];
      if LastEffect(ds, p, asWritten) != Untouched && EffectOf(ds[|ds| - 1], p, asWritten) == Untouched {
        var i :| 0 <= i < |init| && EffectOf(init[i], p, asWritten) == LastEffect(init, p, asWritten);
        assert ds[i] == init[i];
      }
    }
  }

  /** After the commit loop, a path whose last diff removes it is gone, a
      path whose last diff takes it from the current scan has the current
      record, and a path no diff names is as it was. */
  lemma {:induction false} ApplyAllPaths(files: FileMap, current: FileMap, ds: seq<IndexDiff>, asWritten: bool, p: string)
    requires Applicable(current, ds)
    ensures var r := ApplyAll(files, current, ds, asWritten);
      match LastEffect(ds, p, asWritten)
      case Removed => p !in r
      case TakenFromCurrent => p in current && p in r && r[p] == current[p]
      case Untouched => (p in r <==> p in files) && (p in files ==> r[p] == files[p])
    decreases |ds|
  {
    if ds != [] {
      var init := ds[..|ds| - 1];
      assert Applicable(current, init) by {
        assert forall i :: 0 <= i < |init| ==> init[i] == ds[i];
      }
      ApplyAllPaths(files, current, init, asWritten, p);
      var d := ds[|ds| - 1];
      assert NewPath(d).Some? ==> NewPath(d).value in current;
    }
  }

  /** `ack`'s commit loop over the accepted diffs (with the metadata arm). */
  method ApplyDiffs(snapshot: IndexSnapshot, current: IndexSnapshot, diffs: seq<IndexDiff>)
    requires snapshot != current
    requires Applicable(current.files, diffs)
    modifies snapshot
    ensures snapshot.files == ApplyAll(old(snapshot.files), current.files, diffs, false)
    ensures snapshot.checksumFunction == old(snapshot.checksumFunction) && snapshot.message == old(snapshot.message)
  {
    for i := 0 to |diffs|
      invariant Applicable(current.files, diffs[..i])
      invariant snapshot.files == ApplyAll(old(snapshot.files), current.files, diffs[..i], false)
      invariant snapshot.checksumFunction == old(snapshot.checksumFunction) && snapshot.message == old(snapshot.message)
    {
      assert diffs[..i + 1][..i] == diffs[..i];
      match diffs[i] {
        case Deleted(file) =>
          snapshot.Delete(file);
        case Modified(file) =>
          snapshot.Update(file, current.Get(file).value);
        case MetadataModified(file) =>
          snapshot.Update(file, current.Get(file).value);
        case Renamed(from, to) =>
          snapshot.Delete(from);
          snapshot.Update(to, current.Get(to).value);
        case Created(file) =>
          snapshot.Update(file, current.Get(file).value);
      }
    }
    assert diffs[..|diffs|] == diffs;
  }

  // ---------------------------------------------------------------------
  // Acknowledging everything

  /** What a justified diff of `target` against `actual` may do to one
      path: take it only from where it exists in `actual`, differently from
      `target`, and remove it only where it has vanished. */
  lemma EffectJustified(target: FileMap, actual: FileMap, d: IndexDiff, p: string)
    requires Justified(target, actual, d)
    ensures EffectOf(d, p, false) == TakenFromCurrent ==>
      p in actual && (p in target ==> CompareFinfo(p, target[p], actual[p]).Some?)
    ensures EffectOf(d, p, false) == Removed ==> Gone(target, actual, p)
  {
  }

  /** The records the diffs of `target` against `actual` take are in `actual`. */
  lemma DiffApplicable(target: FileMap, actual: FileMap, ds: seq<IndexDiff>)
    requires forall d :: d in ds ==> d in DiffSpec(target, actual)
    ensures Applicable(actual, ds)
  {
    DiffJustified(target, actual);
    forall i | 0 <= i < |ds| && NewPath(ds[i]).Some? ensures NewPath(ds[i]).value in actual {
      assert Justified(target, actual, ds[i]);
    }
  }

  /** Applicability depends only on the keys of the current records. */
  lemma ApplicableSameKeys(a: FileMap, b: FileMap, ds: seq<IndexDiff>)
    requires Applicable(a, ds) && a.Keys == b.Keys
    ensures Applicable(b, ds)
  {
  }

  /** A path the diffs must take from the actual scan. */
  lemma TakenPath(target: FileMap, actual: FileMap, ds: seq<IndexDiff>, p: string) returns (i: nat)
    requires Covers(target, actual, ds)
    requires p in actual
    requires p in target ==> CompareFinfo(p, target[p], actual[p]).Some?
    ensures i < |ds| && EffectOf(ds[i], p, false) == TakenFromCurrent
  {
    if p in target {
      CompareFinfoCases(p, target[p], actual[p]);
      var d := CompareFinfo(p, target[p], actual[p]).value;
      assert d in ds;
      i :| 0 <= i < |ds| && ds[i] == d;
    } else {
      assert New(target, actual, p);
      i :| 0 <= i < |ds| && (ds[i] == Created(p) || (ds[i].Renamed? && ds[i].to == p));
    }
  }

  /** A vanished path the diffs must remove. */
  lemma RemovedPath(target: FileMap, actual: FileMap, ds: seq<IndexDiff>, p: string) returns (i: nat)
    requires Covers(target, actual, ds)
    requires forall k :: 0 <= k < |ds| ==> Justified(target, actual, ds[k])
    requires Gone(target, actual, p)
    ensures i < |ds| && EffectOf(ds[i], p, false) == Removed
  {
    i :| 0 <= i < |ds| && (ds[i] == Deleted(p) || (ds[i].Renamed? && ds[i].from == p));
    assert Justified(target, actual, ds[i]);
  }

  /** Applying justified diffs that cover every difference leaves the
      snapshot with the paths of `actual`, each recorded as in `actual`. */
  lemma ApplyCovering(target: FileMap, actual: FileMap, ds: seq<IndexDiff>, p: string)
    requires Covers(target, actual, ds)
    requires forall k :: 0 <= k < |ds| ==> Justified(target, actual, ds[k])
    requires Applicable(actual, ds)
    ensures var r := ApplyAll(target, actual, ds, false);
      (p in r <==> p in actual) && (p in r ==> CompareFinfo(p, r[p], actual[p]).None?)
  {
    var r := ApplyAll(target, actual, ds, false);
    ApplyAllPaths(target, actual, ds, false, p);
    LastEffectIsSomeEffect(ds, p, false);
    var e := LastEffect(ds, p, false);
    if e != Untouched {
      var i :| 0 <= i < |ds| && EffectOf(ds[i], p, false) == e;
      EffectJustified(target, actual, ds[i], p);
    }
    if p in actual && (p in target ==> CompareFinfo(p, target[p], actual[p]).Some?) {
      var i := TakenPath(target, actual, ds, p);
      EffectJustified(target, actual, ds[i], p);
      CompareFinfoSelf(p, actual[p]);
    } else if Gone(target, actual, p) {
      var i := RemovedPath(target, actual, ds, p);
    }
  }

  /** With the metadata arm, acknowledging the whole diff of a snapshot
      against a scan leaves a snapshot that no longer differs from it. */
  lemma AcknowledgeAllClearsDiff(target: FileMap, actual: FileMap)
    ensures Applicable(actual, DiffSpec(target, actual))
    ensures DiffSpec(ApplyAll(target, actual, DiffSpec(target, actual), false), actual) == []
  {
    var ds := DiffSpec(target, actual);
    DiffApplicable(target, actual, ds);
    DiffJustified(target, actual);
    DiffCovers(target, actual);
    var r := ApplyAll(target, actual, ds, false);
    forall p ensures (p in r <==> p in actual) && (p in r ==> CompareFinfo(p, r[p], actual[p]).None?) {
      ApplyCovering(target, actual, ds, p);
    }
    DiffNone(r, actual);
  }

  /** As written, no justified diff touches the record of a path whose
      time changed: the commit loop keeps it. */
  lemma MetadataKept(target: FileMap, actual: FileMap, ds: seq<IndexDiff>, p: string)
    requires forall k :: 0 <= k < |ds| ==> Justified(target, actual, ds[k])
    requires Applicable(actual, ds)
    requires p in target && p in actual
    requires target[p].modifiedTimestampUs != actual[p].modifiedTimestampUs
    ensures var r := ApplyAll(target, actual, ds, true);
      p in r && r[p] == target[p]
  {
    CompareFinfoCases(p, target[p], actual[p]);
    ApplyAllPaths(target, actual, ds, true, p);
    LastEffectIsSomeEffect(ds, p, true);
    forall i | 0 <= i < |ds| ensures EffectOf(ds[i], p, true) == Untouched {
      assert Justified(target, actual, ds[i]);
    }
  }

  /** As written, acknowledging never records a metadata change: the
      record keeps its old time, so the same change is reported again. */
  lemma MetadataChangeNeverAcknowledged(target: FileMap, actual: FileMap, p: string)
    requires p in target && p in actual
    requires target[p].modifiedTimestampUs != actual[p].modifiedTimestampUs
    ensures Applicable(actual, DiffSpec(target, actual))
    ensures MetadataModified(p) in DiffSpec(target, actual)
    ensures var r := ApplyAll(target, actual, DiffSpec(target, actual), true);
      p in r && r[p] == target[p] && MetadataModified(p) in DiffSpec(r, actual)
  {
    var ds := DiffSpec(target, actual);
    DiffApplicable(target, actual, ds);
    DiffJustified(target, actual);
    CompareFinfoCases(p, target[p], actual[p]);
    CommonPaths(target, actual, MetadataModified(p));
    MetadataKept(target, actual, ds, p);
    var r := ApplyAll(target, actual, ds, true);
    CommonPaths(r, actual, MetadataModified(p));
  }

  /** One file whose time changed: acknowledging it as written keeps the
      snapshot as it was, and the change is still reported. */
  lemma MetadataChangeExample()
    ensures var target := map["f" := FileInfo(1, Some(1), Some("c"))];
      var actual := map["f" := FileInfo(1, Some(2), None)];
      Applicable(actual, DiffSpec(target, actual))
      && ApplyAll(target, actual, DiffSpec(target, actual), true)["f"] == target["f"]
      && MetadataModified("f") in DiffSpec(ApplyAll(target, actual, DiffSpec(target, actual), true), actual)
  {
    var target := map["f" := FileInfo(1, Some(1), Some("c"))];
    var actual := map["f" := FileInfo(1, Some(2), None)];
    MetadataChangeNeverAcknowledged(target, actual, "f");
  }

  /** The diffs kept under any pathspecs can be applied. */
  lemma FilteredApplicable(target: FileMap, actual: FileMap, pathspecs: seq<string>)
    ensures Applicable(actual, Filter(DiffSpec(target, actual), pathspecs))
  {
    var all := DiffSpec(target, actual);
    var diffs := Filter(all, pathspecs);
    forall d | d in diffs ensures d in all {
      FilterCount(all, pathspecs, d);
    }
    DiffApplicable(target, actual, diffs);
  }

  // ---------------------------------------------------------------------
  // The commit

  /** The paths `list_files` gives for `diffs`. */
  function ListedPaths(diffs: seq<IndexDiff>): (r: seq<string>)
    ensures |r| == |diffs|
  {
    seq(|diffs|, i requires 0 <= i < |diffs| => PathOf(diffs[i]))
  }

  /** The options of the checksum pass: skip the index directory and look
      only at the files the diffs name. */
  function CommitScan(indexPath: string, diffs: seq<IndexDiff>): ScanOptions {
    ScanOptions([indexPath], Some(ListedPaths(diffs)))
  }

  /** The snapshot `ack` appends: the latest one with the diffs applied
      from the scanned records. */
  function Committed(latest: SnapshotValue, scanned: FileMap, diffs: seq<IndexDiff>): SnapshotValue
    requires Applicable(scanned, diffs)
  {
    latest.(files := ApplyAll(latest.files, scanned, diffs, false))
  }

  /** Lines 107-134 of `ack` on the values: the checksum pass over the
      listed files, then the append of the committed snapshot. */
  ghost function CommitDiffsSpec(env: Env, fs: Files, latest: SnapshotValue, current: SnapshotValue,
                                 indexFiles: seq<IndexReference>, indexPath: string, diffs: seq<IndexDiff>,
                                 timestampUs: i64, write: WriteOutcome): Result<IndexReference>
    requires Applicable(current.files, diffs)
  {
    var opts := CommitScan(indexPath, diffs);
    match ScanChecksumsSpec(env.digests, current.checksumFunction, fs, opts, current.files)
    case Err(e) => Err(e)
    case Ok(scanned) =>
      ScanChecksumsKeys(env.digests, current.checksumFunction, fs, opts, current.files);
      ApplicableSameKeys(current.files, scanned, diffs);
      AppendSpec(env, indexFiles, Committed(latest, scanned, diffs), timestampUs, write)
  }

  /** The index directory's files after lines 107-134 of `ack`: as they
      were when the checksum pass fails, otherwise as `append` leaves them. */
  ghost function CommitDiffsStore(env: Env, fs: Files, latest: SnapshotValue, current: SnapshotValue,
                                  indexFiles: seq<IndexReference>, store: map<string, seq<byte>>, indexPath: string,
                                  diffs: seq<IndexDiff>, timestampUs: i64, write: WriteOutcome): map<string, seq<byte>>
    requires Applicable(current.files, diffs)
  {
    var opts := CommitScan(indexPath, diffs);
    match ScanChecksumsSpec(env.digests, current.checksumFunction, fs, opts, current.files)
    case Err(_) => store
    case Ok(scanned) =>
      ScanChecksumsKeys(env.digests, current.checksumFunction, fs, opts, current.files);
      ApplicableSameKeys(current.files, scanned, diffs);
      AppendStore(env, indexFiles, store, Committed(latest, scanned, diffs), timestampUs, write)
  }

  /** Lines 98-134 of `ack` on the values: `Ok(None)` is "Nothing to
      commit", `Ok(Some(r))` the reference of the appended snapshot. */
  ghost function CommitSpec(env: Env, fs: Files, latest: SnapshotValue, current: SnapshotValue,
                            indexFiles: seq<IndexReference>, indexPath: string, pathspecs: seq<string>,
                            timestampUs: i64, write: WriteOutcome): Result<Option<IndexReference>>
  {
    var diffs := Filter(DiffSpec(latest.files, current.files), pathspecs);
    if diffs == [] then Ok(None)
    else
      FilteredApplicable(latest.files, current.files, pathspecs);
      match CommitDiffsSpec(env, fs, latest, current, indexFiles, indexPath, diffs, timestampUs, write)
      case Err(e) => Err(e)
      case Ok(reference) => Ok(Some(reference))
  }

  /** The index directory's files after lines 98-134 of `ack`. */
  ghost function CommitStore(env: Env, fs: Files, latest: SnapshotValue, current: SnapshotValue,
                             indexFiles: seq<IndexReference>, store: map<string, seq<byte>>, indexPath: string,
                             pathspecs: seq<string>, timestampUs: i64, write: WriteOutcome): map<string, seq<byte>>
  {
    var diffs := Filter(DiffSpec(latest.files, current.files), pathspecs);
    if diffs == [] then store
    else
      FilteredApplicable(latest.files, current.files, pathspecs);
      CommitDiffsStore(env, fs, latest, current, indexFiles, store, indexPath, diffs, timestampUs, write)
  }

  /** The directory contents `store` are `store0` plus the compressed
      encoding of `v` at `timestampUs`, under the name of `r`. */
  ghost predicate Stored(env: Env, store0: map<string, seq<byte>>, store: map<string, seq<byte>>,
                         r: IndexReference, v: SnapshotValue, timestampUs: i64)
  {
    EncodeSpec(v, timestampUs).Ok?
    && store == store0[Filename(r) := env.deflate(EncodeSpec(v, timestampUs).value)]
  }

  /** A commit appends nothing exactly when no diff is left under the
      pathspecs. */
  lemma CommitNothing(env: Env, fs: Files, latest: SnapshotValue, current: SnapshotValue,
                      indexFiles: seq<IndexReference>, indexPath: string, pathspecs: seq<string>,
                      timestampUs: i64, write: WriteOutcome)
    ensures CommitSpec(env, fs, latest, current, indexFiles, indexPath, pathspecs, timestampUs, write) == Ok(None)
      <==> Filter(DiffSpec(latest.files, current.files), pathspecs) == []
  {
  }

  /** An appended snapshot carries the given time and is newer than every
      listed one. */
  lemma CommitNewest(env: Env, fs: Files, latest: SnapshotValue, current: SnapshotValue,
                     indexFiles: seq<IndexReference>, indexPath: string, pathspecs: seq<string>,
                     timestampUs: i64, write: WriteOutcome)
    requires NewestFirst(indexFiles)
    ensures var r := CommitSpec(env, fs, latest, current, indexFiles, indexPath, pathspecs, timestampUs, write);
      r.Ok? && r.value.Some? ==>
        r.value.value.timestampUs == timestampUs
        && forall i :: 0 <= i < |indexFiles| ==> indexFiles[i].timestampUs < timestampUs
  {
    var diffs := Filter(DiffSpec(latest.files, current.files), pathspecs);
    if diffs != [] {
      FilteredApplicable(latest.files, current.files, pathspecs);
      var opts := CommitScan(indexPath, diffs);
      var scan := ScanChecksumsSpec(env.digests, current.checksumFunction, fs, opts, current.files);
      if scan.Ok? {
        ScanChecksumsKeys(env.digests, current.checksumFunction, fs, opts, current.files);
        ApplicableSameKeys(current.files, scan.value, diffs);
        AppendIsNewest(env, indexFiles, Committed(latest, scan.value, diffs), timestampUs, write);
      }
    }
  }

  /** A commit that appends nothing, or fails in any way other than a
      write that breaks off after creating the file, leaves the index
      directory's files as they were. */
  lemma CommitFailureKeepsStore(env: Env, fs: Files, latest: SnapshotValue, current: SnapshotValue,
                                indexFiles: seq<IndexReference>, store: map<string, seq<byte>>, indexPath: string,
                                pathspecs: seq<string>, timestampUs: i64, write: WriteOutcome)
    requires !write.WriteFailed?
    ensures var r := CommitSpec(env, fs, latest, current, indexFiles, indexPath, pathspecs, timestampUs, write);
      r.Err? || r == Ok(None) ==>
        CommitStore(env, fs, latest, current, indexFiles, store, indexPath, pathspecs, timestampUs, write) == store
  {
    var diffs := Filter(DiffSpec(latest.files, current.files), pathspecs);
    if diffs != [] {
      FilteredApplicable(latest.files, current.files, pathspecs);
      var opts := CommitScan(indexPath, diffs);
      var scan := ScanChecksumsSpec(env.digests, current.checksumFunction, fs, opts, current.files);
      if scan.Ok? {
        ScanChecksumsKeys(env.digests, current.checksumFunction, fs, opts, current.files);
        ApplicableSameKeys(current.files, scan.value, diffs);
        AppendStoreSpec(env, indexFiles, store, Committed(latest, scan.value, diffs), timestampUs, write);
      }
    }
  }

  /** After a successful commit, the index directory holds the compressed
      encoding of the latest snapshot with the diffs applied from the
      scanned records, under the returned reference's name; loading it
      from the directory `dirPath` gives that snapshot back, when
      decompression undoes compression and every record has a clean
      checksum. `indexPath` is the index path as given, which the checksum
      pass excludes. */
  lemma CommitThenLoad(env: Env, fs: Files, latest: SnapshotValue, current: SnapshotValue,
                       indexFiles: seq<IndexReference>, store: map<string, seq<byte>>, indexPath: string,
                       dirPath: string, diffs: seq<IndexDiff>, timestampUs: i64)
    requires forall text :: env.inflate(env.deflate(text)) == Ok(text)
    requires Applicable(current.files, diffs)
    requires CommitDiffsSpec(env, fs, latest, current, indexFiles, indexPath, diffs, timestampUs, Written).Ok?
    ensures var scan := ScanChecksumsSpec(env.digests, current.checksumFunction, fs, CommitScan(indexPath, diffs), current.files);
      scan.Ok? && Applicable(scan.value, diffs)
    ensures var scan := ScanChecksumsSpec(env.digests, current.checksumFunction, fs, CommitScan(indexPath, diffs), current.files);
      var v := Committed(latest, scan.value, diffs);
      var r := CommitDiffsSpec(env, fs, latest, current, indexFiles, indexPath, diffs, timestampUs, Written);
      var after := CommitDiffsStore(env, fs, latest, current, indexFiles, store, indexPath, diffs, timestampUs, Written);
      Stored(env, store, after, r.value, v, timestampUs)
      && (Encodable(v) ==> LoadSpec(env, dirPath, after, r.value) == Ok(Normalized(v)))
  {
    var opts := CommitScan(indexPath, diffs);
    var scan := ScanChecksumsSpec(env.digests, current.checksumFunction, fs, opts, current.files);
    ScanChecksumsKeys(env.digests, current.checksumFunction, fs, opts, current.files);
    ApplicableSameKeys(current.files, scan.value, diffs);
    var v := Committed(latest, scan.value, diffs);
    AppendStoreSpec(env, indexFiles, store, v, timestampUs, Written);
    if Encodable(v) {
      AppendThenLoad(env, dirPath, indexFiles, store, v, timestampUs);
    }
  }

  /** Lines 98-134 of `ack`: diff the latest snapshot against the metadata
      scan, keep the diffs under the pathspecs, stop if none is left,
      otherwise compute the checksums of the listed files, apply the diffs
      and append the new snapshot at `timestampUs`. */
  method Commit(dir: IndexDirectory, env: Env, fs: Files, snapshot: IndexSnapshot, current: IndexSnapshot,
                indexPath: string, pathspecs: seq<string>, timestampUs: i64, write: WriteOutcome)
    returns (r: Result<Option<IndexReference>>)
    requires snapshot != current
    modifies dir, snapshot, current
    ensures r == CommitSpec(env, fs, old(snapshot.Value()), old(current.Value()), old(dir.indexFiles),
                            indexPath, pathspecs, timestampUs, write)
    ensures dir.indexFiles == old(dir.indexFiles)
    ensures dir.store == CommitStore(env, fs, old(snapshot.Value()), old(current.Value()), old(dir.indexFiles),
                                     old(dir.store), indexPath, pathspecs, timestampUs, write)
    ensures r == Ok(None) ==> unchanged(dir, snapshot, current)
    ensures r.Ok? && r.value.Some? ==>
      var diffs := Filter(DiffSpec(old(snapshot.files), old(current.files)), pathspecs);
      var scan := ScanChecksumsSpec(env.digests, old(current.checksumFunction), fs, CommitScan(indexPath, diffs), old(current.files));
      scan.Ok? && current.files == scan.value
      && Applicable(current.files, diffs)
      && snapshot.Value() == Committed(old(snapshot.Value()), current.files, diffs)
      && Stored(env, old(dir.store), dir.store, r.value.value, snapshot.Value(), timestampUs)
  {
    var all := Diff(snapshot, current);
    var diffs := FilterDiffs(all, pathspecs);
    if |diffs| == 0 {
      return Ok(None);
    }
    FilteredApplicable(snapshot.files, current.files, pathspecs);
    var committed := CommitDiffs(dir, env, fs, snapshot, current, indexPath, diffs, timestampUs, write);
    if committed.Err? {
      return Err(committed.msg);
    }
    return Ok(Some(committed.value));
  }

  /** Lines 107-134 of `ack`: compute the checksums of the files the diffs
      list, apply the diffs to the latest snapshot and append it. */
  method CommitDiffs(dir: IndexDirectory, env: Env, fs: Files, snapshot: IndexSnapshot, current: IndexSnapshot,
                     indexPath: string, diffs: seq<IndexDiff>, timestampUs: i64, write: WriteOutcome)
    returns (r: Result<IndexReference>)
    requires snapshot != current
    requires Applicable(current.files, diffs)
    modifies dir, snapshot, current
    ensures r == CommitDiffsSpec(env, fs, old(snapshot.Value()), old(current.Value()), old(dir.indexFiles),
                                 indexPath, diffs, timestampUs, write)
    ensures dir.indexFiles == old(dir.indexFiles)
    ensures dir.store == CommitDiffsStore(env, fs, old(snapshot.Value()), old(current.Value()), old(dir.indexFiles),
                                          old(dir.store), indexPath, diffs, timestampUs, write)
    ensures var scan := ScanChecksumsSpec(env.digests, old(current.checksumFunction), fs, CommitScan(indexPath, diffs), old(current.files));
      scan.Err? ==> unchanged(snapshot)
    ensures var scan := ScanChecksumsSpec(env.digests, old(current.checksumFunction), fs, CommitScan(indexPath, diffs), old(current.files));
      scan.Ok? ==>
        current.files == scan.value
        && Applicable(current.files, diffs)
        && snapshot.Value() == Committed(old(snapshot.Value()), current.files, diffs)
    ensures r.Ok? ==> Stored(env, old(dir.store), dir.store, r.value, snapshot.Value(), timestampUs)
  {
    ghost var files0 := current.files;
    var listed := ListFiles(diffs);
    assert listed == ListedPaths(diffs);
    var scanned := ScanChecksums(env.digests, fs, current, ScanOptions([indexPath], Some(listed)));
    if scanned.Err? {
      return Err(scanned.msg);
    }
    ScanChecksumsKeys(env.digests, current.checksumFunction, fs, ScanOptions([indexPath], Some(listed)), files0);
    ApplicableSameKeys(files0, current.files, diffs);
    ApplyDiffs(snapshot, current, diffs);
    AppendStoreSpec(env, dir.indexFiles, dir.store, snapshot.Value(), timestampUs, write);
    var appended := dir.Append(env, snapshot, timestampUs, write);
    if appended.Err? {
      return Err(appended.msg);
    }
    return Ok(appended.value);
  }
}
