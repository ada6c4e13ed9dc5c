/** What `diff` of src/index_diff.rs guarantees: every vanished path is
    reported once, as a deletion or as the source of one rename; every new
    path once, as a creation or as the target of one rename; renames pair
    records with equal keys, taking the smallest candidate path first; and
    a snapshot does not differ from itself. */
module IndexDiffProperties {
  import opened Wrappers
  import opened Text
  import opened Snapshot
  import opened IndexDiff

  /** `p` is tracked by the target but not present in the actual snapshot. */
  predicate Gone(target: FileMap, actual: FileMap, p: string) {
    p in target && p !in actual
  }

  /** A vanished path that can be the source of a rename. */
  predicate Candidate(target: FileMap, actual: FileMap, p: string) {
    Gone(target, actual, p) && target[p].checksum.Some?
  }

  /** `q` is present in the actual snapshot but not tracked by the target. */
  predicate New(target: FileMap, actual: FileMap, q: string) {
    q in actual && q !in target
  }

  /** The number of renames from `p`. */
  function CountFrom(ds: seq<IndexDiff>, p: string): nat {
    if ds == [] then 0
    else CountFrom(ds[..|ds| - 1], p) + (if ds[|ds| - 1].Renamed? && ds[|ds| - 1].from == p then 1 else 0)
  }

  /** The number of renames to `q`. */
  function CountTo(ds: seq<IndexDiff>, q: string): nat {
    if ds == [] then 0
    else CountTo(ds[..|ds| - 1], q) + (if ds[|ds| - 1].Renamed? && ds[|ds| - 1].to == q then 1 else 0)
  }

  lemma CountAppend(ds: seq<IndexDiff>, d: IndexDiff, p: string)
    ensures CountFrom(ds + [d], p) == CountFrom(ds, p) + (if d.Renamed? && d.from == p then 1 else 0)
    ensures CountTo(ds + [d], p) == CountTo(ds, p) + (if d.Renamed? && d.to == p then 1 else 0)
  {
    assert (ds + [d])[..|ds|] == ds;
  }

  // ---------------------------------------------------------------------
  // Invariants of the two passes

  predicate BucketsSound(target: FileMap, actual: FileMap, deleted: Buckets) {
    forall k, j :: k in deleted && 0 <= j < |deleted[k]| ==>
      Candidate(target, actual, deleted[k][j]) && KeyOf(target[deleted[k][j]]) == k
  }

  predicate BucketsSorted(deleted: Buckets) {
    forall k :: k in deleted ==> StrictlySorted(deleted[k])
  }

  predicate BucketsWithin(deleted: Buckets, ks: seq<string>) {
    forall k, j :: k in deleted && 0 <= j < |deleted[k]| ==> deleted[k][j] in ks
  }

  predicate BucketsComplete(target: FileMap, actual: FileMap, deleted: Buckets, ks: seq<string>) {
    forall p :: p in ks && Candidate(target, actual, p) ==> p in Bucket(deleted, KeyOf(target[p]))
  }

  ghost predicate DeletedOnce(actual: FileMap, diffs: seq<IndexDiff>, ks: seq<string>) {
    forall p :: multiset(diffs)[Deleted(p)] == if p in ks && p !in actual then 1 else 0
  }

  predicate NoRenameNoCreate(diffs: seq<IndexDiff>) {
    forall i :: 0 <= i < |diffs| ==> !diffs[i].Renamed? && !diffs[i].Created?
  }

  ghost predicate TargetInv(target: FileMap, actual: FileMap, st: TargetState, ks: seq<string>) {
    BucketsSound(target, actual, st.deleted) && BucketsSorted(st.deleted)
    && BucketsWithin(st.deleted, ks) && BucketsComplete(target, actual, st.deleted, ks)
    && DeletedOnce(actual, st.diffs, ks) && NoRenameNoCreate(st.diffs)
  }

  lemma SortedSplit(ks: seq<string>)
    requires StrictlySorted(ks) && |ks| > 0
    ensures StrictlySorted(ks[..|ks| - 1])
    ensures forall j :: 0 <= j < |ks| - 1 ==> LexLess(ks[j], ks[|ks| - 1])
    ensures ks[|ks| - 1] !in ks[..|ks| - 1]
  {
    var last := ks[|ks| - 1];
    if last in ks[..|ks| - 1] {
      LexIrreflexive(last);
    }
  }

  lemma BucketAppendSorted(b: seq<string>, p: string)
    requires StrictlySorted(b)
    requires forall j :: 0 <= j < |b| ==> LexLess(b[j], p)
    ensures StrictlySorted(b + [p])
  {
  }

  /** Appending a deleted candidate to its bucket keeps the buckets sound
      and sorted, the candidate coming after every path already visited. */
  lemma TargetStepSorted(target: FileMap, actual: FileMap, deleted: Buckets, ks: seq<string>, p: string)
    requires p in target && p !in actual && target[p].checksum.Some?
    requires forall j :: 0 <= j < |ks| ==> LexLess(ks[j], p)
    requires BucketsSound(target, actual, deleted) && BucketsSorted(deleted) && BucketsWithin(deleted, ks)
    ensures var d' := deleted[KeyOf(target[p]) := Bucket(deleted, KeyOf(target[p])) + [p]];
      BucketsSound(target, actual, d') && BucketsSorted(d')
  {
    var b := Bucket(deleted, KeyOf(target[p]));
    forall j | 0 <= j < |b| ensures LexLess(b[j], p) {
      assert b[j] in ks;
      var i :| 0 <= i < |ks| && ks[i] == b[j];
    }
    BucketAppendSorted(b, p);
  }

  /** Appending a deleted candidate to its bucket keeps every visited
      candidate in its bucket, and only visited paths there. */
  lemma TargetStepCover(target: FileMap, actual: FileMap, deleted: Buckets, ks: seq<string>, p: string)
    requires p in target && p !in actual && target[p].checksum.Some?
    requires BucketsWithin(deleted, ks) && BucketsComplete(target, actual, deleted, ks)
    ensures var d' := deleted[KeyOf(target[p]) := Bucket(deleted, KeyOf(target[p])) + [p]];
      BucketsWithin(d', ks + [p]) && BucketsComplete(target, actual, d', ks + [p])
  {
    var k := KeyOf(target[p]);
    var d' := deleted[k := Bucket(deleted, k) + [p]];
    forall q | q in ks + [p] && Candidate(target, actual, q)
      ensures q in Bucket(d', KeyOf(target[q]))
    {
      if q != p {
        assert q in Bucket(deleted, KeyOf(target[q]));
      }
    }
  }

  lemma TargetStepDiffs(target: FileMap, actual: FileMap, diffs: seq<IndexDiff>, d: IndexDiff, ks: seq<string>, p: string)
    requires p !in ks
    requires d == Deleted(p) ==> p !in actual
    requires d.Deleted? ==> d == Deleted(p)
    requires p !in actual ==> d == Deleted(p)
    requires !d.Renamed? && !d.Created?
    requires DeletedOnce(actual, diffs, ks) && NoRenameNoCreate(diffs)
    ensures DeletedOnce(actual, diffs + [d], ks + [p]) && NoRenameNoCreate(diffs + [d])
  {
    forall q ensures multiset(diffs + [d])[Deleted(q)] == if q in ks + [p] && q !in actual then 1 else 0 {
      assert multiset(diffs + [d])[Deleted(q)] == multiset(diffs)[Deleted(q)] + multiset([d])[Deleted(q)];
    }
  }

  lemma TargetStepInv(target: FileMap, actual: FileMap, st: TargetState, ks: seq<string>, p: string)
    requires p in target && p !in ks
    requires forall j :: 0 <= j < |ks| ==> LexLess(ks[j], p)
    requires TargetInv(target, actual, st, ks)
    ensures TargetInv(target, actual, TargetStep(target, actual, st, p), ks + [p])
  {
    if p !in actual {
      if target[p].checksum.Some? {
        TargetStepSorted(target, actual, st.deleted, ks, p);
        TargetStepCover(target, actual, st.deleted, ks, p);
      }
      TargetStepDiffs(target, actual, st.diffs, Deleted(p), ks, p);
    } else {
      CompareFinfoCases(p, target[p], actual[p]);
      match CompareFinfo(p, target[p], actual[p])
      case None =>
      case Some(d) =>
        TargetStepDiffs(target, actual, st.diffs, d, ks, p);
    }
  }

  lemma {:induction false} TargetPassInv(target: FileMap, actual: FileMap, ks: seq<string>)
    requires forall i :: 0 <= i < |ks| ==> ks[i] in target
    requires StrictlySorted(ks)
    ensures TargetInv(target, actual, TargetPass(target, actual, ks), ks)
    decreases |ks|
  {
    if ks != [] {
      var init := ks[..|ks| - 1];
      SortedSplit(ks);
      TargetPassInv(target, actual, init);
      TargetStepInv(target, actual, TargetPass(target, actual, init), init, ks[|ks| - 1]);
      assert init + [ks[|ks| - 1]] == ks;
    }
  }

  /** The pass over all target paths puts every candidate in its bucket. */
  lemma TargetPassAllInv(target: FileMap, actual: FileMap)
    ensures TargetInv(target, actual, TargetPassAll(target, actual), SortedKeys(target.Keys))
    ensures forall p :: Candidate(target, actual, p) ==>
      p in Bucket(TargetPassAll(target, actual).deleted, KeyOf(target[p]))
    ensures forall p :: multiset(TargetPassAll(target, actual).diffs)[Deleted(p)] == if Gone(target, actual, p) then 1 else 0
  {
    SortedKeysSpec(target.Keys);
    TargetPassInv(target, actual, SortedKeys(target.Keys));
  }

  /** Every rename pairs a candidate with a new path of the same key. */
  predicate RenamesSound(target: FileMap, actual: FileMap, diffs: seq<IndexDiff>) {
    forall i :: 0 <= i < |diffs| && diffs[i].Renamed? ==>
      Candidate(target, actual, diffs[i].from) && New(target, actual, diffs[i].to)
      && actual[diffs[i].to].checksum.Some?
      && KeyOf(target[diffs[i].from]) == KeyOf(actual[diffs[i].to])
  }

  ghost predicate DeletedKept(diffs: seq<IndexDiff>, base: seq<IndexDiff>) {
    forall p :: multiset(diffs)[Deleted(p)] == multiset(base)[Deleted(p)]
  }

  /** A candidate has been renamed from exactly when it has left its bucket. */
  ghost predicate Partition(target: FileMap, actual: FileMap, deleted: Buckets, renamed: set<string>) {
    forall p :: Candidate(target, actual, p) ==>
      (p in renamed <==> p !in Bucket(deleted, KeyOf(target[p])))
  }

  ghost predicate RenamedAreCandidates(target: FileMap, actual: FileMap, renamed: set<string>) {
    forall p :: p in renamed ==> Candidate(target, actual, p)
  }

  /** Every renamed source is smaller than the candidates left in its bucket. */
  ghost predicate RenamedFirst(target: FileMap, actual: FileMap, deleted: Buckets, renamed: set<string>) {
    forall p, p' :: p in renamed && Candidate(target, actual, p) && p' in Bucket(deleted, KeyOf(target[p])) ==> LexLess(p, p')
  }

  ghost predicate FromCounts(diffs: seq<IndexDiff>, renamed: set<string>) {
    forall p :: CountFrom(diffs, p) == if p in renamed then 1 else 0
  }

  ghost predicate NewCounts(target: FileMap, actual: FileMap, diffs: seq<IndexDiff>, qs: seq<string>) {
    forall q :: multiset(diffs)[Created(q)] + CountTo(diffs, q) == if New(target, actual, q) && q in qs then 1 else 0
  }

  ghost predicate BucketInv(target: FileMap, actual: FileMap, deleted: Buckets, renamed: set<string>) {
    BucketsSound(target, actual, deleted) && BucketsSorted(deleted)
    && Partition(target, actual, deleted, renamed) && RenamedAreCandidates(target, actual, renamed)
    && RenamedFirst(target, actual, deleted, renamed)
  }

  ghost predicate ActualInv(target: FileMap, actual: FileMap, t: TargetState, st: ActualState, qs: seq<string>) {
    BucketInv(target, actual, st.deleted, st.renamed)
    && DeletedKept(st.diffs, t.diffs) && FromCounts(st.diffs, st.renamed)
    && NewCounts(target, actual, st.diffs, qs) && RenamesSound(target, actual, st.diffs)
  }

  lemma {:induction false} NoRenameCounts(diffs: seq<IndexDiff>, p: string)
    requires NoRenameNoCreate(diffs)
    ensures CountFrom(diffs, p) == 0 && CountTo(diffs, p) == 0 && multiset(diffs)[Created(p)] == 0
    decreases |diffs|
  {
    if diffs != [] {
      var init := diffs[..|diffs| - 1];
      var d := diffs[|diffs| - 1];
      NoRenameCounts(init, p);
      assert diffs == init + [d];
      assert multiset(diffs)[Created(p)] == multiset(init)[Created(p)] + multiset([d])[Created(p)];
    }
  }

  lemma ActualInitInv(target: FileMap, actual: FileMap)
    ensures ActualInv(target, actual, TargetPassAll(target, actual),
      ActualState(TargetPassAll(target, actual).diffs, TargetPassAll(target, actual).deleted, {}), [])
  {
    var t := TargetPassAll(target, actual);
    TargetPassAllInv(target, actual);
    forall p ensures CountFrom(t.diffs, p) == 0 && CountTo(t.diffs, p) == 0 && multiset(t.diffs)[Created(p)] == 0 {
      NoRenameCounts(t.diffs, p);
    }
  }

  /** The head of a sorted bucket is smaller than, and absent from, the rest. */
  lemma SortedHead(b: seq<string>)
    requires StrictlySorted(b) && |b| > 0
    ensures StrictlySorted(b[1..])
    ensures forall j :: 0 <= j < |b| - 1 ==> LexLess(b[0], b[1..][j])
    ensures b[0] !in b[1..]
  {
    forall j | 0 <= j < |b| - 1 ensures LexLess(b[0], b[1..][j]) {
      assert b[1..][j] == b[j + 1];
    }
    if b[0] in b[1..] {
      LexIrreflexive(b[0]);
    }
  }

  /** Taking the head of a bucket as renamed keeps the partition. */
  lemma RenameStepPartition(target: FileMap, actual: FileMap, deleted: Buckets, renamed: set<string>, k: DiffKey)
    requires k in deleted && |deleted[k]| > 0
    requires BucketsSound(target, actual, deleted) && BucketsSorted(deleted)
    requires Partition(target, actual, deleted, renamed)
    ensures Partition(target, actual, deleted[k := deleted[k][1..]], renamed + {deleted[k][0]})
  {
    var b := deleted[k];
    var from := b[0];
    var d' := deleted[k := b[1..]];
    var r' := renamed + {from};
    SortedHead(b);
    assert KeyOf(target[from]) == k;
    forall p | Candidate(target, actual, p)
      ensures p in r' <==> p !in Bucket(d', KeyOf(target[p]))
    {
      if KeyOf(target[p]) == k && p != from {
        assert p in b[1..] <==> p in b by {
          if p in b {
            var j :| 0 <= j < |b| && b[j] == p;
            assert b[1..][j - 1] == p;
          }
        }
      }
    }
  }

  /** Taking the head of a bucket as renamed keeps renamed paths before
      the paths left in their bucket. */
  lemma RenameStepOrder(target: FileMap, actual: FileMap, deleted: Buckets, renamed: set<string>, k: DiffKey)
    requires k in deleted && |deleted[k]| > 0
    requires BucketsSound(target, actual, deleted) && BucketsSorted(deleted)
    requires RenamedFirst(target, actual, deleted, renamed)
    ensures RenamedFirst(target, actual, deleted[k := deleted[k][1..]], renamed + {deleted[k][0]})
  {
    var b := deleted[k];
    var from := b[0];
    var d' := deleted[k := b[1..]];
    var r' := renamed + {from};
    SortedHead(b);
    assert KeyOf(target[from]) == k;
    forall p, p' | p in r' && Candidate(target, actual, p) && p' in Bucket(d', KeyOf(target[p]))
      ensures LexLess(p, p')
    {
      if KeyOf(target[p]) == k {
        var j :| 0 <= j < |b[1..]| && b[1..][j] == p';
        if p != from {
          assert p' == b[j + 1];
        }
      }
    }
  }

  lemma RenameStepBuckets(target: FileMap, actual: FileMap, deleted: Buckets, renamed: set<string>, k: DiffKey)
    requires k in deleted && |deleted[k]| > 0
    requires BucketInv(target, actual, deleted, renamed)
    ensures Candidate(target, actual, deleted[k][0]) && KeyOf(target[deleted[k][0]]) == k
    ensures deleted[k][0] !in renamed
    ensures BucketInv(target, actual, deleted[k := deleted[k][1..]], renamed + {deleted[k][0]})
  {
    SortedHead(deleted[k]);
    RenameStepPartition(target, actual, deleted, renamed, k);
    RenameStepOrder(target, actual, deleted, renamed, k);
  }

  /** Appending a diff that deletes nothing keeps the deletions. */
  lemma AppendKeepsDeleted(diffs: seq<IndexDiff>, base: seq<IndexDiff>, d: IndexDiff)
    requires !d.Deleted? && DeletedKept(diffs, base)
    ensures DeletedKept(diffs + [d], base)
  {
    forall p ensures multiset(diffs + [d])[Deleted(p)] == multiset(diffs)[Deleted(p)] {
    }
  }

  /** Appending a rename of a sound pair keeps the renames sound. */
  lemma AppendKeepsRenamesSound(target: FileMap, actual: FileMap, diffs: seq<IndexDiff>, d: IndexDiff)
    requires RenamesSound(target, actual, diffs)
    requires d.Renamed? ==>
      Candidate(target, actual, d.from) && New(target, actual, d.to)
      && actual[d.to].checksum.Some? && KeyOf(target[d.from]) == KeyOf(actual[d.to])
    ensures RenamesSound(target, actual, diffs + [d])
  {
    var diffs' := diffs + [d];
    forall i | 0 <= i < |diffs'| && diffs'[i].Renamed?
      ensures Candidate(target, actual, diffs'[i].from) && New(target, actual, diffs'[i].to)
        && actual[diffs'[i].to].checksum.Some?
        && KeyOf(target[diffs'[i].from]) == KeyOf(actual[diffs'[i].to])
    {
      if i < |diffs| {
        assert diffs'[i] == diffs[i];
      } else {
        assert diffs'[i] == d;
      }
    }
  }

  /** A rename from a path not yet renamed from counts it once. */
  lemma RenameKeepsFromCounts(diffs: seq<IndexDiff>, renamed: set<string>, from: string, q: string)
    requires from !in renamed && FromCounts(diffs, renamed)
    ensures FromCounts(diffs + [Renamed(from, q)], renamed + {from})
  {
    forall p ensures CountFrom(diffs + [Renamed(from, q)], p) == if p in renamed + {from} then 1 else 0 {
      CountAppend(diffs, Renamed(from, q), p);
    }
  }

  /** A rename to a new path not yet visited counts it once. */
  lemma RenameKeepsNewCounts(target: FileMap, actual: FileMap, diffs: seq<IndexDiff>, qs: seq<string>,
                             from: string, q: string)
    requires New(target, actual, q) && q !in qs && NewCounts(target, actual, diffs, qs)
    ensures NewCounts(target, actual, diffs + [Renamed(from, q)], qs + [q])
  {
    var diffs' := diffs + [Renamed(from, q)];
    forall r ensures multiset(diffs')[Created(r)] + CountTo(diffs', r)
                     == if New(target, actual, r) && r in qs + [q] then 1 else 0 {
      RenameCountAt(diffs, from, q, r);
      assert r in qs + [q] <==> r in qs || r == q;
    }
  }

  /** A rename to `q` adds one to the count of `q` and nothing else. */
  lemma RenameCountAt(diffs: seq<IndexDiff>, from: string, q: string, r: string)
    ensures multiset(diffs + [Renamed(from, q)])[Created(r)] + CountTo(diffs + [Renamed(from, q)], r)
         == multiset(diffs)[Created(r)] + CountTo(diffs, r) + (if r == q then 1 else 0)
  {
    CountAppend(diffs, Renamed(from, q), r);
    assert multiset(diffs + [Renamed(from, q)])[Created(r)] == multiset(diffs)[Created(r)];
  }

  /** A creation of a new path not yet visited counts it once. */
  lemma CreateKeepsCounts(target: FileMap, actual: FileMap, diffs: seq<IndexDiff>, renamed: set<string>,
                          qs: seq<string>, q: string)
    requires New(target, actual, q) && q !in qs
    requires FromCounts(diffs, renamed) && NewCounts(target, actual, diffs, qs)
    ensures FromCounts(diffs + [Created(q)], renamed)
    ensures NewCounts(target, actual, diffs + [Created(q)], qs + [q])
  {
    var diffs' := diffs + [Created(q)];
    forall p ensures CountFrom(diffs', p) == if p in renamed then 1 else 0 {
      CountAppend(diffs, Created(q), p);
    }
    forall r ensures multiset(diffs')[Created(r)] + CountTo(diffs', r)
                     == if New(target, actual, r) && r in qs + [q] then 1 else 0 {
      CreateCountAt(diffs, q, r);
      assert r in qs + [q] <==> r in qs || r == q;
    }
  }

  /** A creation of `q` adds one to the count of `q` and nothing else. */
  lemma CreateCountAt(diffs: seq<IndexDiff>, q: string, r: string)
    ensures multiset(diffs + [Created(q)])[Created(r)] + CountTo(diffs + [Created(q)], r)
         == multiset(diffs)[Created(r)] + CountTo(diffs, r) + (if r == q then 1 else 0)
  {
    CountAppend(diffs, Created(q), r);
    assert multiset(diffs + [Created(q)])[Created(r)]
        == multiset(diffs)[Created(r)] + multiset([Created(q)])[Created(r)];
  }


  lemma ActualStepInv(target: FileMap, actual: FileMap, t: TargetState, st: ActualState, qs: seq<string>, q: string)
    requires q in actual && q !in qs
    requires ActualInv(target, actual, t, st, qs)
    ensures ActualInv(target, actual, t, ActualStep(target, actual, st, q), qs + [q])
  {
    if q in target {
      assert forall r :: New(target, actual, r) && r in qs + [q] <==> New(target, actual, r) && r in qs;
    } else if actual[q].checksum.Some? && |Bucket(st.deleted, KeyOf(actual[q]))| > 0 {
      var k := KeyOf(actual[q]);
      var from := st.deleted[k][0];
      RenameStepBuckets(target, actual, st.deleted, st.renamed, k);
      AppendKeepsDeleted(st.diffs, t.diffs, Renamed(from, q));
      RenameKeepsFromCounts(st.diffs, st.renamed, from, q);
      RenameKeepsNewCounts(target, actual, st.diffs, qs, from, q);
      AppendKeepsRenamesSound(target, actual, st.diffs, Renamed(from, q));
    } else {
      AppendKeepsDeleted(st.diffs, t.diffs, Created(q));
      CreateKeepsCounts(target, actual, st.diffs, st.renamed, qs, q);
      AppendKeepsRenamesSound(target, actual, st.diffs, Created(q));
    }
  }

  lemma {:induction false} ActualPassInv(target: FileMap, actual: FileMap, qs: seq<string>)
    requires forall i :: 0 <= i < |qs| ==> qs[i] in actual
    requires StrictlySorted(qs)
    ensures ActualInv(target, actual, TargetPassAll(target, actual),
      ActualPass(target, actual,
        ActualState(TargetPassAll(target, actual).diffs, TargetPassAll(target, actual).deleted, {}), qs), qs)
    decreases |qs|
  {
    var t := TargetPassAll(target, actual);
    var st0 := ActualState(t.diffs, t.deleted, {});
    if qs == [] {
      ActualInitInv(target, actual);
    } else {
      var init := qs[..|qs| - 1];
      var q := qs[|qs| - 1];
      assert init + [q] == qs;
      SortedSplit(qs);
      ActualPassInv(target, actual, init);
      var st := ActualPass(target, actual, st0, init);
      assert ActualPass(target, actual, st0, qs) == ActualStep(target, actual, st, q);
      ActualStepInv(target, actual, t, st, init, q);
    }
  }

  lemma ActualPassAllInv(target: FileMap, actual: FileMap)
    ensures ActualInv(target, actual, TargetPassAll(target, actual), ActualPassAll(target, actual), SortedKeys(actual.Keys))
    ensures forall q :: q in SortedKeys(actual.Keys) <==> q in actual
  {
    SortedKeysSpec(actual.Keys);
    ActualPassInv(target, actual, SortedKeys(actual.Keys));
  }

  // ---------------------------------------------------------------------
  // Collapse

  /** Collapsing one more diff keeps it unless it is a deletion that a
      rename replaces. */
  lemma CollapseStep(ds: seq<IndexDiff>, renamed: set<string>)
    requires ds != []
    ensures multiset(ds) == multiset(ds[..|ds| - 1]) + multiset{ds[|ds| - 1]}
    ensures var d := ds[|ds| - 1];
      multiset(Collapse(ds, renamed))
      == multiset(Collapse(ds[..|ds| - 1], renamed)) + (if d.Deleted? && d.file in renamed then multiset{} else multiset{d})
  {
    assert ds == ds[..|ds| - 1] + [ds[|ds| - 1]];
  }

  lemma {:induction false} CollapseMultiset(ds: seq<IndexDiff>, renamed: set<string>, p: string)
    ensures multiset(Collapse(ds, renamed))[Deleted(p)] == if p in renamed then 0 else multiset(ds)[Deleted(p)]
    ensures multiset(Collapse(ds, renamed))[Created(p)] == multiset(ds)[Created(p)]
  {
    if ds != [] {
      CollapseStep(ds, renamed);
      CollapseMultiset(ds[..|ds| - 1], renamed, p);
    }
  }

  lemma {:induction false} CollapseRenames(ds: seq<IndexDiff>, renamed: set<string>, p: string)
    ensures CountFrom(Collapse(ds, renamed), p) == CountFrom(ds, p)
    ensures CountTo(Collapse(ds, renamed), p) == CountTo(ds, p)
  {
    if ds != [] {
      var init := ds[..|ds| - 1];
      var d := ds[|ds| - 1];
      CollapseRenames(init, renamed, p);
      CountAppend(init, d, p);
      assert ds == init + [d];
      if !(d.Deleted? && d.file in renamed) {
        CountAppend(Collapse(init, renamed), d, p);
      } else {
        assert Collapse(ds, renamed) == Collapse(init, renamed) + [];
        assert Collapse(ds, renamed) == Collapse(init, renamed);
        assert CountFrom(ds, p) == CountFrom(init + [d], p) == CountFrom(init, p);
      }
    }
  }

  lemma CollapseCounts(ds: seq<IndexDiff>, renamed: set<string>, p: string)
    ensures multiset(Collapse(ds, renamed))[Deleted(p)] == if p in renamed then 0 else multiset(ds)[Deleted(p)]
    ensures multiset(Collapse(ds, renamed))[Created(p)] == multiset(ds)[Created(p)]
    ensures CountFrom(Collapse(ds, renamed), p) == CountFrom(ds, p)
    ensures CountTo(Collapse(ds, renamed), p) == CountTo(ds, p)
  {
    CollapseMultiset(ds, renamed, p);
    CollapseRenames(ds, renamed, p);
  }

  lemma {:induction false} CollapseSubset(ds: seq<IndexDiff>, renamed: set<string>)
    ensures forall d :: d in Collapse(ds, renamed) ==> d in ds
  {
    if ds != [] {
      CollapseSubset(ds[..|ds| - 1], renamed);
      assert ds == ds[..|ds| - 1] + [ds[|ds| - 1]];
    }
  }

  // ---------------------------------------------------------------------
  // The properties of diff

  /** Every vanished path is reported exactly once: as a deletion or as the
      source of one rename, never both; no other path is deleted or
      renamed from. */
  lemma DeletedOrRenamed(target: FileMap, actual: FileMap, p: string)
    ensures Gone(target, actual, p) ==>
      multiset(DiffSpec(target, actual))[Deleted(p)] + CountFrom(DiffSpec(target, actual), p) == 1
    ensures !Gone(target, actual, p) ==>
      multiset(DiffSpec(target, actual))[Deleted(p)] == 0 && CountFrom(DiffSpec(target, actual), p) == 0
  {
    var a := ActualPassAll(target, actual);
    TargetPassAllInv(target, actual);
    ActualPassAllInv(target, actual);
    CollapseCounts(a.diffs, a.renamed, p);
  }

  /** Every new path is reported exactly once: as a creation or as the
      target of one rename; no other path is created or renamed to. */
  lemma CreatedOrRenamed(target: FileMap, actual: FileMap, q: string)
    ensures New(target, actual, q) ==>
      multiset(DiffSpec(target, actual))[Created(q)] + CountTo(DiffSpec(target, actual), q) == 1
    ensures !New(target, actual, q) ==>
      multiset(DiffSpec(target, actual))[Created(q)] == 0 && CountTo(DiffSpec(target, actual), q) == 0
  {
    var a := ActualPassAll(target, actual);
    ActualPassAllInv(target, actual);
    CollapseCounts(a.diffs, a.renamed, q);
  }

  /** A rename goes from a vanished path to a new path; both records have
      checksums, and their checksums, sizes and modification times agree. */
  lemma RenamedOnlyWhenSame(target: FileMap, actual: FileMap, d: IndexDiff)
    requires d in DiffSpec(target, actual) && d.Renamed?
    ensures Candidate(target, actual, d.from) && New(target, actual, d.to)
    ensures actual[d.to].checksum.Some? && KeyOf(target[d.from]) == KeyOf(actual[d.to])
  {
    var a := ActualPassAll(target, actual);
    ActualPassAllInv(target, actual);
    CollapseSubset(a.diffs, a.renamed);
    var i :| 0 <= i < |a.diffs| && a.diffs[i] == d;
  }

  /** A new file without a checksum is always reported as created. */
  lemma CreatedWithoutChecksum(target: FileMap, actual: FileMap, q: string)
    requires New(target, actual, q) && actual[q].checksum.None?
    ensures Created(q) in DiffSpec(target, actual)
  {
    CreatedOrRenamed(target, actual, q);
    if CountTo(DiffSpec(target, actual), q) > 0 {
      var d := SomeRenameTo(DiffSpec(target, actual), q);
      RenamedOnlyWhenSame(target, actual, d);
    }
  }

  /** A new file whose key no vanished file shares is reported as created. */
  lemma CreatedWithoutCandidate(target: FileMap, actual: FileMap, q: string)
    requires New(target, actual, q) && actual[q].checksum.Some?
    requires forall p :: Candidate(target, actual, p) ==> KeyOf(target[p]) != KeyOf(actual[q])
    ensures Created(q) in DiffSpec(target, actual)
  {
    CreatedOrRenamed(target, actual, q);
    if CountTo(DiffSpec(target, actual), q) > 0 {
      var d := SomeRenameTo(DiffSpec(target, actual), q);
      RenamedOnlyWhenSame(target, actual, d);
    }
  }

  lemma {:induction false} SomeRenameTo(ds: seq<IndexDiff>, q: string) returns (d: IndexDiff)
    requires CountTo(ds, q) > 0
    ensures d in ds && d.Renamed? && d.to == q
  {
    var last := ds[|ds| - 1];
    if last.Renamed? && last.to == q {
      d := last;
    } else {
      d := SomeRenameTo(ds[..|ds| - 1], q);
    }
  }

  lemma {:induction false} SomeRenameFrom(ds: seq<IndexDiff>, p: string) returns (d: IndexDiff)
    requires CountFrom(ds, p) > 0
    ensures d in ds && d.Renamed? && d.from == p
  {
    var last := ds[|ds| - 1];
    if last.Renamed? && last.from == p {
      d := last;
    } else {
      d := SomeRenameFrom(ds[..|ds| - 1], p);
    }
  }

  /** Candidates of one key are consumed smallest path first: a rename's
      source is smaller than every candidate of the same key that is left
      reported as deleted. */
  lemma SmallestCandidateFirst(target: FileMap, actual: FileMap, from: string, to: string, p: string)
    requires Renamed(from, to) in DiffSpec(target, actual)
    requires Deleted(p) in DiffSpec(target, actual) && Candidate(target, actual, p)
    requires Candidate(target, actual, from) && KeyOf(target[p]) == KeyOf(target[from])
    ensures LexLess(from, p)
  {
    var a := ActualPassAll(target, actual);
    ActualPassAllInv(target, actual);
    CollapseCounts(a.diffs, a.renamed, from);
    CollapseCounts(a.diffs, a.renamed, p);
    CountFromPositive(DiffSpec(target, actual), Renamed(from, to));
    assert from in a.renamed;
    assert p !in a.renamed;
  }

  lemma {:induction false} CountFromPositive(ds: seq<IndexDiff>, d: IndexDiff)
    requires d in ds && d.Renamed?
    ensures CountFrom(ds, d.from) > 0
  {
    if ds[|ds| - 1] != d {
      assert ds == ds[..|ds| - 1] + [ds[|ds| - 1]];
      CountFromPositive(ds[..|ds| - 1], d);
    }
  }

  /** Two snapshots with the same paths, whose every record compares
      unchanged, do not differ. */
  lemma DiffNone(target: FileMap, actual: FileMap)
    requires target.Keys == actual.Keys
    requires forall p :: p in target ==> CompareFinfo(p, target[p], actual[p]).None?
    ensures DiffSpec(target, actual) == []
  {
    SortedKeysSame(target.Keys);
    SortedKeysSame(actual.Keys);
    TargetPassNone(target, actual, SortedKeys(target.Keys));
    ActualPassNone(target, actual, SortedKeys(actual.Keys));
  }

  /** A snapshot does not differ from itself. */
  lemma DiffSelf(s: FileMap)
    ensures DiffSpec(s, s) == []
  {
    forall p | p in s ensures CompareFinfo(p, s[p], s[p]).None? {
      CompareFinfoSelf(p, s[p]);
    }
    DiffNone(s, s);
  }

  lemma {:induction false} TargetPassNone(target: FileMap, actual: FileMap, ks: seq<string>)
    requires forall i :: 0 <= i < |ks| ==> ks[i] in target && ks[i] in actual
    requires forall p :: p in target && p in actual ==> CompareFinfo(p, target[p], actual[p]).None?
    ensures TargetPass(target, actual, ks) == TargetState([], map[])
  {
    if ks != [] {
      TargetPassNone(target, actual, ks[..|ks| - 1]);
    }
  }

  lemma {:induction false} ActualPassNone(target: FileMap, actual: FileMap, qs: seq<string>)
    requires forall i :: 0 <= i < |qs| ==> qs[i] in actual && qs[i] in target
    ensures ActualPass(target, actual, ActualState([], map[], {}), qs) == ActualState([], map[], {})
  {
    if qs != [] {
      ActualPassNone(target, actual, qs[..|qs| - 1]);
    }
  }

  // ---------------------------------------------------------------------
  // Paths present in both snapshots

  /** The first pass reports a change to a common path exactly as
      `compare_finfo` does, and reports no other such change. */
  ghost predicate CommonInv(target: FileMap, actual: FileMap, diffs: seq<IndexDiff>, ks: seq<string>) {
    (forall i :: 0 <= i < |diffs| && (diffs[i].Modified? || diffs[i].MetadataModified?) ==>
       diffs[i].file in target && diffs[i].file in actual
       && CompareFinfo(diffs[i].file, target[diffs[i].file], actual[diffs[i].file]) == Some(diffs[i]))
    && (forall p :: p in ks && p in target && p in actual && CompareFinfo(p, target[p], actual[p]).Some? ==>
          CompareFinfo(p, target[p], actual[p]).value in diffs)
  }

  /** Appending the diffs `e` found for the target path `p` keeps the
      invariant when they are a deletion of `p` or the change
      `compare_finfo` finds for it, and include that change. */
  lemma CommonInvAppend(target: FileMap, actual: FileMap, diffs: seq<IndexDiff>, ks: seq<string>,
                        p: string, e: seq<IndexDiff>)
    requires p in target && CommonInv(target, actual, diffs, ks)
    requires forall j :: 0 <= j < |e| ==>
      e[j] == Deleted(p) || (p in actual && Some(e[j]) == CompareFinfo(p, target[p], actual[p]))
    requires p in actual && CompareFinfo(p, target[p], actual[p]).Some? ==>
      CompareFinfo(p, target[p], actual[p]).value in e
    ensures CommonInv(target, actual, diffs + e, ks + [p])
  {
    var diffs' := diffs + e;
    if p in actual {
      CompareFinfoCases(p, target[p], actual[p]);
    }
    forall i | 0 <= i < |diffs'| && (diffs'[i].Modified? || diffs'[i].MetadataModified?)
      ensures diffs'[i].file in target && diffs'[i].file in actual
        && CompareFinfo(diffs'[i].file, target[diffs'[i].file], actual[diffs'[i].file]) == Some(diffs'[i])
    {
      if i < |diffs| {
        assert diffs'[i] == diffs[i];
      } else {
        assert diffs'[i] == e[i - |diffs|];
      }
    }
    forall q | q in ks + [p] && q in target && q in actual && CompareFinfo(q, target[q], actual[q]).Some?
      ensures CompareFinfo(q, target[q], actual[q]).value in diffs'
    {
      if q in ks {
        assert CompareFinfo(q, target[q], actual[q]).value in diffs;
      }
    }
  }

  lemma {:induction false} TargetPassCommon(target: FileMap, actual: FileMap, ks: seq<string>)
    requires forall i :: 0 <= i < |ks| ==> ks[i] in target
    ensures CommonInv(target, actual, TargetPass(target, actual, ks).diffs, ks)
    decreases |ks|
  {
    if ks != [] {
      var init := ks[..|ks| - 1];
      var p := ks[|ks| - 1];
      TargetPassCommon(target, actual, init);
      var diffs := TargetPass(target, actual, init).diffs;
      var e: seq<IndexDiff> :=
        if p !in actual then [Deleted(p)]
        else if CompareFinfo(p, target[p], actual[p]).None? then []
        else [CompareFinfo(p, target[p], actual[p]).value];
      assert TargetPass(target, actual, ks).diffs == diffs + e;
      assert ks == init + [p];
      CommonInvAppend(target, actual, diffs, init, p, e);
    }
  }

  /** The second pass only appends creations and renames. */
  lemma {:induction false} ActualPassKeeps(target: FileMap, actual: FileMap, st: ActualState, qs: seq<string>, d: IndexDiff)
    requires forall i :: 0 <= i < |qs| ==> qs[i] in actual
    requires !d.Created? && !d.Renamed?
    ensures d in ActualPass(target, actual, st, qs).diffs <==> d in st.diffs
    decreases |qs|
  {
    if qs != [] {
      ActualPassKeeps(target, actual, st, qs[..|qs| - 1], d);
    }
  }

  /** Collapsing keeps everything but deletions. */
  lemma {:induction false} CollapseKeeps(ds: seq<IndexDiff>, renamed: set<string>, d: IndexDiff)
    requires !d.Deleted?
    ensures d in Collapse(ds, renamed) <==> d in ds
  {
    if ds != [] {
      CollapseKeeps(ds[..|ds| - 1], renamed, d);
      assert ds == ds[..|ds| - 1] + [ds[|ds| - 1]];
    }
  }

  /** A path present in both snapshots is reported exactly when
      `compare_finfo` finds a change, and then with that change; content
      and metadata changes are reported for no other path. */
  lemma CommonPaths(target: FileMap, actual: FileMap, d: IndexDiff)
    requires d.Modified? || d.MetadataModified?
    ensures d in DiffSpec(target, actual) <==>
      d.file in target && d.file in actual && CompareFinfo(d.file, target[d.file], actual[d.file]) == Some(d)
  {
    var ks := SortedKeys(target.Keys);
    SortedKeysSame(target.Keys);
    SortedKeysSame(actual.Keys);
    var t := TargetPassAll(target, actual);
    TargetPassCommon(target, actual, ks);
    ActualPassKeeps(target, actual, ActualState(t.diffs, t.deleted, {}), SortedKeys(actual.Keys), d);
    var a := ActualPassAll(target, actual);
    CollapseKeeps(a.diffs, a.renamed, d);
    if d in t.diffs {
      var i :| 0 <= i < |t.diffs| && t.diffs[i] == d;
    }
  }

  /** Every path a diff leaves behind in the actual snapshot is one of its
      paths: the file of a creation or change, the new path of a rename. */
  lemma DiffTargetsInActual(target: FileMap, actual: FileMap, d: IndexDiff)
    requires d in DiffSpec(target, actual)
    ensures (d.Created? || d.Modified? || d.MetadataModified?) ==> d.file in actual
    ensures d.Renamed? ==> d.to in actual && d.from !in actual
    ensures d.Deleted? ==> d.file !in actual
  {
    match d
    case Created(f) =>
      CreatedOrRenamed(target, actual, f);
    case Modified(f) =>
      CommonPaths(target, actual, d);
    case MetadataModified(f) =>
      CommonPaths(target, actual, d);
    case Renamed(from, to) =>
      RenamedOnlyWhenSame(target, actual, d);
    case Deleted(f) =>
      DeletedOrRenamed(target, actual, f);
  }

  // ---------------------------------------------------------------------
  // Summary: what a reported diff means, and what the diff covers

  /** Why a diff can be reported for `target` against `actual`. */
  predicate Justified(target: FileMap, actual: FileMap, d: IndexDiff) {
    match d
    case Created(f) => New(target, actual, f)
    case Modified(f) => f in target && f in actual && CompareFinfo(f, target[f], actual[f]) == Some(d)
    case MetadataModified(f) => f in target && f in actual && CompareFinfo(f, target[f], actual[f]) == Some(d)
    case Deleted(f) => Gone(target, actual, f)
    case Renamed(from, to) =>
      Candidate(target, actual, from) && New(target, actual, to) && actual[to].checksum.Some?
      && KeyOf(target[from]) == KeyOf(actual[to])
  }

  /** Every vanished path, every new path and every changed common path is
      reported by some diff. */
  ghost predicate Covers(target: FileMap, actual: FileMap, ds: seq<IndexDiff>) {
    (forall p :: Gone(target, actual, p) ==>
       exists i :: 0 <= i < |ds| && (ds[i] == Deleted(p) || (ds[i].Renamed? && ds[i].from == p)))
    && (forall q :: New(target, actual, q) ==>
       exists i :: 0 <= i < |ds| && (ds[i] == Created(q) || (ds[i].Renamed? && ds[i].to == q)))
    && (forall p :: p in target && p in actual && CompareFinfo(p, target[p], actual[p]).Some? ==>
       CompareFinfo(p, target[p], actual[p]).value in ds)
  }

  lemma DiffJustified(target: FileMap, actual: FileMap)
    ensures forall d :: d in DiffSpec(target, actual) ==> Justified(target, actual, d)
  {
    forall d | d in DiffSpec(target, actual) ensures Justified(target, actual, d) {
      DiffTargetsInActual(target, actual, d);
      match d
      case Created(f) =>
        CreatedOrRenamed(target, actual, f);
      case Modified(f) =>
        CommonPaths(target, actual, d);
      case MetadataModified(f) =>
        CommonPaths(target, actual, d);
      case Renamed(from, to) =>
        RenamedOnlyWhenSame(target, actual, d);
      case Deleted(f) =>
        DeletedOrRenamed(target, actual, f);
    }
  }

  lemma CoversGone(target: FileMap, actual: FileMap, p: string) returns (i: nat)
    requires Gone(target, actual, p)
    ensures i < |DiffSpec(target, actual)|
    ensures DiffSpec(target, actual)[i] == Deleted(p)
         || (DiffSpec(target, actual)[i].Renamed? && DiffSpec(target, actual)[i].from == p)
  {
    var ds := DiffSpec(target, actual);
    DeletedOrRenamed(target, actual, p);
    if Deleted(p) in ds {
      i :| 0 <= i < |ds| && ds[i] == Deleted(p);
    } else {
      var d := SomeRenameFrom(ds, p);
      i :| 0 <= i < |ds| && ds[i] == d;
    }
  }

  lemma CoversNew(target: FileMap, actual: FileMap, q: string) returns (i: nat)
    requires New(target, actual, q)
    ensures i < |DiffSpec(target, actual)|
    ensures DiffSpec(target, actual)[i] == Created(q)
         || (DiffSpec(target, actual)[i].Renamed? && DiffSpec(target, actual)[i].to == q)
  {
    var ds := DiffSpec(target, actual);
    CreatedOrRenamed(target, actual, q);
    if Created(q) in ds {
      i :| 0 <= i < |ds| && ds[i] == Created(q);
    } else {
      var d := SomeRenameTo(ds, q);
      i :| 0 <= i < |ds| && ds[i] == d;
    }
  }

  lemma CoversCommon(target: FileMap, actual: FileMap, p: string)
    requires p in target && p in actual && CompareFinfo(p, target[p], actual[p]).Some?
    ensures CompareFinfo(p, target[p], actual[p]).value in DiffSpec(target, actual)
  {
    CompareFinfoCases(p, target[p], actual[p]);
    CommonPaths(target, actual, CompareFinfo(p, target[p], actual[p]).value);
  }

  lemma DiffCovers(target: FileMap, actual: FileMap)
    ensures Covers(target, actual, DiffSpec(target, actual))
  {
    var ds := DiffSpec(target, actual);
    forall p | Gone(target, actual, p)
      ensures exists i :: 0 <= i < |ds| && (ds[i] == Deleted(p) || (ds[i].Renamed? && ds[i].from == p))
    {
      var i := CoversGone(target, actual, p);
    }
    forall q | New(target, actual, q)
      ensures exists i :: 0 <= i < |ds| && (ds[i] == Created(q) || (ds[i].Renamed? && ds[i].to == q))
    {
      var i := CoversNew(target, actual, q);
    }
    forall p | p in target && p in actual && CompareFinfo(p, target[p], actual[p]).Some?
      ensures CompareFinfo(p, target[p], actual[p]).value in ds
    {
      CoversCommon(target, actual, p);
    }
  }
}
