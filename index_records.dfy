/** index.h / index.cc: the in-memory index of the C++ tool, a list of
    records in the order they were added, and the set of their paths. */
module IndexRecords {
  import opened Text
  import opened ChecksumCodec

  /** `IndexRecord`: a relative path, a size in bytes and the checksums of
      the content, in the order they were written. */
  datatype IndexRecord = IndexRecord(path: string, size: u64, checksums: seq<Checksum>)

  /** Every checksum of the record has the size of its type. */
  predicate ValidRecord(r: IndexRecord) {
    forall j :: 0 <= j < |r.checksums| ==> Valid(r.checksums[j])
  }

  /** The paths of a list of records. */
  function PathsOf(entries: seq<IndexRecord>): set<string> {
    if entries == [] then {}
    else PathsOf(entries[..|entries| - 1]) + {entries[|entries| - 1].path}
  }

  /** A path is in the set exactly when some record carries it. */
  lemma {:induction false} PathsOfMembers(entries: seq<IndexRecord>, p: string)
    ensures p in PathsOf(entries) <==> exists i :: 0 <= i < |entries| && entries[i].path == p
    decreases |entries|
  {
    if entries != [] {
      var init := entries[..|entries| - 1];
      PathsOfMembers(init, p);
      if p in PathsOf(init) {
        var i :| 0 <= i < |init| && init[i].path == p;
        assert entries[i] == init[i];
      }
      if exists i :: 0 <= i < |entries| && entries[i].path == p {
        var i :| 0 <= i < |entries| && entries[i].path == p;
        if i < |init| {
          assert init[i] == entries[i];
        }
      }
    }
  }

  /** Duplicate paths collapse: there are never more paths than records. */
  lemma {:induction false} PathsOfSize(entries: seq<IndexRecord>)
    ensures |PathsOf(entries)| <= |entries|
    decreases |entries|
  {
    if entries != [] {
      var init := entries[..|entries| - 1];
      PathsOfSize(init);
      assert |PathsOf(init) + {entries[|entries| - 1].path}| <= |PathsOf(init)| + 1;
    }
  }

  /** `Index`: the records read so far. */
  class Index {
    var entries: seq<IndexRecord>

    constructor ()
      ensures entries == []
    {
      entries := [];
    }

    /** `index_add`: the record goes at the end; the records before it are
        untouched. */
    method Add(entry: IndexRecord)
      modifies this
      ensures entries == old(entries) + [entry]
      ensures |entries| == |old(entries)| + 1 && entries[..|old(entries)|] == old(entries)
    {
      entries := entries + [entry];
    }

    /** `index_build_path_set`: the paths of the records, inserted one
        record at a time. */
    method BuildPathSet() returns (paths: set<string>)
      ensures paths == PathsOf(entries)
    {
      paths := {};
      for i := 0 to |entries|
        invariant paths == PathsOf(entries[..i])
      {
        assert entries[..i + 1][..i] == entries[..i];
        paths := paths + {entries[i].path};
      }
      assert entries[..|entries|] == entries;
    }
  }
}
