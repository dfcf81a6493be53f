/** The directory scan of `scripts/generate-metadata.js`, apart from what
    is built from each file. The file system is an input: a directory is its
    listing, and each entry carries what reading the file gives, or nothing
    when reading it fails. */
module Listing {
  import opened Wrappers

  /** What `statSync` and `readFileSync` report for a file; times in
      milliseconds. */
  datatype FileData = FileData(content: string, size: int, birthtime: int, mtime: int)

  /** A directory entry, with its data when the file can be read. */
  datatype DirEntry = DirEntry(filename: string, data: Option<FileData>)

  /** `f` is the record `build` makes for an accepted, readable entry. */
  predicate BuiltFrom<T(==)>(entries: seq<DirEntry>, accept: string -> bool, build: (string, FileData) -> T,
                      f: T) {
    exists j :: 0 <= j < |entries| && accept(entries[j].filename) && entries[j].data.Some?
                && f == build(entries[j].filename, entries[j].data.value)
  }

  /** The records a scan in which no read fails would give: one per accepted
      readable entry, in listing order. */
  function Readable<T(==)>(entries: seq<DirEntry>, accept: string -> bool, build: (string, FileData) -> T): (r: seq<T>)
    ensures |r| <= |entries|
    ensures forall i :: 0 <= i < |r| ==> BuiltFrom(entries, accept, build, r[i])
  {
    if entries == [] then []
    else
      var e := entries[0];
      var rest := Readable(entries[1..], accept, build);
      BuiltFromTail(entries, accept, build, rest);
      var r := (if accept(e.filename) && e.data.Some? then [build(e.filename, e.data.value)] else []) + rest;
      assert accept(e.filename) && e.data.Some? ==> BuiltFrom(entries, accept, build, r[0]) by {
        if accept(e.filename) && e.data.Some? {
          assert r[0] == build(entries[0].filename, entries[0].data.value);
        }
      }
      r
  }

  /** Records built from entries of the tail are built from entries of the
      whole listing. */
  lemma BuiltFromTail<T>(entries: seq<DirEntry>, accept: string -> bool, build: (string, FileData) -> T,
                      rest: seq<T>)
    requires entries != []
    requires forall i :: 0 <= i < |rest| ==> BuiltFrom(entries[1..], accept, build, rest[i])
    ensures forall i :: 0 <= i < |rest| ==> BuiltFrom(entries, accept, build, rest[i])
  {
    forall i | 0 <= i < |rest|
      ensures BuiltFrom(entries, accept, build, rest[i])
    {
      var j :| 0 <= j < |entries[1..]| && accept(entries[1..][j].filename) && entries[1..][j].data.Some?
               && rest[i] == build(entries[1..][j].filename, entries[1..][j].data.value);
      assert entries[1..][j] == entries[j + 1];
    }
  }

  /** No accepted entry of the listing fails to be read. */
  predicate AllReadable(entries: seq<DirEntry>, accept: string -> bool) {
    forall j :: 0 <= j < |entries| && accept(entries[j].filename) ==> entries[j].data.Some?
  }

  /** The loop over one directory inside its `try`: files whose names pass
      `accept` become records in listing order, and the first such file that
      cannot be read ends the loop, dropping the rest of the directory. So
      the records are a prefix of those of a scan without failures, and all
      of them when nothing fails. */
  function Collect<T(==)>(entries: seq<DirEntry>, accept: string -> bool, build: (string, FileData) -> T): (r: seq<T>)
    ensures |r| <= |Readable(entries, accept, build)|
            && r == Readable(entries, accept, build)[..|r|]
    ensures AllReadable(entries, accept) ==> r == Readable(entries, accept, build)
  {
    if entries == [] then []
    else
      var e := entries[0];
      var rest := Collect(entries[1..], accept, build);
      var full := Readable(entries, accept, build);
      var tail := Readable(entries[1..], accept, build);
      assert AllReadable(entries, accept) ==> AllReadable(entries[1..], accept) by {
        if AllReadable(entries, accept) {
          forall j | 0 <= j < |entries[1..]| && accept(entries[1..][j].filename)
            ensures entries[1..][j].data.Some?
          {
            assert entries[1..][j] == entries[j + 1];
          }
        }
      }
      if !accept(e.filename) then
        assert full == tail;
        rest
      else
        match e.data
        case None => []
        case Some(d) =>
          var r := [build(e.filename, d)] + rest;
          assert full == [build(e.filename, d)] + tail;
          assert r == full[..|r|];
          r
  }

  /** An accepted file that cannot be read ends the scan of its directory:
      whatever follows it is ignored. */
  lemma {:induction false} CollectStopsAtUnreadable<T>(before: seq<DirEntry>, e: DirEntry, after: seq<DirEntry>,
                                                    accept: string -> bool, build: (string, FileData) -> T)
    requires accept(e.filename) && e.data.None?
    ensures Collect(before + [e] + after, accept, build) == Collect(before + [e], accept, build)
    decreases |before|
  {
    if before == [] {
      assert ([e] + after)[1..] == after;
      assert ([] + [e] + after)[0] == e;
      assert [] + [e] + after == [e] + after;
      assert [] + [e] == [e];
    } else {
      CollectStopsAtUnreadable(before[1..], e, after, accept, build);
      assert (before + [e] + after)[1..] == before[1..] + [e] + after;
      assert (before + [e])[1..] == before[1..] + [e];
      assert (before + [e] + after)[0] == before[0] == (before + [e])[0];
    }
  }

  /** The records of an accepted file that cannot be read are exactly those
      of the files listed before it, all of which are kept. */
  lemma {:induction false} CollectKeepsBeforeUnreadable<T>(before: seq<DirEntry>, e: DirEntry, after: seq<DirEntry>,
                                                        accept: string -> bool, build: (string, FileData) -> T)
    requires AllReadable(before, accept) && accept(e.filename) && e.data.None?
    ensures Collect(before + [e] + after, accept, build) == Readable(before, accept, build)
    decreases |before|
  {
    var s := before + [e] + after;
    if before == [] {
      assert s == [e] + after;
      assert s[0] == e;
    } else {
      assert AllReadable(before[1..], accept) by {
        forall j | 0 <= j < |before[1..]| && accept(before[1..][j].filename)
          ensures before[1..][j].data.Some?
        {
          assert before[1..][j] == before[j + 1];
        }
      }
      CollectKeepsBeforeUnreadable(before[1..], e, after, accept, build);
      assert s[1..] == before[1..] + [e] + after;
      assert s[0] == before[0];
    }
  }
}
