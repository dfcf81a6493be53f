/** The `id` of a generated record: the tool's name, a dash and the file
    name without its extension (`${ai}-${name}` in
    `scripts/generate-metadata.js`). */
module RecordIds {
  import opened Metadata

  function RecordId(ai: Ai, stem: string): string {
    AiName(ai) + "-" + stem
  }

  /** Two ids are equal exactly when tool and stem are. */
  lemma RecordIdInjective(ai1: Ai, stem1: string, ai2: Ai, stem2: string)
    ensures RecordId(ai1, stem1) == RecordId(ai2, stem2) <==> ai1 == ai2 && stem1 == stem2
  {
    var id1 := RecordId(ai1, stem1);
    var id2 := RecordId(ai2, stem2);
    var p1 := AiName(ai1) + "-";
    var p2 := AiName(ai2) + "-";
    assert id1 == p1 + stem1 && id2 == p2 + stem2;
    assert |p1| == |p2| == 7;
    if id1 == id2 {
      assert id1[..7] == p1 && id2[..7] == p2;
      assert AiName(ai1) == p1[..6] == p2[..6] == AiName(ai2);
      AiNameInjective(ai1, ai2);
      assert id1[7..] == stem1 && id2[7..] == stem2;
    }
  }
}

/** `generateMetadata` in `scripts/generate-metadata.js`: scans the two
    reference directories, builds one record per recognised file and orders
    the records newest first. A directory that cannot be listed is
    absent. */
module Generator {
  import opened Wrappers
  import opened Strings
  import opened Seqs
  import opened Sorting
  import opened Metadata
  import opened RecordIds
  import opened TitleFormat
  import opened ReactExtract
  import opened HtmlExtract
  import opened Listing

  predicate IsReactFile(filename: string) {
    EndsWith(filename, ".tsx") || EndsWith(filename, ".jsx")
  }

  predicate IsHtmlFile(filename: string) {
    EndsWith(filename, ".html")
  }

  /** The files the scan of each tool's directory picks up. */
  predicate Accepts(ai: Ai, filename: string) {
    match ai
    case Claude => IsReactFile(filename)
    case Gemini => IsHtmlFile(filename)
  }

  /** The kind of artifact each tool produces. */
  function KindOf(ai: Ai): FileKind {
    match ai
    case Claude => React
    case Gemini => Html
  }

  /** The record built for one readable file of `ai`'s directory. */
  function BuildRecord(ai: Ai, filename: string, data: FileData): (r: FileMetadata)
    ensures r.filename == filename && r.ai == ai && r.kind == KindOf(ai)
    ensures r.createdAt == data.birthtime && r.updatedAt == data.mtime && r.size == data.size
    ensures r.id == RecordId(ai, Stem(filename))
    ensures ai == Claude ==>
              && r.title == ExtractTitle(data.content, filename)
              && r.description == Some(ExtractDescription(data.content))
              && r.dependencies == Some(ExtractDependencies(data.content))
              && r.tags == GenerateTags(data.content, filename)
    ensures ai == Gemini ==>
              && r.title == ExtractHtmlTitle(data.content, filename)
              && r.description == Some(ExtractHtmlDescription(data.content))
              && r.dependencies == Some(ExtractHtmlDependencies(data.content))
              && r.tags == GenerateHtmlTags(data.content, filename)
  {
    var content := data.content;
    if ai == Claude then
      Assemble(ai, filename, data, ExtractTitle(content, filename), ExtractDescription(content),
               ExtractDependencies(content), GenerateTags(content, filename))
    else
      Assemble(ai, filename, data, ExtractHtmlTitle(content, filename), ExtractHtmlDescription(content),
               ExtractHtmlDependencies(content), GenerateHtmlTags(content, filename))
  }

  /** The object literal pushed for a file, from what the extractors
      found. */
  function Assemble(ai: Ai, filename: string, data: FileData, title: string, description: string,
                    dependencies: seq<string>, tags: seq<string>): (r: FileMetadata)
    ensures r.filename == filename && r.ai == ai && r.kind == KindOf(ai)
    ensures r.createdAt == data.birthtime && r.updatedAt == data.mtime && r.size == data.size
    ensures r.id == RecordId(ai, Stem(filename))
    ensures r.title == title && r.description == Some(description) && r.tags == tags
            && r.dependencies == Some(dependencies)
    ensures r.path == "/references/" + AiName(ai) + "/" + filename
    ensures r.searchText == Some(title + " " + description + " " + Join(tags, " "))
  {
    FileMetadata(
      RecordId(ai, Stem(filename)), filename, "/references/" + AiName(ai) + "/" + filename, ai, KindOf(ai),
      title, Some(description), tags, data.birthtime, data.mtime, Some(dependencies), data.size,
      Some(title + " " + description + " " + Join(tags, " ")))
  }

  /** The file names the scan of `ai`'s directory picks up. */
  function Acceptor(ai: Ai): string -> bool {
    (filename: string) => Accepts(ai, filename)
  }

  /** `build` for the files of `ai`'s directory. */
  function Builder(ai: Ai): (string, FileData) -> FileMetadata {
    (filename: string, data: FileData) => BuildRecord(ai, filename, data)
  }

  /** A directory that cannot be listed contributes nothing. */
  function GroupRecords(group: Option<seq<DirEntry>>, ai: Ai): (r: seq<FileMetadata>)
    ensures group.None? ==> r == []
    ensures group.Some? ==> r == Collect(group.value, Acceptor(ai), Builder(ai))
  {
    match group
    case None => []
    case Some(entries) => Collect(entries, Acceptor(ai), Builder(ai))
  }

  /** `(a, b) => new Date(b.updatedAt) - new Date(a.updatedAt)`. */
  function NewestFirst(): (cmp: (FileMetadata, FileMetadata) -> int)
    ensures forall a, b :: cmp(a, b) <= 0 <==> a.updatedAt >= b.updatedAt
    ensures forall a, b :: cmp(a, b) == 0 <==> a.updatedAt == b.updatedAt
  {
    (a: FileMetadata, b: FileMetadata) => b.updatedAt - a.updatedAt
  }

  lemma NewestFirstConsistent()
    ensures Consistent(NewestFirst())
  {
    var cmp := NewestFirst();
    forall a, b ensures Sign(cmp(a, b)) == -Sign(cmp(b, a)) {
      assert cmp(a, b) == b.updatedAt - a.updatedAt && cmp(b, a) == a.updatedAt - b.updatedAt;
    }
  }

  /** The records of both directories, before sorting. */
  function Collected(claude: Option<seq<DirEntry>>, gemini: Option<seq<DirEntry>>): seq<FileMetadata> {
    GroupRecords(claude, Claude) + GroupRecords(gemini, Gemini)
  }

  /** `generateMetadata`, without writing the file: version `1.0.0`, the
      time of the run, and the records sorted newest first (stably, so
      records with the same modification time keep the scan order). */
  function GenerateMetadata(claude: Option<seq<DirEntry>>, gemini: Option<seq<DirEntry>>, now: string): (r: MetadataFile)
    ensures r.version == "1.0.0" && r.lastUpdated == now
    ensures multiset(r.files) == multiset(Collected(claude, gemini))
    ensures forall i, j :: 0 <= i < j < |r.files| ==> r.files[i].updatedAt >= r.files[j].updatedAt
    ensures forall x :: Filter(r.files, Tied(NewestFirst(), x)) == Filter(Collected(claude, gemini), Tied(NewestFirst(), x))
  {
    NewestFirstConsistent();
    var files := SortBy(Collected(claude, gemini), NewestFirst());
    assert forall i, j :: 0 <= i < j < |files| ==> NewestFirst()(files[i], files[j]) <= 0;
    MetadataFile("1.0.0", now, files)
  }

  /** A record of a file the scan of its tool's directory picks up, of
      that tool's kind. */
  predicate Recognised(f: FileMetadata) {
    f.kind == KindOf(f.ai) && Accepts(f.ai, f.filename)
  }

  /** Every generated record is a recognised file of its tool's directory,
      of that tool's kind. */
  lemma GeneratedKinds(claude: Option<seq<DirEntry>>, gemini: Option<seq<DirEntry>>, now: string)
    ensures forall f :: f in GenerateMetadata(claude, gemini, now).files ==>
              && (f.ai == Claude ==> f.kind == React && IsReactFile(f.filename))
              && (f.ai == Gemini ==> f.kind == Html && IsHtmlFile(f.filename))
  {
    var files := GenerateMetadata(claude, gemini, now).files;
    CollectedKinds(claude, gemini);
    forall f | f in files
      ensures (f.ai == Claude ==> f.kind == React && IsReactFile(f.filename))
              && (f.ai == Gemini ==> f.kind == Html && IsHtmlFile(f.filename))
    {
      assert f in multiset(files);
      assert f in Collected(claude, gemini);
      assert Recognised(f);
    }
  }

  /** The records of both directories are recognised files. */
  lemma CollectedKinds(claude: Option<seq<DirEntry>>, gemini: Option<seq<DirEntry>>)
    ensures forall f :: f in Collected(claude, gemini) ==> Recognised(f)
  {
    GroupRecordKinds(claude, Claude);
    GroupRecordKinds(gemini, Gemini);
  }

  /** The records of a directory are recognised files of its tool. */
  lemma GroupRecordKinds(group: Option<seq<DirEntry>>, ai: Ai)
    ensures forall f :: f in GroupRecords(group, ai) ==> f.ai == ai && Recognised(f)
  {
    var r := GroupRecords(group, ai);
    forall f | f in r ensures f.ai == ai && Recognised(f) {
      var entries := group.value;
      var n :| 0 <= n < |r| && r[n] == f;
      assert f == Readable(entries, Acceptor(ai), Builder(ai))[n];
      assert BuiltFrom(entries, Acceptor(ai), Builder(ai), f);
      var j :| 0 <= j < |entries| && Acceptor(ai)(entries[j].filename) && entries[j].data.Some?
               && f == Builder(ai)(entries[j].filename, entries[j].data.value);
      var e := entries[j];
      assert Acceptor(ai)(e.filename) == Accepts(ai, e.filename);
      assert Builder(ai)(e.filename, e.data.value) == BuildRecord(ai, e.filename, e.data.value);
    }
  }

  /** Record ids drop the extension: a `.tsx` and a `.jsx` file with the same
      stem get the same id. */
  lemma ReactIdsCollide(stem: string, d1: FileData, d2: FileData)
    requires stem != [] && stem + ".tsx" != ".." && stem + ".jsx" != ".."
    ensures BuildRecord(Claude, stem + ".tsx", d1).id == BuildRecord(Claude, stem + ".jsx", d2).id
  {
    SameStemAcrossExtensions(stem, ".tsx", ".jsx");
  }

  /** Two records have the same id exactly when they come from the same
      tool and their file names have the same stem. */
  lemma IdsIdentifyToolAndStem(ai1: Ai, f1: string, d1: FileData, ai2: Ai, f2: string, d2: FileData)
    ensures BuildRecord(ai1, f1, d1).id == BuildRecord(ai2, f2, d2).id <==> ai1 == ai2 && Stem(f1) == Stem(f2)
  {
    RecordIdInjective(ai1, Stem(f1), ai2, Stem(f2));
  }
}
