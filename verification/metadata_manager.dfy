/** The runtime query engine over the metadata index
    (`src/utils/metadataManager.ts`): the single-slot index cache, text search,
    multi-criterion filtering, sorting, tag and dependency aggregation, and
    first-match lookups. */
module MetadataManager {
  import opened Wrappers
  import opened Strings
  import opened Seqs
  import opened Sorting
  import opened Metadata

  // ---------------------------------------------------------------------
  // Loading and the index cache
  // ---------------------------------------------------------------------

  /** What `response.json()` yields: nothing usable, or a document whose
      `version` may be missing (or falsy) and whose `files` may not be an
      array. */
  datatype JsonBody =
    | Unparseable
    | Parsed(version: Option<string>, lastUpdated: string, files: Option<seq<FileMetadata>>)

  /** The outcome of fetching the index document. */
  datatype FetchOutcome = NetworkError | Response(status: int, body: JsonBody)

  /** The cache slot after a load, what the load returned, and whether it
      fetched. */
  datatype LoadOutcome = LoadOutcome(cache: Option<MetadataFile>, result: Result<MetadataFile>, fetched: bool)

  /** Every load failure is reported with this one message. */
  const LoadErrorMessage: string := "Failed to load file metadata"

  /** `response.ok`. */
  predicate ResponseOk(status: int) {
    200 <= status <= 299
  }

  /** A successful response whose document has a non-empty version and an
      array of files. */
  predicate LoadsIndex(fetch: FetchOutcome) {
    && fetch.Response?
    && ResponseOk(fetch.status)
    && fetch.body.Parsed?
    && fetch.body.version.Some? && fetch.body.version.value != ""
    && fetch.body.files.Some?
  }

  /** `loadMetadata`: a filled cache answers without fetching; otherwise
      `fetch` is consulted, and only a valid document is cached. */
  function LoadMetadata(cache: Option<MetadataFile>, fetch: FetchOutcome): (out: LoadOutcome)
    ensures cache.Some? ==> out == LoadOutcome(cache, Ok(cache.value), false)
    ensures cache.None? ==> out.fetched
    ensures cache.None? ==> (out.result.Ok? <==> LoadsIndex(fetch))
    ensures out.result.Err? ==> out.cache == cache && out.result.message == LoadErrorMessage
    ensures out.result.Ok? ==> out.cache == Some(out.result.value)
    ensures out.cache != cache ==>
              && cache.None? && LoadsIndex(fetch)
              && out.cache == Some(MetadataFile(fetch.body.version.value, fetch.body.lastUpdated, fetch.body.files.value))
  {
    if cache.Some? then LoadOutcome(cache, Ok(cache.value), false)
    else if !fetch.Response? || !ResponseOk(fetch.status) then LoadOutcome(cache, Err(LoadErrorMessage), true)
    else if fetch.body.Unparseable? then LoadOutcome(cache, Err(LoadErrorMessage), true)
    else if fetch.body.version.None? || fetch.body.version.value == "" || fetch.body.files.None? then
      LoadOutcome(cache, Err(LoadErrorMessage), true)
    else
      var index := MetadataFile(fetch.body.version.value, fetch.body.lastUpdated, fetch.body.files.value);
      LoadOutcome(Some(index), Ok(index), true)
  }

  /** `clearMetadataCache`. */
  function ClearMetadataCache(cache: Option<MetadataFile>): (r: Option<MetadataFile>)
    ensures r.None?
  {
    None
  }

  /** A second load returns the value of the first without fetching, whatever
      the network would answer. */
  lemma LoadTwiceUsesCache(cache: Option<MetadataFile>, first: FetchOutcome, second: FetchOutcome)
    requires LoadMetadata(cache, first).result.Ok?
    ensures var one := LoadMetadata(cache, first);
            var two := LoadMetadata(one.cache, second);
            two.result == one.result && !two.fetched && two.cache == one.cache
  {
  }

  /** After clearing, a load fetches again and a valid document replaces the
      previous index even when it is unchanged. */
  lemma ClearForcesReload(cache: Option<MetadataFile>, fetch: FetchOutcome)
    requires LoadsIndex(fetch)
    ensures var out := LoadMetadata(ClearMetadataCache(cache), fetch);
            out.fetched && out.result.Ok?
            && out.cache == Some(MetadataFile(fetch.body.version.value, fetch.body.lastUpdated, fetch.body.files.value))
  {
  }

  // ---------------------------------------------------------------------
  // Search
  // ---------------------------------------------------------------------

  /** The query as it is compared: lowercased, then trimmed. */
  function NormalizeQuery(query: string): string {
    Trim(Lower(query))
  }

  /** Some field of `f`, lowercased, contains the normalized query `q`: the
      title, the description, the filename, a tag, a dependency or the
      search text. */
  function MatchesQuery(f: FileMetadata, q: string): (b: bool)
    ensures q == [] ==> b
    ensures (exists k :: 0 <= k < |q| && IsUpper(q[k])) ==> !b
  {
    assert q == [] ==> OccursAt(Lower(f.title), q, 0);
    NoUpperInLowered(q);
    || Contains(Lower(f.title), q)
    || (f.description.Some? && Contains(Lower(f.description.value), q))
    || Contains(Lower(f.filename), q)
    || (exists i :: 0 <= i < |f.tags| && Contains(Lower(f.tags[i]), q))
    || (f.dependencies.Some?
        && exists i :: 0 <= i < |f.dependencies.value| && Contains(Lower(f.dependencies.value[i]), q))
    || (f.searchText.Some? && Contains(Lower(f.searchText.value), q))
  }

  /** Lowercased text contains no query with a capital letter. */
  lemma NoUpperInLowered(q: string)
    ensures (exists k :: 0 <= k < |q| && IsUpper(q[k])) ==> forall s :: !Contains(Lower(s), q)
  {
    if k :| 0 <= k < |q| && IsUpper(q[k]) {
      forall s, i ensures !OccursAt(Lower(s), q, i) {
        if 0 <= i && i + |q| <= |Lower(s)| {
          assert !IsUpper(Lower(s)[i..i + |q|][k]);
        }
      }
    }
  }

  /** `searchFiles`: the input itself for a blank query, otherwise the records
      matching the query, in input order. */
  function SearchFiles(files: seq<FileMetadata>, query: string): (r: seq<FileMetadata>)
    ensures AllWhitespace(query) ==> r == files
    ensures IsSubsequence(r, files)
    ensures !AllWhitespace(query) ==>
              forall f {:trigger multiset(r)[f]} ::
                multiset(r)[f] == if MatchesQuery(f, NormalizeQuery(query)) then multiset(files)[f] else 0
    ensures forall f :: f in r <==> f in files && (AllWhitespace(query) || MatchesQuery(f, NormalizeQuery(query)))
  {
    if query == "" || Trim(query) == "" then
      SubsequenceRefl(files);
      files
    else
      var q := NormalizeQuery(query);
      Filter(files, f => MatchesQuery(f, q))
  }

  lemma AllWhitespaceLower(s: string)
    ensures AllWhitespace(Lower(s)) <==> AllWhitespace(s)
  {
    forall i | 0 <= i < |s| ensures IsWhitespace(Lower(s)[i]) <==> IsWhitespace(s[i]) {
    }
  }

  /** Search ignores the letter case of the query: `search(C, "REACT")` and
      `search(C, "react")` agree. */
  lemma SearchCaseInsensitive(files: seq<FileMetadata>, q1: string, q2: string)
    requires Lower(q1) == Lower(q2)
    ensures SearchFiles(files, q1) == SearchFiles(files, q2)
  {
    AllWhitespaceLower(q1);
    AllWhitespaceLower(q2);
    assert NormalizeQuery(q1) == NormalizeQuery(q2);
  }

  // ---------------------------------------------------------------------
  // Filtering
  // ---------------------------------------------------------------------

  /** Some requested tag equals some tag of `f`, ignoring case. */
  predicate TagsMatch(f: FileMetadata, wanted: seq<string>) {
    exists i, j :: 0 <= i < |wanted| && 0 <= j < |f.tags| && Lower(f.tags[j]) == Lower(wanted[i])
  }

  /** `f` lists dependencies and one of them equals a requested one, ignoring
      case. */
  predicate DependenciesMatch(f: FileMetadata, wanted: seq<string>) {
    && f.dependencies.Some?
    && exists i, j :: 0 <= i < |wanted| && 0 <= j < |f.dependencies.value|
                      && Lower(f.dependencies.value[j]) == Lower(wanted[i])
  }

  predicate TagCriterionActive(o: FilterOptions) {
    o.tags.Some? && |o.tags.value| > 0
  }

  predicate DependencyCriterionActive(o: FilterOptions) {
    o.dependencies.Some? && |o.dependencies.value| > 0
  }

  /** `f` meets every criterion present in `o`; both date bounds are
      inclusive. */
  predicate SatisfiesFilters(f: FileMetadata, o: FilterOptions) {
    && (o.ai.Some? ==> f.ai == o.ai.value)
    && (TagCriterionActive(o) ==> TagsMatch(f, o.tags.value))
    && (o.startDate.Some? ==> f.createdAt >= o.startDate.value)
    && (o.endDate.Some? ==> f.createdAt <= o.endDate.value)
    && (DependencyCriterionActive(o) ==> DependenciesMatch(f, o.dependencies.value))
  }

  /** No criterion constrains anything. */
  predicate NoCriteria(o: FilterOptions) {
    o.ai.None? && !TagCriterionActive(o) && o.startDate.None? && o.endDate.None? && !DependencyCriterionActive(o)
  }

  /** The tool stage of `filterFiles`. */
  function FilterByAi(s: seq<FileMetadata>, o: FilterOptions): (r: seq<FileMetadata>)
    ensures IsSubsequence(r, s)
    ensures o.ai.None? ==> r == s
    ensures forall f {:trigger multiset(r)[f]} ::
              multiset(r)[f] == if o.ai.None? || f.ai == o.ai.value then multiset(s)[f] else 0
  {
    if o.ai.Some? then Filter(s, (f: FileMetadata) => f.ai == o.ai.value)
    else SubsequenceRefl(s); s
  }

  /** The tag stage of `filterFiles`. */
  function FilterByTags(s: seq<FileMetadata>, o: FilterOptions): (r: seq<FileMetadata>)
    ensures IsSubsequence(r, s)
    ensures !TagCriterionActive(o) ==> r == s
    ensures forall f {:trigger multiset(r)[f]} ::
              multiset(r)[f] == if !TagCriterionActive(o) || TagsMatch(f, o.tags.value) then multiset(s)[f] else 0
  {
    if TagCriterionActive(o) then Filter(s, (f: FileMetadata) => TagsMatch(f, o.tags.value))
    else SubsequenceRefl(s); s
  }

  /** The start-date stage of `filterFiles` (inclusive bound). */
  function FilterByStart(s: seq<FileMetadata>, o: FilterOptions): (r: seq<FileMetadata>)
    ensures IsSubsequence(r, s)
    ensures o.startDate.None? ==> r == s
    ensures forall f {:trigger multiset(r)[f]} ::
              multiset(r)[f] == if o.startDate.None? || f.createdAt >= o.startDate.value then multiset(s)[f] else 0
  {
    if o.startDate.Some? then Filter(s, (f: FileMetadata) => f.createdAt >= o.startDate.value)
    else SubsequenceRefl(s); s
  }

  /** The end-date stage of `filterFiles` (inclusive bound). */
  function FilterByEnd(s: seq<FileMetadata>, o: FilterOptions): (r: seq<FileMetadata>)
    ensures IsSubsequence(r, s)
    ensures o.endDate.None? ==> r == s
    ensures forall f {:trigger multiset(r)[f]} ::
              multiset(r)[f] == if o.endDate.None? || f.createdAt <= o.endDate.value then multiset(s)[f] else 0
  {
    if o.endDate.Some? then Filter(s, (f: FileMetadata) => f.createdAt <= o.endDate.value)
    else SubsequenceRefl(s); s
  }

  /** The dependency stage of `filterFiles`. */
  function FilterByDependencies(s: seq<FileMetadata>, o: FilterOptions): (r: seq<FileMetadata>)
    ensures IsSubsequence(r, s)
    ensures !DependencyCriterionActive(o) ==> r == s
    ensures forall f {:trigger multiset(r)[f]} ::
              multiset(r)[f] == if !DependencyCriterionActive(o) || DependenciesMatch(f, o.dependencies.value)
                                then multiset(s)[f] else 0
  {
    if DependencyCriterionActive(o) then Filter(s, (f: FileMetadata) => DependenciesMatch(f, o.dependencies.value))
    else SubsequenceRefl(s); s
  }

  /** `filterFiles`: the records meeting every present criterion, in input
      order. The stages run in the order of the original: tool, tags, start
      date, end date, dependencies. */
  function FilterFiles(files: seq<FileMetadata>, o: FilterOptions): (r: seq<FileMetadata>)
    ensures IsSubsequence(r, files)
    ensures forall f {:trigger multiset(r)[f]} ::
              multiset(r)[f] == if SatisfiesFilters(f, o) then multiset(files)[f] else 0
    ensures forall f :: f in r <==> f in files && SatisfiesFilters(f, o)
    ensures NoCriteria(o) ==> r == files
  {
    var s1 := FilterByAi(files, o);
    var s2 := FilterByTags(s1, o);
    var s3 := FilterByStart(s2, o);
    var s4 := FilterByEnd(s3, o);
    var s5 := FilterByDependencies(s4, o);
    SubsequenceTransitive(s2, s1, files);
    SubsequenceTransitive(s3, s2, files);
    SubsequenceTransitive(s4, s3, files);
    SubsequenceTransitive(s5, s4, files);
    FilterChain(files, s1, s2, s3, s4, s5, o);
    s5
  }

  /** The five stages of `FilterFiles` together keep exactly the records
      meeting every criterion. */
  lemma FilterChain(files: seq<FileMetadata>, s1: seq<FileMetadata>, s2: seq<FileMetadata>,
                    s3: seq<FileMetadata>, s4: seq<FileMetadata>, s5: seq<FileMetadata>, o: FilterOptions)
    requires forall f {:trigger multiset(s1)[f]} ::
               multiset(s1)[f] == if o.ai.None? || f.ai == o.ai.value then multiset(files)[f] else 0
    requires forall f {:trigger multiset(s2)[f]} ::
               multiset(s2)[f] == if !TagCriterionActive(o) || TagsMatch(f, o.tags.value) then multiset(s1)[f] else 0
    requires forall f {:trigger multiset(s3)[f]} ::
               multiset(s3)[f] == if o.startDate.None? || f.createdAt >= o.startDate.value then multiset(s2)[f] else 0
    requires forall f {:trigger multiset(s4)[f]} ::
               multiset(s4)[f] == if o.endDate.None? || f.createdAt <= o.endDate.value then multiset(s3)[f] else 0
    requires forall f {:trigger multiset(s5)[f]} ::
               multiset(s5)[f] == if !DependencyCriterionActive(o) || DependenciesMatch(f, o.dependencies.value)
                                  then multiset(s4)[f] else 0
    ensures forall f {:trigger multiset(s5)[f]} ::
              multiset(s5)[f] == if SatisfiesFilters(f, o) then multiset(files)[f] else 0
    ensures forall f :: f in s5 <==> f in files && SatisfiesFilters(f, o)
  {
    forall f ensures multiset(s5)[f] == if SatisfiesFilters(f, o) then multiset(files)[f] else 0 {
      assert multiset(s5)[f] == if SatisfiesFilters(f, o) then multiset(files)[f] else 0;
    }
    forall f ensures f in s5 <==> f in files && SatisfiesFilters(f, o) {
      assert f in s5 <==> multiset(s5)[f] > 0;
      assert f in files <==> multiset(files)[f] > 0;
    }
  }

  /** Within the tag criterion the requested tags are alternatives: one shared
      tag is enough. */
  lemma TagFilterIsDisjunctive(f: FileMetadata, wanted: seq<string>, i: int)
    requires 0 <= i < |wanted| && wanted[i] in f.tags
    ensures TagsMatch(f, wanted)
  {
    var j :| 0 <= j < |f.tags| && f.tags[j] == wanted[i];
  }

  // ---------------------------------------------------------------------
  // Sorting
  // ---------------------------------------------------------------------

  /** `direction === 'asc' ? 1 : -1`. */
  function Multiplier(d: SortDirection): int {
    if d == Asc then 1 else -1
  }

  /** The comparator handed to `sort`. Under `ai`, records of the same tool
      are ordered by filename with the same multiplier as the tool order. */
  function CompareFiles(a: FileMetadata, b: FileMetadata, cfg: SortConfig): (r: int)
    ensures r == 0 <==>
              match cfg.sortBy
              case ByName => a.filename == b.filename
              case ByDate => a.createdAt == b.createdAt
              case BySize => a.size == b.size
              case ByAi => a.ai == b.ai && a.filename == b.filename
  {
    AiNameInjective(a.ai, b.ai);
    var m := Multiplier(cfg.direction);
    match cfg.sortBy
    case ByName => LexCompare(a.filename, b.filename) * m
    case ByDate => (a.createdAt - b.createdAt) * m
    case BySize => (a.size - b.size) * m
    case ByAi =>
      var aiCompare := LexCompare(AiName(a.ai), AiName(b.ai));
      if aiCompare != 0 then aiCompare * m
      else LexCompare(a.filename, b.filename) * m
  }

  function FileOrder(cfg: SortConfig): (FileMetadata, FileMetadata) -> int {
    (a: FileMetadata, b: FileMetadata) => CompareFiles(a, b, cfg)
  }

  /** `claude` sorts before `gemini`. */
  lemma AiNameOrder(a: Ai, b: Ai)
    ensures LexCompare(AiName(a), AiName(b)) == (if a == b then 0 else if a == Claude then -1 else 1)
  {
    if a != b {
      assert AiName(Claude)[0] == 'c' && AiName(Gemini)[0] == 'g';
    }
  }

  lemma CompareFilesAntisymmetric(a: FileMetadata, b: FileMetadata, cfg: SortConfig)
    ensures Sign(CompareFiles(a, b, cfg)) == -Sign(CompareFiles(b, a, cfg))
  {
    LexCompareAntisymmetric(a.filename, b.filename);
    AiNameOrder(a.ai, b.ai);
    AiNameOrder(b.ai, a.ai);
  }

  lemma CompareFilesTransitive(a: FileMetadata, b: FileMetadata, c: FileMetadata, cfg: SortConfig)
    requires CompareFiles(a, b, cfg) <= 0 && CompareFiles(b, c, cfg) <= 0
    ensures CompareFiles(a, c, cfg) <= 0
  {
    LexCompareAntisymmetric(a.filename, b.filename);
    LexCompareAntisymmetric(b.filename, c.filename);
    LexCompareAntisymmetric(a.filename, c.filename);
    AiNameOrder(a.ai, b.ai);
    AiNameOrder(b.ai, c.ai);
    AiNameOrder(a.ai, c.ai);
    if cfg.direction == Asc {
      if LexCompare(a.filename, b.filename) <= 0 && LexCompare(b.filename, c.filename) <= 0 {
        LexCompareTransitive(a.filename, b.filename, c.filename);
      }
    } else {
      if LexCompare(c.filename, b.filename) <= 0 && LexCompare(b.filename, a.filename) <= 0 {
        LexCompareTransitive(c.filename, b.filename, a.filename);
      }
    }
  }

  /** Every sort configuration yields a consistent comparator. */
  lemma FileOrderConsistent(cfg: SortConfig)
    ensures Consistent(FileOrder(cfg))
  {
    var cmp := FileOrder(cfg);
    forall a, b ensures Sign(cmp(a, b)) == -Sign(cmp(b, a)) {
      CompareFilesAntisymmetric(a, b, cfg);
    }
    forall a, b, c | cmp(a, b) <= 0 && cmp(b, c) <= 0 ensures cmp(a, c) <= 0 {
      CompareFilesTransitive(a, b, c, cfg);
    }
  }

  /** `sortFiles`: a permutation of the input ordered by the configured key
      and direction; records with equal keys keep their input order. */
  function SortFiles(files: seq<FileMetadata>, cfg: SortConfig): (r: seq<FileMetadata>)
    ensures multiset(r) == multiset(files)
    ensures Sorted(r, FileOrder(cfg))
    ensures forall x :: Filter(r, Tied(FileOrder(cfg), x)) == Filter(files, Tied(FileOrder(cfg), x))
  {
    FileOrderConsistent(cfg);
    SortBy(files, FileOrder(cfg))
  }

  /** What the order of `SortFiles` means for each key. */
  lemma SortFilesKeyOrder(files: seq<FileMetadata>, cfg: SortConfig, i: int, j: int)
    requires 0 <= i < j < |SortFiles(files, cfg)|
    ensures var r := SortFiles(files, cfg);
            match cfg.sortBy
            case ByName =>
              if cfg.direction == Asc then LexCompare(r[i].filename, r[j].filename) <= 0
              else LexCompare(r[j].filename, r[i].filename) <= 0
            case ByDate =>
              if cfg.direction == Asc then r[i].createdAt <= r[j].createdAt else r[i].createdAt >= r[j].createdAt
            case BySize =>
              if cfg.direction == Asc then r[i].size <= r[j].size else r[i].size >= r[j].size
            case ByAi =>
              && (cfg.direction == Asc ==> r[i].ai == r[j].ai || (r[i].ai == Claude && r[j].ai == Gemini))
              && (cfg.direction == Desc ==> r[i].ai == r[j].ai || (r[i].ai == Gemini && r[j].ai == Claude))
              && (r[i].ai == r[j].ai ==>
                    if cfg.direction == Asc then LexCompare(r[i].filename, r[j].filename) <= 0
                    else LexCompare(r[j].filename, r[i].filename) <= 0)
  {
    var r := SortFiles(files, cfg);
    assert FileOrder(cfg)(r[i], r[j]) <= 0;
    LexCompareAntisymmetric(r[i].filename, r[j].filename);
    AiNameOrder(r[i].ai, r[j].ai);
  }

  /** No two records share a size. */
  predicate DistinctSizes(files: seq<FileMetadata>) {
    forall i, j :: 0 <= i < j < |files| ==> files[i].size != files[j].size
  }

  /** With distinct sizes, sorting by size descending gives the reverse of
      sorting by size ascending. */
  lemma SizeSortReverses(files: seq<FileMetadata>)
    requires DistinctSizes(files)
    ensures SortFiles(files, SortConfig(BySize, Desc)) == Reverse(SortFiles(files, SortConfig(BySize, Asc)))
  {
    var asc := SortFiles(files, SortConfig(BySize, Asc));
    var desc := SortFiles(files, SortConfig(BySize, Desc));
    var up := FileOrder(SortConfig(BySize, Asc));
    var down := FileOrder(SortConfig(BySize, Desc));
    FileOrderConsistent(SortConfig(BySize, Desc));
    ReverseSorted(asc, up, down);
    ReverseMultiset(asc);
    assert NoTies(files, down);
    NoTiesPermutation(files, desc, down);
    SortedUnique(desc, Reverse(asc), down);
  }

  // ---------------------------------------------------------------------
  // Aggregation
  // ---------------------------------------------------------------------

  /** `Array.prototype.sort` without a comparator: code-point order. */
  function StringOrder(): (string, string) -> int {
    (a: string, b: string) => LexCompare(a, b)
  }

  lemma StringOrderConsistent()
    ensures Consistent(StringOrder())
  {
    var cmp := StringOrder();
    forall a, b ensures Sign(cmp(a, b)) == -Sign(cmp(b, a)) {
      LexCompareAntisymmetric(a, b);
    }
    forall a, b, c | cmp(a, b) <= 0 && cmp(b, c) <= 0 ensures cmp(a, c) <= 0 {
      LexCompareTransitive(a, b, c);
    }
  }

  /** `Array.from(new Set(xs)).sort()`: the distinct strings of `xs` in
      strictly increasing order. */
  function SortedDistinct(xs: seq<string>): (r: seq<string>)
    ensures StrictlySorted(r)
    ensures forall t :: t in r <==> t in xs
  {
    var d := Dedup(xs);
    StringOrderConsistent();
    var r := SortBy(d, StringOrder());
    SortedWithoutRepeats(d, r);
    r
  }

  /** A sorted permutation of a repetition-free sequence of strings is
      strictly sorted. */
  lemma SortedWithoutRepeats(d: seq<string>, r: seq<string>)
    requires NoDuplicates(d) && multiset(r) == multiset(d) && Sorted(r, StringOrder())
    ensures StrictlySorted(r)
    ensures forall t :: t in r <==> t in d
  {
    StringOrderConsistent();
    assert NoTies(d, StringOrder());
    NoTiesPermutation(d, r, StringOrder());
    forall i, j | 0 <= i < j < |r| ensures LexCompare(r[i], r[j]) < 0 {
      assert StringOrder()(r[i], r[j]) <= 0;
      assert StringOrder()(r[i], r[j]) != 0;
    }
    assert forall t :: t in r <==> t in multiset(d);
  }

  /** The tags of all records, record by record. */
  function AllTags(files: seq<FileMetadata>): (r: seq<string>)
    ensures forall t :: t in r <==> exists i :: 0 <= i < |files| && t in files[i].tags
  {
    if files == [] then []
    else
      var rest := AllTags(files[1..]);
      assert forall i :: 1 <= i < |files| ==> files[i] == files[1..][i - 1];
      files[0].tags + rest
  }

  /** The dependencies of all records that list any. */
  function AllDependencies(files: seq<FileMetadata>): (r: seq<string>)
    ensures forall d :: d in r <==>
              exists i :: 0 <= i < |files| && files[i].dependencies.Some? && d in files[i].dependencies.value
  {
    if files == [] then []
    else
      var rest := AllDependencies(files[1..]);
      assert forall i :: 1 <= i < |files| ==> files[i] == files[1..][i - 1];
      files[0].dependencies.GetOr([]) + rest
  }

  /** `getAllTags`. */
  function GetAllTags(files: seq<FileMetadata>): (r: seq<string>)
    ensures StrictlySorted(r)
    ensures forall t :: t in r <==> exists i :: 0 <= i < |files| && t in files[i].tags
  {
    SortedDistinct(AllTags(files))
  }

  /** `getAllDependencies`. */
  function GetAllDependencies(files: seq<FileMetadata>): (r: seq<string>)
    ensures StrictlySorted(r)
    ensures forall d :: d in r <==>
              exists i :: 0 <= i < |files| && files[i].dependencies.Some? && d in files[i].dependencies.value
  {
    SortedDistinct(AllDependencies(files))
  }

  // ---------------------------------------------------------------------
  // Lookups
  // ---------------------------------------------------------------------

  /** `getFileById`: the first record with this id, or nothing. */
  function GetFileById(files: seq<FileMetadata>, id: string): (r: Option<FileMetadata>)
    ensures r.None? <==> forall i :: 0 <= i < |files| ==> files[i].id != id
    ensures r.Some? ==> exists i :: 0 <= i < |files| && files[i] == r.value && r.value.id == id
                                    && forall j :: 0 <= j < i ==> files[j].id != id
  {
    FindFirst(files, (f: FileMetadata) => f.id == id)
  }

  /** `getFileByFilenameAndAI`: the first record with this filename and tool,
      or nothing. */
  function GetFileByFilenameAndAi(files: seq<FileMetadata>, filename: string, ai: Ai): (r: Option<FileMetadata>)
    ensures r.None? <==> forall i :: 0 <= i < |files| ==> !(files[i].filename == filename && files[i].ai == ai)
    ensures r.Some? ==> exists i :: 0 <= i < |files| && files[i] == r.value
                                    && r.value.filename == filename && r.value.ai == ai
                                    && forall j :: 0 <= j < i ==> !(files[j].filename == filename && files[j].ai == ai)
  {
    FindFirst(files, (f: FileMetadata) => f.filename == filename && f.ai == ai)
  }

  /** When ids are unique, looking up a record's id returns that record. */
  lemma LookupByUniqueId(files: seq<FileMetadata>, k: int)
    requires 0 <= k < |files|
    requires forall i, j :: 0 <= i < j < |files| ==> files[i].id != files[j].id
    ensures GetFileById(files, files[k].id) == Some(files[k])
  {
  }
}
