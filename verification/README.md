# Peacock metadata core in Dafny

Peacock is a gallery of artifacts produced by two AI tools. Claude produces
React components (`.tsx`/`.jsx`) and Gemini produces HTML pages. The gallery
has two parts that share one JSON index, `references/metadata.json`:

- **The generator script** (`scripts/generate-metadata.js`) scans the two
  reference directories and builds one record per recognised file. Each record
  gets a title, a description, dependencies and tags, which are guessed from
  the file text by regular-expression and substring heuristics. The script
  then writes the index with the records ordered newest first.
- **The viewer** loads the index once and caches it
  (`src/utils/metadataManager.ts`). It searches, filters, sorts and aggregates
  the records. The filter panel (`src/components/FilterPanel.tsx`) edits the
  filter options that the query engine receives.

This project models those parts as pure Dafny functions over immutable
datatypes and proves what they promise. The modules are:

- **Wrappers**: `Option`, `Result`.
- **Strings**: the JavaScript string operations used.
- **Seqs**: order-preserving filtering, and `[...new Set(xs)]` as
  first-occurrence deduplication.
- **Sorting**: a stable sort with a three-way comparator, as
  `Array.prototype.sort` is.
- **Metadata**: the types of `src/types/metadata.ts`.
- **MetadataManager**: the query engine and its one-slot cache.
- **FilterPanel**: the panel's filter-state handlers.
- **Scan, ReactPatterns, HtmlPatterns, Search**: each regular expression of the
  script, as the match it finds at a start position.
  - Scan holds the searches of `match` and `matchAll`.
  - Scan also holds the backtracking of greedy and lazy runs, and the
    fallback chain "this pattern, else that one, else a default".
- **TitleFormat**: `formatTitle` and `basename`/`extname`.
- **TagRules, ReactExtract, HtmlExtract**: the per-file heuristics.
- **Listing**: one directory's loop inside its `try`.
- **RecordIds, Generator**: record assembly and `generateMetadata`.

Modelling choices:

- **Time.** Timestamps (`createdAt`, `updatedAt`, the filter dates) are
  integer instants in milliseconds. ISO-8601 parsing is not modelled.
- **Inputs to `generateMetadata`.** The directory listings are passed in. Each
  entry has a name and, when the file can be read, its content, size, birth
  time and modification time. A directory that cannot be listed is `None`.
  The time of the run (`lastUpdated`) is also a parameter.
- **Fetching the index.** The outcome of `fetch` is a parameter of
  `LoadMetadata`. It is either a network failure, or a response with a status
  and a parsed body. The cache is an explicit input and output.
- **Letter case.** `toLowerCase`/`toUpperCase` map ASCII letters only.
- **Whitespace.** `trim` and `\s` use the full JavaScript set of WhiteSpace
  and LineTerminator characters.
- **Strings.** A JavaScript string is a sequence of UTF-16 code units; here
  it is a sequence of Unicode characters (`seq<char>`).
- **String order.** `localeCompare` and the default order of `sort()` are
  both modelled as lexicographic order on characters. For the default
  `sort()` this is exact whenever no string holds a character above U+FFFF.
- **Regular expressions.** Each pattern is a hand-written matcher that
  reproduces the backtracking of the engine:
  - the give-back of `[^\n]*` in the doc-comment pattern;
  - the lazy `.*?` of the import pattern;
  - the give-back of `[^>]+` before `src=`/`href=`.

  The `i` flag is modelled by matching letters of the literals in either
  case.

Where the code and its comments disagree, the model follows the code:

- **Record ids drop the extension.** The comment on the type suggests the
  extension is kept, but the script builds the id from the basename without
  it. As a result `a.tsx` and `a.jsx` collide (`Generator.ReactIdsCollide`).
- **No force-reload argument.** Reloading happens only after
  `clearMetadataCache`.
- **One error message.** Every load failure is reported as
  "Failed to load file metadata".
- **The `ai` sort breaks ties by filename.** The tie-break uses the same
  direction multiplier as the primary key.
- **One failing read drops the rest of its directory.** A file that cannot be
  read ends that directory's loop, because the exception escapes to the
  directory's `try` (`Listing.CollectStopsAtUnreadable`).
- **The library-name pattern captures the segment before the one holding
  `.js`.** Its group takes a whole path segment, so the `@?[^\/]*` after it
  never consumes anything. The captured segment is the first one whose next
  segment contains `.js`. For
  `https://unpkg.com/react@18/umd/react.min.js` that is `umd`, not the
  library.
- **The description comes from the line after the first non-blank line of
  a `/**` comment.** The `\s*` after `/**` also consumes the line break and
  the next line's indentation. `[^\n]*` then takes the rest of that first
  non-blank line. So for `/**\n * Summary\n * Detail\n */` the description
  is `Detail`, not `Summary`. For `/**\n * Summary\n */` it is `/`, taken
  from the closing `*/`.
- **`formatTitle` is not idempotent.** Two capitalised words separated by a
  space come back with two spaces between them.

## Model

| member | source | states |
|---|---|---|
| Metadata.AiName | src/types/metadata.ts:9 | the tool name in the index is exactly `claude` or `gemini` |
| Metadata.AiNameInjective | src/types/metadata.ts:9 | distinct tools have distinct names in the index |
| MetadataManager.LoadMetadata | src/utils/metadataManager.ts:14-45 | a filled cache is returned without fetching; otherwise the fetch happens and the load succeeds exactly when the response is OK, parses, and has a non-empty version and a files array; a failure leaves the cache unchanged and carries the one error message; the cache changes only from empty to the fetched document |
| MetadataManager.ClearMetadataCache | src/utils/metadataManager.ts:50-52 | the cache is empty afterwards |
| MetadataManager.LoadTwiceUsesCache | src/utils/metadataManager.ts:16-18 | after a successful load, a second load returns the same document without fetching, whatever the network would answer |
| MetadataManager.ClearForcesReload | src/utils/metadataManager.ts:14-52 | after clearing, a load fetches again, and a valid document replaces the old one |
| MetadataManager.SearchFiles | src/utils/metadataManager.ts:61-101 | a blank query returns the input itself; otherwise the result is the subsequence of records where some field, lowercased, contains the lowercased and trimmed query; every kept record keeps its multiplicity |
| MetadataManager.MatchesQuery | src/utils/metadataManager.ts:68-100 | the empty query matches every record, and a query with a capital letter matches none, since every field is compared lowercased |
| MetadataManager.NoUpperInLowered | src/utils/metadataManager.ts:66-100 | lowercased text contains no string holding a capital letter |
| MetadataManager.AllWhitespaceLower | src/utils/metadataManager.ts:62-66 | lowercasing does not change whether a query is blank |
| MetadataManager.SearchCaseInsensitive | src/utils/metadataManager.ts:66 | two queries that agree after lowercasing give the same result |
| MetadataManager.FilterByAi | src/utils/metadataManager.ts:113-115 | the tool stage keeps exactly the records of the chosen tool, in order, and is the identity without a tool criterion |
| MetadataManager.FilterByTags | src/utils/metadataManager.ts:118-124 | the tag stage keeps exactly the records sharing a tag with the request, ignoring case, and is the identity when no tags are requested |
| MetadataManager.FilterByStart | src/utils/metadataManager.ts:127-132 | keeps exactly the records created at or after the start bound |
| MetadataManager.FilterByEnd | src/utils/metadataManager.ts:134-139 | keeps exactly the records created at or before the end bound |
| MetadataManager.FilterByDependencies | src/utils/metadataManager.ts:142-149 | keeps exactly the records that list dependencies and share one with the request, ignoring case; the identity when none are requested |
| MetadataManager.FilterFiles | src/utils/metadataManager.ts:109-152 | the result is the subsequence of records meeting every present criterion, with the same multiplicities; with no criteria it is the input |
| MetadataManager.FilterChain | src/utils/metadataManager.ts:109-152 | five stages that each keep exactly the records meeting their own criterion keep, together, exactly the records meeting all of them |
| MetadataManager.TagFilterIsDisjunctive | src/utils/metadataManager.ts:118-124 | one requested tag that the record carries is enough to meet the tag criterion |
| MetadataManager.CompareFiles | src/utils/metadataManager.ts:165-188 | two records tie under the comparator exactly when their keys are equal: the filename, the creation time, the size, or the tool and the filename |
| MetadataManager.AiNameOrder | src/utils/metadataManager.ts:178 | `claude` sorts before `gemini` |
| MetadataManager.CompareFilesAntisymmetric | src/utils/metadataManager.ts:165-188 | swapping the operands of the comparator flips the sign of its result |
| MetadataManager.CompareFilesTransitive | src/utils/metadataManager.ts:165-188 | the comparator's "not after" relation is transitive for every key and direction |
| MetadataManager.FileOrderConsistent | src/utils/metadataManager.ts:160-191 | every sort configuration yields a consistent comparator |
| MetadataManager.SortFiles | src/utils/metadataManager.ts:160-191 | the result is a permutation of the input, ordered by the comparator, in which records that compare equal keep their input order |
| MetadataManager.SortFilesKeyOrder | src/utils/metadataManager.ts:163-183 | for each key and direction, the order of the result on filename, creation time, size, or tool followed by filename |
| MetadataManager.SizeSortReverses | src/utils/metadataManager.ts:173-174 | with distinct sizes, the descending size sort is the reverse of the ascending one |
| MetadataManager.StringOrderConsistent | src/utils/metadataManager.ts:205 | the default order of `sort()` is a consistent comparator |
| MetadataManager.SortedDistinct | src/utils/metadataManager.ts:199-205 | sorting a set's elements gives a strictly increasing sequence with exactly the input's elements |
| MetadataManager.SortedWithoutRepeats | src/utils/metadataManager.ts:205 | a sorted permutation of a repetition-free sequence is strictly increasing and has the same elements |
| MetadataManager.AllTags | src/utils/metadataManager.ts:201-203 | the collected tags are exactly those of some record |
| MetadataManager.AllDependencies | src/utils/metadataManager.ts:216-220 | the collected dependencies are exactly those of some record that lists any |
| MetadataManager.GetAllTags | src/utils/metadataManager.ts:198-206 | strictly sorted, and its elements are exactly the tags of some record |
| MetadataManager.GetAllDependencies | src/utils/metadataManager.ts:213-223 | strictly sorted, and its elements are exactly the dependencies of some record |
| MetadataManager.GetFileById | src/utils/metadataManager.ts:231-233 | nothing exactly when no record has the id; otherwise a record of the input with that id |
| MetadataManager.GetFileByFilenameAndAi | src/utils/metadataManager.ts:242-248 | nothing exactly when no record has both the filename and the tool; otherwise a record of the input |
| MetadataManager.LookupByUniqueId | src/utils/metadataManager.ts:231-233 | when ids are unique, looking up a record's id returns that record |
| FilterPanel.HandleAiFilterChange | src/components/FilterPanel.tsx:15-20 | sets the tool criterion, or clears it, and changes no other field |
| FilterPanel.HandleTagToggle | src/components/FilterPanel.tsx:22-32 | an absent tag is appended at the end; a present tag loses every occurrence, with the other tags kept in order and count; an empty list becomes absent; no other field changes |
| FilterPanel.ClearFilters | src/components/FilterPanel.tsx:34-36 | the cleared options have no criterion at all |
| FilterPanel.HasActiveFilters | src/components/FilterPanel.tsx:38 | an active panel always hands `filterFiles` some criterion |
| FilterPanel.ClearFiltersShowsAll | src/components/FilterPanel.tsx:34-38 | the cleared options are inactive and filter nothing out |
| FilterPanel.InactivePanelFiltersNothing | src/components/FilterPanel.tsx:38 | with the panel inactive and no date or dependency criterion, filtering returns the input |
| FilterPanel.ToggleActivates | src/components/FilterPanel.tsx:22-38 | with no tool chosen, toggling a tag makes the panel active exactly when the tag was not selected or other tags remain |
| FilterPanel.ToggleTwiceRestores | src/components/FilterPanel.tsx:22-31 | toggling an unselected tag twice restores the options, whether the tag list was absent or non-empty |
| FilterPanel.ToggleTwiceTags | src/components/FilterPanel.tsx:22-31 | toggling an unselected tag twice restores the tag list, reading an absent list as empty |
| Strings.Lower | src/utils/metadataManager.ts:66 | lowercasing maps each character on its own and keeps the length |
| Strings.LowerIdempotent | src/utils/metadataManager.ts:66 | lowercasing twice is lowercasing once |
| Strings.Trim | src/utils/metadataManager.ts:66 | the trimmed text is a slice of the input with no whitespace at either end, and it is empty exactly when the input is blank |
| Strings.TrimIsSlice | src/utils/metadataManager.ts:62 | what `trim` drops on both sides is whitespace |
| Strings.Split | scripts/generate-metadata.js:278 | `split(' ')` gives at least one word and no word holds a space |
| Strings.Join | scripts/generate-metadata.js:47 | joining words starts with the first word and ends with the last, and joining no words gives the empty string |
| Strings.JoinSplit | scripts/generate-metadata.js:278-280 | joining the words of `split(' ')` with spaces gives back the text |
| Strings.LexCompare | src/utils/metadataManager.ts:168 | the comparison is -1, 0 or 1, and 0 exactly for equal strings |
| Strings.LexCompareAntisymmetric | src/utils/metadataManager.ts:168 | swapping the strings negates the comparison |
| Strings.LexCompareTransitive | src/utils/metadataManager.ts:168 | the string order is transitive |
| Seqs.Filter | src/utils/metadataManager.ts:68 | `filter` keeps exactly the elements satisfying the test, in order and with their counts |
| Seqs.FilterUnique | src/utils/metadataManager.ts:68 | a subsequence with the filtered counts is the filter's result |
| Seqs.Dedup | scripts/generate-metadata.js:155 | `[...new Set(xs)]` has no repetition and the same elements, ordered by first occurrence |
| Seqs.DedupNoDuplicates | scripts/generate-metadata.js:155 | a sequence without repetition is its own deduplication |
| Seqs.FindFirst | src/utils/metadataManager.ts:232 | `find` gives nothing exactly when no element passes, and otherwise an element that passes |
| Sorting.SortBy | src/utils/metadataManager.ts:165 | a stable sort: a permutation, sorted by the comparator, with equal elements in input order |
| Sorting.SortedUnique | src/utils/metadataManager.ts:165 | a sorted arrangement of a multiset without ties is unique |
| Sorting.ReverseSorted | src/utils/metadataManager.ts:163 | reversing a sorted sequence sorts it by the swapped comparator |
| Scan.FirstMatch | scripts/generate-metadata.js:110 | `match` finds the leftmost position where the pattern matches, or reports that none does |
| Scan.AllMatches | scripts/generate-metadata.js:147 | `matchAll` yields nothing exactly when the pattern matches nowhere, and each match it yields is one the pattern finds at some position |
| Scan.AllMatchesStartWithFirstMatch | scripts/generate-metadata.js:147 | the first match of `matchAll` is the match `match` finds |
| Scan.GiveBack | scripts/generate-metadata.js:128 | a greedy run that gives back one character at a time succeeds at the largest end where the rest matches, or fails when the rest matches nowhere |
| Scan.TakeLazily | scripts/generate-metadata.js:147 | a lazy run succeeds at the nearest end where the rest matches, or fails when the rest matches nowhere in reach |
| Scan.FirstOf | scripts/generate-metadata.js:108-123 | the fallback chain uses the leftmost match of the first pattern, else the leftmost of the second, else the default |
| Scan.CapturesNonEmpty | scripts/generate-metadata.js:147-153 | when a pattern never captures the empty string, neither does any match of `matchAll` |
| Scan.LastOccurrence | scripts/generate-metadata.js:230 | finds the last position in a range where a literal occurs, or reports that none does |
| Search.MatchAt | scripts/generate-metadata.js:110-230 | no pattern of the script captures the empty string |
| Search.CapturesAreNonEmpty | scripts/generate-metadata.js:110-230 | wherever a pattern is tried, its capture is non-empty |
| ReactPatterns.WordAt | scripts/generate-metadata.js:110 | `(\w+)` matches exactly at a word character and captures a slice of the text |
| ReactPatterns.AfterKeywordAt | scripts/generate-metadata.js:110 | `(?:function\s+)?(\w+)` matches exactly at a word character |
| ReactPatterns.ExportAt | scripts/generate-metadata.js:110 | the export pattern matches exactly after `export` and whitespace that a word character follows |
| ReactPatterns.CommentAt | scripts/generate-metadata.js:116 | the comment pattern matches only at `/*` |
| ReactPatterns.DocCommentAt | scripts/generate-metadata.js:128 | the doc-comment pattern matches only at `/**` |
| ReactPatterns.DescriptionTagAt | scripts/generate-metadata.js:134 | the tag pattern matches only at `@description` followed by whitespace |
| ReactPatterns.FromClauseAt | scripts/generate-metadata.js:147 | the from clause matches only at `from` and captures a quote-free specifier |
| ReactPatterns.ImportAt | scripts/generate-metadata.js:147 | the import pattern matches only at `import` plus whitespace, and captures a quote-free specifier |
| ReactExtract.ExtractTitle | scripts/generate-metadata.js:108-123 | the exported name formatted as a title, else the trimmed first comment text, else the file stem formatted as a title |
| ReactExtract.ExportDefaultTitle | scripts/generate-metadata.js:110-113 | a component whose first `export` is `export default Name` is titled `formatTitle(Name)` |
| ReactExtract.ExtractDescription | scripts/generate-metadata.js:126-140 | the trimmed capture of the doc-comment pattern at its leftmost match (the text after the `*` of the line following the first non-blank line of a `/**` comment), else the trimmed `@description` text, else the empty string |
| ReactExtract.DescriptionIsOneLine | scripts/generate-metadata.js:126-140 | the description holds no line break and no `*`, and has no surrounding whitespace |
| ReactExtract.CommentTextIsLine | scripts/generate-metadata.js:128-134 | the description patterns capture text without a line break or `*` |
| ReactExtract.ExtractDependencies | scripts/generate-metadata.js:143-156 | no repetition; exactly the imported specifiers that start with neither `.` nor `/`; none is empty; ordered by first import |
| ReactExtract.SpecifiersNonEmpty | scripts/generate-metadata.js:147-149 | every imported specifier is non-empty |
| ReactExtract.DedupOfFilterOrder | scripts/generate-metadata.js:150-155 | deduplicating the filtered specifiers keeps the order of their first occurrences in the input |
| ReactExtract.GenerateTags | scripts/generate-metadata.js:159-183 | no repetition, and a tag is present exactly when one of its content tests or lowercased-stem tests holds |
| ReactExtract.StateTagIffUseState | scripts/generate-metadata.js:163 | `state` is a tag exactly when the content contains `useState` |
| TagRules.Fired | scripts/generate-metadata.js:163-180 | a rule's tag is produced exactly when one of the rule's needles occurs in the text |
| HtmlPatterns.ElementTextAtIff | scripts/generate-metadata.js:188 | the element pattern matches exactly at an opening tag closed by `>`, followed by non-empty text without `<` and then the closing tag |
| HtmlPatterns.ElementTextAt | scripts/generate-metadata.js:188 | the element text is non-empty and holds no `<` |
| HtmlPatterns.MetaDescriptionAt | scripts/generate-metadata.js:206 | the meta pattern matches only at `<meta`, and captures non-empty text without `"` |
| HtmlPatterns.AttributeBack | scripts/generate-metadata.js:225 | `[^>]+` gives back to the last position inside the tag where the quoted attribute matches, or fails if there is none |
| HtmlPatterns.TagAttributeAt | scripts/generate-metadata.js:225 | the script/link patterns match only at their tag, and capture a non-empty, quote-free value |
| HtmlPatterns.LibraryNameAt | scripts/generate-metadata.js:230 | the CDN pattern matches at a slash exactly when a non-empty segment and a slash follow and the next segment contains `.js`; it captures the whole first segment |
| HtmlPatterns.StripTags | scripts/generate-metadata.js:196 | removing tags never lengthens the text and leaves text without `<` unchanged |
| HtmlPatterns.StripTagsRemovesTag | scripts/generate-metadata.js:196 | a well-formed tag is removed and the text around it is kept |
| HtmlPatterns.StripTagsKeepsText | scripts/generate-metadata.js:196 | text without `<` at the front is kept as it is |
| HtmlExtract.ExtractHtmlTitle | scripts/generate-metadata.js:186-201 | the trimmed `<title>` text, else the `<h1>` text with tags stripped and trimmed, else the file stem formatted as a title |
| HtmlExtract.ElementTextHasNoTags | scripts/generate-metadata.js:196 | stripping tags from the captured element text changes nothing |
| HtmlExtract.ExtractHtmlDescription | scripts/generate-metadata.js:204-218 | the trimmed meta description, else the first paragraph's text with tags stripped and trimmed, else the empty string |
| HtmlExtract.LibraryNameOf | scripts/generate-metadata.js:230-233 | a library name is found exactly when the pattern matches somewhere; the name is non-empty and holds no slash |
| HtmlExtract.LibraryNameOfPath | scripts/generate-metadata.js:230 | in `/name/file.js` the library name is `name` |
| HtmlExtract.ScriptDependencies | scripts/generate-metadata.js:225-235 | exactly the library names of script sources on a CDN (containing `cdn` or `unpkg`) |
| HtmlExtract.FrameworksOf | scripts/generate-metadata.js:241-243 | `tailwindcss`, `bootstrap` and `bulma` exactly for the links naming them |
| HtmlExtract.StylesheetDependencies | scripts/generate-metadata.js:238-244 | exactly the frameworks some stylesheet link names |
| HtmlExtract.ExtractHtmlDependencies | scripts/generate-metadata.js:221-247 | no repetition; exactly the CDN library names and the named frameworks |
| HtmlExtract.GenerateHtmlTags | scripts/generate-metadata.js:250-271 | no repetition, and a tag is present exactly when one of its content tests or lowercased-stem tests holds |
| HtmlExtract.CarouselTagIff | scripts/generate-metadata.js:258 | `carousel` is a tag exactly when the page mentions `carousel` or `slider` |
| TitleFormat.Extension | scripts/generate-metadata.js:35 | `extname` is empty, or it starts with the last dot, ends the name and holds no other dot |
| TitleFormat.Stem | scripts/generate-metadata.js:35 | the stem followed by the extension is the name |
| TitleFormat.StemOfExtended | scripts/generate-metadata.js:35 | adding an extension to a stem and taking the stem again gives the stem back |
| TitleFormat.SameStemAcrossExtensions | scripts/generate-metadata.js:35 | names that differ only in their extension have the same stem |
| TitleFormat.SpaceBeforeUpper | scripts/generate-metadata.js:276 | inserting spaces before capitals keeps every character and adds only spaces |
| TitleFormat.DashesToSpaces | scripts/generate-metadata.js:277 | each hyphen or underscore becomes a space and nothing else changes |
| TitleFormat.FormatTitle | scripts/generate-metadata.js:274-282 | the title has no whitespace at either end |
| TitleFormat.Recase | scripts/generate-metadata.js:279 | reference re-casing: a character is upper-cased at the start and after a space, and lower-cased elsewhere |
| TitleFormat.WordsRecase | scripts/generate-metadata.js:278-280 | capitalising each word of `split(' ')` and joining with spaces is the re-casing |
| TitleFormat.FormatTitleRecases | scripts/generate-metadata.js:274-282 | `formatTitle` is the trimmed re-casing of the prepared text |
| TitleFormat.FormatTitleShape | scripts/generate-metadata.js:274-282 | the title has no hyphen, underscore or surrounding whitespace; capitals occur only where words start; no word starts in lower case |
| TitleFormat.FormatTitleSnakeCase | scripts/generate-metadata.js:274-282 | `sales_report` and `sales-report` become `Sales Report` |
| TitleFormat.FormatTitleCamelCase | scripts/generate-metadata.js:274-282 | `MyDashboard` becomes `My Dashboard` |
| TitleFormat.FormatTitleSpacedWords | scripts/generate-metadata.js:274-282 | `My Dashboard` becomes `My  Dashboard` |
| TitleFormat.FormatTitleNotIdempotent | scripts/generate-metadata.js:274-282 | formatting a camel-case name twice differs from formatting it once |
| Listing.Readable | scripts/generate-metadata.js:22-50 | every record comes from an accepted, readable entry |
| Listing.Collect | scripts/generate-metadata.js:20-53 | the loop yields at most the records of readable entries, and exactly those when every accepted entry can be read; `Listing.CollectKeepsBeforeUnreadable` gives the records when one cannot |
| Listing.CollectStopsAtUnreadable | scripts/generate-metadata.js:20-53 | an accepted entry that cannot be read ends the scan of its directory |
| Listing.CollectKeepsBeforeUnreadable | scripts/generate-metadata.js:20-53 | when the first failing read is that of an accepted entry, the records are exactly those of the readable accepted entries before it |
| RecordIds.RecordIdInjective | scripts/generate-metadata.js:35 | two ids are equal exactly when tool and stem are |
| Generator.BuildRecord | scripts/generate-metadata.js:22-84 | the record carries the file's name, tool, kind, times and size; its id is the tool name, a dash and the stem; its title, description, dependencies and tags are those the extractors of its tool give for the file's content and name |
| Generator.Assemble | scripts/generate-metadata.js:34-48 | the record holds the extracted title, description, tags and dependencies; its path is `/references/<tool>/<filename>`; its search text is the title, the description and the space-joined tags, separated by spaces |
| Generator.GroupRecords | scripts/generate-metadata.js:20-53 | a directory that cannot be listed contributes nothing; otherwise its loop's records |
| Generator.NewestFirst | scripts/generate-metadata.js:95 | a record goes no later than another exactly when it was modified no earlier, and two records tie exactly when their modification times are equal |
| Generator.NewestFirstConsistent | scripts/generate-metadata.js:95 | the newest-first comparator is consistent |
| Generator.GenerateMetadata | scripts/generate-metadata.js:92-96 | version `1.0.0` and the time of the run; the files are a permutation of the collected records, with modification time non-increasing, and records with equal times keep the scan order |
| Generator.GeneratedKinds | scripts/generate-metadata.js:22-23 | every generated Claude record is a `.tsx`/`.jsx` React file, and every Gemini record is an `.html` page |
| Generator.CollectedKinds | scripts/generate-metadata.js:20-89 | every collected record is of its tool's kind and its file name passes its tool's test |
| Generator.ReactIdsCollide | scripts/generate-metadata.js:35 | `x.tsx` and `x.jsx` get the same id |
| Generator.IdsIdentifyToolAndStem | scripts/generate-metadata.js:35 | two records have the same id exactly when tool and file stem are the same |

## Left out

- File-system work in the generator is not modelled. This covers `readdirSync`, `statSync`, `readFileSync`, `writeFileSync`, the JSON pretty-printing and the console output. The listings are inputs, and the written document is the result.
- The `fetch` call, `async`/`await` and `response.json()` are not modelled. Their outcome is an input to `LoadMetadata`, whose cache slot is passed in and returned instead of being a module variable.
- ISO-8601 parsing with `new Date(...)` is not modelled. Timestamps are integers, so an invalid date string (NaN in the source) is not modelled either.
- Locale-aware `localeCompare` and Unicode case mapping are not modelled. Lexicographic order on characters and ASCII case mapping stand in for them.
- UTF-16 code units are not modelled. Strings are sequences of characters, so characters above U+FFFF are one element rather than two. The default `sort()` order and string lengths differ from JavaScript's only for such characters.
- The UI is not part of this model: rendering, the iframe and module renderers, the search bar, the pages, the file card's size and date formatting, and the lazy file loader.
- The general regular-expression engine is not part of this model. Only the script's own patterns are modelled.
- `references/claude/princeton-resume.tsx` is not used as a concrete input. The general lemmas cover what its example shows: `ReactExtract.ExportDefaultTitle` for the title and `ReactExtract.ExtractDependencies` for the specifiers.
- `searchFiles` on a `null` query is not modelled. The query is always a string.
- The `default` branch of the sort comparator is not modelled. Sort keys are a closed datatype, so that branch cannot be reached.
- HtmlPatterns.ElementTextAt: the contract gives only the shape of the capture; the exact condition for a match is stated separately in `HtmlPatterns.ElementTextAtIff`.
- Scan.AllMatches: the contract does not state that the matches are leftmost and non-overlapping. That follows from its definition, and `Scan.AllMatchesStartWithFirstMatch` states it for the first match.
- MetadataManager.SortFilesKeyOrder: the multiplier is stated per direction as an order on keys, not as the product `(a - b) * multiplier`, which has the same sign.
