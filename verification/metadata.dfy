/** The records of the metadata index (`src/types/metadata.ts`). */
module Metadata {
  import opened Wrappers

  /** The tool that generated an artifact: exactly `claude` or `gemini`. */
  datatype Ai = Claude | Gemini

  /** The kind of artifact: exactly `react` or `html`. */
  datatype FileKind = React | Html

  /** The name the JSON index uses for each tool. */
  function AiName(ai: Ai): (r: string)
    ensures r == "claude" || r == "gemini"
  {
    match ai
    case Claude => "claude"
    case Gemini => "gemini"
  }

  lemma AiNameInjective(a: Ai, b: Ai)
    ensures AiName(a) == AiName(b) <==> a == b
  {
  }

  /** One catalogued artifact. Timestamps are instants in milliseconds, the
      value an ISO 8601 string denotes; `kind` is the field `type`. */
  datatype FileMetadata = FileMetadata(
    id: string,
    filename: string,
    path: string,
    ai: Ai,
    kind: FileKind,
    title: string,
    description: Option<string>,
    tags: seq<string>,
    createdAt: int,
    updatedAt: int,
    dependencies: Option<seq<string>>,
    size: int,
    searchText: Option<string>)

  /** The whole index document. */
  datatype MetadataFile = MetadataFile(version: string, lastUpdated: string, files: seq<FileMetadata>)

  /** Query-side filter criteria; every one of them is optional. */
  datatype FilterOptions = FilterOptions(
    ai: Option<Ai>,
    tags: Option<seq<string>>,
    startDate: Option<int>,
    endDate: Option<int>,
    dependencies: Option<seq<string>>)

  /** `{}`: no criterion at all. */
  const NoFilters := FilterOptions(None, None, None, None, None)

  datatype SortOption = ByName | ByDate | BySize | ByAi

  datatype SortDirection = Asc | Desc

  /** `by` is spelled `sortBy`, since `by` is a Dafny keyword. */
  datatype SortConfig = SortConfig(sortBy: SortOption, direction: SortDirection)
}
