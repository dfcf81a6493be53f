/** The regular expressions of the metadata script, named. */
module Search {
  import opened Wrappers
  import opened Scan
  import opened ReactPatterns
  import opened HtmlPatterns

  /** The patterns of the script. `Element(name)` is the element-text
      pattern for `title`, `h1` or `p`. */
  datatype Pattern =
    | Export | Comment | DocComment | DescriptionTag | Import
    | Element(name: string) | MetaDescription | ScriptSrc | LinkHref | LibraryName

  /** The match of `pat` starting exactly at `p`, if any. Every group of
      the script's patterns is repeated with `+`, so no capture is empty. */
  function MatchAt(pat: Pattern, s: string, p: nat): (r: Option<Match>)
    ensures r.Some? ==> |r.value.capture| > 0
  {
    match pat
    case Export => ExportAt(s, p)
    case Comment => CommentAt(s, p)
    case DocComment => DocCommentAt(s, p)
    case DescriptionTag => DescriptionTagAt(s, p)
    case Import => ImportAt(s, p)
    case Element(name) => ElementTextAt(s, name, p)
    case MetaDescription => MetaDescriptionAt(s, p)
    case ScriptSrc => ScriptSrcAt(s, p)
    case LinkHref => LinkHrefAt(s, p)
    case LibraryName => LibraryNameAt(s, p)
  }

  /** The pattern as a function of the start position, the form the
      searches of `match` and `matchAll` take. */
  function At(pat: Pattern, s: string): nat -> Option<Match> {
    (p: nat) => MatchAt(pat, s, p)
  }

  /** No pattern captures the empty string, wherever it is tried. */
  lemma CapturesAreNonEmpty(pat: Pattern, s: string)
    ensures forall q :: At(pat, s)(q).Some? ==> |At(pat, s)(q).value.capture| > 0
  {
    forall q ensures At(pat, s)(q).Some? ==> |At(pat, s)(q).value.capture| > 0 {
      assert At(pat, s)(q) == MatchAt(pat, s, q);
    }
  }
}
