/** The heuristics the metadata script applies to an HTML page
    (`extractHtmlTitle`, `extractHtmlDescription`, `extractHtmlDependencies`,
    `generateHtmlTags` in `scripts/generate-metadata.js`). */
module HtmlExtract {
  import opened Wrappers
  import opened Strings
  import opened Seqs
  import opened Scan
  import opened Search
  import opened HtmlPatterns
  import opened TitleFormat
  import opened TagRules

  /** Element text with tags stripped and whitespace trimmed. */
  function StrippedText(text: string): string {
    Trim(StripTags(text))
  }

  /** `extractHtmlTitle`: the trimmed `<title>` text, else the `<h1>` text
      with tags stripped and trimmed, else the file name made a title. */
  function ExtractHtmlTitle(content: string, filename: string): (r: string)
    ensures FallsBack(content, At(Element("title"), content), Trim, At(Element("h1"), content), StrippedText,
                      FormatTitle(Stem(filename)), r)
  {
    FirstOf(content, At(Element("title"), content), Trim,
            At(Element("h1"), content), StrippedText, FormatTitle(Stem(filename)))
  }

  /** Stripping tags from element text is a no-op: the text stops at the
      first `<`. */
  lemma ElementTextHasNoTags(content: string, name: string, p: nat)
    requires At(Element(name), content)(p).Some?
    ensures StripTags(At(Element(name), content)(p).value.capture) == At(Element(name), content)(p).value.capture
  {
    assert At(Element(name), content)(p) == ElementTextAt(content, name, p);
  }

  /** `extractHtmlDescription`: the trimmed meta description, else the
      first paragraph's text with tags stripped and trimmed, else "". */
  function ExtractHtmlDescription(content: string): (r: string)
    ensures FallsBack(content, At(MetaDescription, content), Trim, At(Element("p"), content), StrippedText, "", r)
  {
    FirstOf(content, At(MetaDescription, content), Trim, At(Element("p"), content), StrippedText, "")
  }

  /** A script URL the dependency scan looks into. */
  predicate IsCdnUrl(src: string) {
    Contains(src, "cdn") || Contains(src, "unpkg")
  }

  /** The library name the CDN pattern finds in a script URL, if any. */
  function LibraryNameOf(src: string): (r: Option<string>)
    ensures r.Some? ==> |r.value| > 0 && '/' !in r.value
    ensures r.Some? <==> exists p :: 0 <= p <= |src| && At(LibraryName, src)(p).Some?
  {
    match FirstMatch(src, At(LibraryName, src))
    case None => None
    case Some(m) =>
      LibraryMatchIsName(src, m);
      Some(m.capture)
  }

  lemma LibraryMatchIsName(src: string, m: Match)
    requires exists p :: 0 <= p <= |src| && At(LibraryName, src)(p) == Some(m)
    ensures |m.capture| > 0 && '/' !in m.capture
  {
    var p :| 0 <= p <= |src| && At(LibraryName, src)(p) == Some(m);
    assert At(LibraryName, src)(p) == LibraryNameAt(src, p);
  }

  /** The name in `/name/file.js` is the library name. */
  lemma LibraryNameOfPath(name: string, file: string)
    requires |name| > 0 && '/' !in name && '/' !in file && Contains(file, ".js")
    ensures LibraryNameOf("/" + name + "/" + file) == Some(name)
  {
    var s := "/" + name + "/" + file;
    var a := 1 + |name|;
    assert forall k :: 1 <= k < a ==> s[k] == name[k - 1];
    assert s[a] == '/';
    assert RunEnd(s, 1, NotSlash) == a;
    assert s[1..a] == name;
    assert forall k :: a + 1 <= k < |s| ==> s[k] == file[k - a - 1];
    assert RunEnd(s, a + 1, NotSlash) == |s|;
    var j :| 0 <= j <= |file| && OccursAt(file, ".js", j);
    assert s[a + 1 + j..a + 4 + j] == file[j..j + 3];
    assert OccursAt(s, ".js", a + 1 + j);
    assert At(LibraryName, s)(0) == LibraryNameAt(s, 0);
    assert At(LibraryName, s)(0).Some?;
    var m := FirstMatch(s, At(LibraryName, s));
    var p :| 0 <= p <= |s| && At(LibraryName, s)(p) == m && forall q :: 0 <= q < p ==> At(LibraryName, s)(q).None?;
    assert p == 0;
  }

  /** The libraries the script URLs name, in order: URLs on a CDN whose
      library name the pattern finds. */
  function ScriptDependencies(srcs: seq<string>): (r: seq<string>)
    ensures forall d :: d in r <==>
              exists i :: 0 <= i < |srcs| && IsCdnUrl(srcs[i]) && LibraryNameOf(srcs[i]) == Some(d)
  {
    if srcs == [] then []
    else
      var rest := ScriptDependencies(srcs[1..]);
      assert forall i :: 1 <= i < |srcs| ==> srcs[i] == srcs[1..][i - 1];
      var here := if IsCdnUrl(srcs[0]) && LibraryNameOf(srcs[0]).Some? then [LibraryNameOf(srcs[0]).value] else [];
      here + rest
  }

  /** The style frameworks a stylesheet URL names, in the script's order. */
  function FrameworksOf(href: string): (r: seq<string>)
    ensures forall d :: d in r <==>
              (d == "tailwindcss" && Contains(href, "tailwind"))
              || (d == "bootstrap" && Contains(href, "bootstrap"))
              || (d == "bulma" && Contains(href, "bulma"))
  {
    (if Contains(href, "tailwind") then ["tailwindcss"] else [])
    + (if Contains(href, "bootstrap") then ["bootstrap"] else [])
    + (if Contains(href, "bulma") then ["bulma"] else [])
  }

  /** The style frameworks of all stylesheet URLs, in order. */
  function StylesheetDependencies(hrefs: seq<string>): (r: seq<string>)
    ensures forall d :: d in r <==> exists i :: 0 <= i < |hrefs| && d in FrameworksOf(hrefs[i])
  {
    if hrefs == [] then []
    else
      var rest := StylesheetDependencies(hrefs[1..]);
      assert forall i :: 1 <= i < |hrefs| ==> hrefs[i] == hrefs[1..][i - 1];
      FrameworksOf(hrefs[0]) + rest
  }

  /** The `src` values of the script tags, in order. */
  function ScriptSources(content: string): seq<string> {
    Captures(AllMatches(content, 0, At(ScriptSrc, content)))
  }

  /** The `href` values of the link tags, in order. */
  function StylesheetLinks(content: string): seq<string> {
    Captures(AllMatches(content, 0, At(LinkHref, content)))
  }

  /** `extractHtmlDependencies`: the libraries of the CDN scripts, then the
      frameworks of the stylesheets, each once. */
  function ExtractHtmlDependencies(content: string): (r: seq<string>)
    ensures NoDuplicates(r)
    ensures forall d :: d in r <==>
              (exists i :: 0 <= i < |ScriptSources(content)| && IsCdnUrl(ScriptSources(content)[i])
                           && LibraryNameOf(ScriptSources(content)[i]) == Some(d))
              || (exists i :: 0 <= i < |StylesheetLinks(content)| && d in FrameworksOf(StylesheetLinks(content)[i]))
  {
    Dedup(ScriptDependencies(ScriptSources(content)) + StylesheetDependencies(StylesheetLinks(content)))
  }

  /** The content tests of `generateHtmlTags`, in the script's order. */
  const HtmlContentRules: seq<TagRule> := [
    TagRule("chart", ["chart", "Chart"]),
    TagRule("table", ["table", "Table"]),
    TagRule("form", ["form", "Form"]),
    TagRule("modal", ["modal", "Modal"]),
    TagRule("carousel", ["carousel", "slider"]),
    TagRule("infographic", ["infographic"]),
    TagRule("dashboard", ["dashboard"]),
    TagRule("landing", ["landing"])
  ]

  /** The tests of `generateHtmlTags` on the lower-cased file stem. */
  const HtmlNameRules: seq<TagRule> := [
    TagRule("aveva", ["aveva"]),
    TagRule("comparison", ["comparison"]),
    TagRule("analysis", ["analysis"]),
    TagRule("report", ["report"])
  ]

  /** `generateHtmlTags`: the tags whose tests hold, each once. */
  function GenerateHtmlTags(content: string, filename: string): (r: seq<string>)
    ensures NoDuplicates(r)
    ensures forall t :: t in r <==>
              (exists i :: 0 <= i < |HtmlContentRules| && HtmlContentRules[i].tag == t && Fires(HtmlContentRules[i], content))
              || (exists i :: 0 <= i < |HtmlNameRules| && HtmlNameRules[i].tag == t && Fires(HtmlNameRules[i], Lower(Stem(filename))))
  {
    Dedup(Fired(HtmlContentRules, content) + Fired(HtmlNameRules, Lower(Stem(filename))))
  }

  /** `carousel` is a tag exactly when the page mentions a carousel or a
      slider. */
  lemma CarouselTagIff(content: string, filename: string)
    ensures "carousel" in GenerateHtmlTags(content, filename)
            <==> Contains(content, "carousel") || Contains(content, "slider")
  {
    var rule := HtmlContentRules[4];
    assert rule.tag == "carousel" && rule.needles[0] == "carousel" && rule.needles[1] == "slider";
    assert Fires(rule, content) <==> Contains(content, "carousel") || Contains(content, "slider");
    assert forall i :: 0 <= i < |HtmlContentRules| && i != 4 ==> HtmlContentRules[i].tag != "carousel";
    assert forall i :: 0 <= i < |HtmlNameRules| ==> HtmlNameRules[i].tag != "carousel";
  }
}
