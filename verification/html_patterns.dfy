/** The regular expressions the metadata script applies to HTML pages and
    to the script URLs found in them (`scripts/generate-metadata.js`), each
    as the match it finds at a given start position. The tag patterns carry
    the flag `i`; under it a letter matches either case. */
module HtmlPatterns {
  import opened Wrappers
  import opened Strings
  import opened Scan

  predicate NotGt(c: char) { c != '>' }
  predicate NotLt(c: char) { c != '<' }
  predicate NotSlash(c: char) { c != '/' }
  predicate NotDoubleQuote(c: char) { c != '"' }
  predicate NotQuote(c: char) { !IsQuote(c) }

  /** `/<name[^>]*>([^<]+)<\/name>/i` at `p`, for `name` one of `title`,
      `h1`, `p` (given in lower case). The attribute run stops at the first
      `>`, the text at the first `<`, and backtracking cannot move either:
      the characters given back would have to be the very `>` or `<` the
      runs exclude. */
  function ElementTextAt(s: string, name: string, p: nat): (r: Option<Match>)
    ensures r.Some? ==> |r.value.capture| > 0 && '<' !in r.value.capture
  {
    if !OccursAtIgnoringCase(s, "<" + name, p) then None
    else
      var g := RunEnd(s, p + 1 + |name|, NotGt);
      if g == |s| then None
      else
        var h := RunEnd(s, g + 1, NotLt);
        if h == g + 1 || !OccursAtIgnoringCase(s, "</" + name + ">", h) then None
        else Some(Match(h + 3 + |name|, s[g + 1..h]))
  }

  /** The element pattern matches at `p` exactly when the opening tag
      starts there, a `>` closes it, some text without `<` follows, and the
      closing tag of the same name comes next. */
  lemma ElementTextAtIff(s: string, name: string, p: nat)
    ensures ElementTextAt(s, name, p).Some? <==>
              && OccursAtIgnoringCase(s, "<" + name, p)
              && var g := RunEnd(s, p + 1 + |name|, NotGt);
              && g < |s|
              && var h := RunEnd(s, g + 1, NotLt);
              && h > g + 1 && OccursAtIgnoringCase(s, "</" + name + ">", h)
  {
  }

  /** `/<meta\s+name="description"\s+content="([^"]+)"/i` at `p`. */
  function MetaDescriptionAt(s: string, p: nat): (r: Option<Match>)
    ensures r.Some? ==> OccursAtIgnoringCase(s, "<meta", p)
    ensures r.Some? ==> |r.value.capture| > 0 && '"' !in r.value.capture
  {
    if !OccursAtIgnoringCase(s, "<meta", p) then None
    else
      var a := RunEnd(s, p + 5, IsWhitespace);
      if a == p + 5 || !OccursAtIgnoringCase(s, "name=\"description\"", a) then None
      else
        var b := RunEnd(s, a + 18, IsWhitespace);
        if b == a + 18 || !OccursAtIgnoringCase(s, "content=\"", b) then None
        else
          var e := RunEnd(s, b + 9, NotDoubleQuote);
          if e == b + 9 || e == |s| then None
          else Some(Match(e + 1, s[b + 9..e]))
  }

  /** `attr['"]([^'"]+)['"]` at `j`, for `attr` `src=` or `href=` (in lower
      case, matched ignoring case). */
  function QuotedValueAt(s: string, attr: string, j: nat): (r: Option<Match>)
    ensures r.Some? ==> OccursAtIgnoringCase(s, attr, j) && j + |attr| < |s| && IsQuote(s[j + |attr|])
    ensures r.Some? ==> |r.value.capture| > 0
                        && forall k :: 0 <= k < |r.value.capture| ==> !IsQuote(r.value.capture[k])
  {
    if !OccursAtIgnoringCase(s, attr, j) || j + |attr| >= |s| || !IsQuote(s[j + |attr|]) then None
    else
      var e := RunEnd(s, j + |attr| + 1, NotQuote);
      if e == j + |attr| + 1 || e == |s| then None
      else Some(Match(e + 1, s[j + |attr| + 1..e]))
  }

  /** The greedy `[^>]+` before the attribute has reached `k`; it gives back
      one character at a time, down to `lo`, until the quoted attribute
      matches. The result is the position where the attribute starts. */
  function AttributeBack(s: string, attr: string, lo: nat, k: nat): (r: Option<nat>)
    requires lo <= k
    ensures r.None? <==> forall j :: lo <= j <= k ==> QuotedValueAt(s, attr, j).None?
    ensures r.Some? ==> lo <= r.value <= k && QuotedValueAt(s, attr, r.value).Some?
                        && forall i :: r.value < i <= k ==> QuotedValueAt(s, attr, i).None?
    decreases k
  {
    if QuotedValueAt(s, attr, k).Some? then Some(k)
    else if k == lo then None
    else AttributeBack(s, attr, lo, k - 1)
  }

  /** `<tag[^>]+attr['"]([^'"]+)['"]` at `p`: at least one character of the
      tag must come before the attribute, and the attribute lies inside the
      tag, nearest the closing `>` first. */
  function TagAttributeAt(s: string, tag: string, attr: string, p: nat): (r: Option<Match>)
    ensures r.Some? ==> OccursAtIgnoringCase(s, tag, p)
    ensures r.Some? ==> |r.value.capture| > 0
                        && forall k :: 0 <= k < |r.value.capture| ==> !IsQuote(r.value.capture[k])
  {
    if !OccursAtIgnoringCase(s, tag, p) then None
    else
      var g := RunEnd(s, p + |tag|, NotGt);
      if g == p + |tag| then None
      else match AttributeBack(s, attr, p + |tag| + 1, g)
      case None => None
      case Some(j) => QuotedValueAt(s, attr, j)
  }

  /** `/<script[^>]+src=['"]([^'"]+)['"]/gi` at `p`. */
  function ScriptSrcAt(s: string, p: nat): (r: Option<Match>)
    ensures r.Some? ==> |r.value.capture| > 0
                        && forall k :: 0 <= k < |r.value.capture| ==> !IsQuote(r.value.capture[k])
  {
    TagAttributeAt(s, "<script", "src=", p)
  }

  /** `/<link[^>]+href=['"]([^'"]+)['"]/gi` at `p`. */
  function LinkHrefAt(s: string, p: nat): (r: Option<Match>)
    ensures r.Some? ==> |r.value.capture| > 0
                        && forall k :: 0 <= k < |r.value.capture| ==> !IsQuote(r.value.capture[k])
  {
    TagAttributeAt(s, "<link", "href=", p)
  }

  /** `/\/([^\/]+)@?[^\/]*\/[^\/]*\.js/` at `p`, the library name in a CDN
      URL. The group takes the whole path segment after the slash: giving
      characters back could not help, as `@?[^\/]*` would only take them
      again before the next `/`. The match succeeds exactly when the segment
      after that slash contains `.js`, and then ends after its last `.js`. */
  function LibraryNameAt(s: string, p: nat): (r: Option<Match>)
    ensures r.Some? <==>
              && p < |s| && s[p] == '/'
              && var a := RunEnd(s, p + 1, NotSlash);
              && a > p + 1 && a < |s|
              && var b := RunEnd(s, a + 1, NotSlash);
              && exists j :: a + 1 <= j <= b - 3 && OccursAt(s, ".js", j)
    ensures r.Some? ==> var a := RunEnd(s, p + 1, NotSlash);
                        r.value.capture == s[p + 1..a] && |r.value.capture| > 0
                        && '/' !in r.value.capture
  {
    if p >= |s| || s[p] != '/' then None
    else
      var a := RunEnd(s, p + 1, NotSlash);
      if a == p + 1 || a == |s| then None
      else
        var b := RunEnd(s, a + 1, NotSlash);
        if b < a + 4 then None
        else
          match LastOccurrence(s, ".js", a + 1, b - 3)
          case None => None
          case Some(j) => Some(Match(j + 3, s[p + 1..a]))
  }

  /** `.replace(/<[^>]+>/g, '')`: each `<` that a run of characters other
      than `>` and then a `>` follow starts a tag, which is dropped; every
      other character is kept. */
  function StripTags(s: string): (r: string)
    ensures |r| <= |s|
    ensures '<' !in s ==> r == s
  {
    if s == [] then []
    else if s[0] == '<' then
      var g := RunEnd(s, 1, NotGt);
      if g > 1 && g < |s| then StripTags(s[g + 1..])
      else [s[0]] + StripTags(s[1..])
    else
      assert s == [s[0]] + s[1..];
      [s[0]] + StripTags(s[1..])
  }

  /** A well-formed tag is removed and the text around it is kept. */
  lemma StripTagsRemovesTag(x: string, t: string, y: string)
    requires '<' !in x && '>' !in t && |t| > 0
    ensures StripTags(x + "<" + t + ">" + y) == x + StripTags(y)
  {
    var tail := "<" + t + ">" + y;
    calc {
      StripTags(x + "<" + t + ">" + y);
      { assert x + "<" + t + ">" + y == x + tail; }
      StripTags(x + tail);
      { StripTagsKeepsText(x, tail); }
      x + StripTags(tail);
      { StripTagsLeadingTag(t, y); }
      x + StripTags(y);
    }
  }

  /** Text without `<` in front is kept as it is. */
  lemma {:induction false} StripTagsKeepsText(x: string, z: string)
    requires '<' !in x
    ensures StripTags(x + z) == x + StripTags(z)
    decreases |x|
  {
    if x != [] {
      var s := x + z;
      assert s[0] == x[0] && x[0] in x;
      assert s[1..] == x[1..] + z;
      assert StripTags(s) == [x[0]] + StripTags(x[1..] + z);
      StripTagsKeepsText(x[1..], z);
      assert x == [x[0]] + x[1..];
    } else {
      assert x + z == z;
    }
  }

  /** A tag at the start is dropped whole. */
  lemma StripTagsLeadingTag(t: string, y: string)
    requires '>' !in t && |t| > 0
    ensures StripTags("<" + t + ">" + y) == StripTags(y)
  {
    var s := "<" + t + ">" + y;
    assert s[0] == '<';
    forall k | 1 <= k < 1 + |t| ensures NotGt(s[k]) {
      assert s[k] == t[k - 1];
    }
    assert s[1 + |t|] == '>';
    assert RunEnd(s, 1, NotGt) == 1 + |t|;
    assert s[2 + |t|..] == y;
  }
}
