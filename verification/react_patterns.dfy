/** The regular expressions the metadata script applies to React component
    files (`scripts/generate-metadata.js`), each as the match it finds at a
    given start position. */
module ReactPatterns {
  import opened Wrappers
  import opened Strings
  import opened Scan

  /** `(\w+)` at `q`: the longest run of word characters. */
  function WordAt(s: string, q: nat): (r: Option<Match>)
    ensures r.Some? <==> q < |s| && IsWordChar(s[q])
    ensures r.Some? ==> q < r.value.end <= |s| && r.value.capture == s[q..r.value.end]
                        && (forall k :: q <= k < r.value.end ==> IsWordChar(s[k]))
                        && (r.value.end == |s| || !IsWordChar(s[r.value.end]))
  {
    if q < |s| && IsWordChar(s[q]) then
      var e := RunEnd(s, q, IsWordChar);
      Some(Match(e, s[q..e]))
    else None
  }

  lemma OccursAtHead(s: string, sub: string, i: int)
    requires OccursAt(s, sub, i) && |sub| > 0
    ensures i < |s| && s[i] == sub[0]
  {
    assert s[i..i + |sub|][0] == s[i];
  }

  /** `(?:function\s+)?(\w+)` at `q`: the optional group is tried first and
      given up when the rest fails after it. */
  function AfterKeywordAt(s: string, q: nat): (r: Option<Match>)
    requires q <= |s|
    ensures r.Some? <==> q < |s| && IsWordChar(s[q])
    ensures r.Some? ==> |r.value.capture| > 0
                        && forall k :: 0 <= k < |r.value.capture| ==> IsWordChar(r.value.capture[k])
  {
    var withFunction :=
      if OccursAt(s, "function", q) then
        var e := RunEnd(s, q + 8, IsWhitespace);
        if e > q + 8 then WordAt(s, e) else None
      else None;
    if withFunction.Some? then
      OccursAtHead(s, "function", q);
      withFunction
    else WordAt(s, q)
  }

  /** `/export\s+(?:default\s+)?(?:function\s+)?(\w+)/` at `p`. It matches
      exactly when "export", some whitespace and a word character follow
      each other, whatever the optional keywords do. */
  function ExportAt(s: string, p: nat): (r: Option<Match>)
    ensures r.Some? <==>
              && OccursAt(s, "export", p)
              && p + 6 < |s| && IsWhitespace(s[p + 6])
              && var e := RunEnd(s, p + 6, IsWhitespace); e < |s| && IsWordChar(s[e])
    ensures r.Some? ==> |r.value.capture| > 0
                        && forall k :: 0 <= k < |r.value.capture| ==> IsWordChar(r.value.capture[k])
  {
    if !OccursAt(s, "export", p) then None
    else
      var e := RunEnd(s, p + 6, IsWhitespace);
      if e == p + 6 then None
      else
        var withDefault :=
          if OccursAt(s, "default", e) then
            var e2 := RunEnd(s, e + 7, IsWhitespace);
            if e2 > e + 7 then AfterKeywordAt(s, e2) else None
          else None;
        if withDefault.Some? then
          OccursAtHead(s, "default", e);
          withDefault
        else AfterKeywordAt(s, e)
  }

  /** `/\/\*\*?\s*([^\n\*]+)/` at `p`: the optional second star is taken when
      it is there (leaving it out could not help, as `*` is excluded from the
      group), then the whitespace run gives back until the group can start. */
  function CommentAt(s: string, p: nat): (r: Option<Match>)
    ensures r.Some? ==> OccursAt(s, "/*", p)
    ensures r.Some? ==> |r.value.capture| > 0
                        && '\n' !in r.value.capture && '*' !in r.value.capture
  {
    if !OccursAt(s, "/*", p) then None
    else
      var g := if p + 2 < |s| && s[p + 2] == '*' then p + 3 else p + 2;
      CaptureBack(s, g, RunEnd(s, g, IsWhitespace))
  }

  /** `[^\n]*\n\s*\*\s*([^\n\*]+)` from `a`: the line rest, a line break,
      indentation, a `*`, and the group. */
  function DescriptionLineAt(s: string, a: nat): (r: Option<Match>)
    ensures r.Some? ==> |r.value.capture| > 0
                        && '\n' !in r.value.capture && '*' !in r.value.capture
  {
    if a > |s| then None
    else
      var e := RunEnd(s, a, c => c != '\n');
      if e == |s| then None
      else
        var f := RunEnd(s, e + 1, IsWhitespace);
        if f == |s| || s[f] != '*' then None
        else CaptureBack(s, f + 1, RunEnd(s, f + 1, IsWhitespace))
  }

  /** The rest of the description pattern as a function of where the
      leading `\s*` stopped. */
  function DescriptionLines(s: string): nat -> Option<Match> {
    (a: nat) => DescriptionLineAt(s, a)
  }

  /** `/\/\*\*\s*[^\n]*\n\s*\*\s*([^\n\*]+)/` at `p`. */
  function DocCommentAt(s: string, p: nat): (r: Option<Match>)
    ensures r.Some? ==> OccursAt(s, "/**", p)
    ensures r.Some? ==> |r.value.capture| > 0
                        && '\n' !in r.value.capture && '*' !in r.value.capture
  {
    if !OccursAt(s, "/**", p) then None
    else GiveBack(p + 3, RunEnd(s, p + 3, IsWhitespace), DescriptionLines(s))
  }

  /** `/@description\s+([^\n\*]+)/` at `p`. */
  function DescriptionTagAt(s: string, p: nat): (r: Option<Match>)
    ensures r.Some? ==> OccursAt(s, "@description", p) && p + 12 < |s| && IsWhitespace(s[p + 12])
    ensures r.Some? ==> |r.value.capture| > 0
                        && '\n' !in r.value.capture && '*' !in r.value.capture
  {
    if !OccursAt(s, "@description", p) then None
    else
      var w := RunEnd(s, p + 12, IsWhitespace);
      if w == p + 12 then None else CaptureBack(s, p + 13, w)
  }

  /** `from\s+['"]([^'"]+)['"]` at `f`; the match ends after the closing
      quote. */
  function FromClauseAt(s: string, f: nat): (r: Option<Match>)
    ensures r.Some? ==> OccursAt(s, "from", f)
    ensures r.Some? ==> |r.value.capture| > 0 && forall k :: 0 <= k < |r.value.capture| ==> !IsQuote(r.value.capture[k])
  {
    if !OccursAt(s, "from", f) then None
    else
      var y := RunEnd(s, f + 4, IsWhitespace);
      if y == f + 4 || y == |s| || !IsQuote(s[y]) then None
      else
        var z := RunEnd(s, y + 1, c => !IsQuote(c));
        if z == y + 1 || z == |s| then None
        else Some(Match(z + 1, s[y + 1..z]))
  }

  /** The rest of the import pattern as a function of where the lazy
      `.*?` stopped. */
  function FromClauses(s: string): nat -> Option<Match> {
    (f: nat) => FromClauseAt(s, f)
  }

  /** `import\s+.*?from\s+['"]([^'"]+)['"]` at `p`: the from-clause is
      looked for on the same line as the keyword, nearest first. */
  function ImportAt(s: string, p: nat): (r: Option<Match>)
    ensures r.Some? ==> OccursAt(s, "import", p) && p + 6 < |s| && IsWhitespace(s[p + 6])
    ensures r.Some? ==> |r.value.capture| > 0 && forall k :: 0 <= k < |r.value.capture| ==> !IsQuote(r.value.capture[k])
  {
    if !OccursAt(s, "import", p) then None
    else
      var x := RunEnd(s, p + 6, IsWhitespace);
      if x == p + 6 then None
      else TakeLazily(x, RunEnd(s, x, c => !IsLineTerminator(c)), FromClauses(s))
  }
}
