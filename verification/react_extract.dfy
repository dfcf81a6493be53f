/** The heuristics the metadata script applies to a React component file
    (`extractTitle`, `extractDescription`, `extractDependencies`,
    `generateTags` in `scripts/generate-metadata.js`). */
module ReactExtract {
  import opened Wrappers
  import opened Strings
  import opened Seqs
  import opened Scan
  import opened Search
  import opened ReactPatterns
  import opened TitleFormat
  import opened TagRules

  /** `extractTitle`: the exported identifier made a title, else the trimmed
      first comment line, else the file name made a title. */
  function ExtractTitle(content: string, filename: string): (r: string)
    ensures FallsBack(content, At(Export, content), FormatTitle, At(Comment, content), Trim,
                      FormatTitle(Stem(filename)), r)
  {
    FirstOf(content, At(Export, content), FormatTitle, At(Comment, content), Trim, FormatTitle(Stem(filename)))
  }

  /** `extractDescription`: the trimmed text after the first line break of a
      documentation comment, else the trimmed `@description` text, else "". */
  function ExtractDescription(content: string): (r: string)
    ensures FallsBack(content, At(DocComment, content), Trim, At(DescriptionTag, content), Trim, "", r)
  {
    FirstOf(content, At(DocComment, content), Trim, At(DescriptionTag, content), Trim, "")
  }

  /** The description is always one line of comment text, without a `*`
      and without surrounding whitespace. */
  lemma DescriptionIsOneLine(content: string)
    ensures var r := ExtractDescription(content);
            && '\n' !in r && '*' !in r
            && (r == [] || (!IsWhitespace(r[0]) && !IsWhitespace(r[|r| - 1])))
  {
    var r := ExtractDescription(content);
    var doc := At(DocComment, content);
    var tag := At(DescriptionTag, content);
    if exists p :: 0 <= p <= |content| && doc(p).Some? {
      var p :| 0 <= p <= |content| && doc(p).Some? && r == Trim(doc(p).value.capture);
      CommentTextIsLine(content, DocComment, p);
      TrimKeepsLine(doc(p).value.capture);
    } else if exists p :: 0 <= p <= |content| && tag(p).Some? {
      var p :| 0 <= p <= |content| && tag(p).Some? && r == Trim(tag(p).value.capture);
      CommentTextIsLine(content, DescriptionTag, p);
      TrimKeepsLine(tag(p).value.capture);
    } else {
      assert r == "";
    }
  }

  /** What the comment patterns capture is comment text on one line. */
  lemma CommentTextIsLine(content: string, pat: Pattern, p: nat)
    requires pat == DocComment || pat == DescriptionTag
    requires At(pat, content)(p).Some?
    ensures '\n' !in At(pat, content)(p).value.capture && '*' !in At(pat, content)(p).value.capture
  {
    if pat == DocComment {
      assert At(pat, content)(p) == DocCommentAt(content, p);
    } else {
      assert At(pat, content)(p) == DescriptionTagAt(content, p);
    }
  }

  /** Trimming a line of comment text keeps it free of line breaks and `*`. */
  lemma TrimKeepsLine(line: string)
    requires '\n' !in line && '*' !in line
    ensures '\n' !in Trim(line) && '*' !in Trim(line)
  {
    var i := TrimIsSlice(line);
    assert forall c :: c in Trim(line) ==> c in line;
  }

  /** A module specifier that is neither relative nor absolute: one
      `extractDependencies` keeps. */
  predicate IsPackageSpecifier(spec: string) {
    !StartsWith(spec, ".") && !StartsWith(spec, "/")
  }

  /** The specifiers of every import statement, in order. */
  function ImportSpecifiers(content: string): seq<string> {
    Captures(AllMatches(content, 0, At(Import, content)))
  }

  /** `extractDependencies`: the package specifiers of the imports, each once,
      in order of first appearance. */
  function ExtractDependencies(content: string): (r: seq<string>)
    ensures NoDuplicates(r)
    ensures forall d :: d in r <==> d in ImportSpecifiers(content) && IsPackageSpecifier(d)
    ensures forall d :: d in r ==> |d| > 0 && d[0] != '.' && d[0] != '/'
    ensures forall i, j :: 0 <= i < j < |r| ==>
              FirstIndex(ImportSpecifiers(content), r[i]) < FirstIndex(ImportSpecifiers(content), r[j])
  {
    var specs := ImportSpecifiers(content);
    var r := Dedup(Filter(specs, IsPackageSpecifier));
    SpecifiersNonEmpty(content);
    DedupOfFilterOrder(specs, IsPackageSpecifier, r);
    r
  }

  lemma SpecifiersNonEmpty(content: string)
    ensures forall d :: d in ImportSpecifiers(content) ==> |d| > 0
  {
    CapturesAreNonEmpty(Import, content);
    CapturesNonEmpty(content, 0, At(Import, content));
  }

  /** Deduplicating a filtered list keeps the order of first occurrences in
      the unfiltered one. */
  lemma DedupOfFilterOrder(s: seq<string>, p: string -> bool, r: seq<string>)
    requires r == Dedup(Filter(s, p))
    ensures forall x :: x in r ==> x in s
    ensures forall i, j :: 0 <= i < j < |r| ==> FirstIndex(s, r[i]) < FirstIndex(s, r[j])
  {
    forall i, j | 0 <= i < j < |r| ensures FirstIndex(s, r[i]) < FirstIndex(s, r[j]) {
      FilterFirstIndex(s, p, r[i], r[j]);
    }
  }

  /** Filtering keeps the order of first occurrences. */
  lemma {:induction false} FilterFirstIndex(s: seq<string>, p: string -> bool, x: string, y: string)
    requires x in Filter(s, p) && y in Filter(s, p)
    requires FirstIndex(Filter(s, p), x) < FirstIndex(Filter(s, p), y)
    ensures FirstIndex(s, x) < FirstIndex(s, y)
    decreases |s|
  {
    var f := Filter(s, p);
    if s[0] == x {
    } else if s[0] == y {
    } else {
      if p(s[0]) {
        assert f == [s[0]] + Filter(s[1..], p);
        assert f[1..] == Filter(s[1..], p);
      } else {
        assert f == Filter(s[1..], p);
      }
      FilterFirstIndex(s[1..], p, x, y);
    }
  }

  /** The content tests of `generateTags`, in the script's order. */
  const ContentRules: seq<TagRule> := [
    TagRule("state", ["useState"]),
    TagRule("effect", ["useEffect"]),
    TagRule("styled", ["className"]),
    TagRule("interactive", ["onClick"]),
    TagRule("form", ["form", "Form"]),
    TagRule("chart", ["chart", "Chart"]),
    TagRule("table", ["table", "Table"]),
    TagRule("modal", ["modal", "Modal"]),
    TagRule("card", ["card", "Card"]),
    TagRule("button", ["button", "Button"])
  ]

  /** The tests of `generateTags` on the lower-cased file stem. */
  const NameRules: seq<TagRule> := [
    TagRule("dashboard", ["dashboard"]),
    TagRule("resume", ["resume"]),
    TagRule("profile", ["profile"]),
    TagRule("landing", ["landing"]),
    TagRule("admin", ["admin"])
  ]

  /** `generateTags`: the tags whose tests hold, each once. */
  function GenerateTags(content: string, filename: string): (r: seq<string>)
    ensures NoDuplicates(r)
    ensures forall t :: t in r <==>
              (exists i :: 0 <= i < |ContentRules| && ContentRules[i].tag == t && Fires(ContentRules[i], content))
              || (exists i :: 0 <= i < |NameRules| && NameRules[i].tag == t && Fires(NameRules[i], Lower(Stem(filename))))
  {
    Dedup(Fired(ContentRules, content) + Fired(NameRules, Lower(Stem(filename))))
  }

  /** `state` is a tag exactly when the content uses `useState`. */
  lemma StateTagIffUseState(content: string, filename: string)
    ensures "state" in GenerateTags(content, filename) <==> Contains(content, "useState")
  {
    assert ContentRules[0].tag == "state" && ContentRules[0].needles[0] == "useState";
    assert Fires(ContentRules[0], content) <==> Contains(content, "useState");
    assert forall i :: 1 <= i < |ContentRules| ==> ContentRules[i].tag != "state";
    assert forall i :: 0 <= i < |NameRules| ==> NameRules[i].tag != "state";
  }

  /** A component that declares `export default Name` after text without
      the word `export` is titled after `Name`. */
  lemma ExportDefaultTitle(pre: string, name: string, post: string, filename: string)
    requires !Contains(pre, "export")
    requires |name| > 0 && name != "function" && forall k :: 0 <= k < |name| ==> IsWordChar(name[k])
    requires post == [] || !IsWordChar(post[0])
    ensures ExtractTitle(pre + "export default " + name + post, filename) == FormatTitle(name)
  {
    var lit := "export default ";
    var s := pre + lit + name + post;
    var n := |pre|;
    assert s == pre + lit + (name + post);
    InfixAt(pre, lit, name + post);
    assert lit[..6] == "export" && lit[7..14] == "default";
    assert lit[6] == ' ' && lit[14] == ' ';
    SliceOfInfix(s, n, lit, 0, 6);
    SliceOfInfix(s, n, lit, 7, 14);
    ExportDefaultAt(s, n, name, post);
    assert s[..n] == pre && s[n] == 'e';
    NoExportBefore(s, n);
    LeftmostAt(s, At(Export, s), n);
  }

  /** When `at` matches at `n` and nowhere before, `match` reports the match
      at `n`. */
  lemma LeftmostAt(s: string, at: nat -> Option<Match>, n: nat)
    requires n <= |s| && at(n).Some? && forall q :: 0 <= q < n ==> at(q).None?
    ensures FirstMatch(s, at) == at(n)
  {
    var m := FirstMatch(s, at);
    var p :| 0 <= p <= |s| && at(p) == m && forall q :: 0 <= q < p ==> at(q).None?;
    assert p == n;
  }

  /** No match of the export pattern starts before an `e` that text
      without the word `export` precedes: the word has no other `e`. */
  lemma NoExportBefore(s: string, n: nat)
    requires n < |s| && s[n] == 'e' && !Contains(s[..n], "export")
    ensures forall q :: 0 <= q < n ==> At(Export, s)(q).None?
  {
    forall q | 0 <= q < n ensures At(Export, s)(q).None? {
      assert !OccursAt(s, "export", q) by {
        if q + 6 <= n {
          assert s[q..q + 6] == s[..n][q..q + 6];
          assert !OccursAt(s[..n], "export", q);
        } else {
          assert forall d :: 1 <= d < 6 ==> "export"[d] != 'e';
          assert q + 6 <= |s| ==> s[q..q + 6][n - q] == s[n];
        }
      }
      assert At(Export, s)(q) == ExportAt(s, q);
    }
  }

  /** A whitespace character followed by another character is a run of
      one. */
  lemma SingleSpace(s: string, i: nat)
    requires i + 1 < |s| && IsWhitespace(s[i]) && !IsWhitespace(s[i + 1])
    ensures RunEnd(s, i, IsWhitespace) == i + 1
  {
  }

  lemma InfixAt(a: string, b: string, c: string)
    ensures (a + b + c)[|a|..|a| + |b|] == b && (a + b + c)[|a| + |b|..] == c
  {
  }

  lemma SliceOfInfix(s: string, n: nat, lit: string, i: nat, j: nat)
    requires n + |lit| <= |s| && s[n..n + |lit|] == lit && i <= j <= |lit|
    ensures s[n + i..n + j] == lit[i..j]
    ensures forall k :: i <= k < j ==> s[n + k] == lit[k]
  {
    assert forall k :: 0 <= k < |lit| ==> s[n + k] == lit[k];
  }

  /** The export pattern at `export default Name` captures `Name`. */
  lemma ExportDefaultAt(s: string, n: nat, name: string, post: string)
    requires n + 15 <= |s| && s[n..n + 6] == "export" && s[n + 7..n + 14] == "default"
    requires s[n + 6] == ' ' && s[n + 14] == ' ' && s[n + 15..] == name + post
    requires |name| > 0 && name != "function" && forall k :: 0 <= k < |name| ==> IsWordChar(name[k])
    requires post == [] || !IsWordChar(post[0])
    ensures At(Export, s)(n) == Some(Match(n + 15 + |name|, name))
  {
    assert s[n + 7] == 'd' by {
      assert s[n + 7..n + 14][0] == s[n + 7];
    }
    assert s[n + 15] == name[0];
    SingleSpace(s, n + 6);
    SingleSpace(s, n + 14);
    WordAfter(s, n + 15, name, post);
    assert OccursAt(s, "export", n);
    assert OccursAt(s, "default", n + 7);
    assert At(Export, s)(n) == ExportAt(s, n);
  }

  /** A word followed by a non-word character (or the end), other than the
      keyword `function`, is captured whole by the optional-keyword pattern. */
  lemma WordAfter(s: string, i: nat, name: string, post: string)
    requires i <= |s| && s[i..] == name + post
    requires |name| > 0 && name != "function" && forall k :: 0 <= k < |name| ==> IsWordChar(name[k])
    requires post == [] || !IsWordChar(post[0])
    ensures AfterKeywordAt(s, i) == Some(Match(i + |name|, name))
  {
    WordRun(s, i, name, post);
    assert s[i..i + |name|] == name;
    if OccursAt(s, "function", i) {
      FunctionPrefix(s, i, name, post);
    }
  }

  /** The word-character run at the start of `name + post` is `name`. */
  lemma WordRun(s: string, i: nat, name: string, post: string)
    requires i <= |s| && s[i..] == name + post
    requires forall k :: 0 <= k < |name| ==> IsWordChar(name[k])
    requires post == [] || !IsWordChar(post[0])
    ensures RunEnd(s, i, IsWordChar) == i + |name|
  {
    assert forall k :: 0 <= k < |name| ==> s[i + k] == name[k];
    assert |post| > 0 ==> s[i + |name|] == post[0];
    assert |s| == i + |name| + |post|;
  }

  /** After `function` at the start of a word other than `function` itself,
      the word goes on. */
  lemma FunctionPrefix(s: string, i: nat, name: string, post: string)
    requires i <= |s| && s[i..] == name + post
    requires |name| > 0 && name != "function" && forall k :: 0 <= k < |name| ==> IsWordChar(name[k])
    requires post == [] || !IsWordChar(post[0])
    requires OccursAt(s, "function", i)
    ensures i + 8 < |s| && IsWordChar(s[i + 8])
  {
    var w := s[i..i + 8];
    assert w == "function";
    assert forall k :: 0 <= k < 8 ==> IsWordChar(w[k]);
    assert forall k :: i <= k < i + 8 ==> IsWordChar(s[k]) by {
      assert forall k :: i <= k < i + 8 ==> s[k] == w[k - i];
    }
    WordRun(s, i, name, post);
    assert |name| >= 8;
    assert name[..8] == w;
    assert s[i + 8] == name[8];
  }
}
