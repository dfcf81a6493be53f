/** File-name helpers of the generator: Node's `basename(f, extname(f))`
    for a bare file name, and `formatTitle`, which turns an identifier or a
    file name into a title (`scripts/generate-metadata.js`). */
module TitleFormat {
  import opened Strings

  /** Index of the last occurrence of `c` in `s`, or -1. */
  function LastIndex(s: string, c: char): (r: int)
    ensures -1 <= r < |s|
    ensures r >= 0 ==> s[r] == c
    ensures forall k :: r < k < |s| ==> s[k] != c
  {
    if s == [] then -1
    else if s[|s| - 1] == c then |s| - 1
    else LastIndex(s[..|s| - 1], c)
  }

  /** `extname` of a name without directory separators: from the last dot
      to the end, unless that dot is the first character or the name is "..". */
  function Extension(name: string): (ext: string)
    ensures |ext| < |name| || ext == []
    ensures ext != [] ==> ext[0] == '.' && '.' !in ext[1..] && EndsWith(name, ext)
    ensures ext == [] <==> name == ".." || forall k :: 0 < k < |name| ==> name[k] != '.'
  {
    var d := LastIndex(name, '.');
    if d <= 0 || name == ".." then "" else name[d..]
  }

  /** `basename(name, extname(name))`: the name without its extension. */
  function Stem(name: string): (r: string)
    ensures r + Extension(name) == name
  {
    name[..|name| - |Extension(name)|]
  }

  /** Adding an extension to a non-empty stem and taking the stem again gives
      the stem back; the extension itself is what `extname` reports. */
  lemma StemOfExtended(stem: string, ext: string)
    requires stem != [] && |ext| >= 1 && ext[0] == '.' && '.' !in ext[1..]
    requires stem + ext != ".."
    ensures Extension(stem + ext) == ext
    ensures Stem(stem + ext) == stem
  {
    var name := stem + ext;
    assert name[|stem|] == '.';
    var d := LastIndex(name, '.');
    assert d == |stem|;
    assert name[d..] == ext;
  }

  /** Two files that differ only in their extension have the same stem. */
  lemma SameStemAcrossExtensions(stem: string, ext1: string, ext2: string)
    requires stem != [] && |ext1| >= 1 && ext1[0] == '.' && '.' !in ext1[1..]
    requires |ext2| >= 1 && ext2[0] == '.' && '.' !in ext2[1..]
    requires stem + ext1 != ".." && stem + ext2 != ".."
    ensures Stem(stem + ext1) == Stem(stem + ext2) == stem
  {
    StemOfExtended(stem, ext1);
    StemOfExtended(stem, ext2);
  }

  /** `.replace(/([A-Z])/g, ' $1')`: a space before every capital letter. */
  function SpaceBeforeUpper(s: string): (r: string)
    ensures forall c :: c in r ==> c in s || c == ' '
    ensures forall c :: c in s ==> c in r
  {
    if s == [] then []
    else (if IsUpper(s[0]) then [' ', s[0]] else [s[0]]) + SpaceBeforeUpper(s[1..])
  }

  lemma {:induction false} SpaceBeforeUpperAppend(x: string, y: string)
    ensures SpaceBeforeUpper(x + y) == SpaceBeforeUpper(x) + SpaceBeforeUpper(y)
    decreases |x|
  {
    if x != [] {
      assert (x + y)[1..] == x[1..] + y;
      SpaceBeforeUpperAppend(x[1..], y);
    } else {
      assert x + y == y;
    }
  }

  /** Text without capital letters is left alone. */
  lemma {:induction false} SpaceBeforeUpperNoCapitals(s: string)
    requires forall k :: 0 <= k < |s| ==> !IsUpper(s[k])
    ensures SpaceBeforeUpper(s) == s
    decreases |s|
  {
    if s != [] {
      SpaceBeforeUpperNoCapitals(s[1..]);
    }
  }

  /** `.replace(/[-_]/g, ' ')`. */
  function DashesToSpaces(s: string): (r: string)
    ensures |r| == |s|
    ensures forall i :: 0 <= i < |s| ==> r[i] == if s[i] == '-' || s[i] == '_' then ' ' else s[i]
  {
    if s == [] then [] else [if s[0] == '-' || s[0] == '_' then ' ' else s[0]] + DashesToSpaces(s[1..])
  }

  /** `word.charAt(0).toUpperCase() + word.slice(1).toLowerCase()`. */
  function Capitalize(w: string): string {
    if w == [] then [] else [ToUpperChar(w[0])] + Lower(w[1..])
  }

  function CapitalizeAll(ws: seq<string>): (r: seq<string>)
    ensures |r| == |ws|
    ensures forall i :: 0 <= i < |ws| ==> r[i] == Capitalize(ws[i])
  {
    if ws == [] then [] else [Capitalize(ws[0])] + CapitalizeAll(ws[1..])
  }

  /** The text `formatTitle` splits into words. */
  function Prepare(s: string): string {
    DashesToSpaces(SpaceBeforeUpper(s))
  }

  /** `formatTitle`: split at the inserted and existing spaces, capitalise
      every word, join with single spaces and trim. */
  function FormatTitle(s: string): (r: string)
    ensures r == [] || (!IsWhitespace(r[0]) && !IsWhitespace(r[|r| - 1]))
  {
    Trim(Join(CapitalizeAll(Split(Prepare(s))), " "))
  }

  /** Reference definition of the re-casing: a character is upper-cased at
      the start of the text (when `atStart`) and after a space, lower-cased
      everywhere else. */
  function Recase(t: string, atStart: bool): (u: string)
    ensures |u| == |t|
    ensures forall k :: 0 <= k < |t| ==>
              u[k] == if (if k == 0 then atStart else t[k - 1] == ' ')
                      then ToUpperChar(t[k]) else ToLowerChar(t[k])
  {
    if t == [] then []
    else [if atStart then ToUpperChar(t[0]) else ToLowerChar(t[0])] + Recase(t[1..], t[0] == ' ')
  }

  lemma JoinConsHead(c: char, w: string, tail: seq<string>)
    ensures Join([[c] + w] + tail, " ") == [c] + Join([w] + tail, " ")
  {
    if tail != [] {
      assert ([[c] + w] + tail)[1..] == tail;
      assert ([w] + tail)[1..] == tail;
    }
  }

  /** Splitting at spaces, capitalising each word and joining with spaces is
      the character-wise re-casing; `atStart` false lower-cases the first word
      entirely. */
  lemma {:induction false} WordsRecase(t: string, atStart: bool)
    ensures var ws := Split(t);
            Join([if atStart then Capitalize(ws[0]) else Lower(ws[0])] + CapitalizeAll(ws[1..]), " ")
            == Recase(t, atStart)
    decreases |t|
  {
    var ws := Split(t);
    var head := if atStart then Capitalize(ws[0]) else Lower(ws[0]);
    var lhs := Join([head] + CapitalizeAll(ws[1..]), " ");
    var u := Recase(t, atStart);
    if t == [] {
      assert ws == [""] && head == "";
      assert lhs == "" == u;
    } else if t[0] == ' ' {
      var rest := Split(t[1..]);
      var tail := CapitalizeAll(rest);
      assert ws == [""] + rest && ws[1..] == rest;
      assert lhs == " " + Join(tail, " ") by {
        var words := [head] + CapitalizeAll(ws[1..]);
        assert head == "" && CapitalizeAll(ws[1..]) == tail;
        assert |words| >= 2 && words[0] == "" && words[1..] == tail;
        assert lhs == words[0] + " " + Join(words[1..], " ");
        assert words[0] + " " == " ";
      }
      assert Join(tail, " ") == Recase(t[1..], true) by {
        assert tail == [Capitalize(rest[0])] + CapitalizeAll(rest[1..]);
        WordsRecase(t[1..], true);
      }
      assert u == " " + Recase(t[1..], true);
      assert lhs == u;
    } else {
      var rest := Split(t[1..]);
      var c := if atStart then ToUpperChar(t[0]) else ToLowerChar(t[0]);
      assert ws == [[t[0]] + rest[0]] + rest[1..] && ws[1..] == rest[1..];
      assert head == [c] + Lower(rest[0]) by {
        assert ws[0][1..] == rest[0];
      }
      assert lhs == [c] + Join([Lower(rest[0])] + CapitalizeAll(rest[1..]), " ") by {
        JoinConsHead(c, Lower(rest[0]), CapitalizeAll(rest[1..]));
      }
      assert Join([Lower(rest[0])] + CapitalizeAll(rest[1..]), " ") == Recase(t[1..], false) by {
        WordsRecase(t[1..], false);
      }
      assert u == [c] + Recase(t[1..], false);
      assert lhs == u;
    }
  }

  /** `formatTitle` is the trimmed re-casing of the prepared text. */
  lemma FormatTitleRecases(s: string)
    ensures FormatTitle(s) == Trim(Recase(Prepare(s), true))
  {
    var ws := Split(Prepare(s));
    WordsRecase(Prepare(s), true);
    assert CapitalizeAll(ws) == [Capitalize(ws[0])] + CapitalizeAll(ws[1..]);
  }

  /** Capital letters occur only where a word starts, and no word that
      follows a space starts with a lower-case letter. */
  predicate CapitalsStartWords(r: string) {
    && (forall k :: 0 < k < |r| && IsUpper(r[k]) ==> r[k - 1] == ' ')
    && (forall k :: 0 < k < |r| && r[k - 1] == ' ' ==> !IsLower(r[k]))
  }

  /** The prepared text has no hyphen or underscore, and its only new
      whitespace character is the space. */
  lemma PrepareShape(s: string)
    ensures '-' !in Prepare(s) && '_' !in Prepare(s)
    ensures forall c :: c in Prepare(s) && IsWhitespace(c) && c != ' ' ==> c in s
  {
    var w := SpaceBeforeUpper(s);
    var t := Prepare(s);
    forall c | c in t && IsWhitespace(c) && c != ' ' ensures c in s {
      var k :| 0 <= k < |t| && t[k] == c;
      assert w[k] in w;
    }
  }

  /** Re-casing changes letters only, keeps them letters, and leaves the
      text with capitals exactly at word starts. */
  lemma RecaseShape(t: string, atStart: bool)
    ensures var u := Recase(t, atStart);
            && CapitalsStartWords(u)
            && (atStart && |u| > 0 ==> !IsLower(u[0]))
            && (forall k :: 0 <= k < |u| && !IsUpper(u[k]) && !IsLower(u[k]) ==> u[k] == t[k])
  {
  }

  lemma SliceKeepsCapitals(u: string, i: nat, n: nat)
    requires CapitalsStartWords(u) && i + n <= |u|
    ensures CapitalsStartWords(u[i..i + n])
  {
    var r := u[i..i + n];
    assert forall k :: 0 <= k < n ==> r[k] == u[i + k];
  }

  /** `r`, cut from the re-casing of `t`, has a hyphen or underscore only
      where `t` has, capitals only where words start, and starts with no
      lower-case letter when `t` holds no whitespace but spaces. */
  predicate ShapeOf(t: string, r: string) {
    && ('-' in r ==> '-' in t) && ('_' in r ==> '_' in t)
    && CapitalsStartWords(r)
    && ((forall c :: c in t && IsWhitespace(c) ==> c == ' ') ==> r == [] || !IsLower(r[0]))
  }

  /** Trimming a text whose non-letters are copied from `t` and whose
      capitals start words keeps both properties. */
  lemma TrimKeepsShape(t: string, u: string)
    requires |u| == |t| && CapitalsStartWords(u) && (|u| > 0 ==> !IsLower(u[0]))
    requires forall k :: 0 <= k < |u| && !IsUpper(u[k]) && !IsLower(u[k]) ==> u[k] == t[k]
    ensures ShapeOf(t, Trim(u))
  {
    var r := Trim(u);
    var i := TrimIsSlice(u);
    assert i > 0 ==> IsWhitespace(u[i - 1]) by {
      if i > 0 { assert u[..i][i - 1] == u[i - 1]; }
    }
    SliceShape(t, u, i, |r|, r);
  }

  lemma SliceShape(t: string, u: string, i: nat, n: nat, r: string)
    requires |u| == |t| && CapitalsStartWords(u) && (|u| > 0 ==> !IsLower(u[0]))
    requires forall k :: 0 <= k < |u| && !IsUpper(u[k]) && !IsLower(u[k]) ==> u[k] == t[k]
    requires i + n <= |u| && (i > 0 ==> IsWhitespace(u[i - 1]))
    requires r == u[i..i + n]
    ensures ShapeOf(t, r)
  {
    SliceKeepsCapitals(u, i, n);
    forall k | 0 <= k < n && (r[k] == '-' || r[k] == '_') ensures r[k] in t {
      assert r[k] == u[i + k];
      assert t[i + k] in t;
    }
    if (forall c :: c in t && IsWhitespace(c) ==> c == ' ') && r != [] && i > 0 {
      assert r[0] == u[i];
      assert t[i - 1] in t;
    }
  }

  /** What `formatTitle` promises: no hyphens or underscores, no surrounding
      whitespace, capitals only where a word starts, and no word that starts
      with a lower-case letter after a space; the first character is not
      lower-case either unless the input held whitespace other than spaces. */
  lemma FormatTitleShape(s: string)
    ensures var r := FormatTitle(s);
            && '-' !in r && '_' !in r
            && (r == [] || (!IsWhitespace(r[0]) && !IsWhitespace(r[|r| - 1])))
            && CapitalsStartWords(r)
            && ((forall c :: c in s && IsWhitespace(c) ==> c == ' ') ==> r == [] || !IsLower(r[0]))
  {
    FormatTitleRecases(s);
    PrepareShape(s);
    RecaseShape(Prepare(s), true);
    TrimKeepsShape(Prepare(s), Recase(Prepare(s), true));
  }

  lemma TrimmedTextIsKept(s: string)
    requires s == [] || (!IsWhitespace(s[0]) && !IsWhitespace(s[|s| - 1]))
    ensures Trim(s) == s
    ensures Trim(" " + s) == s
  {
    var t := " " + s;
    assert WhitespaceEnd(t, 0) == WhitespaceEnd(t, 1);
    if s == [] {
      assert WhitespaceEnd(t, 1) == 1;
    } else {
      assert t[1] == s[0] && t[|t| - 1] == s[|s| - 1];
      assert WhitespaceEnd(t, 1) == 1;
      assert WhitespaceStart(t, 1, |t|) == |t|;
      assert WhitespaceStart(s, 0, |s|) == |s|;
    }
    assert t[1..] == s;
  }

  /** A word of lower-case letters. */
  predicate LowerWord(w: string) {
    |w| > 0 && forall k :: 0 <= k < |w| ==> IsLower(w[k])
  }

  /** A word of one capital followed by lower-case letters. */
  predicate CapitalWord(w: string) {
    |w| > 0 && IsUpper(w[0]) && forall k :: 0 < k < |w| ==> IsLower(w[k])
  }

  lemma CapitalizeLowerWord(w: string)
    requires LowerWord(w)
    ensures CapitalWord(Capitalize(w)) && |Capitalize(w)| == |w|
    ensures Capitalize(w)[0] == ToUpperChar(w[0]) && Capitalize(w)[1..] == w[1..]
  {
    assert Lower(w[1..]) == w[1..];
  }

  /** Title words hold no hyphen, underscore or space. */
  lemma WordHasNoSeparators(w: string)
    requires LowerWord(w) || CapitalWord(w)
    ensures '-' !in w && '_' !in w && ' ' !in w
  {
    forall k | 0 <= k < |w| ensures w[k] != '-' && w[k] != '_' && w[k] != ' ' {
      assert IsUpper(w[k]) || IsLower(w[k]);
    }
  }

  /** Text that starts and ends with a capitalised word is its own trim. */
  lemma TitleTextIsTrimmed(x: string, gap: string, y: string)
    requires CapitalWord(x) && CapitalWord(y)
    ensures Trim(x + gap + y) == x + gap + y
    ensures Trim(" " + (x + gap + y)) == x + gap + y
  {
    var r := x + gap + y;
    assert r[0] == x[0];
    assert r[|r| - 1] == y[|y| - 1];
    assert IsUpper(y[|y| - 1]) || IsLower(y[|y| - 1]);
    TrimmedTextIsKept(r);
  }

  /** Re-casing text made of words that already have the title shape,
      separated by spaces, changes nothing. */
  lemma RecaseTitleText(t: string)
    requires |t| > 0 && !IsLower(t[0])
    requires forall k :: 0 < k < |t| ==> (if t[k - 1] == ' ' then !IsLower(t[k]) else !IsUpper(t[k]))
    ensures Recase(t, true) == t
  {
    var u := Recase(t, true);
    forall k | 0 <= k < |t| ensures u[k] == t[k] {
      if k > 0 && t[k - 1] != ' ' {
        assert !IsUpper(t[k]);
      }
    }
  }

  /** Text without hyphens and underscores is left alone. */
  lemma DashesToSpacesKeeps(t: string)
    requires '-' !in t && '_' !in t
    ensures DashesToSpaces(t) == t
  {
    forall k | 0 <= k < |t| ensures DashesToSpaces(t)[k] == t[k] {
      assert t[k] in t;
    }
  }

  lemma {:induction false} DashesToSpacesAppend(x: string, y: string)
    ensures DashesToSpaces(x + y) == DashesToSpaces(x) + DashesToSpaces(y)
    decreases |x|
  {
    if x != [] {
      assert (x + y)[1..] == x[1..] + y;
      DashesToSpacesAppend(x[1..], y);
    } else {
      assert x + y == y;
    }
  }

  lemma PrepareSnakeCase(a: string, sep: char, b: string)
    requires LowerWord(a) && LowerWord(b) && (sep == '_' || sep == '-')
    ensures Prepare(a + [sep] + b) == a + " " + b
  {
    var s := a + [sep] + b;
    SpaceBeforeUpperAppend(a + [sep], b);
    SpaceBeforeUpperAppend(a, [sep]);
    SpaceBeforeUpperNoCapitals(a);
    SpaceBeforeUpperNoCapitals(b);
    assert SpaceBeforeUpper([sep]) == [sep];
    assert SpaceBeforeUpper(s) == s;
    DashesToSpacesAppend(a + [sep], b);
    DashesToSpacesAppend(a, [sep]);
    WordHasNoSeparators(a);
    WordHasNoSeparators(b);
    DashesToSpacesKeeps(a);
    DashesToSpacesKeeps(b);
    assert DashesToSpaces([sep]) == " ";
  }

  /** Re-casing works piece by piece: the second piece starts a word when
      the first ends with a space. */
  lemma {:induction false} RecaseAppend(x: string, y: string, atStart: bool)
    requires x != []
    ensures Recase(x + y, atStart) == Recase(x, atStart) + Recase(y, x[|x| - 1] == ' ')
    decreases |x|
  {
    assert (x + y)[0] == x[0];
    assert (x + y)[1..] == x[1..] + y;
    if |x| > 1 {
      RecaseAppend(x[1..], y, x[0] == ' ');
      assert x[1..][|x| - 2] == x[|x| - 1];
    }
  }

  /** Inside a word re-casing lower-cases; at the start of the text it
      capitalises the word. */
  lemma RecaseWord(w: string)
    requires ' ' !in w
    ensures Recase(w, false) == Lower(w)
    ensures w != [] ==> Recase(w, true) == Capitalize(w)
  {
    forall k | 0 <= k < |w| ensures w[k] != ' ' {
      assert w[k] in w;
    }
    assert Recase(w, false) == Lower(w) by {
      forall k | 0 <= k < |w| ensures Recase(w, false)[k] == Lower(w)[k] {
      }
    }
    if w != [] {
      var c := Capitalize(w);
      assert c == [ToUpperChar(w[0])] + Lower(w[1..]);
      forall k | 0 <= k < |w| ensures Recase(w, true)[k] == c[k] {
        if k > 0 {
          assert c[k] == Lower(w[1..])[k - 1];
        }
      }
    }
  }

  lemma RecaseTwoWords(a: string, b: string)
    requires LowerWord(a) && LowerWord(b)
    ensures Recase(a + " " + b, true) == Capitalize(a) + " " + Capitalize(b)
  {
    WordHasNoSeparators(a);
    WordHasNoSeparators(b);
    var x := a + " ";
    assert x[|x| - 1] == ' ' && a[|a| - 1] != ' ';
    RecaseAppend(x, b, true);
    RecaseAppend(a, " ", true);
    RecaseWord(a);
    RecaseWord(b);
    assert Recase(" ", false) == " ";
  }

  /** Snake and kebab case: two lower-case words joined by `_` or `-` become
      the two words capitalised and separated by one space, as
      `sales_report` becomes "Sales Report". */
  lemma FormatTitleSnakeCase(a: string, sep: char, b: string)
    requires LowerWord(a) && LowerWord(b) && (sep == '_' || sep == '-')
    ensures FormatTitle(a + [sep] + b) == Capitalize(a) + " " + Capitalize(b)
  {
    PrepareSnakeCase(a, sep, b);
    RecaseTwoWords(a, b);
    FormatTitleRecases(a + [sep] + b);
    CapitalizeLowerWord(a);
    CapitalizeLowerWord(b);
    TitleTextIsTrimmed(Capitalize(a), " ", Capitalize(b));
  }

  lemma SpacedCapitalWord(w: string)
    requires CapitalWord(w)
    ensures SpaceBeforeUpper(w) == " " + w
  {
    var v := w[1..];
    assert forall k :: 0 <= k < |v| ==> v[k] == w[k + 1];
    SpaceBeforeUpperNoCapitals(v);
    assert SpaceBeforeUpper(w) == [' ', w[0]] + SpaceBeforeUpper(v);
    assert [' ', w[0]] + v == " " + w;
  }

  lemma PrepareCamelCase(a: string, b: string)
    requires CapitalWord(a) && CapitalWord(b)
    ensures Prepare(a + b) == " " + (a + " " + b)
  {
    var t := " " + (a + " " + b);
    assert SpaceBeforeUpper(a + b) == t by {
      SpaceBeforeUpperAppend(a, b);
      SpacedCapitalWord(a);
      SpacedCapitalWord(b);
      assert (" " + a) + (" " + b) == t;
    }
    assert '-' !in t && '_' !in t by {
      WordHasNoSeparators(a);
      WordHasNoSeparators(b);
    }
    DashesToSpacesKeeps(t);
  }

  lemma PrepareSpacedWords(a: string, b: string)
    requires CapitalWord(a) && CapitalWord(b)
    ensures Prepare(a + " " + b) == " " + (a + "  " + b)
  {
    var x := a + " " + b;
    var sb := " " + b;
    var t := " " + (a + "  " + b);
    assert SpaceBeforeUpper(sb) == "  " + b by {
      SpaceBeforeUpperAppend(" ", b);
      assert SpaceBeforeUpper(" ") == " ";
      SpacedCapitalWord(b);
    }
    assert SpaceBeforeUpper(x) == t by {
      assert x == a + sb;
      SpaceBeforeUpperAppend(a, sb);
      SpacedCapitalWord(a);
      assert (" " + a) + ("  " + b) == t;
    }
    assert '-' !in t && '_' !in t by {
      WordHasNoSeparators(a);
      WordHasNoSeparators(b);
    }
    DashesToSpacesKeeps(t);
  }

  lemma RecaseSpacedWords(a: string, gap: string, b: string)
    requires CapitalWord(a) && CapitalWord(b) && |gap| > 0
    requires forall k :: 0 <= k < |gap| ==> gap[k] == ' '
    ensures Recase(" " + (a + gap + b), true) == " " + (a + gap + b)
  {
    var t := " " + (a + gap + b);
    forall k | 0 < k < |t| ensures if t[k - 1] == ' ' then !IsLower(t[k]) else !IsUpper(t[k]) {
      if k <= |a| {
        assert t[k] == a[k - 1];
        if k > 1 { assert t[k - 1] == a[k - 2]; }
      } else if k <= |a| + |gap| {
        assert t[k] == ' ';
      } else {
        var j := k - 1 - |a| - |gap|;
        assert t[k] == b[j];
        if j > 0 { assert t[k - 1] == b[j - 1]; } else { assert t[k - 1] == gap[|gap| - 1]; }
      }
    }
    RecaseTitleText(t);
  }

  /** Camel case: two capitalised words written together are separated by a
      space, as `MyDashboard` becomes "My Dashboard". */
  lemma FormatTitleCamelCase(a: string, b: string)
    requires CapitalWord(a) && CapitalWord(b)
    ensures FormatTitle(a + b) == a + " " + b
  {
    PrepareCamelCase(a, b);
    RecaseSpacedWords(a, " ", b);
    FormatTitleRecases(a + b);
    TitleTextIsTrimmed(a, " ", b);
  }

  /** Two capitalised words separated by a space come back with two spaces
      between them, as "My Dashboard" becomes "My  Dashboard". */
  lemma FormatTitleSpacedWords(a: string, b: string)
    requires CapitalWord(a) && CapitalWord(b)
    ensures FormatTitle(a + " " + b) == a + "  " + b
  {
    PrepareSpacedWords(a, b);
    RecaseSpacedWords(a, "  ", b);
    FormatTitleRecases(a + " " + b);
    TitleTextIsTrimmed(a, "  ", b);
  }

  /** `formatTitle` is not idempotent: formatting "MyDashboard" twice gives
      "My  Dashboard", not "My Dashboard". */
  lemma FormatTitleNotIdempotent(a: string, b: string)
    requires CapitalWord(a) && CapitalWord(b)
    ensures FormatTitle(FormatTitle(a + b)) != FormatTitle(a + b)
  {
    FormatTitleCamelCase(a, b);
    FormatTitleSpacedWords(a, b);
    assert |a + "  " + b| != |a + " " + b|;
  }
}
