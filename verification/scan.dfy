/** Building blocks for the hand-written scanners that stand in for the
    generator's regular expressions: greedy character-class runs, the ways
    a greedy run gives characters back when the rest of a pattern fails, the
    leftmost-match search of `match` and the successive matches of
    `matchAll`. Each pattern is a function from a start position to the
    match found there, if any, with the backtracking written out. */
module Scan {
  import opened Wrappers
  import opened Strings

  /** A match of a pattern: where it ends and what its first group captured. */
  datatype Match = Match(end: nat, capture: string)

  /** End of the longest run of characters satisfying `p` from `i`: how far
      a greedy `[...]*` reaches. */
  function RunEnd(s: string, i: nat, p: char -> bool): (e: nat)
    requires i <= |s|
    ensures i <= e <= |s|
    ensures forall k :: i <= k < e ==> p(s[k])
    ensures e == |s| || !p(s[e])
    decreases |s| - i
  {
    if i == |s| || !p(s[i]) then i else RunEnd(s, i + 1, p)
  }

  /** The first position from `from` on (up to `|s|`) where `at` matches. */
  function FirstMatchFrom(s: string, from: nat, at: nat -> Option<Match>): (r: Option<nat>)
    ensures r.None? <==> forall q :: from <= q <= |s| ==> at(q).None?
    ensures r.Some? ==> from <= r.value <= |s| && at(r.value).Some?
                        && forall q :: from <= q < r.value ==> at(q).None?
    decreases |s| + 1 - from
  {
    if from > |s| then None
    else if at(from).Some? then Some(from)
    else FirstMatchFrom(s, from + 1, at)
  }

  /** A greedy run that reached `a` gives back one character at a time,
      down to `lo`, until the rest of the pattern, `rest`, matches. */
  function GiveBack(lo: nat, a: nat, rest: nat -> Option<Match>): (r: Option<Match>)
    requires lo <= a
    ensures r.None? <==> forall b :: lo <= b <= a ==> rest(b).None?
    ensures r.Some? ==> exists b :: lo <= b <= a && rest(b) == r
                                    && forall c :: b < c <= a ==> rest(c).None?
    decreases a
  {
    if rest(a).Some? then rest(a)
    else if a == lo then None
    else GiveBack(lo, a - 1, rest)
  }

  /** A lazy `.*?` that starts at `f` and may reach `lim`: it takes one
      more character at a time until the rest of the pattern, `rest`,
      matches. */
  function TakeLazily(f: nat, lim: nat, rest: nat -> Option<Match>): (r: Option<Match>)
    ensures r.None? <==> forall g :: f <= g <= lim ==> rest(g).None?
    ensures r.Some? ==> exists g :: f <= g <= lim && rest(g) == r
                                    && forall h :: f <= h < g ==> rest(h).None?
    decreases lim + 1 - f
  {
    if f > lim then None
    else if rest(f).Some? then rest(f)
    else TakeLazily(f + 1, lim, rest)
  }

  /** `s.match(re)` for a pattern without the flag `g`: the match at the
      leftmost position where the pattern matches. */
  function FirstMatch(s: string, at: nat -> Option<Match>): (r: Option<Match>)
    ensures r.None? <==> forall q :: 0 <= q <= |s| ==> at(q).None?
    ensures r.Some? ==> exists p :: 0 <= p <= |s| && at(p) == r
                                    && forall q :: 0 <= q < p ==> at(q).None?
  {
    match FirstMatchFrom(s, 0, at)
    case None => None
    case Some(p) => at(p)
  }

  /** `r` is what the fallback chain of the extractors yields: what the
      first pattern captures at its leftmost match, transformed by `f1`;
      else what the second captures at its leftmost match, transformed by
      `f2`; else `otherwise`. */
  predicate FallsBack(s: string, at1: nat -> Option<Match>, f1: string -> string,
                      at2: nat -> Option<Match>, f2: string -> string, otherwise: string, r: string)
  {
    && ((exists p :: 0 <= p <= |s| && at1(p).Some?) ==>
          exists p :: 0 <= p <= |s| && at1(p).Some? && r == f1(at1(p).value.capture)
                      && forall q :: 0 <= q < p ==> at1(q).None?)
    && ((forall p :: 0 <= p <= |s| ==> at1(p).None?) && (exists p :: 0 <= p <= |s| && at2(p).Some?) ==>
          exists p :: 0 <= p <= |s| && at2(p).Some? && r == f2(at2(p).value.capture)
                      && forall q :: 0 <= q < p ==> at2(q).None?)
    && ((forall p :: 0 <= p <= |s| ==> at1(p).None? && at2(p).None?) ==> r == otherwise)
  }

  /** The fallback chain, computed with `match`. */
  function FirstOf(s: string, at1: nat -> Option<Match>, f1: string -> string,
                   at2: nat -> Option<Match>, f2: string -> string, otherwise: string): (r: string)
    ensures FallsBack(s, at1, f1, at2, f2, otherwise, r)
  {
    match FirstMatch(s, at1)
    case Some(m) => f1(m.capture)
    case None =>
      match FirstMatch(s, at2)
      case Some(m) => f2(m.capture)
      case None => otherwise
  }

  /** `s.matchAll(re)` for a pattern with the flag `g`, searching from
      `from`: each search resumes where the previous match ended (one
      position further after an empty match). */
  function AllMatches(s: string, from: nat, at: nat -> Option<Match>): (r: seq<Match>)
    ensures r == [] <==> forall q :: from <= q <= |s| ==> at(q).None?
    ensures forall m :: m in r ==> exists q :: from <= q <= |s| && at(q) == Some(m)
    decreases |s| + 1 - from
  {
    match FirstMatchFrom(s, from, at)
    case None => []
    case Some(p) =>
      var m := at(p).value;
      var next := if m.end > p then m.end else p + 1;
      var rest := AllMatches(s, next, at);
      assert forall x :: x in rest ==> exists q :: from <= q <= |s| && at(q) == Some(x);
      [m] + rest
  }

  /** The first result of `matchAll` is the result of `match`. */
  lemma AllMatchesStartWithFirstMatch(s: string, at: nat -> Option<Match>)
    ensures FirstMatch(s, at).None? <==> AllMatches(s, 0, at) == []
    ensures FirstMatch(s, at).Some? ==> AllMatches(s, 0, at)[0] == FirstMatch(s, at).value
  {
  }

  /** The class `[^\n*]`. */
  predicate NotNewlineOrStar(c: char) { c != '\n' && c != '*' }

  /** `\s*([^\n*]+)` once the greedy whitespace run from `lo` has reached
      `k`: backtracking gives whitespace back one character at a time until
      the group can start, and the group then takes the longest run of its
      class. */
  function CaptureBack(s: string, lo: nat, k: nat): (r: Option<Match>)
    requires lo <= k <= |s|
    ensures r.None? <==> forall j :: lo <= j <= k && j < |s| ==> !NotNewlineOrStar(s[j])
    ensures r.Some? ==>
              var start := r.value.end - |r.value.capture|;
              && lo <= start <= k && start < r.value.end <= |s|
              && r.value.capture == s[start..r.value.end]
              && (forall j :: start <= j < r.value.end ==> NotNewlineOrStar(s[j]))
              && (r.value.end == |s| || !NotNewlineOrStar(s[r.value.end]))
              && (forall j :: start < j <= k && j < |s| ==> !NotNewlineOrStar(s[j]))
    decreases k
  {
    if k < |s| && NotNewlineOrStar(s[k]) then
      var e := RunEnd(s, k, NotNewlineOrStar);
      Some(Match(e, s[k..e]))
    else if k == lo then None
    else CaptureBack(s, lo, k - 1)
  }

  /** The first groups of a list of matches. */
  function Captures(ms: seq<Match>): (r: seq<string>)
    ensures |r| == |ms|
    ensures forall i :: 0 <= i < |ms| ==> r[i] == ms[i].capture
  {
    if ms == [] then [] else [ms[0].capture] + Captures(ms[1..])
  }

  /** When a pattern never captures the empty string, no result of
      `matchAll` does. */
  lemma CapturesNonEmpty(s: string, from: nat, at: nat -> Option<Match>)
    requires forall q :: at(q).Some? ==> |at(q).value.capture| > 0
    ensures forall d :: d in Captures(AllMatches(s, from, at)) ==> |d| > 0
  {
    var ms := AllMatches(s, from, at);
    forall d | d in Captures(ms) ensures |d| > 0 {
      var i :| 0 <= i < |ms| && Captures(ms)[i] == d;
      assert ms[i] in ms;
    }
  }

  /** The largest position in `[lo, k]` where `sub` occurs, if any: where a
      greedy run that `sub` must follow gives back to. */
  function LastOccurrence(s: string, sub: string, lo: nat, k: nat): (r: Option<nat>)
    requires lo <= k
    ensures r.None? <==> forall j :: lo <= j <= k ==> !OccursAt(s, sub, j)
    ensures r.Some? ==> lo <= r.value <= k && OccursAt(s, sub, r.value)
                        && forall j :: r.value < j <= k ==> !OccursAt(s, sub, j)
    decreases k
  {
    if OccursAt(s, sub, k) then Some(k)
    else if k == lo then None
    else LastOccurrence(s, sub, lo, k - 1)
  }

  /** The quote characters of the classes `['"]` and `[^'"]`. */
  predicate IsQuote(c: char) { c == '\'' || c == '"' }
}
