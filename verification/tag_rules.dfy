/** The tag generators of the metadata script (`generateTags`,
    `generateHtmlTags`) are lists of substring tests, each adding one tag.
    This module gives such a list a meaning once; the two generators are
    tables of rules over it. */
module TagRules {
  import opened Strings

  /** Adds `tag` when the text contains any of `needles`. */
  datatype TagRule = TagRule(tag: string, needles: seq<string>)

  predicate Fires(rule: TagRule, text: string) {
    exists i :: 0 <= i < |rule.needles| && Contains(text, rule.needles[i])
  }

  /** The tags of the rules that fire on `text`, in rule order. */
  function Fired(rules: seq<TagRule>, text: string): (r: seq<string>)
    ensures forall t :: t in r <==> exists i :: 0 <= i < |rules| && rules[i].tag == t && Fires(rules[i], text)
    ensures |r| <= |rules|
  {
    if rules == [] then []
    else
      var rest := Fired(rules[1..], text);
      assert forall i :: 0 <= i < |rules[1..]| ==> rules[1..][i] == rules[i + 1];
      (if Fires(rules[0], text) then [rules[0].tag] else []) + rest
  }
}
