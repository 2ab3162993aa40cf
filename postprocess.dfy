/** `lowdown_postprocess` of run.py: undo the escapes lowdown writes into its
    LaTeX output by a fixed table of replacements, applied in table order. */
module Postprocess {
  import opened Texts

  /** One row of the table: every occurrence of `key` becomes `value`. */
  datatype Rule = Rule(key: string, value: string)

  /** The replacement table, in the order of the dictionary literal (Python
      dictionaries keep insertion order). The keys are the strings the Python
      literals denote: `'\e'`, `'\{'` and the like are not escapes in Python,
      so the backslash stays, and `'\\t…'` is one backslash. */
  const Rules: seq<Rule> := [
    Rule("\\emph{", "*"),
    Rule("textbackslash{}", ""),
    Rule("\\{", "{"),
    Rule("\\}", "}"),
    Rule("\\#", "#"),
    Rule("\\$", "$"),
    Rule("\\%", "%"),
    Rule("\\&", "&"),
    Rule("\\_", "_"),
    Rule("\\textasciicircum{}", "^")
  ]

  /** The rules applied one after the other, each to the output of the one
      before it. */
  function ApplyRules(content: string, rules: seq<Rule>): string
    decreases |rules|
  {
    if |rules| == 0 then content
    else ApplyRules(ReplaceAll(content, rules[0].key, rules[0].value), rules[1..])
  }

  /** A rule that never lengthens a text: a non-empty key and a value no
      longer than it. */
  predicate Shrinks(rule: Rule)
  {
    0 < |rule.key| && |rule.value| <= |rule.key|
  }

  /** Every row of the table shrinks. */
  lemma RulesShrink()
    ensures forall k :: 0 <= k < |Rules| ==> Shrinks(Rules[k])
  {
  }

  /** The loop of `lowdown_postprocess` over the table: a key the content
      holds is replaced everywhere. */
  method PostprocessContent(content: string) returns (r: string)
    ensures r == ApplyRules(content, Rules)
  {
    r := content;
    for i := 0 to |Rules|
      invariant ApplyRules(content, Rules) == ApplyRules(r, Rules[i..])
    {
      assert Rules[i..][1..] == Rules[i + 1..];
      var key, value := Rules[i].key, Rules[i].value;
      if Contains(r, key) {
        r := ReplaceAll(r, key, value);
      } else {
        ReplaceAllAbsent(r, key, value);
      }
    }
  }

  /** Rules that shrink never lengthen the content. */
  lemma {:induction false} ApplyRulesNotLonger(content: string, rules: seq<Rule>)
    requires forall k :: 0 <= k < |rules| ==> Shrinks(rules[k])
    ensures |ApplyRules(content, rules)| <= |content|
    decreases |rules|
  {
    if |rules| > 0 {
      assert Shrinks(rules[0]);
      ReplaceAllNotLonger(content, rules[0].key, rules[0].value);
      ApplyRulesNotLonger(ReplaceAll(content, rules[0].key, rules[0].value), rules[1..]);
    }
  }

  /** Post-processing never makes the text longer. */
  lemma PostprocessNotLonger(content: string)
    ensures |ApplyRules(content, Rules)| <= |content|
  {
    RulesShrink();
    ApplyRulesNotLonger(content, Rules);
  }

  /** Content that holds none of the keys passes through unchanged. */
  lemma {:induction false} ApplyRulesAbsent(content: string, rules: seq<Rule>)
    requires forall k :: 0 <= k < |rules| ==> !Contains(content, rules[k].key)
    ensures ApplyRules(content, rules) == content
    decreases |rules|
  {
    if |rules| > 0 {
      ReplaceAllAbsent(content, rules[0].key, rules[0].value);
      ApplyRulesAbsent(content, rules[1..]);
    }
  }

  /** Applying a table in two parts is applying the first part, then the
      second part to its output: each rule sees what the rules before it
      produced. */
  lemma {:induction false} ApplyRulesAppend(content: string, p: seq<Rule>, q: seq<Rule>)
    ensures ApplyRules(content, p + q) == ApplyRules(ApplyRules(content, p), q)
    decreases |p|
  {
    if |p| > 0 {
      assert (p + q)[0] == p[0];
      assert (p + q)[1..] == p[1..] + q;
      ApplyRulesAppend(ReplaceAll(content, p[0].key, p[0].value), p[1..], q);
    } else {
      assert p + q == q;
    }
  }
}
