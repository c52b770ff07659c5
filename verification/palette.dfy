/** The colour tables of make-dark.py and the thirteen substitution passes
    that `transform_style` runs over a style string before anything else. */
module Palette {
  import opened Strings

  // ---------------------------------------------------------------------------
  // The tables (make-dark.py:10-30), in dictionary order: light -> dark
  // ---------------------------------------------------------------------------

  const FillAttr := "fillColor"
  const StrokeAttr := "strokeColor"
  const FontAttr := "fontColor"

  const FillMap: seq<(string, string)> := [
    ("#dae8fc", "#1e4d8c"),
    ("#fff2cc", "#7a6200"),
    ("#d5e8d4", "#2d6b2d"),
    ("#f8cecc", "#8b2020"),
    ("#f5f5f5", "#3a3a3a")
  ]

  const StrokeMap: seq<(string, string)> := [
    ("#6c8ebf", "#6a9fd8"),
    ("#d6b656", "#d4a820"),
    ("#82b366", "#5aad5a"),
    ("#b85450", "#d45a5a"),
    ("#666666", "#999999")
  ]

  const FontMap: seq<(string, string)> := [
    ("#333333", "#cccccc"),
    ("#666666", "#999999"),
    ("#444444", "#bbbbbb")
  ]

  /** `attr=colour`, the text one substitution pass looks for or writes. */
  function Key(attr: string, colour: string): string
  {
    attr + "=" + colour
  }

  // ---------------------------------------------------------------------------
  // The shape shared by every key: letters, '=', '#', six hex digits
  // ---------------------------------------------------------------------------

  predicate IsLetter(c: char)
  {
    'a' <= Fold(c) <= 'z'
  }

  /** A hex digit as the tables write them: a digit or a lower-case a-f. */
  predicate IsHex(c: char)
  {
    '0' <= c <= '9' || 'a' <= c <= 'f'
  }

  predicate IsColour(c: string)
  {
    |c| == 7 && c[0] == '#' && forall i :: 1 <= i < 7 ==> IsHex(c[i])
  }

  predicate IsAttr(a: string)
  {
    a == FillAttr || a == StrokeAttr || a == FontAttr
  }

  /** `x` is letters up to index `e`, then '=', '#' and hex digits; its second
      letter is not one a hex digit could match. */
  predicate Shaped(x: string, e: int)
  {
    && 2 <= e
    && |x| == e + 8
    && (forall i :: 0 <= i < e ==> IsLetter(x[i]))
    && x[e] == '='
    && x[e + 1] == '#'
    && (forall i :: e + 1 < i < |x| ==> IsHex(x[i]))
    && !('a' <= Fold(x[1]) <= 'f')
  }

  lemma AttrFacts(a: string)
    requires IsAttr(a)
    ensures 2 <= |a| && forall i :: 0 <= i < |a| ==> IsLetter(a[i])
    ensures !('a' <= Fold(a[1]) <= 'f')
    ensures a[0] == 'f' || a[0] == 's'
  {
  }

  lemma KeyShaped(attr: string, colour: string)
    requires IsAttr(attr) && IsColour(colour)
    ensures Shaped(Key(attr, colour), |attr|)
  {
    AttrFacts(attr);
    var x := Key(attr, colour);
    forall i | 0 <= i < |attr| ensures IsLetter(x[i]) {
      assert x[i] == attr[i];
    }
    forall i | |attr| + 1 < i < |x| ensures IsHex(x[i]) {
      assert x[i] == colour[i - |attr| - 1];
    }
  }

  /** In a shaped text, only index `e` holds something that can match '='. */
  lemma EqualsOnlyAt(x: string, e: int, m: int, ic: bool)
    requires Shaped(x, e)
    ensures 0 <= m < |x| && Same('=', x[m], ic) ==> m == e
  {
  }

  /** The second letter of one shaped text never matches a hex digit of another. */
  lemma SecondLetterVsHex(b: string, eb: int, a: string, ea: int, t: int, ic: bool)
    requires Shaped(a, ea) && Shaped(b, eb)
    ensures ea + 1 < t < |a| ==> !Same(b[1], a[t], ic)
  {
  }

  lemma AgreeAt(a: string, b: string, d: int, i: int, m: int, ic: bool)
    ensures Agree(a, b, d, ic) && 0 <= i < |b| && 0 <= m < |a| && i == m + d ==> Same(b[i], a[m], ic)
  {
  }

  /** Two shaped texts agree on an overlap only when their '=' signs line up,
      or when they overlap in a single character at one end. */
  lemma AgreeCases(a: string, ea: int, b: string, eb: int, d: int, ic: bool)
    requires Shaped(a, ea) && Shaped(b, eb)
    ensures -|a| < d < |b| && Agree(a, b, d, ic) ==> d == eb - ea || d == 1 - |a| || d == |b| - 1
  {
    // an '=' inside the overlap must meet the other '='
    AgreeAt(a, b, d, eb, eb - d, ic);
    EqualsOnlyAt(a, ea, eb - d, ic);
    AgreeAt(a, b, d, ea + d, ea, ic);
    EqualsOnlyAt(b, eb, ea + d, ic);
    // otherwise one text's second letter would lie over the other's hex digits
    AgreeAt(a, b, d, 1, 1 - d, ic);
    SecondLetterVsHex(b, eb, a, ea, 1 - d, ic);
    AgreeAt(a, b, d, d + 1, 1, ic);
    SecondLetterVsHex(a, ea, b, eb, d + 1, ic);
  }

  /** Two keys whose '=' signs line up agree only when they are the same key. */
  lemma AlignedAgree(attrA: string, colA: string, attrB: string, colB: string, ic: bool)
    requires IsAttr(attrA) && IsAttr(attrB) && IsColour(colA) && IsColour(colB)
    ensures Agree(Key(attrA, colA), Key(attrB, colB), |attrB| - |attrA|, ic) ==> attrA == attrB && colA == colB
  {
    var a, b, d := Key(attrA, colA), Key(attrB, colB), |attrB| - |attrA|;
    // "fillColor" against "fontColor", and either of them against "strokeColor"
    AgreeAt(a, b, d, 1, 1, ic);
    AgreeAt(a, b, d, 2, 0, ic);
    AgreeAt(a, b, d, 0, 2, ic);
    if attrA == attrB && Agree(a, b, d, ic) {
      forall t | 0 <= t < 7 ensures colA[t] == colB[t] {
        AgreeAt(a, b, d, |attrB| + 1 + t, |attrA| + 1 + t, ic);
        assert a[|attrA| + 1 + t] == colA[t];
        assert b[|attrB| + 1 + t] == colB[t];
      }
    }
  }

  lemma KeyEnds(attr: string, colour: string)
    requires IsAttr(attr) && IsColour(colour)
    ensures |Key(attr, colour)| == |attr| + 8
    ensures Key(attr, colour)[0] == attr[0]
    ensures Key(attr, colour)[|attr| + 7] == colour[6]
  {
  }

  /** A rule's light key never agrees with its dark key wherever the two overlap. */
  lemma KeyDisjoint(attr: string, light: string, dark: string)
    requires IsAttr(attr) && IsColour(light) && IsColour(dark) && light != dark
    requires dark[6] != 'f' && (light[6] != 'f' || attr == StrokeAttr)
    ensures Disjoint(Key(attr, light), Key(attr, dark), true)
  {
    var p, r := Key(attr, light), Key(attr, dark);
    KeyShaped(attr, light);
    KeyShaped(attr, dark);
    KeyEnds(attr, light);
    KeyEnds(attr, dark);
    AttrFacts(attr);
    forall d | -|p| < d < |r| ensures !Agree(p, r, d, true) {
      AgreeCases(p, |attr|, r, |attr|, d, true);
      AlignedAgree(attr, light, attr, dark, true);
      AgreeAt(p, r, d, 0, |p| - 1, true);
      AgreeAt(p, r, d, |r| - 1, 0, true);
    }
  }

  /** Two occurrences of a light key never overlap. */
  lemma KeySelfOverlapFree(attr: string, light: string)
    requires IsAttr(attr) && IsColour(light) && (light[6] != 'f' || attr == StrokeAttr)
    ensures SelfOverlapFree(Key(attr, light), true)
  {
    var p := Key(attr, light);
    KeyShaped(attr, light);
    KeyEnds(attr, light);
    AttrFacts(attr);
    forall d | 0 < d < |p| ensures !Agree(p, p, d, true) {
      AgreeCases(p, |attr|, p, |attr|, d, true);
      AgreeAt(p, p, d, |p| - 1, 0, true);
    }
  }

  /** Writing a dark key can only complete a key `q` by its first letter,
      which the light key it replaces has too; so no rule creates a light key
      that was not there, unless its dark value is that key's light value. */
  lemma KeyCannotCreate(attrQ: string, lightQ: string, attr: string, light: string, dark: string)
    requires IsAttr(attrQ) && IsAttr(attr) && IsColour(lightQ) && IsColour(light) && IsColour(dark)
    requires dark[6] != 'f' && (attrQ == attr ==> lightQ != dark)
    ensures CannotCreate(Key(attrQ, lightQ), Key(attr, light), Key(attr, dark), true)
  {
    var q, p, r := Key(attrQ, lightQ), Key(attr, light), Key(attr, dark);
    KeyShaped(attrQ, lightQ);
    KeyShaped(attr, dark);
    KeyEnds(attrQ, lightQ);
    KeyEnds(attr, light);
    KeyEnds(attr, dark);
    AttrFacts(attrQ);
    forall d | -|q| < d < |r| && Agree(q, r, d, true)
      ensures forall i :: 0 <= i < |r| && 0 <= i - d < |q| ==> Same(p[i], r[i], true)
    {
      AgreeCases(q, |attrQ|, r, |attr|, d, true);
      AlignedAgree(attrQ, lightQ, attr, dark, true);
      AgreeAt(q, r, d, |r| - 1, 0, true);
    }
  }

  /** A key holds no light key other than itself. */
  lemma KeyHoldsNoOtherKey(attr: string, colour: string, attrQ: string, lightQ: string)
    requires IsAttr(attr) && IsColour(colour) && IsAttr(attrQ) && IsColour(lightQ)
    requires attrQ == attr ==> lightQ != colour
    ensures !Occurs(Key(attr, colour), Key(attrQ, lightQ), true)
  {
    var x, q := Key(attr, colour), Key(attrQ, lightQ);
    KeyShaped(attr, colour);
    KeyShaped(attrQ, lightQ);
    forall m ensures !MatchAt(x, q, m, true) {
      MatchAgree(x, q, m, true);
      AgreeCases(q, |attrQ|, x, |attr|, m, true);
      AlignedAgree(attrQ, lightQ, attr, colour, true);
    }
  }

  /** No character of a shaped text is a ';', in any case. */
  lemma ShapedNoSemicolon(x: string, e: int)
    requires Shaped(x, e)
    ensures forall i :: 0 <= i < |x| ==> !Same(';', x[i], true)
  {
  }

  // ---------------------------------------------------------------------------
  // Rules and the passes over a style string
  // ---------------------------------------------------------------------------

  /** One table entry under its attribute: a pass replaces `attr=light`,
      in any case, with `attr=dark` as written here. */
  datatype Rule = Rule(attr: string, light: string, dark: string)
  {
    function Pattern(): string { Key(attr, light) }
    function Replacement(): string { Key(attr, dark) }
  }

  function RulesOf(attr: string, table: seq<(string, string)>): (rules: seq<Rule>)
    ensures |rules| == |table|
    ensures forall i :: 0 <= i < |table| ==> rules[i] == Rule(attr, table[i].0, table[i].1)
  {
    seq(|table|, i requires 0 <= i < |table| => Rule(attr, table[i].0, table[i].1))
  }

  const FillRules := RulesOf(FillAttr, FillMap)
  const StrokeRules := RulesOf(StrokeAttr, StrokeMap)
  const FontRules := RulesOf(FontAttr, FontMap)

  /** The thirteen passes in the order the three loops run them. */
  const AllRules := FillRules + StrokeRules + FontRules

  /** One `re.sub(..., flags=re.IGNORECASE)` call. */
  function Pass(s: string, rule: Rule): string
  {
    ReplaceAll(s, rule.Pattern(), rule.Replacement(), true)
  }

  function Apply(s: string, rules: seq<Rule>): string
    decreases |rules|
  {
    if rules == [] then s else Apply(Pass(s, rules[0]), rules[1..])
  }

  /** The substitution phase of `transform_style`; every key and value has
      the same length, so the text keeps its length. */
  function Substitute(s: string): (r: string)
    ensures |r| == |s|
  {
    AllConsistent();
    ApplyLength(s, AllRules);
    Apply(s, AllRules)
  }

  // ---------------------------------------------------------------------------
  // Facts about the tables
  // ---------------------------------------------------------------------------

  /** What every rule of the tables satisfies: both values are colours, they
      differ, a dark value never ends in 'f', and only a stroke key may. */
  predicate RuleOK(r: Rule)
  {
    && IsAttr(r.attr) && IsColour(r.light) && IsColour(r.dark) && r.light != r.dark
    && r.dark[6] != 'f' && (r.light[6] != 'f' || r.attr == StrokeAttr)
  }

  /** Every rule is well formed and no dark value is the light value of a
      rule for the same attribute. */
  predicate Consistent(rules: seq<Rule>)
  {
    && (forall r :: r in rules ==> RuleOK(r))
    && (forall q, r :: q in rules && r in rules && q.attr == r.attr ==> q.light != r.dark)
  }

  lemma TableConsistent(attr: string, table: seq<(string, string)>)
    requires IsAttr(attr)
    requires forall e :: e in table ==> RuleOK(Rule(attr, e.0, e.1))
    requires forall e, e' :: e in table && e' in table ==> e.0 != e'.1
    ensures Consistent(RulesOf(attr, table))
  {
    var rules := RulesOf(attr, table);
    forall r | r in rules ensures RuleOK(r) {
      var i :| 0 <= i < |rules| && rules[i] == r;
      assert table[i] in table;
    }
    forall q, r | q in rules && r in rules ensures q.light != r.dark {
      var i :| 0 <= i < |rules| && rules[i] == q;
      var j :| 0 <= j < |rules| && rules[j] == r;
      assert table[i] in table && table[j] in table;
    }
  }

  lemma FillEntries()
    ensures forall e :: e in FillMap ==> RuleOK(Rule(FillAttr, e.0, e.1))
  {
  }

  lemma FillSeparate()
    ensures forall e, e' :: e in FillMap && e' in FillMap ==> e.0 != e'.1
  {
  }

  lemma FillConsistent()
    ensures Consistent(FillRules)
  {
    FillEntries();
    FillSeparate();
    TableConsistent(FillAttr, FillMap);
  }

  lemma StrokeEntries()
    ensures forall e :: e in StrokeMap ==> RuleOK(Rule(StrokeAttr, e.0, e.1))
  {
  }

  lemma StrokeSeparate()
    ensures forall e, e' :: e in StrokeMap && e' in StrokeMap ==> e.0 != e'.1
  {
  }

  lemma StrokeConsistent()
    ensures Consistent(StrokeRules)
  {
    StrokeEntries();
    StrokeSeparate();
    TableConsistent(StrokeAttr, StrokeMap);
  }

  lemma FontEntries()
    ensures forall e :: e in FontMap ==> RuleOK(Rule(FontAttr, e.0, e.1))
  {
  }

  lemma FontSeparate()
    ensures forall e, e' :: e in FontMap && e' in FontMap ==> e.0 != e'.1
  {
  }

  lemma FontConsistent()
    ensures Consistent(FontRules)
  {
    FontEntries();
    FontSeparate();
    TableConsistent(FontAttr, FontMap);
  }

  lemma AllConsistent()
    ensures Consistent(AllRules)
  {
    FillConsistent();
    StrokeConsistent();
    FontConsistent();
    forall r | r in AllRules ensures r in FillRules || r in StrokeRules || r in FontRules {
    }
    forall r | r in FillRules ensures r.attr == FillAttr {
    }
    forall r | r in StrokeRules ensures r.attr == StrokeAttr {
    }
    forall r | r in FontRules ensures r.attr == FontAttr {
    }
  }

  // ---------------------------------------------------------------------------
  // What the passes do
  // ---------------------------------------------------------------------------

  lemma PassLength(s: string, r: Rule)
    requires RuleOK(r)
    ensures |Pass(s, r)| == |s|
  {
  }

  lemma ConsistentTail(rules: seq<Rule>)
    requires rules != [] && Consistent(rules)
    ensures Consistent(rules[1..]) && RuleOK(rules[0])
  {
    forall r | r in rules[1..] ensures r in rules {
    }
  }

  /** Running two lists of passes one after the other is running their concatenation. */
  lemma {:induction false} ApplyConcat(s: string, first: seq<Rule>, second: seq<Rule>)
    ensures Apply(s, first + second) == Apply(Apply(s, first), second)
    decreases |first|
  {
    if first == [] {
      assert first + second == second;
    } else {
      assert (first + second)[0] == first[0];
      assert (first + second)[1..] == first[1..] + second;
      ApplyConcat(Pass(s, first[0]), first[1..], second);
    }
  }

  /** Every pass keeps the length, since light and dark values are all seven characters. */
  lemma {:induction false} ApplyLength(s: string, rules: seq<Rule>)
    requires forall r :: r in rules ==> RuleOK(r)
    ensures |Apply(s, rules)| == |s|
    decreases |rules|
  {
    if rules != [] {
      PassLength(s, rules[0]);
      assert forall r :: r in rules[1..] ==> r in rules;
      ApplyLength(Pass(s, rules[0]), rules[1..]);
    }
  }

  /** No pass of a consistent list can write the light key of any of its rules. */
  lemma NoRuleCreates(rules: seq<Rule>, q: Rule)
    requires Consistent(rules) && q in rules
    ensures forall r :: r in rules ==> CannotCreate(q.Pattern(), r.Pattern(), r.Replacement(), true)
  {
    forall r | r in rules ensures CannotCreate(q.Pattern(), r.Pattern(), r.Replacement(), true) {
      KeyCannotCreate(q.attr, q.light, r.attr, r.light, r.dark);
    }
  }

  /** An occurrence of `q` after the passes was already there before them. */
  lemma {:induction false} ApplyNoNewMatch(s: string, rules: seq<Rule>, q: string, k: int)
    requires forall r :: r in rules ==> CannotCreate(q, r.Pattern(), r.Replacement(), true)
    ensures MatchAt(Apply(s, rules), q, k, true) ==> MatchAt(s, q, k, true)
    decreases |rules|
  {
    if rules != [] {
      assert forall r :: r in rules[1..] ==> r in rules;
      ApplyNoNewMatch(Pass(s, rules[0]), rules[1..], q, k);
      ReplaceNoNewMatch(s, rules[0].Pattern(), rules[0].Replacement(), q, true, k);
    }
  }

  lemma ApplyKeepsAbsent(s: string, rules: seq<Rule>, q: string)
    requires forall r :: r in rules ==> CannotCreate(q, r.Pattern(), r.Replacement(), true)
    requires !Occurs(s, q, true)
    ensures !Occurs(Apply(s, rules), q, true)
  {
    forall k ensures !MatchAt(Apply(s, rules), q, k, true) {
      ApplyNoNewMatch(s, rules, q, k);
    }
  }

  /** After the passes, no light key of any rule is left, in any case. */
  lemma {:induction false} ApplyRemoves(s: string, rules: seq<Rule>)
    requires Consistent(rules)
    ensures forall q :: q in rules ==> !Occurs(Apply(s, rules), q.Pattern(), true)
    decreases |rules|
  {
    if rules != [] {
      var r0, s1 := rules[0], Pass(s, rules[0]);
      ConsistentTail(rules);
      KeyDisjoint(r0.attr, r0.light, r0.dark);
      ReplaceRemoves(s, r0.Pattern(), r0.Replacement(), true);
      NoRuleCreates(rules, r0);
      assert forall r :: r in rules[1..] ==> r in rules;
      ApplyKeepsAbsent(s1, rules[1..], r0.Pattern());
      ApplyRemoves(s1, rules[1..]);
      assert forall q :: q in rules ==> q == r0 || q in rules[1..];
    }
  }

  /** Passes over a text holding none of their light keys change nothing. */
  lemma {:induction false} ApplyIdentity(s: string, rules: seq<Rule>)
    requires forall r :: r in rules ==> !Occurs(s, r.Pattern(), true)
    ensures Apply(s, rules) == s
    decreases |rules|
  {
    if rules != [] {
      ReplaceAbsent(s, rules[0].Pattern(), rules[0].Replacement(), true);
      assert forall r :: r in rules[1..] ==> r in rules;
      ApplyIdentity(s, rules[1..]);
    }
  }

  /** A stretch of text that no light-key occurrence overlaps comes out unchanged. */
  lemma {:induction false} ApplyUntouched(s: string, rules: seq<Rule>, a: int, b: int)
    requires Consistent(rules) && 0 <= a <= b <= |s|
    requires forall r, j :: r in rules && MatchAt(s, r.Pattern(), j, true) ==> j + |r.Pattern()| <= a || b <= j
    ensures |Apply(s, rules)| == |s| && Apply(s, rules)[a..b] == s[a..b]
    decreases |rules|
  {
    if rules != [] {
      var r0, s1 := rules[0], Pass(s, rules[0]);
      ConsistentTail(rules);
      PassLength(s, r0);
      ReplaceUntouched(s, r0.Pattern(), r0.Replacement(), true, a, b);
      forall r, j | r in rules[1..] && MatchAt(s1, r.Pattern(), j, true)
        ensures j + |r.Pattern()| <= a || b <= j
      {
        NoRuleCreates(rules, r);
        ReplaceNoNewMatch(s, r0.Pattern(), r0.Replacement(), r.Pattern(), true, j);
      }
      ApplyUntouched(s1, rules[1..], a, b);
    }
  }

  /** The light key of rule `i` at `k` overlaps no occurrence of another rule's light key. */
  predicate Isolated(s: string, rules: seq<Rule>, i: int, k: int)
    requires 0 <= i < |rules|
  {
    forall j, m :: 0 <= j < |rules| && j != i && MatchAt(s, rules[j].Pattern(), m, true) ==>
      m + |rules[j].Pattern()| <= k || k + |rules[i].Pattern()| <= m
  }

  /** After the first pass, no later light key overlaps the first rule's isolated key. */
  lemma FirstWindowClear(s: string, rules: seq<Rule>, k: int)
    requires Consistent(rules) && rules != []
    requires Isolated(s, rules, 0, k)
    ensures forall r, j :: r in rules[1..] && MatchAt(Pass(s, rules[0]), r.Pattern(), j, true) ==>
      j + |r.Pattern()| <= k || k + |rules[0].Replacement()| <= j
  {
    var r0, s1, rest := rules[0], Pass(s, rules[0]), rules[1..];
    forall r, j | r in rest && MatchAt(s1, r.Pattern(), j, true)
      ensures j + |r.Pattern()| <= k || k + |r0.Replacement()| <= j
    {
      NoRuleCreates(rules, r);
      ReplaceNoNewMatch(s, r0.Pattern(), r0.Replacement(), r.Pattern(), true, j);
      var t :| 0 <= t < |rest| && rest[t] == r;
      assert rules[t + 1] == r;
    }
  }

  /** The first rule's own isolated key is rewritten and the later passes leave it alone. */
  lemma RewriteFirst(s: string, rules: seq<Rule>, k: int)
    requires Consistent(rules) && rules != []
    requires MatchAt(s, rules[0].Pattern(), k, true) && Isolated(s, rules, 0, k)
    ensures BlockAt(Apply(s, rules), rules[0].Replacement(), k)
  {
    var r0, s1, rest := rules[0], Pass(s, rules[0]), rules[1..];
    ConsistentTail(rules);
    PassLength(s, r0);
    KeySelfOverlapFree(r0.attr, r0.light);
    ReplaceTakesEveryMatch(s, r0.Pattern(), r0.Replacement(), true, k);
    FirstWindowClear(s, rules, k);
    ApplyUntouched(s1, rest, k, k + |r0.Replacement()|);
    BlockWindow(s1, Apply(s1, rest), r0.Replacement(), k);
  }

  /** The first pass leaves a later rule's isolated key where it was. */
  lemma LaterKeyKept(s: string, rules: seq<Rule>, i: int, k: int)
    requires Consistent(rules) && 0 < i < |rules|
    requires MatchAt(s, rules[i].Pattern(), k, true) && Isolated(s, rules, i, k)
    ensures MatchAt(Pass(s, rules[0]), rules[i].Pattern(), k, true)
  {
    var r0, q := rules[0], rules[i].Pattern();
    ConsistentTail(rules);
    forall j | MatchAt(s, r0.Pattern(), j, true) ensures j + |r0.Pattern()| <= k || k + |q| <= j {
    }
    ReplaceKeepsMatch(s, r0.Pattern(), r0.Replacement(), q, true, k);
  }

  /** The first pass creates no light key next to a later rule's isolated key. */
  lemma LaterKeyIsolated(s: string, rules: seq<Rule>, i: int, k: int)
    requires Consistent(rules) && 0 < i < |rules|
    requires Isolated(s, rules, i, k)
    ensures Isolated(Pass(s, rules[0]), rules[1..], i - 1, k)
  {
    var r0, s1, rest := rules[0], Pass(s, rules[0]), rules[1..];
    var n := |rules[i].Pattern()|;
    forall j, m | 0 <= j < |rest| && j != i - 1 && MatchAt(s1, rest[j].Pattern(), m, true)
      ensures m + |rest[j].Pattern()| <= k || k + n <= m
    {
      NoRuleCreates(rules, rules[j + 1]);
      ReplaceNoNewMatch(s, r0.Pattern(), r0.Replacement(), rest[j].Pattern(), true, m);
    }
  }

  /** A later rule's isolated key survives the first pass and stays isolated. */
  lemma RewriteLater(s: string, rules: seq<Rule>, i: int, k: int)
    requires Consistent(rules) && 0 < i < |rules|
    requires MatchAt(s, rules[i].Pattern(), k, true) && Isolated(s, rules, i, k)
    ensures MatchAt(Pass(s, rules[0]), rules[i].Pattern(), k, true)
    ensures Isolated(Pass(s, rules[0]), rules[1..], i - 1, k)
  {
    LaterKeyKept(s, rules, i, k);
    LaterKeyIsolated(s, rules, i, k);
  }

  /** An isolated light key, in any case, ends up as its rule's dark key. */
  lemma {:induction false} ApplyRewrites(s: string, rules: seq<Rule>, i: int, k: int)
    requires Consistent(rules) && 0 <= i < |rules|
    requires MatchAt(s, rules[i].Pattern(), k, true) && Isolated(s, rules, i, k)
    ensures BlockAt(Apply(s, rules), rules[i].Replacement(), k)
    decreases |rules|
  {
    if i == 0 {
      RewriteFirst(s, rules, k);
    } else {
      RewriteLater(s, rules, i, k);
      ConsistentTail(rules);
      ApplyRewrites(Pass(s, rules[0]), rules[1..], i - 1, k);
    }
  }

  // ---------------------------------------------------------------------------
  // The substitution phase of transform_style
  // ---------------------------------------------------------------------------

  /** No `fillColor=`, `strokeColor=` or `fontColor=` followed by a light value
      of its table is left, in any case. */
  lemma NoLightKeyRemains(s: string)
    ensures forall r :: r in AllRules ==> !Occurs(Substitute(s), r.Pattern(), true)
  {
    AllConsistent();
    ApplyRemoves(s, AllRules);
  }

  /** A text with no light key passes through unchanged. */
  lemma SubstituteIdentity(s: string)
    requires forall r :: r in AllRules ==> !Occurs(s, r.Pattern(), true)
    ensures Substitute(s) == s
  {
    ApplyIdentity(s, AllRules);
  }

  lemma SubstituteIdempotent(s: string)
    ensures Substitute(Substitute(s)) == Substitute(s)
  {
    NoLightKeyRemains(s);
    SubstituteIdentity(Substitute(s));
  }

  /** Text that no light-key occurrence overlaps is left as it was. */
  lemma SubstituteUntouched(s: string, a: int, b: int)
    requires 0 <= a <= b <= |s|
    requires forall r, j :: r in AllRules && MatchAt(s, r.Pattern(), j, true) ==> j + |r.Pattern()| <= a || b <= j
    ensures Substitute(s)[a..b] == s[a..b]
  {
    AllConsistent();
    ApplyUntouched(s, AllRules, a, b);
  }

  /** A light key written in any case, and overlapping no other light key,
      becomes the canonical attribute name with its dark value. */
  lemma LightKeyBecomesDark(s: string, i: int, k: int)
    requires 0 <= i < |AllRules|
    requires MatchAt(s, AllRules[i].Pattern(), k, true) && Isolated(s, AllRules, i, k)
    ensures BlockAt(Substitute(s), Key(AllRules[i].attr, AllRules[i].dark), k)
  {
    AllConsistent();
    ApplyRewrites(s, AllRules, i, k);
  }

  /** Why `LightKeyBecomesDark` asks for isolation: in
      `strokeColor=#6c8ebfontColor=#333333` the font key shares its `f` with
      the stroke key that ends just before it, so it is not isolated. */
  lemma FontKeySharesF()
    ensures var s := "strokeColor=#6c8eb" + "fontColor=#333333";
      && MatchAt(s, AllRules[10].Pattern(), 18, true)
      && AllRules[10].Replacement() == Key(FontAttr, "#cccccc")
      && MatchAt(s, AllRules[5].Pattern(), 0, true)
      && !Isolated(s, AllRules, 10, 18)
  {
    var a, b := "strokeColor=#6c8eb", "ontColor=#333333";
    var s := a + "fontColor=#333333";
    var font, stroke := AllRules[10], AllRules[5];
    assert font == Rule(FontAttr, "#333333", "#cccccc");
    assert stroke == Rule(StrokeAttr, "#6c8ebf", "#6a9fd8");
    assert font.Pattern() == "f" + b;
    assert stroke.Pattern() == a + "f";
    assert s == a + font.Pattern() + [];
    MatchPlaced(a, font.Pattern(), [], true);
    assert s == [] + stroke.Pattern() + b;
    MatchPlaced([], stroke.Pattern(), b, true);
  }

  /** The stroke pass, which runs before the font passes, rewrites the `f`
      shared in `FontKeySharesF` and leaves only `ontColor=#333333` of the
      font key. */
  lemma StrokePassEatsFontKey()
    ensures Pass("strokeColor=#6c8eb" + "fontColor=#333333", AllRules[5])
         == "strokeColor=#6a9fd8" + "ontColor=#333333"
  {
    var stroke, b := AllRules[5], "ontColor=#333333";
    assert stroke == Rule(StrokeAttr, "#6c8ebf", "#6a9fd8");
    assert "strokeColor=#6c8eb" + "fontColor=#333333" == stroke.Pattern() + b;
    ReplaceLeading(stroke.Pattern(), stroke.Replacement(), b, true);
  }

  /** A shaped key holds no double quote. */
  lemma ShapedNoQuote(x: string, e: int)
    requires Shaped(x, e)
    ensures '"' !in x
  {
    forall i | 0 <= i < |x| ensures x[i] != '"' {
      if i < e {
        assert IsLetter(x[i]);
      }
    }
  }

  /** The passes bring in no character that no replacement holds. */
  lemma {:induction false} ApplyKeepsOut(s: string, rules: seq<Rule>, ch: char)
    requires forall r :: r in rules ==> ch !in r.Replacement()
    ensures ch !in s ==> ch !in Apply(s, rules)
    decreases |rules|
  {
    if rules != [] {
      ReplaceKeepsOut(s, rules[0].Pattern(), rules[0].Replacement(), true, ch);
      ApplyKeepsOut(Pass(s, rules[0]), rules[1..], ch);
    }
  }

  /** The substitution never brings in a double quote, so the style stays
      inside its attribute. */
  lemma SubstituteQuoteFree(s: string)
    ensures '"' !in s ==> '"' !in Substitute(s)
  {
    AllConsistent();
    forall r | r in AllRules ensures '"' !in r.Replacement() {
      KeyShaped(r.attr, r.dark);
      ShapedNoQuote(r.Replacement(), |r.attr|);
    }
    ApplyKeepsOut(s, AllRules, '"');
  }
}
