/**
 * The regular-expression "optimizer": five textual rewrite rules, each of
 * which, when its pattern occurs in the input, emits suggestion records and
 * rewrites a working copy of the input; then integer metrics estimated from a
 * character-weight "complexity" of the input and of the rewritten text.
 *
 * Every rule's JavaScript regular expression is modelled as its own scanner:
 * `MatchLen` says whether (and how long) the expression matches at one
 * position, `MatchesFrom` collects the leftmost, non-overlapping matches that
 * a global `String.prototype.match` returns.
 */
module RegexOptimizer {
  import opened Wrappers
  import opened Text

  datatype SuggestionType = Redundancy | Efficiency | Simplification | Performance

  datatype Severity = High | Medium | Low

  datatype Suggestion = Suggestion(
    kind: SuggestionType,
    severity: Severity,
    original: string,
    optimized: string,
    description: string,
    impact: string)

  datatype Metrics = Metrics(
    originalStates: int,
    optimizedStates: int,
    stateReduction: int,
    originalTransitions: int,
    optimizedTransitions: int,
    transitionReduction: int,
    memoryImprovement: int,
    speedImprovement: int,
    complexityReduction: int)

  datatype OptimizationResult = OptimizationResult(
    suggestions: seq<Suggestion>,
    metrics: Metrics,
    optimizedRegex: string)

  /** The five rules, in the order they run. */
  datatype Rule =
    | Redundant         // `/\(([^|()]+)\|\1\)/g`, e.g. `(a|a)`
    | Quantifier        // `/([a-zA-Z])\+\1\*/g`, e.g. `a+a*`
    | Grouping          // `/\(([a-zA-Z])\)/g`, e.g. `(a)`
    | CharClass         // `/\[([a-zA-Z])\]/g`, e.g. `[a]`
    | EmptyAlternation  // `/\(\|([^)]+)\)/g`, e.g. `(|ab)`

  /** `[a-zA-Z]` */
  predicate IsLetter(c: char)
  {
    'a' <= c <= 'z' || 'A' <= c <= 'Z'
  }

  // ---------------------------------------------------------------------
  // The rules' patterns, one scanner each
  // ---------------------------------------------------------------------

  /** First index at or after `i` whose character is in `stop` (or `|s|`). */
  function RunEnd(s: string, i: nat, stop: set<char>): (j: nat)
    requires i <= |s|
    ensures i <= j <= |s|
    ensures forall k :: i <= k < j ==> s[k] !in stop
    ensures j < |s| ==> s[j] in stop
    decreases |s| - i
  {
    if i == |s| || s[i] in stop then i else RunEnd(s, i + 1, stop)
  }

  /**
   * The length of the match of `rule`'s expression that starts exactly at
   * `p`, if there is one. None of the expressions can match in more than one
   * way at a position: the greedy `[^|()]+` of the first rule (and `[^)]+` of
   * the fifth) must stop where a `|` (a `)`) follows, and that is the end of
   * the longest run, since a shorter run is followed by a run character.
   */
  function MatchLen(rule: Rule, s: string, p: nat): (r: Option<nat>)
    requires p <= |s|
    ensures r.Some? ==> 1 <= r.value && p + r.value <= |s|
  {
    match rule
    case Redundant =>
      if p < |s| && s[p] == '(' then
        var q := RunEnd(s, p + 1, {'|', '(', ')'});
        var w := s[p + 1..q];
        if 1 <= |w| && q + |w| + 2 <= |s| && s[q] == '|' && s[q + 1..q + 1 + |w|] == w && s[q + 1 + |w|] == ')'
        then Some(2 * |w| + 3)
        else None
      else None
    case Quantifier =>
      if p + 4 <= |s| && IsLetter(s[p]) && s[p + 1] == '+' && s[p + 2] == s[p] && s[p + 3] == '*'
      then Some(4) else None
    case Grouping =>
      if p + 3 <= |s| && s[p] == '(' && IsLetter(s[p + 1]) && s[p + 2] == ')'
      then Some(3) else None
    case CharClass =>
      if p + 3 <= |s| && s[p] == '[' && IsLetter(s[p + 1]) && s[p + 2] == ']'
      then Some(3) else None
    case EmptyAlternation =>
      if p + 2 <= |s| && s[p] == '(' && s[p + 1] == '|' then
        var q := RunEnd(s, p + 2, {')'});
        if p + 2 < q < |s| then Some(q - p + 1) else None
      else None
  }

  /** A table of the expression's match length at each position `0..|s|` of `s`. */
  predicate ValidTable(s: string, t: seq<Option<nat>>)
  {
    && |t| == |s| + 1
    && forall k :: 0 <= k < |t| && t[k].Some? ==> 1 <= t[k].value && k + t[k].value <= |s|
  }

  /** The match lengths of `rule`'s expression at every position of `s`. */
  function MatchTable(rule: Rule, s: string): (t: seq<Option<nat>>)
    ensures ValidTable(s, t)
    ensures forall k :: 0 <= k <= |s| ==> t[k] == MatchLen(rule, s, k)
  {
    seq(|s| + 1, k requires 0 <= k <= |s| => MatchLen(rule, s, k))
  }

  /**
   * A global search (`s.match(/…/g)`) resumed at `p`, over the table of match
   * lengths: the expression is tried at each position from the left; after a
   * match the search resumes where the match ended.
   */
  function Scan(s: string, t: seq<Option<nat>>, p: nat): seq<string>
    requires ValidTable(s, t) && p <= |s|
    decreases |s| - p
  {
    if p == |s| then []
    else match t[p]
      case Some(n) => [s[p..p + n]] + Scan(s, t, p + n)
      case None => Scan(s, t, p + 1)
  }

  /** `s.match(/…/g)` resumed at `p`: `Scan` over the rule's own table. */
  function MatchesFrom(rule: Rule, s: string, p: nat): seq<string>
    requires p <= |s|
    decreases |s| - p
  {
    if p == |s| then []
    else match MatchLen(rule, s, p)
      case Some(n) => [s[p..p + n]] + MatchesFrom(rule, s, p + n)
      case None => MatchesFrom(rule, s, p + 1)
  }

  /** The positions at which `s.match(/…/g)`, resumed at `p`, finds its matches. */
  function MatchStarts(rule: Rule, s: string, p: nat): seq<nat>
    requires p <= |s|
    decreases |s| - p
  {
    if p == |s| then []
    else match MatchLen(rule, s, p)
      case Some(n) => [p] + MatchStarts(rule, s, p + n)
      case None => MatchStarts(rule, s, p + 1)
  }

  /** A search over any table that agrees with the rule's match lengths collects what `MatchesFrom` collects. */
  lemma {:induction false} MatchesFromIsScan(rule: Rule, s: string, t: seq<Option<nat>>, p: nat)
    requires ValidTable(s, t) && p <= |s|
    requires forall k :: 0 <= k < |t| ==> t[k] == MatchLen(rule, s, k)
    ensures MatchesFrom(rule, s, p) == Scan(s, t, p)
    decreases |s| - p
  {
    if p < |s| {
      var next := if t[p].Some? then p + t[p].value else p + 1;
      MatchesFromIsScan(rule, s, t, next);
      assert MatchesFrom(rule, s, p) == (if t[p].Some? then [s[p..next]] else []) + MatchesFrom(rule, s, next);
    }
  }

  /** `s.match(/…/g)`, with no match as the empty list. */
  function AllMatches(rule: Rule, s: string): seq<string>
  {
    MatchesFrom(rule, s, 0)
  }

  /** `/…/g.test(s)` on a freshly built expression. */
  predicate Test(rule: Rule, s: string)
  {
    AllMatches(rule, s) != []
  }

  /** The expression matches somewhere in `s`. */
  predicate Occurs(rule: Rule, s: string)
  {
    exists p :: 0 <= p < |s| && MatchLen(rule, s, p).Some?
  }

  /** The first position at or after `p` where the expression matches. */
  function FirstMatch(rule: Rule, s: string, p: nat): (r: Option<nat>)
    requires p <= |s|
    ensures r.Some? ==> p <= r.value < |s| && MatchLen(rule, s, r.value).Some?
    ensures r.None? ==> forall k :: p <= k < |s| ==> MatchLen(rule, s, k).None?
    decreases |s| - p
  {
    if p == |s| then None
    else if MatchLen(rule, s, p).Some? then Some(p)
    else FirstMatch(rule, s, p + 1)
  }

  // ---------------------------------------------------------------------
  // String.prototype.replace
  // ---------------------------------------------------------------------

  /** `pat` occurs in `s` at index `k`. */
  predicate OccursAt(s: string, pat: string, k: nat)
  {
    k + |pat| <= |s| && s[k..k + |pat|] == pat
  }

  /** `s.indexOf(pat, i)`, as an option. */
  function IndexFrom(s: string, pat: string, i: nat): (r: Option<nat>)
    requires i <= |s|
    ensures r.Some? ==> i <= r.value && OccursAt(s, pat, r.value)
    ensures r.Some? ==> forall k :: i <= k < r.value ==> !OccursAt(s, pat, k)
    ensures r.None? ==> forall k :: i <= k ==> !OccursAt(s, pat, k)
    decreases |s| - i
  {
    if i + |pat| > |s| then None
    else if s[i..i + |pat|] == pat then Some(i)
    else
      IndexFrom(s, pat, i + 1)
  }

  /**
   * The replacement text of a `replace` whose pattern is a string (so there
   * are no capture groups): `$$` is a dollar sign, `$&` the matched text,
   * `` $` `` the text before the match, `$'` the text after it; any other `$`
   * stands for itself.
   */
  function Substitute(rep: string, matched: string, before: string, after: string): string
  {
    if rep == [] then []
    else if rep[0] == '$' && |rep| >= 2 && rep[1] == '$' then "$" + Substitute(rep[2..], matched, before, after)
    else if rep[0] == '$' && |rep| >= 2 && rep[1] == '&' then matched + Substitute(rep[2..], matched, before, after)
    else if rep[0] == '$' && |rep| >= 2 && rep[1] == '`' then before + Substitute(rep[2..], matched, before, after)
    else if rep[0] == '$' && |rep| >= 2 && rep[1] == '\'' then after + Substitute(rep[2..], matched, before, after)
    else [rep[0]] + Substitute(rep[1..], matched, before, after)
  }

  /** `s.replace(pat, rep)` with a string pattern: only the first occurrence. */
  function ReplaceFirst(s: string, pat: string, rep: string): string
  {
    match IndexFrom(s, pat, 0)
    case None => s
    case Some(i) => s[..i] + Substitute(rep, pat, s[..i], s[i + |pat|..]) + s[i + |pat|..]
  }

  /** `s.replace(/([a-zA-Z])\+\1\*\/g, '$1+')` resumed at `p`. */
  function RewriteQuantifiers(s: string, p: nat): string
    requires p <= |s|
    decreases |s| - p
  {
    if p == |s| then []
    else if MatchLen(Quantifier, s, p).Some? then [s[p], '+'] + RewriteQuantifiers(s, p + 4)
    else [s[p]] + RewriteQuantifiers(s, p + 1)
  }

  /** The positions of the `x*` half of each match the quantifier search finds from `p` on. */
  function QuantifierDropped(s: string, p: nat): set<nat>
    requires p <= |s|
  {
    var starts := MatchStarts(Quantifier, s, p);
    (set k | k in starts :: k + 2) + (set k | k in starts :: k + 3)
  }

  /** The characters of `s` from `p` on whose positions are not in `D`, in order. */
  function KeepFrom(s: string, p: nat, D: set<nat>): string
    requires p <= |s|
    decreases |s| - p
  {
    if p == |s| then [] else (if p in D then [] else [s[p]]) + KeepFrom(s, p + 1, D)
  }

  /** The last index in `[i, j)` holding `*`. */
  function LastStar(s: string, i: nat, j: nat): (r: Option<nat>)
    requires i <= j <= |s|
    ensures r.Some? ==> i <= r.value < j && s[r.value] == '*'
    ensures r.Some? ==> forall k :: r.value < k < j ==> s[k] != '*'
    ensures r.None? ==> forall k :: i <= k < j ==> s[k] != '*'
    decreases j - i
  {
    if i == j then None
    else if s[j - 1] == '*' then Some(j - 1)
    else LastStar(s, i, j - 1)
  }

  /**
   * `m.replace(/\+.*\*\/, '+')` resumed at `i`: the leftmost `+` that a `*`
   * follows on the same line, through the last such `*` (the greedy `.*`),
   * becomes a single `+`.
   */
  function CollapseFrom(m: string, i: nat): string
    requires i <= |m|
    decreases |m| - i
  {
    if i == |m| then m
    else if m[i] == '+' then
      match LastStar(m, i + 1, RunEnd(m, i + 1, LineTerminators))
      case Some(j) => m[..i] + "+" + m[j + 1..]
      case None => CollapseFrom(m, i + 1)
    else CollapseFrom(m, i + 1)
  }

  /** The line terminators, which `.` does not match. */
  const LineTerminators: set<char> := {'\n', '\r', '\U{2028}', '\U{2029}'}

  /** `m.replace(/\(\|([^)]+)\)/, '$1?')`: the first `(|w)` becomes `w?`. */
  function OptionalForm(m: string): string
  {
    match FirstMatch(EmptyAlternation, m, 0)
    case None => m
    case Some(p) =>
      var n := MatchLen(EmptyAlternation, m, p).value;
      m[..p] + m[p + 2..p + n - 1] + "?" + m[p + n..]
  }

  // ---------------------------------------------------------------------
  // The rules
  // ---------------------------------------------------------------------

  /** The `inner` (suggested replacement) each rule computes from a match. */
  function Inner(rule: Rule, m: string): string
  {
    match rule
    case Redundant => Split(RemoveChars(m, {'(', ')'}), '|')[0]
    case Quantifier => CollapseFrom(m, 0)
    case Grouping => RemoveChars(m, {'(', ')'})
    case CharClass => RemoveChars(m, {'[', ']'})
    case EmptyAlternation => OptionalForm(m)
  }

  /** The record a rule pushes for one match. */
  function SuggestionFor(rule: Rule, m: string): Suggestion
  {
    match rule
    case Redundant =>
      Suggestion(Redundancy, High, m, Inner(rule, m), "Remove redundant alternation", "50% reduction in states")
    case Quantifier =>
      Suggestion(Efficiency, Medium, m, Inner(rule, m), "Simplify quantifier combination", "25% faster matching")
    case Grouping =>
      Suggestion(Simplification, Low, m, Inner(rule, m), "Remove unnecessary grouping", "10% less memory usage")
    case CharClass =>
      Suggestion(Simplification, Low, m, Inner(rule, m), "Simplify single character class", "5% performance improvement")
    case EmptyAlternation =>
      Suggestion(Efficiency, Medium, m, Inner(rule, m), "Convert empty alternation to optional", "30% fewer states")
  }

  /** The records `matches.forEach` pushes, in match order. */
  function SuggestionsFor(rule: Rule, ms: seq<string>): seq<Suggestion>
  {
    seq(|ms|, i requires 0 <= i < |ms| => SuggestionFor(rule, ms[i]))
  }

  /** The text after `matches.forEach` has replaced each match's first occurrence in turn. */
  function ReplaceEach(rule: Rule, s: string, ms: seq<string>): string
  {
    if ms == [] then s
    else
      var last := ms[|ms| - 1];
      ReplaceFirst(ReplaceEach(rule, s, ms[..|ms| - 1]), last, Inner(rule, last))
  }

  /** The single record of the quantifier rule, built from the first match. */
  function QuantifierSuggestion(regex: string): Suggestion
  {
    var ms := AllMatches(Quantifier, regex);
    var original := if ms != [] && ms[0] != [] then ms[0] else "a+a*";
    var optimized := if ms != [] && Inner(Quantifier, ms[0]) != [] then Inner(Quantifier, ms[0]) else "a+";
    Suggestion(Efficiency, Medium, original, optimized, "Simplify quantifier combination", "25% faster matching")
  }

  /** The rule's guard: its expression tests true on the input (and, for the grouping rule, the input has no `|`). */
  predicate Fires(rule: Rule, regex: string)
  {
    Test(rule, regex) && (rule == Grouping ==> '|' !in regex)
  }

  /** The records one rule contributes. */
  function RuleSuggestions(rule: Rule, regex: string): seq<Suggestion>
  {
    if !Fires(rule, regex) then []
    else if rule == Quantifier then [QuantifierSuggestion(regex)]
    else SuggestionsFor(rule, AllMatches(rule, regex))
  }

  /** The working text after one rule, detected on `regex`, has rewritten `s`. */
  function AfterRule(rule: Rule, regex: string, s: string): string
  {
    if !Fires(rule, regex) then s
    else if rule == Quantifier then RewriteQuantifiers(s, 0)
    else ReplaceEach(rule, s, AllMatches(rule, regex))
  }

  /** The rules, in the order `optimizeRegex` runs them. */
  const Rules: seq<Rule> := [Redundant, Quantifier, Grouping, CharClass, EmptyAlternation]

  /** The records the given rules push, in order. */
  function SuggestionsOf(rules: seq<Rule>, regex: string): seq<Suggestion>
  {
    if rules == [] then []
    else SuggestionsOf(rules[..|rules| - 1], regex) + RuleSuggestions(rules[|rules| - 1], regex)
  }

  /** The working text after the given rules, in order. */
  function TextAfter(rules: seq<Rule>, regex: string): string
  {
    if rules == [] then regex
    else AfterRule(rules[|rules| - 1], regex, TextAfter(rules[..|rules| - 1], regex))
  }

  /** All records. */
  function Suggestions(regex: string): seq<Suggestion>
  {
    SuggestionsOf(Rules, regex)
  }

  /** The rewritten text after the five rules. */
  function OptimizedText(regex: string): string
  {
    TextAfter(Rules, regex)
  }

  // ---------------------------------------------------------------------
  // optimizeRegex
  // ---------------------------------------------------------------------

  /** One rule's `matches.forEach`: push a record and rewrite the first occurrence, per match. */
  method ApplyMatches(rule: Rule, matches: seq<string>, suggestions: seq<Suggestion>, optimized: string)
    returns (suggestions': seq<Suggestion>, optimized': string)
    ensures suggestions' == suggestions + SuggestionsFor(rule, matches)
    ensures optimized' == ReplaceEach(rule, optimized, matches)
  {
    suggestions', optimized' := suggestions, optimized;
    for i := 0 to |matches|
      invariant suggestions' == suggestions + SuggestionsFor(rule, matches[..i])
      invariant optimized' == ReplaceEach(rule, optimized, matches[..i])
    {
      var m := matches[i];
      var inner := Inner(rule, m);
      suggestions' := suggestions' + [SuggestionFor(rule, m)];
      optimized' := ReplaceFirst(optimized', m, inner);
      EachStep(rule, optimized, matches, i);
    }
    assert matches[..|matches|] == matches;
  }

  lemma EachStep(rule: Rule, s: string, ms: seq<string>, i: nat)
    requires i < |ms|
    ensures SuggestionsFor(rule, ms[..i + 1]) == SuggestionsFor(rule, ms[..i]) + [SuggestionFor(rule, ms[i])]
    ensures ReplaceEach(rule, s, ms[..i + 1]) == ReplaceFirst(ReplaceEach(rule, s, ms[..i]), ms[i], Inner(rule, ms[i]))
  {
    var pre, next := ms[..i], ms[..i + 1];
    assert next[..i] == pre && next[i] == ms[i];
    var xs, ys := SuggestionsFor(rule, pre), SuggestionsFor(rule, next);
    assert |ys| == |xs| + 1;
    forall j | 0 <= j < |ys| ensures ys[j] == (xs + [SuggestionFor(rule, ms[i])])[j] {
      if j < i {
        assert next[j] == pre[j];
      }
    }
  }

  /** Running the rules one more step. */
  lemma NextRule(regex: string, k: nat)
    requires k < |Rules|
    ensures SuggestionsOf(Rules[..k + 1], regex) == SuggestionsOf(Rules[..k], regex) + RuleSuggestions(Rules[k], regex)
    ensures TextAfter(Rules[..k + 1], regex) == AfterRule(Rules[k], regex, TextAfter(Rules[..k], regex))
    ensures SuggestionsOf(Rules[..0], regex) == [] && TextAfter(Rules[..0], regex) == regex
  {
    assert Rules[..k + 1][..k] == Rules[..k];
  }

  /** One rule's block: when its guard holds, push its records and rewrite the working text. */
  method ApplyRule(rule: Rule, regex: string, suggestions: seq<Suggestion>, optimizedRegex: string)
    returns (suggestions': seq<Suggestion>, optimizedRegex': string)
    ensures suggestions' == suggestions + RuleSuggestions(rule, regex)
    ensures optimizedRegex' == AfterRule(rule, regex, optimizedRegex)
  {
    suggestions', optimizedRegex' := suggestions, optimizedRegex;
    if Test(rule, regex) && (rule == Grouping ==> '|' !in regex) {
      if rule == Quantifier {
        suggestions' := suggestions' + [QuantifierSuggestion(regex)];
        optimizedRegex' := RewriteQuantifiers(optimizedRegex', 0);
      } else {
        // `regex.match` cannot be null once the test succeeded.
        var matches := AllMatches(rule, regex);
        suggestions', optimizedRegex' := ApplyMatches(rule, matches, suggestions', optimizedRegex');
      }
    }
  }

  method OptimizeRegex(regex: string) returns (r: OptimizationResult)
    ensures r.suggestions == Suggestions(regex)
    ensures r.optimizedRegex == OptimizedText(regex)
    ensures MetricsOf(regex, r.optimizedRegex, r.suggestions, r.metrics)
  {
    var suggestions: seq<Suggestion> := [];
    var optimizedRegex := regex;
    NextRule(regex, 0);
    suggestions, optimizedRegex := ApplyRule(Redundant, regex, suggestions, optimizedRegex);
    NextRule(regex, 1);
    suggestions, optimizedRegex := ApplyRule(Quantifier, regex, suggestions, optimizedRegex);
    NextRule(regex, 2);
    suggestions, optimizedRegex := ApplyRule(Grouping, regex, suggestions, optimizedRegex);
    NextRule(regex, 3);
    suggestions, optimizedRegex := ApplyRule(CharClass, regex, suggestions, optimizedRegex);
    NextRule(regex, 4);
    suggestions, optimizedRegex := ApplyRule(EmptyAlternation, regex, suggestions, optimizedRegex);
    assert Rules[..5] == Rules;
    var metrics := CalculateMetrics(regex, optimizedRegex, suggestions);
    r := OptimizationResult(suggestions, metrics, optimizedRegex);
  }

  // ---------------------------------------------------------------------
  // calculateComplexity and calculateMetrics
  // ---------------------------------------------------------------------

  const SpecialChars: set<char> := {'*', '+', '?', '{', '}', '|', '(', ')', '[', ']', '\\'}
  const QuantifierChars: set<char> := {'*', '+', '?'}

  /** What one character adds to the complexity. */
  function CharWeight(c: char): nat
  {
    if c == '|' then 3
    else if c in {'*', '+', '?', '('} then 2
    else if c in {')', '{', '}', '[', ']', '\\'} then 1
    else 0
  }

  function WeightSum(s: string): nat
  {
    if s == [] then 0 else CharWeight(s[0]) + WeightSum(s[1..])
  }

  /** The complexity as a sum of per-character weights, one more than the weights. */
  function Complexity(regex: string): nat
  {
    1 + WeightSum(regex)
  }

  function Max(a: int, b: int): int { if a >= b then a else b }

  function Min(a: int, b: int): int { if a <= b then a else b }

  method CalculateComplexity(regex: string) returns (complexity: int)
    ensures complexity == Complexity(regex)
    ensures complexity >= 1
  {
    complexity := 1;
    var matches := Count(regex, SpecialChars);
    complexity := complexity + matches;
    var alternations := Count(regex, {'|'});
    complexity := complexity + alternations * 2;
    var quantifiers := Count(regex, QuantifierChars);
    complexity := complexity + quantifiers;
    var groups := Count(regex, {'('});
    complexity := complexity + groups;
    CountsAreWeights(regex);
    complexity := Max(1, complexity);
  }

  lemma {:induction false} CountsAreWeights(s: string)
    ensures Count(s, SpecialChars) + 2 * Count(s, {'|'}) + Count(s, QuantifierChars) + Count(s, {'('}) == WeightSum(s)
  {
    if s != [] {
      CountsAreWeights(s[1..]);
    }
  }

  /** `Math.round(num / den * 100)` for a positive `den`, rounding halves up. */
  function RoundPercent(num: int, den: int): int
    requires den > 0
  {
    (200 * num + den) / (2 * den)
  }

  /** The three improvement figures, picked by the highest severity present. */
  function Improvements(stateReduction: int, suggestions: seq<Suggestion>): (int, int, int)
  {
    if exists i :: 0 <= i < |suggestions| && suggestions[i].severity == High then
      (Min(45, stateReduction + 20), Min(30, stateReduction + 10), Min(60, stateReduction + 30))
    else if exists i :: 0 <= i < |suggestions| && suggestions[i].severity == Medium then
      (Min(25, stateReduction + 10), Min(20, stateReduction + 5), Min(35, stateReduction + 15))
    else if |suggestions| > 0 then
      (Min(15, stateReduction + 5), Min(10, stateReduction), Min(20, stateReduction + 5))
    else
      (0, 0, 0)
  }

  /** The metrics `calculateMetrics` reports for the two texts and the records. */
  ghost predicate MetricsOf(original: string, optimized: string, suggestions: seq<Suggestion>, m: Metrics)
  {
    var oc := Complexity(original);
    var pc := Complexity(optimized);
    var oS := Max(3, (3 * oc) / 2);
    var pS := Max(2, (3 * pc) / 2);
    var oT := Max(2, oc);
    var pT := Max(1, pc);
    var sr := RoundPercent(oS - pS, oS);
    && m.originalStates == oS && m.optimizedStates == pS
    && m.stateReduction == Max(0, sr)
    && m.originalTransitions == oT && m.optimizedTransitions == pT
    && m.transitionReduction == Max(0, RoundPercent(oT - pT, oT))
    && (m.memoryImprovement, m.speedImprovement, m.complexityReduction) == Improvements(sr, suggestions)
  }

  method CalculateMetrics(original: string, optimized: string, suggestions: seq<Suggestion>) returns (m: Metrics)
    ensures MetricsOf(original, optimized, suggestions, m)
  {
    var originalComplexity := CalculateComplexity(original);
    var optimizedComplexity := CalculateComplexity(optimized);

    var originalStates := Max(3, (originalComplexity * 3) / 2);
    var optimizedStates := Max(2, (optimizedComplexity * 3) / 2);
    var stateReduction := RoundPercent(originalStates - optimizedStates, originalStates);

    var originalTransitions := Max(2, originalComplexity);
    var optimizedTransitions := Max(1, optimizedComplexity);
    var transitionReduction := RoundPercent(originalTransitions - optimizedTransitions, originalTransitions);

    var hasHighSeverity := exists i :: 0 <= i < |suggestions| && suggestions[i].severity == High;
    var hasMediumSeverity := exists i :: 0 <= i < |suggestions| && suggestions[i].severity == Medium;

    var memoryImprovement, speedImprovement, complexityReduction := 0, 0, 0;
    if hasHighSeverity {
      memoryImprovement := Min(45, stateReduction + 20);
      speedImprovement := Min(30, stateReduction + 10);
      complexityReduction := Min(60, stateReduction + 30);
    } else if hasMediumSeverity {
      memoryImprovement := Min(25, stateReduction + 10);
      speedImprovement := Min(20, stateReduction + 5);
      complexityReduction := Min(35, stateReduction + 15);
    } else if |suggestions| > 0 {
      memoryImprovement := Min(15, stateReduction + 5);
      speedImprovement := Min(10, stateReduction);
      complexityReduction := Min(20, stateReduction + 5);
    }

    m := Metrics(originalStates, optimizedStates, Max(0, stateReduction),
                 originalTransitions, optimizedTransitions, Max(0, transitionReduction),
                 memoryImprovement, speedImprovement, complexityReduction);
  }

  // ---------------------------------------------------------------------
  // What a match looks like
  // ---------------------------------------------------------------------

  /** `out` is what `rule` suggests for the match `m`, in the rule's own shape. */
  predicate Rewrites(rule: Rule, m: string, out: string)
  {
    match rule
    case Redundant =>
      && |out| >= 1 && m == "(" + out + "|" + out + ")"
      && forall i :: 0 <= i < |out| ==> out[i] !in {'|', '(', ')'}
    case Quantifier =>
      |m| == 4 && IsLetter(m[0]) && m == [m[0], '+', m[0], '*'] && out == [m[0], '+']
    case Grouping =>
      |out| == 1 && IsLetter(out[0]) && m == "(" + out + ")"
    case CharClass =>
      |out| == 1 && IsLetter(out[0]) && m == "[" + out + "]"
    case EmptyAlternation =>
      && |out| >= 2 && out[|out| - 1] == '?' && m == "(|" + out[..|out| - 1] + ")"
      && ')' !in out[..|out| - 1]
  }

  lemma RemoveCharsFive(a: string, b: string, c: string, d: string, e: string, cs: set<char>)
    ensures RemoveChars(a + b + c + d + e, cs)
         == RemoveChars(a, cs) + RemoveChars(b, cs) + RemoveChars(c, cs) + RemoveChars(d, cs) + RemoveChars(e, cs)
  {
    RemoveCharsAppend(a + b + c + d, e, cs);
    RemoveCharsAppend(a + b + c, d, cs);
    RemoveCharsAppend(a + b, c, cs);
    RemoveCharsAppend(a, b, cs);
  }

  /** Removing the parentheses of `(w|w)`, stated over the pieces so that the solver does not unfold the text. */
  lemma RemoveParens(w: string, open: string, bar: string, close: string)
    requires open == "(" && bar == "|" && close == ")"
    requires RemoveChars(w, {'(', ')'}) == w
    ensures RemoveChars(open + w + bar + w + close, {'(', ')'}) == w + (bar + w)
  {
    var cs := {'(', ')'};
    RemoveCharsFive(open, w, bar, w, close, cs);
    assert RemoveChars(open, cs) == [];
    assert RemoveChars(bar, cs) == bar;
    assert RemoveChars(close, cs) == [];
  }

  lemma RedundantInner(w: string)
    requires forall i :: 0 <= i < |w| ==> w[i] !in {'|', '(', ')'}
    ensures Inner(Redundant, "(" + w + "|" + w + ")") == w
  {
    RemoveCharsNone(w, {'(', ')'});
    RemoveParens(w, "(", "|", ")");
    SplitNoSep(w, "|" + w, '|');
    assert Split("|" + w, '|')[0] == "";
  }

  /** `m` is the match of `rule`'s expression that starts at `k` in `s`. */
  predicate MatchedAt(rule: Rule, s: string, k: nat, m: string)
  {
    k <= |s| && MatchLen(rule, s, k).Some? && m == s[k..k + MatchLen(rule, s, k).value]
  }

  /** The match `m` has the rule's shape, and the rule's suggested replacement for it is the one the rule describes. */
  predicate WellShaped(rule: Rule, m: string)
  {
    Rewrites(rule, m, Inner(rule, m))
  }

  lemma RedundantShape(s: string, p: nat, m: string)
    requires MatchedAt(Redundant, s, p, m)
    ensures WellShaped(Redundant, m)
  {
    var q := RunEnd(s, p + 1, {'|', '(', ')'});
    var w := s[p + 1..q];
    assert s[p..p + 2 * |w| + 3] == "(" + w + "|" + w + ")";
    RedundantInner(w);
  }

  lemma QuantifierShape(s: string, p: nat, m: string)
    requires MatchedAt(Quantifier, s, p, m)
    ensures WellShaped(Quantifier, m)
  {
    assert RunEnd(m, 2, LineTerminators) == 4;
    assert LastStar(m, 2, 4) == Some(3);
    assert CollapseFrom(m, 1) == [m[0], '+'];
  }

  lemma GroupingShape(s: string, p: nat, m: string)
    requires MatchedAt(Grouping, s, p, m)
    ensures WellShaped(Grouping, m)
  {
    assert m == "(" + [m[1]] + ")";
    assert RemoveChars(m, {'(', ')'}) == [m[1]];
  }

  lemma CharClassShape(s: string, p: nat, m: string)
    requires MatchedAt(CharClass, s, p, m)
    ensures WellShaped(CharClass, m)
  {
    assert m == "[" + [m[1]] + "]";
    assert RemoveChars(m, {'[', ']'}) == [m[1]];
  }

  lemma EmptyAlternationShape(s: string, p: nat, m: string)
    requires MatchedAt(EmptyAlternation, s, p, m)
    ensures WellShaped(EmptyAlternation, m)
  {
    var q := RunEnd(s, p + 2, {')'});
    var w := s[p + 2..q];
    assert m == "(|" + w + ")";
    var j := RunEnd(m, 2, {')'});
    assert j == |m| - 1;
    assert MatchLen(EmptyAlternation, m, 0) == Some(|m|);
    assert OptionalForm(m) == w + "?";
    assert (w + "?")[..|w|] == w;
  }

  /** Every match of `rule` has the rule's shape, and its suggested replacement is the one the rule describes. */
  lemma MatchShape(rule: Rule, s: string, p: nat, m: string)
    requires MatchedAt(rule, s, p, m)
    ensures WellShaped(rule, m)
  {
    match rule
    case Redundant => RedundantShape(s, p, m);
    case Quantifier => QuantifierShape(s, p, m);
    case Grouping => GroupingShape(s, p, m);
    case CharClass => CharClassShape(s, p, m);
    case EmptyAlternation => EmptyAlternationShape(s, p, m);
  }

  // ---------------------------------------------------------------------
  // The scanners
  // ---------------------------------------------------------------------

  /** A search finds nothing exactly when the expression matches at no position left to try. */
  lemma {:induction false} ScanEmpty(s: string, t: seq<Option<nat>>, p: nat)
    requires ValidTable(s, t) && p <= |s|
    ensures Scan(s, t, p) == [] <==> forall k :: p <= k < |s| ==> t[k].None?
    decreases |s| - p
  {
    if p < |s| && t[p].None? {
      ScanEmpty(s, t, p + 1);
    }
  }

  /** The test succeeds exactly when the expression matches at some position. */
  lemma TestIffOccurs(rule: Rule, s: string)
    ensures Test(rule, s) <==> Occurs(rule, s)
  {
    var t := MatchTable(rule, s);
    MatchesFromIsScan(rule, s, t, 0);
    ScanEmpty(s, t, 0);
    if Occurs(rule, s) {
      var p :| 0 <= p < |s| && MatchLen(rule, s, p).Some?;
      assert t[p].Some?;
    }
  }

  /** Where the `i`-th match found by a search resumed at `p` starts. */
  function ScanStart(s: string, t: seq<Option<nat>>, p: nat, i: nat): nat
    requires ValidTable(s, t) && p <= |s| && i < |Scan(s, t, p)|
    decreases |s| - p
  {
    match t[p]
    case Some(n) => if i == 0 then p else ScanStart(s, t, p + n, i - 1)
    case None => ScanStart(s, t, p + 1, i)
  }

  /** Every match a search collects is the expression's match at a position at or after `p`. */
  lemma {:induction false} ScanFindsMatches(s: string, t: seq<Option<nat>>, p: nat, i: nat)
    requires ValidTable(s, t) && p <= |s| && i < |Scan(s, t, p)|
    ensures var k := ScanStart(s, t, p, i);
      p <= k < |s| && t[k].Some? && Scan(s, t, p)[i] == s[k..k + t[k].value]
    decreases |s| - p
  {
    match t[p]
    case Some(n) =>
      if i > 0 {
        ScanFindsMatches(s, t, p + n, i - 1);
      }
    case None =>
      ScanFindsMatches(s, t, p + 1, i);
  }

  /** The `i`-th match `s.match(/…/g)` returns is the expression's match at some position. */
  lemma NthMatch(rule: Rule, s: string, i: nat)
    requires i < |AllMatches(rule, s)|
    ensures exists k :: MatchedAt(rule, s, k, AllMatches(rule, s)[i])
  {
    var t := MatchTable(rule, s);
    MatchesFromIsScan(rule, s, t, 0);
    ScanFindsMatches(s, t, 0, i);
    var k := ScanStart(s, t, 0, i);
    assert t[k] == MatchLen(rule, s, k);
    assert MatchedAt(rule, s, k, AllMatches(rule, s)[i]);
  }

  /** Every match `s.match(/…/g)` returns has the rule's shape and occurs in `s`. */
  lemma AllMatchesShape(rule: Rule, s: string)
    ensures forall m :: m in AllMatches(rule, s) ==> WellShaped(rule, m) && exists k :: MatchedAt(rule, s, k, m)
  {
    var ms := AllMatches(rule, s);
    forall m | m in ms ensures WellShaped(rule, m) && exists k :: MatchedAt(rule, s, k, m) {
      var i :| 0 <= i < |ms| && ms[i] == m;
      NthMatch(rule, s, i);
      var k :| MatchedAt(rule, s, k, m);
      MatchShape(rule, s, k, m);
    }
  }

  // ---------------------------------------------------------------------
  // The records
  // ---------------------------------------------------------------------

  /** The rule a record comes from, told by its type and the first letter of its description. */
  function RuleOf(sg: Suggestion): Rule
  {
    var initial := if sg.description == [] then ' ' else sg.description[0];
    match sg.kind
    case Redundancy => Redundant
    case Efficiency => if initial == 'S' then Quantifier else EmptyAlternation
    case Simplification => if initial == 'R' then Grouping else CharClass
    case Performance => Redundant
  }

  /** A rule's place in `Rules`. */
  function Rank(rule: Rule): nat
  {
    match rule
    case Redundant => 0
    case Quantifier => 1
    case Grouping => 2
    case CharClass => 3
    case EmptyAlternation => 4
  }

  /**
   * A record is sound for `regex`: it is the record its rule builds for its
   * `original`, that text is a match of the rule found in `regex` itself, the
   * suggested text has the rule's shape, and a grouping record only comes
   * from a pattern without `|`.
   */
  ghost predicate Sound(regex: string, sg: Suggestion)
  {
    var rule := RuleOf(sg);
    && sg == SuggestionFor(rule, sg.original)
    && Rewrites(rule, sg.original, sg.optimized)
    && (exists k :: MatchedAt(rule, regex, k, sg.original))
    && (rule == Grouping ==> '|' !in regex)
  }

  /** Records appear grouped by rule, in rule order. */
  predicate InRuleOrder(sgs: seq<Suggestion>)
  {
    forall i, j :: 0 <= i < j < |sgs| ==> Rank(RuleOf(sgs[i])) <= Rank(RuleOf(sgs[j]))
  }

  lemma RuleOfSuggestionFor(rule: Rule, m: string)
    ensures RuleOf(SuggestionFor(rule, m)) == rule
  {
  }

  /** Every record a rule pushes is recognisably that rule's. */
  lemma RuleSuggestionsRule(rule: Rule, regex: string)
    ensures forall sg :: sg in RuleSuggestions(rule, regex) ==> RuleOf(sg) == rule
  {
    if Fires(rule, regex) && rule != Quantifier {
      var ms := AllMatches(rule, regex);
      forall sg | sg in RuleSuggestions(rule, regex) ensures RuleOf(sg) == rule {
        var i :| 0 <= i < |ms| && sg == SuggestionFor(rule, ms[i]);
        RuleOfSuggestionFor(rule, ms[i]);
      }
    }
  }

  /** The record a firing rule builds for one of its matches is sound. */
  lemma MatchSuggestionSound(rule: Rule, regex: string, m: string)
    requires Fires(rule, regex)
    requires WellShaped(rule, m) && exists k :: MatchedAt(rule, regex, k, m)
    ensures Sound(regex, SuggestionFor(rule, m))
  {
    RuleOfSuggestionFor(rule, m);
  }

  lemma RuleSuggestionsSound(rule: Rule, regex: string)
    ensures forall sg :: sg in RuleSuggestions(rule, regex) ==> Sound(regex, sg) && RuleOf(sg) == rule
  {
    RuleSuggestionsRule(rule, regex);
    if Fires(rule, regex) {
      var ms := AllMatches(rule, regex);
      AllMatchesShape(rule, regex);
      if rule == Quantifier {
        assert ms[0] in ms;
        assert Inner(rule, ms[0]) != [];
        assert QuantifierSuggestion(regex) == SuggestionFor(rule, ms[0]);
        MatchSuggestionSound(rule, regex, ms[0]);
      } else {
        forall sg | sg in RuleSuggestions(rule, regex) ensures Sound(regex, sg) {
          var i :| 0 <= i < |ms| && sg == SuggestionFor(rule, ms[i]);
          assert ms[i] in ms;
          MatchSuggestionSound(rule, regex, ms[i]);
        }
      }
    }
  }

  lemma {:induction false} SuggestionsOfSound(regex: string, k: nat)
    requires k <= |Rules|
    ensures forall sg :: sg in SuggestionsOf(Rules[..k], regex) ==> Sound(regex, sg)
  {
    if k > 0 {
      SuggestionsOfSound(regex, k - 1);
      NextRule(regex, k - 1);
      RuleSuggestionsSound(Rules[k - 1], regex);
    }
  }

  /** The `k`-th rule run has rank `k`. */
  lemma RankOfRule(k: nat)
    requires k < |Rules|
    ensures Rank(Rules[k]) == k
  {
  }

  lemma {:induction false} SuggestionsOfOrdered(regex: string, k: nat)
    requires k <= |Rules|
    ensures forall sg :: sg in SuggestionsOf(Rules[..k], regex) ==> Rank(RuleOf(sg)) < k
    ensures InRuleOrder(SuggestionsOf(Rules[..k], regex))
  {
    if k > 0 {
      var xs, ys := SuggestionsOf(Rules[..k - 1], regex), RuleSuggestions(Rules[k - 1], regex);
      SuggestionsOfOrdered(regex, k - 1);
      NextRule(regex, k - 1);
      RuleSuggestionsRule(Rules[k - 1], regex);
      RankOfRule(k - 1);
      OrderedAppend(xs, ys, k - 1);
      forall sg | sg in xs + ys ensures Rank(RuleOf(sg)) < k {
        if sg in ys {
          assert RuleOf(sg) == Rules[k - 1];
        }
      }
    }
  }

  /** Records of lower rank followed by records of one higher rank stay in rule order. */
  lemma OrderedAppend(xs: seq<Suggestion>, ys: seq<Suggestion>, r: nat)
    requires InRuleOrder(xs) && forall sg :: sg in xs ==> Rank(RuleOf(sg)) < r
    requires forall sg :: sg in ys ==> Rank(RuleOf(sg)) == r
    ensures InRuleOrder(xs + ys)
  {
    var zs := xs + ys;
    forall i, j | 0 <= i < j < |zs|
      ensures Rank(RuleOf(zs[i])) <= Rank(RuleOf(zs[j]))
    {
      if j < |xs| {
        assert zs[i] == xs[i] && zs[j] == xs[j];
      } else if i < |xs| {
        assert zs[i] in xs && zs[j] in ys;
      } else {
        assert zs[i] in ys && zs[j] in ys;
      }
    }
  }

  /**
   * Every record is sound for the input (its original text is a match found
   * in the input, not in the partly rewritten text), and the records come in
   * rule order.
   */
  lemma SuggestionsSound(regex: string)
    ensures forall sg :: sg in Suggestions(regex) ==> Sound(regex, sg)
    ensures InRuleOrder(Suggestions(regex))
  {
    SuggestionsOfSound(regex, |Rules|);
    SuggestionsOfOrdered(regex, |Rules|);
    assert Rules[..|Rules|] == Rules;
  }

  lemma {:induction false} NoneFires(regex: string, k: nat)
    requires k <= |Rules|
    requires forall rule :: !Fires(rule, regex)
    ensures SuggestionsOf(Rules[..k], regex) == [] && TextAfter(Rules[..k], regex) == regex
  {
    if k > 0 {
      NoneFires(regex, k - 1);
      NextRule(regex, k - 1);
    }
  }

  /** With no rule's pattern anywhere in the input there are no records and the text is unchanged. */
  lemma NothingToRewrite(regex: string)
    requires forall rule :: !Occurs(rule, regex)
    ensures Suggestions(regex) == []
    ensures OptimizedText(regex) == regex
  {
    forall rule | true ensures !Fires(rule, regex) {
      TestIffOccurs(rule, regex);
    }
    NoneFires(regex, |Rules|);
    assert Rules[..|Rules|] == Rules;
  }

  /** The quantifier rule rewrites every match, each losing two characters. */
  lemma {:induction false} QuantifierRewritesAll(s: string, p: nat)
    requires p <= |s|
    ensures |RewriteQuantifiers(s, p)| == |s| - p - 2 * |MatchesFrom(Quantifier, s, p)|
    decreases |s| - p
  {
    if p < |s| {
      if MatchLen(Quantifier, s, p).Some? {
        QuantifierRewritesAll(s, p + 4);
      } else {
        QuantifierRewritesAll(s, p + 1);
      }
    }
  }

  /**
   * `ms` are the texts of `s` at positions `starts`, all at or after `p`, from
   * left to right and without overlap.
   */
  predicate FoundAt(s: string, p: nat, starts: seq<nat>, ms: seq<string>)
  {
    && |starts| == |ms|
    && (forall i :: 0 <= i < |starts| ==> p <= starts[i] < |s|)
    && (forall i :: 0 <= i < |starts| ==> starts[i] + |ms[i]| <= |s| && ms[i] == s[starts[i]..starts[i] + |ms[i]|])
    && (forall i :: 0 <= i < |starts| - 1 ==> starts[i] + |ms[i]| <= starts[i + 1])
  }

  /** A match at `p` that ends where the later ones begin extends what was found. */
  lemma FoundAtCons(s: string, p: nat, n: nat, starts: seq<nat>, ms: seq<string>)
    requires p < |s| && 1 <= n && p + n <= |s|
    requires FoundAt(s, p + n, starts, ms)
    ensures FoundAt(s, p, [p] + starts, [s[p..p + n]] + ms)
  {
    var S, M := [p] + starts, [s[p..p + n]] + ms;
    assert forall i :: 0 < i < |S| ==> S[i] == starts[i - 1] && M[i] == ms[i - 1];
    forall i | 0 <= i < |S| - 1
      ensures S[i] + |M[i]| <= S[i + 1]
    {
      assert S[i + 1] == starts[i];
    }
  }

  /** The global search reports the text at each of its start positions, from left to right and without overlap. */
  lemma {:induction false} MatchStartsFacts(rule: Rule, s: string, p: nat)
    requires p <= |s|
    ensures FoundAt(s, p, MatchStarts(rule, s, p), MatchesFrom(rule, s, p))
    decreases |s| - p
  {
    if p < |s| {
      match MatchLen(rule, s, p)
      case Some(n) =>
        MatchStartsFacts(rule, s, p + n);
        FoundAtCons(s, p, n, MatchStarts(rule, s, p + n), MatchesFrom(rule, s, p + n));
      case None =>
        MatchStartsFacts(rule, s, p + 1);
    }
  }

  /** Each position the quantifier search reports starts an `x+x*`. */
  lemma {:induction false} QuantifierStarts(s: string, p: nat)
    requires p <= |s|
    ensures forall k :: k in MatchStarts(Quantifier, s, p) ==>
      p <= k && k + 4 <= |s| && MatchLen(Quantifier, s, k) == Some(4)
    decreases |s| - p
  {
    if p < |s| {
      if MatchLen(Quantifier, s, p).Some? {
        QuantifierStarts(s, p + 4);
      } else {
        QuantifierStarts(s, p + 1);
      }
    }
  }

  /** Positions `q..|s|` of `s` agree in `D` and `E`, so the same characters are kept. */
  lemma {:induction false} KeepFromAgree(s: string, q: nat, D: set<nat>, E: set<nat>)
    requires q <= |s|
    requires forall x :: q <= x < |s| ==> (x in D <==> x in E)
    ensures KeepFrom(s, q, D) == KeepFrom(s, q, E)
    decreases |s| - q
  {
    if q < |s| {
      KeepFromAgree(s, q + 1, D, E);
    }
  }

  /** Keeping positions `p` and `p + 1` and deleting `p + 2` and `p + 3`. */
  lemma KeepFromSkipTwo(s: string, p: nat, D: set<nat>)
    requires p + 4 <= |s|
    requires p !in D && p + 1 !in D && p + 2 in D && p + 3 in D
    ensures KeepFrom(s, p, D) == [s[p], s[p + 1]] + KeepFrom(s, p + 4, D)
  {
    var rest := KeepFrom(s, p + 4, D);
    var r2 := KeepFrom(s, p + 2, D);
    assert r2 == rest by {
      assert KeepFrom(s, p + 3, D) == [] + rest;
    }
    var r1 := KeepFrom(s, p + 1, D);
    assert r1 == [s[p + 1]] + rest by {
      assert r1 == [s[p + 1]] + r2;
    }
    assert KeepFrom(s, p, D) == [s[p]] + r1;
    assert [s[p]] + ([s[p + 1]] + rest) == [s[p], s[p + 1]] + rest;
  }

  /** How the deleted positions from `p` on relate to those from the next search position. */
  lemma QuantifierDroppedStep(s: string, p: nat)
    requires p < |s|
    ensures MatchLen(Quantifier, s, p).Some? ==>
      && p + 4 <= |s|
      && p !in QuantifierDropped(s, p) && p + 1 !in QuantifierDropped(s, p)
      && p + 2 in QuantifierDropped(s, p) && p + 3 in QuantifierDropped(s, p)
      && forall x :: p + 4 <= x ==> (x in QuantifierDropped(s, p) <==> x in QuantifierDropped(s, p + 4))
    ensures MatchLen(Quantifier, s, p).None? ==>
      p !in QuantifierDropped(s, p) && QuantifierDropped(s, p) == QuantifierDropped(s, p + 1)
  {
    var D, S := QuantifierDropped(s, p), MatchStarts(Quantifier, s, p);
    if MatchLen(Quantifier, s, p).Some? {
      var D4, S4 := QuantifierDropped(s, p + 4), MatchStarts(Quantifier, s, p + 4);
      QuantifierStarts(s, p + 4);
      assert S == [p] + S4;
      forall x | p + 4 <= x ensures x in D <==> x in D4 {
        if x in D {
          var k :| k in S && (x == k + 2 || x == k + 3);
          assert k in S4;
        }
        if x in D4 {
          var k :| k in S4 && (x == k + 2 || x == k + 3);
          assert k in S;
        }
      }
      assert p in S;
    } else {
      QuantifierStarts(s, p + 1);
    }
  }

  /**
   * The global rewrite of `x+x*` to `x+` deletes exactly the `x*` half of
   * each match the global search finds and keeps every other character in
   * order, so each match `m` becomes `[m[0], '+']`.
   */
  lemma {:induction false} QuantifierRewriteContent(s: string, p: nat)
    requires p <= |s|
    ensures RewriteQuantifiers(s, p) == KeepFrom(s, p, QuantifierDropped(s, p))
    decreases |s| - p
  {
    if p < |s| {
      var D := QuantifierDropped(s, p);
      QuantifierDroppedStep(s, p);
      if MatchLen(Quantifier, s, p).Some? {
        var D4 := QuantifierDropped(s, p + 4);
        QuantifierRewriteContent(s, p + 4);
        KeepFromAgree(s, p + 4, D, D4);
        KeepFromSkipTwo(s, p, D);
      } else {
        QuantifierRewriteContent(s, p + 1);
      }
    }
  }

  /**
   * The quantifier rule pushes one record at most, whatever the number of
   * matches; when its test passes on the input, the working text `w` loses
   * the `x*` half of each of its own matches and nothing else.
   */
  lemma QuantifierOneRecord(regex: string, w: string)
    ensures |RuleSuggestions(Quantifier, regex)| == (if Test(Quantifier, regex) then 1 else 0)
    ensures AfterRule(Quantifier, regex, w) == if Test(Quantifier, regex) then KeepFrom(w, 0, QuantifierDropped(w, 0)) else w
    ensures |AfterRule(Quantifier, regex, w)| == |w| - (if Test(Quantifier, regex) then 2 * |AllMatches(Quantifier, w)| else 0)
  {
    QuantifierRewritesAll(w, 0);
    QuantifierRewriteContent(w, 0);
  }

  // ---------------------------------------------------------------------
  // replace with a string pattern
  // ---------------------------------------------------------------------

  lemma {:induction false} SubstituteLiteral(rep: string, matched: string, before: string, after: string)
    requires '$' !in rep
    ensures Substitute(rep, matched, before, after) == rep
  {
    if rep != [] {
      assert rep[0] != '$';
      SubstituteLiteral(rep[1..], matched, before, after);
      assert rep == [rep[0]] + rep[1..];
    }
  }

  /**
   * A replacement text without `$` is inserted literally, in place of the
   * first occurrence of the pattern only; with no occurrence nothing changes.
   */
  lemma ReplaceFirstLiteral(s: string, pat: string, rep: string)
    requires '$' !in rep
    ensures (forall k: nat :: !OccursAt(s, pat, k)) ==> ReplaceFirst(s, pat, rep) == s
    ensures forall i: nat :: OccursAt(s, pat, i) && (forall k: nat :: k < i ==> !OccursAt(s, pat, k)) ==>
      ReplaceFirst(s, pat, rep) == s[..i] + rep + s[i + |pat|..]
  {
    var found := IndexFrom(s, pat, 0);
    if found.Some? {
      var j := found.value;
      assert OccursAt(s, pat, j);
      ReplaceFirstAt(s, pat, rep, j);
      forall i: nat | OccursAt(s, pat, i) && (forall k: nat :: k < i ==> !OccursAt(s, pat, k))
        ensures i == j
      {
        FirstOccurrenceUnique(s, pat, i, j);
      }
    } else {
      ReplaceFirstAbsent(s, pat, rep);
    }
  }

  lemma ReplaceFirstAbsent(s: string, pat: string, rep: string)
    requires IndexFrom(s, pat, 0).None?
    ensures ReplaceFirst(s, pat, rep) == s
    ensures forall k: nat :: !OccursAt(s, pat, k)
  {
  }

  lemma ReplaceFirstAt(s: string, pat: string, rep: string, j: nat)
    requires '$' !in rep && IndexFrom(s, pat, 0) == Some(j)
    ensures ReplaceFirst(s, pat, rep) == s[..j] + rep + s[j + |pat|..]
  {
    var before, after := s[..j], s[j + |pat|..];
    ReplaceFirstFound(s, pat, rep, j);
    SubstituteLiteral(rep, pat, before, after);
  }

  lemma ReplaceFirstFound(s: string, pat: string, rep: string, j: nat)
    requires IndexFrom(s, pat, 0) == Some(j)
    ensures j + |pat| <= |s|
    ensures ReplaceFirst(s, pat, rep) == s[..j] + Substitute(rep, pat, s[..j], s[j + |pat|..]) + s[j + |pat|..]
  {
  }

  /** Two first occurrences of a pattern are the same occurrence. */
  lemma FirstOccurrenceUnique(s: string, pat: string, i: nat, j: nat)
    requires OccursAt(s, pat, i) && forall k: nat :: k < i ==> !OccursAt(s, pat, k)
    requires OccursAt(s, pat, j) && forall k: nat :: k < j ==> !OccursAt(s, pat, k)
    ensures i == j
  {
  }

  // ---------------------------------------------------------------------
  // The metrics
  // ---------------------------------------------------------------------

  /** `RoundPercent` is the integer nearest to `100 * num / den`, halves rounded up. */
  lemma RoundPercentNearest(num: int, den: int)
    requires den > 0
    ensures var r := RoundPercent(num, den); 2 * den * r - den <= 200 * num < 2 * den * r + den
  {
  }

  /** A share of less than the whole rounds to at most 100 percent. */
  lemma RoundPercentAtMostAll(num: int, den: int)
    requires den > 0 && num < den
    ensures RoundPercent(num, den) <= 100
  {
    var r := RoundPercent(num, den);
    RoundPercentNearest(num, den);
    if r > 100 {
      MulAtLeast(2 * den, r, 101);
    }
  }

  /** Multiplying by a positive factor keeps a lower bound. */
  lemma MulAtLeast(d: int, r: int, k: int)
    requires d > 0 && r >= k
    ensures d * r >= d * k
  {
    assert d * r - d * k == d * (r - k);
  }

  lemma RoundPercentNonNegative(num: int, den: int)
    requires den > 0 && num >= 0
    ensures RoundPercent(num, den) >= 0
  {
  }

  lemma RoundPercentZero(den: int)
    requires den > 0
    ensures RoundPercent(0, den) == 0
  {
  }

  /** A reduction figure `Max(0, round((before - after) / before * 100))` for positive estimates lies in 0..100. */
  lemma ReductionRange(before: int, after: int)
    requires before > 0 && after > 0
    ensures 0 <= Max(0, RoundPercent(before - after, before)) <= 100
  {
    RoundPercentAtMostAll(before - after, before);
  }

  /** The improvement figures: zero without records, capped by the highest severity present, never negative when the state estimate did not grow. */
  lemma ImprovementsBounds(sr: int, suggestions: seq<Suggestion>)
    ensures suggestions == [] ==> Improvements(sr, suggestions) == (0, 0, 0)
    ensures (exists i :: 0 <= i < |suggestions| && suggestions[i].severity == High) ==>
      var (mem, speed, cx) := Improvements(sr, suggestions); mem <= 45 && speed <= 30 && cx <= 60
    ensures (forall i :: 0 <= i < |suggestions| ==> suggestions[i].severity != High) ==>
      var (mem, speed, cx) := Improvements(sr, suggestions); mem <= 25 && speed <= 20 && cx <= 35
    ensures (forall i :: 0 <= i < |suggestions| ==> suggestions[i].severity == Low) ==>
      var (mem, speed, cx) := Improvements(sr, suggestions); mem <= 15 && speed <= 10 && cx <= 20
    ensures sr >= 0 ==>
      var (mem, speed, cx) := Improvements(sr, suggestions); mem >= 0 && speed >= 0 && cx >= 0
  {
  }

  /** The estimates are at least their floors and the reductions are percentages. */
  lemma MetricsBounds(original: string, optimized: string, suggestions: seq<Suggestion>, m: Metrics)
    requires MetricsOf(original, optimized, suggestions, m)
    ensures m.originalStates >= 3 && m.optimizedStates >= 2
    ensures m.originalTransitions >= 2 && m.optimizedTransitions >= 1
    ensures 0 <= m.stateReduction <= 100 && 0 <= m.transitionReduction <= 100
  {
    ReductionRange(m.originalStates, m.optimizedStates);
    ReductionRange(m.originalTransitions, m.optimizedTransitions);
  }

  /** The state estimate `Math.floor(c * 1.5)` does not decrease with the complexity. */
  lemma StatesMonotone(pc: int, oc: int)
    requires pc <= oc
    ensures Max(2, (3 * pc) / 2) <= Max(3, (3 * oc) / 2)
  {
    assert (3 * pc) / 2 <= (3 * oc) / 2;
  }

  /**
   * An unchanged complexity of at least 2 reports no reduction; complexity 1
   * (no special character) reports 33% and 50%, because the state and
   * transition floors of the original (3, 2) are above those of the
   * optimized text (2, 1). A complexity that did not grow reports no
   * negative improvement.
   */
  lemma MetricsNoGrowth(original: string, optimized: string, suggestions: seq<Suggestion>, m: Metrics)
    requires MetricsOf(original, optimized, suggestions, m)
    ensures Complexity(optimized) == Complexity(original) >= 2 ==>
      m.stateReduction == 0 && m.transitionReduction == 0
    ensures Complexity(optimized) == Complexity(original) == 1 ==>
      m.stateReduction == 33 && m.transitionReduction == 50
    ensures Complexity(optimized) <= Complexity(original) ==>
      m.memoryImprovement >= 0 && m.speedImprovement >= 0 && m.complexityReduction >= 0
  {
    var oc := Complexity(original);
    var pc := Complexity(optimized);
    var oS, pS := m.originalStates, m.optimizedStates;
    if pc <= oc {
      StatesMonotone(pc, oc);
      var sr := RoundPercent(oS - pS, oS);
      RoundPercentNonNegative(oS - pS, oS);
      ImprovementsBounds(sr, suggestions);
    }
    if pc == oc >= 2 {
      assert oS == pS && m.originalTransitions == m.optimizedTransitions;
      RoundPercentZero(oS);
      RoundPercentZero(m.originalTransitions);
    }
  }
}
