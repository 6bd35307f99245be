# Automata playground core in Dafny

This project models the parts of an educational "regex to automata" web app
that hold real logic, and proves properties about them:

- **the two automaton simulators** (`src/utils/simulator.ts`):
  - `simulateAutomaton` follows one current state. It takes the first edge
    whose label equals or contains the symbol, and stops at the first symbol
    it cannot read.
  - `simulateAutomatonAdvanced` keeps a set of current states. It steps along
    non-epsilon edges labelled exactly with the symbol, then closes the set
    under epsilon edges.
  - `getEpsilonClosure` runs a work-list loop over an explicit stack.
- **the automaton builders** (`src/utils/regexParser.ts`):
  - `parseRegexToNFA` hard-codes six literal patterns. Any other pattern
    containing `|` gets a four-state diagram, and the rest get a chain of
    states.
  - `convertNFAToDFA` and `minimizeDFA` build fixed three- and two-state
    diagrams labelled with their input's distinct labels.
  - All states come from a counter that names them `q0, q1, …`.
- **the regular-expression "optimizer"** (`src/utils/regexOptimizer.ts`):
  - five textual rewrite rules, each emitting suggestion records and
    rewriting a working copy of the input;
  - integer metrics estimated from a character-weight complexity.
- **the question-and-answer panel's state logic**
  (`src/components/QASection.tsx`): log in by access code, log out, add and
  delete questions, record an answer, and the add-question form check.

## Layout

| file | module | contents |
|---|---|---|
| `wrappers.dfy` | `Wrappers` | `Option` |
| `text.dfy` | `Text` | string operations the JavaScript code relies on: decimal rendering, `join`/`split`, `trim`, `toLowerCase`, `[...new Set(xs)]` |
| `automata.dfy` | `Automata` | nodes, edges, automata, state names |
| `simulator.dfy` | `Simulator` | both simulators and the epsilon closure |
| `regex_parser.dfy` | `RegexParser` | the three builders and the state counter |
| `regex_optimizer.dfy` | `RegexOptimizer` | the five rules, metrics and complexity |
| `qa_section.dfy` | `QA` | the panel's state as a class, and the form check |

Modelling choices:

- **Methods proved against functions.** Each source function that loops or
  mutates is a method. The method is proved equal to a recursive
  specification function (`Simulate`, `Advanced`, `NfaOf`, `DfaOf`, `MinOf`,
  `Suggestions`/`OptimizedText`, `Complexity`, `MetricsOf`). The lemmas state
  what those functions guarantee.
- **Sets.**
  - A JavaScript `Set`, which keeps insertion order, is a duplicate-free
    sequence.
  - The epsilon closure is specified as the least epsilon-closed superset.
    A lemma shows it is exactly the set of states reachable along epsilon
    paths.
- **Action strings.** A step's `action` is an `Action` datatype. There is
  one constructor per message template of the source, carrying the symbol
  and the target that the message names.
- **Optimizer scanners.** Each rule's JavaScript regular expression is its
  own scanner (`MatchLen`). A global `match` is the list of leftmost
  non-overlapping matches (`MatchesFrom`). `String.prototype.replace` with a
  string pattern is modelled with its `$` substitution patterns.
- **Integer arithmetic.**
  - `Math.round(x / d * 100)` is half-up integer rounding:
    `(200·x + d) / (2·d)`.
  - `Math.floor(c * 1.5)` is `(3·c) / 2`.
- **Panel state.**
  - The panel's `useState` fields are the fields of class `QASection`.
  - The clock readings are parameters.
  - `alert` is a returned flag, or a `None` result.

What the code does, where its own names and comments suggest more:

- The app's Learn page (src/components/LearnSection.tsx:19-39) and the
  comments at src/utils/regexParser.ts:22-23, 135 and 176 name Thompson's
  construction, subset construction and minimisation to the "smallest
  equivalent automaton". The code instead builds the fixed shapes described
  above.
  - The DFA and the minimal DFA do not accept the same language as the NFA.
  - Nothing here claims they do.
- There are two simulators:
  - the simple one (src/utils/simulator.ts:15-65) follows the first matching
    edge, not a set of states, and treats an epsilon edge like any other edge
    labelled `ε`;
  - the advanced one (src/utils/simulator.ts:67-131) reports an empty step as
    a `reject` step with no after-set.
- The optimizer's rules are textual rewrites: `(|ab)` becomes `ab?`.

## Model

| member | source | states |
|---|---|---|
| Automata.StateName | src/utils/regexParser.ts:26-30 | a state id is `q` followed by the counter in decimal |
| Automata.StateNameInjective | src/utils/regexParser.ts:25-30 | distinct counter values give distinct state ids |
| Automata.FindStart | src/utils/simulator.ts:19 | `nodes.find` for the start node: none iff no node has type start, else the first such node |
| Simulator.FindTransition | src/utils/simulator.ts:36-39 | none iff no edge leaves the state with a label equal to or containing the symbol; otherwise the first such edge in edge order |
| Simulator.SimulateAutomaton | src/utils/simulator.ts:15-65 | the loop computes the trace `Simulate` defines; with no start node it returns no steps and rejects |
| Simulator.WalkShape | src/utils/simulator.ts:29-58 | at most one step per symbol; the first step leaves the current state; each step starts where the previous one ended; step `i` reads symbol `i` along the first matching edge, or records that none exists and stays put |
| Simulator.WalkRejects | src/utils/simulator.ts:49-58 | a no-transition step can only be the last step, and then the verdict is reject |
| Simulator.WalkAccepts | src/utils/simulator.ts:25-64 | accepts iff every symbol was read along an edge and the final state is an accept state |
| Simulator.Closure | src/utils/simulator.ts:132-153 | the closure contains its input and is closed under epsilon edges |
| Simulator.ClosureLeast | src/utils/simulator.ts:132-153 | the closure lies inside every epsilon-closed superset of the input |
| Simulator.ClosureOnlyReachable | src/utils/simulator.ts:132-153 | every state in the closure is reachable from the input along an epsilon path |
| Simulator.ClosureIsReachability | src/utils/simulator.ts:132-153 | a state is in the closure iff an epsilon path leads to it from the input |
| Simulator.EpsilonTargetListMembers | src/utils/simulator.ts:140-142 | the filtered epsilon edges leaving a state have exactly that state's epsilon successors as targets |
| Simulator.PushEpsilonTargets | src/utils/simulator.ts:140-149 | the epsilon successors of the popped state that are not yet in the closure are appended, in edge order, to both the closure and the stack; the old closure stays a prefix, both lists stay duplicate-free, the stack stays inside the closure, and the closure gains exactly the state's epsilon successors |
| Simulator.ClosureLoopDone | src/utils/simulator.ts:136-152 | once the stack is empty, the closure list holds exactly the epsilon closure |
| Simulator.ClosureOrderSpec | src/utils/simulator.ts:136-152 | from any point of the loop where its invariant holds, the list it ends with is duplicate-free, extends the current list and holds exactly the epsilon closure |
| Simulator.ClosureOrderIsClosure | src/utils/simulator.ts:132-153 | the ordered closure of a duplicate-free input is duplicate-free, starts with the input in order, and holds exactly the epsilon closure of the input |
| Simulator.GetEpsilonClosure | src/utils/simulator.ts:132-153 | the loop builds the list `ClosureOrder` defines, the insertion order of the JavaScript `Set`: the input states first, then each popped state's new successors in edge order; the result is duplicate-free and holds exactly the epsilon closure of the input |
| Simulator.AdvanceShape | src/utils/simulator.ts:86-124 | at most one step per symbol; each step starts from the previous step's result; each result is the epsilon closure of the exact-label, non-epsilon move, or a reject |
| Simulator.AdvanceRejects | src/utils/simulator.ts:103-111 | an empty move can only be the last step, and then the verdict is reject |
| Simulator.AdvanceAccepts | src/utils/simulator.ts:86-129 | accepts iff every symbol was processed and the final configuration meets the accept set |
| Simulator.AdvancedEmptyInput | src/utils/simulator.ts:72-84 | on empty input there are no steps, and the verdict is true iff a start node exists and its epsilon closure holds an accept state |
| Simulator.MoveTargetListMembers | src/utils/simulator.ts:91-100 | the labelled targets collected state by state are exactly the move of the configuration on the symbol |
| Simulator.AddLabelledTargets | src/utils/simulator.ts:92-100 | appends, in edge order, the targets of the state's non-epsilon edges labelled exactly with the symbol that are not yet present; the old list stays a prefix, stays duplicate-free, and gains exactly the state's move |
| Simulator.MoveStates | src/utils/simulator.ts:88-101 | the next-state list holds the labelled targets in configuration order, then edge order, each at its first insertion; it is duplicate-free and holds exactly the move of the whole configuration |
| Simulator.NextConfig | src/utils/simulator.ts:88-114 | computes `NextList`: none iff the move is empty; otherwise the ordered epsilon closure of the ordered move, duplicate-free, holding exactly the closure of the move |
| Simulator.NextListFacts | src/utils/simulator.ts:88-114 | for every configuration list and symbol, `NextList` is none exactly when the move of the configuration is empty, and otherwise a duplicate-free list holding exactly the epsilon closure of that move |
| Simulator.AdvanceListAbstract | src/utils/simulator.ts:86-129 | read as sets, the ordered run from a duplicate-free configuration is the set-based run, and every configuration it reports is duplicate-free |
| Simulator.AdvancedListIsAdvanced | src/utils/simulator.ts:68-129 | read as sets, the ordered trace is the one `Advanced` defines, and every reported configuration lists each state once |
| Simulator.SimulateAutomatonAdvanced | src/utils/simulator.ts:68-130 | returns the ordered trace `AdvancedList` rendered as the source renders it: each configuration joined with commas in `Set` insertion order, `reject` as the after-state of an empty move; with no start node, no steps and reject |
| RegexParser.StateAllocator.constructor | src/utils/regexParser.ts:25 | the counter starts at 0 |
| RegexParser.StateAllocator.Create | src/utils/regexParser.ts:26-30 | the node's id and label are both `q` plus the counter, and the counter goes up by one |
| RegexParser.AlternationPartsCount | src/utils/regexParser.ts:107 | a pattern holding a bar character splits into at least two parts |
| RegexParser.FixedPatterns | src/utils/regexParser.ts:36-98 | the hard-coded branch applies exactly to the six literal patterns |
| RegexParser.ParseRegexToNFA | src/utils/regexParser.ts:21-136 | the builder computes `NfaOf`: the fixed shape, else the alternation shape, else the chain |
| RegexParser.BuildFixed | src/utils/regexParser.ts:36-98 | the nodes and edges pushed for a literal pattern are its fixed shape |
| RegexParser.BuildAlternation | src/utils/regexParser.ts:99-113 | the nodes and edges pushed for a pattern with a bar character are the four-state shape |
| RegexParser.BuildChain | src/utils/regexParser.ts:114-133 | the loop pushes the chain of states and edges |
| RegexParser.SequentialIdsDistinct | src/utils/regexParser.ts:25-30 | states named `q0, q1, …` in order have distinct ids |
| RegexParser.WellFormedStart | src/utils/regexParser.ts:37 | in a well-formed result the start node is `q0` |
| RegexParser.FixedWellFormed | src/utils/regexParser.ts:36-98 | each literal pattern's result has ids `q0…qn` equal to labels, one start node `q0`, and edges between its own nodes |
| RegexParser.AlternationWellFormed | src/utils/regexParser.ts:99-113 | the same for the alternation branch |
| RegexParser.ChainWellFormed | src/utils/regexParser.ts:114-133 | the same for the chain branch, the empty pattern included |
| RegexParser.NfaWellFormed | src/utils/regexParser.ts:21-136 | every result of `parseRegexToNFA` is well formed |
| RegexParser.FixedSizes | src/utils/regexParser.ts:36-98 | node and edge counts of the six patterns: 2/2, 3/3, 3/4, 3/2, 3/4, 4/6 |
| RegexParser.AlternationShape | src/utils/regexParser.ts:99-113 | four nodes and four edges; two epsilon edges from `q0` to `q1` and `q2`; labelled edges into accept state `q3`, carrying the first two parts after removing parentheses, or `a`/`b` when a part is empty |
| RegexParser.ChainShape | src/utils/regexParser.ts:114-133 | `n+1` nodes and `n` edges; edge `i` goes `q_i → q_{i+1}` labelled `regex[i]`; the accept state is `q_n`, and there is none when `n = 0` |
| RegexParser.ChainAccept | src/utils/regexParser.ts:123 | the chain's accept set is `{q_n}` for a non-empty pattern and empty otherwise |
| RegexParser.ChainTransition | src/utils/regexParser.ts:122-132 | from `q_i` the simple simulator's edge search finds edge `i` exactly when the symbol is `regex[i]` |
| RegexParser.ChainWalk | src/utils/regexParser.ts:114-133 | walking the chain from `q_i` accepts exactly the rest of the pattern from `i` |
| RegexParser.ChainAcceptsPattern | src/utils/regexParser.ts:114-133 | the simple simulator accepts on a default-branch NFA exactly the pattern itself, and nothing at all for the empty pattern |
| RegexParser.NonEpsilonLabels | src/utils/regexParser.ts:158 | the labels of the non-epsilon edges, in edge order |
| RegexParser.ConvertNFAToDFA | src/utils/regexParser.ts:138-173 | the builder computes `DfaOf` |
| RegexParser.DfaWellFormed | src/utils/regexParser.ts:150-155 | three nodes, well formed, start `q0`, accept set `{q2}` |
| RegexParser.DfaEdges | src/utils/regexParser.ts:158-170 | `min(2, #distinct non-epsilon labels)` edges; edge `i` goes `q_i → q_{i+1}` with the `i`-th distinct label; no epsilon edges |
| RegexParser.DfaLabelOrder | src/utils/regexParser.ts:159-170 | the DFA's labels are the NFA's labels in first-occurrence order, and the two labels differ |
| RegexParser.MinimizeDFA | src/utils/regexParser.ts:175-205 | the builder computes `MinOf` |
| RegexParser.MinShape | src/utils/regexParser.ts:187-202 | two nodes, start `q0`, accept set `{q1}`, one edge `q0 → q1` |
| RegexParser.MinLabel | src/utils/regexParser.ts:194-201 | the edge label is empty when the input has no edges; when it has at least one edge and no label contains a comma, the label splits at `,` back into the input's distinct labels in first-occurrence order |
| RegexParser.MinLabelComma | src/utils/regexParser.ts:158-201 | without that condition the round trip fails: for the pattern `a,b` the DFA keeps the labels `a` and `,`, the minimised label is `a,,`, and it splits into three parts rather than two |
| RegexOptimizer.IndexFrom | src/utils/regexOptimizer.ts:47 | `indexOf`: the first index at or after `i` where the pattern occurs, or none |
| RegexOptimizer.SubstituteLiteral | src/utils/regexOptimizer.ts:47 | a replacement text without `$` is inserted verbatim |
| RegexOptimizer.ReplaceFirstLiteral | src/utils/regexOptimizer.ts:47 | `replace(match, inner)` replaces only the first occurrence, and does nothing when the pattern does not occur |
| RegexOptimizer.RedundantShape | src/utils/regexOptimizer.ts:33-38 | every rule-1 match is an opening parenthesis, `w`, a bar, `w` again and a closing parenthesis, with non-empty `w` free of bars and parentheses; its suggested text is `w` |
| RegexOptimizer.QuantifierShape | src/utils/regexOptimizer.ts:53-59 | every rule-2 match is `x+x*` for a letter `x`, and its suggested text is `x+` |
| RegexOptimizer.GroupingShape | src/utils/regexOptimizer.ts:67-72 | every rule-3 match is `(x)` for a letter `x`, suggested as `x` |
| RegexOptimizer.CharClassShape | src/utils/regexOptimizer.ts:87-92 | every rule-4 match is `[x]` for a letter `x`, suggested as `x` |
| RegexOptimizer.EmptyAlternationShape | src/utils/regexOptimizer.ts:107-112 | every rule-5 match is an opening parenthesis, a bar, non-empty `w` free of `)`, and a closing parenthesis, suggested as `w?` |
| RegexOptimizer.RedundantInner | src/utils/regexOptimizer.ts:38 | removing the parentheses from a rule-1 match of `w` and keeping the part before the bar gives `w` |
| RegexOptimizer.MatchShape | src/utils/regexOptimizer.ts:33-112 | every match of any rule has that rule's shape |
| RegexOptimizer.TestIffOccurs | src/utils/regexOptimizer.ts:34 | a rule's `test` succeeds iff its expression matches at some position of the input |
| RegexOptimizer.NthMatch | src/utils/regexOptimizer.ts:35 | each entry of `match` is the expression's match at some position of the input |
| RegexOptimizer.AllMatchesShape | src/utils/regexOptimizer.ts:35-37 | every entry of `match` has the rule's shape and occurs in the input |
| RegexOptimizer.ApplyMatches | src/utils/regexOptimizer.ts:37-48 | the `forEach` pushes one record per match, in order, and replaces each match's first occurrence in the working text |
| RegexOptimizer.ApplyRule | src/utils/regexOptimizer.ts:32-124 | one rule's block appends that rule's records and applies its rewrite only when its guard holds |
| RegexOptimizer.OptimizeRegex | src/utils/regexOptimizer.ts:28-134 | the result's records, text and metrics are `Suggestions`, `OptimizedText` and `MetricsOf` of the input |
| RegexOptimizer.RuleSuggestionsSound | src/utils/regexOptimizer.ts:32-124 | each record a rule emits has that rule's type, severity and texts, and its original text is a match found in the input |
| RegexOptimizer.SuggestionsSound | src/utils/regexOptimizer.ts:28-124 | every record is sound for the original input, not for the partly rewritten text; records come in rule order 1 to 5; a grouping record only comes from an input without a bar character |
| RegexOptimizer.NothingToRewrite | src/utils/regexOptimizer.ts:29-124 | if no rule's expression occurs in the input, there are no records and the text is unchanged |
| RegexOptimizer.MatchStartsFacts | src/utils/regexOptimizer.ts:53-63 | the global search's start positions and the texts it reports correspond one to one: each text is the input at its position, and the positions run left to right without overlap |
| RegexOptimizer.QuantifierStarts | src/utils/regexOptimizer.ts:53 | each position the quantifier search reports starts an `x+x*` |
| RegexOptimizer.QuantifierRewritesAll | src/utils/regexOptimizer.ts:63 | the global rewrite loses two characters per match the global search finds |
| RegexOptimizer.QuantifierRewriteContent | src/utils/regexOptimizer.ts:63 | the global rewrite deletes exactly the `x*` half of each match the global search finds and keeps every other character in order, so each match `m` becomes `m[0]` followed by `+` |
| RegexOptimizer.QuantifierOneRecord | src/utils/regexOptimizer.ts:53-64 | rule 2 pushes at most one record, but when its test passes on the input it rewrites every match in the working text, whatever that text is: the text loses the `x*` half of each of its matches and nothing else |
| RegexOptimizer.CalculateComplexity | src/utils/regexOptimizer.ts:184-213 | the method computes `Complexity`, and the result is at least 1 |
| RegexOptimizer.CountsAreWeights | src/utils/regexOptimizer.ts:187-210 | the four match counts add up to the per-character weight sum |
| RegexOptimizer.CalculateMetrics | src/utils/regexOptimizer.ts:136-182 | the method computes the metrics `MetricsOf` defines |
| RegexOptimizer.RoundPercentNearest | src/utils/regexOptimizer.ts:143 | the rounded percentage is the integer nearest `100·num/den`, halves rounded up |
| RegexOptimizer.RoundPercentAtMostAll | src/utils/regexOptimizer.ts:143 | a share below the whole rounds to at most 100 |
| RegexOptimizer.RoundPercentNonNegative | src/utils/regexOptimizer.ts:143 | a non-negative share rounds to a non-negative percentage |
| RegexOptimizer.RoundPercentZero | src/utils/regexOptimizer.ts:143 | a zero share rounds to 0 |
| RegexOptimizer.ReductionRange | src/utils/regexOptimizer.ts:143-177 | each reported reduction lies between 0 and 100 |
| RegexOptimizer.ImprovementsBounds | src/utils/regexOptimizer.ts:150-169 | no records give 0/0/0; caps of 45/30/60 with a high-severity record, 25/20/35 without one, and 15/10/20 with only low ones; all three are non-negative when the state reduction is |
| RegexOptimizer.MetricsBounds | src/utils/regexOptimizer.ts:141-177 | state estimates at least 3 and 2, transition estimates at least 2 and 1, reductions within 0..100 |
| RegexOptimizer.StatesMonotone | src/utils/regexOptimizer.ts:141-142 | the state estimate does not decrease with the complexity |
| RegexOptimizer.MetricsNoGrowth | src/utils/regexOptimizer.ts:141-169 | with equal complexities of at least 2, both reductions are 0; at complexity 1 they are 33 and 50, because the floors differ; a complexity that did not grow gives non-negative improvements |
| QA.IsCorrectIgnoresPaddingAndCase | src/components/QASection.tsx:121 | surrounding whitespace and ASCII case in the answer do not change the verdict |
| QA.FindQuestion | src/components/QASection.tsx:118-119 | `find` by id: none iff no question has that id, else the first question that has it |
| QA.QuestionsWithoutMembers | src/components/QASection.tsx:114 | the filter keeps exactly the questions with another id |
| QA.QuestionsWithoutAppend | src/components/QASection.tsx:114 | filtering distributes over concatenation, so the others keep their order |
| QA.QuestionsWithoutAbsent | src/components/QASection.tsx:114 | deleting an id that is not present changes nothing |
| QA.QuestionsWithoutIdempotent | src/components/QASection.tsx:114 | deleting the same id twice is the same as deleting it once |
| QA.AnswersWithoutMembers | src/components/QASection.tsx:130 | the filter keeps exactly the answers to other questions |
| QA.AnswersWithoutAppend | src/components/QASection.tsx:130 | filtering distributes over concatenation |
| QA.AnswersWithoutCommute | src/components/QASection.tsx:130 | filtering out two ids gives the same list in either order |
| QA.RecordAnswerShape | src/components/QASection.tsx:130 | the new answer is last and the only one for its question; the other questions' answers keep their order |
| QA.NonBlankMembers | src/components/QASection.tsx:441 | the options kept are exactly the non-blank ones |
| QA.NonBlankAppend | src/components/QASection.tsx:441 | the option filter distributes over concatenation, so it keeps their order |
| QA.SubmitForm | src/components/QASection.tsx:428-445 | rejected iff the text or the answer is blank after trimming; otherwise copies the fields, adds the non-blank options for a multiple-choice question and no options otherwise |
| QA.SubmitFormAccepted | src/components/QASection.tsx:431-441 | an accepted form has a non-whitespace character in its text and in its answer, and no blank option |
| QA.QASection.constructor | src/components/QASection.tsx:25-32 | initial panel state: logged out, empty code, dialog closed, nothing selected, no answer typed, no feedback |
| QA.QASection.HandleLogin | src/components/QASection.tsx:85-93 | `TEACHER123` makes a question setter; `STUDENT456` or any code starting with `STU` makes a student; any other code leaves the role unchanged and raises the invalid-code alert; nothing else changes |
| QA.QASection.HandleLogout | src/components/QASection.tsx:95-101 | role, code, selected question, typed answer and feedback are reset; questions and answers are kept |
| QA.QASection.AddQuestion | src/components/QASection.tsx:103-111 | exactly one question is appended, its id the decimal text of the `Date.now()` reading and its creation time the `new Date()` reading, and the dialog closes |
| QA.QASection.DeleteQuestion | src/components/QASection.tsx:113-115 | every question with that id is removed and the rest keep their order |
| QA.QASection.SubmitAnswer | src/components/QASection.tsx:117-137 | an unknown id changes nothing; otherwise the answer replaces any earlier answer to that question at the end of the list, the feedback names the question and the verdict, and the typed answer is cleared |
| Text.NatToString | src/utils/regexParser.ts:27-28 | the counter's decimal digits, at least one |
| Text.ParseNatToString | src/utils/regexParser.ts:27-28 | reading the digits back gives the counter |
| Text.Split | src/utils/regexParser.ts:107 | `split` gives one more part than there are separators, and no part holds the separator |
| Text.JoinSplit | src/utils/regexParser.ts:107 | joining the parts of a `split` gives the text back |
| Text.SplitJoin | src/utils/regexParser.ts:195 | splitting a `join` of separator-free parts gives the parts back |
| Text.RemoveChars | src/utils/regexParser.ts:107 | `replace(/[()]/g, '')` removes exactly the listed characters |
| Text.RemoveCharsKeeps | src/utils/regexParser.ts:107 | removing parentheses keeps every bar character |
| Text.Distinct | src/utils/regexParser.ts:159 | `[...new Set(xs)]` has no duplicates and the same elements as `xs` |
| Text.DistinctOrder | src/utils/regexParser.ts:159 | `[...new Set(xs)]` keeps the first-occurrence order |
| Text.AddAllFacts | src/utils/simulator.ts:99 | adding elements to a duplicate-free list in `Set` fashion keeps it duplicate-free, keeps the old list as a prefix, and adds exactly the new elements |
| Text.AddAllAppend | src/utils/simulator.ts:91-100 | adding one list and then another is adding their concatenation |
| Text.TrimFacts | src/components/QASection.tsx:121 | `trim` drops leading and trailing whitespace only, and the result neither starts nor ends with whitespace |
| Text.TrimIs | src/components/QASection.tsx:121 | any whitespace-only strip that leaves no outer whitespace is the result of `trim` |
| Text.TrimEmpty | src/components/QASection.tsx:431 | `trim` gives the empty string iff the text is all whitespace |
| Text.TrimPadded | src/components/QASection.tsx:121 | whitespace padding does not change `trim` |
| Text.Lower | src/components/QASection.tsx:121 | `toLowerCase` maps every character and keeps the length |
| Text.LowerIdempotent | src/components/QASection.tsx:121 | lower-casing twice is lower-casing once |

## Left out

- **Text encoding.** Strings are sequences of Dafny characters, not UTF-16 code units. Text with characters outside the Basic Multilingual Plane indexes differently.
- Text.Lower: models `toLowerCase` on ASCII letters only. Full Unicode case mapping is a library concern.
- Text.TrimFacts: the whitespace set is the fixed list in `IsWhitespace`: the ECMAScript white-space and line-terminator characters, listed one by one. Changes to Unicode's space-separator category are not tracked.
- RegexOptimizer.RoundPercentNearest: models `Math.round` as exact half-up rounding of the rational `100·num/den`. A floating-point product that lands just below or above a half is not modelled.
- **Language equivalence.** `convertNFAToDFA`, `minimizeDFA` and the optimizer's rewrites are not language-preserving, so no such claim is made.
- **General regular-expression engine.** Each optimizer rule's expression has its own scanner. The `RegExp` engine itself, and `RegexInput`'s validation through it, are not part of this model.
- **Unreachable fallbacks.** The quantifier rule's `|| 'a+a*'` and `|| 'a+'` fallbacks (src/utils/regexOptimizer.ts:58-59) can never be taken after a successful `test`, so the model has no branch for them.
- **`commonOptimizations`.** The constant table (src/utils/regexOptimizer.ts:216-232) is not used by any modelled function.
- **Metrics at complexity 1.** An unchanged input of complexity 1 (one with no special characters) reports 33% state and 50% transition reduction, because the two estimates use different floors (3 and 2, then 2 and 1). The model keeps this behaviour and states it in `MetricsNoGrowth`.
- **Side effects in the panel.**
  - `localStorage` loading and saving with JSON (src/components/QASection.tsx:35-83) is left out. The constructor takes the saved lists as parameters.
  - `Date.now()` and `new Date()` are two separate parameters of `AddQuestion`: a natural number for the id and an integer timestamp. Nothing relates the two readings.
  - `alert` is a returned flag (`HandleLogin`) or a `None` result (`SubmitForm`).
  - All JSX, `selectedQuestion` selection, and typing into `currentAnswer` are left out.
- **Action wording.** The English sentences of the `action` field (src/utils/simulator.ts:46, 55, 108, 120) are not spelled out. The model keeps which template a step uses and the values that fill it.
- **Rendering and presentation.** The graph drawing (`automataGraph.ts`, `AutomataVisualizer.tsx`), PNG export, and the static sections of the app are not part of this model.
