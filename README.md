# Text-response auto-grading, modelled in Dafny

This project models the core of Coursemology's text-response auto-grading service,
`Course::Assessment::Answer::TextResponseAutoGradingService`. It takes a
student's answer text and a question's authored solutions, and returns three
things: a correctness flag, a grade and a list of feedback lines. The model
also covers the model-side rules the service depends on:

- how a comprehension solution derives its lemmas before validation;
- the authoring validators and auto-gradability predicates of text-response
  questions and their groups;
- the weight ordering of groups;
- the question-stepping rule of an assessment.

The service has two modes.

- **Plain mode** (module `PlainMatcher`).
  - It looks for the first exact-match solution that equals the answer up to
    ASCII case. Matching is done after the solution's CR LF and lone CR line
    ends are converted to LF.
  - If there is none, it takes every keyword solution whose lower-cased text
    occurs in the lower-cased answer.
  - The grade is the sum of the matched grades, capped at the maximum.
  - The feedback is the matched explanations that are present.
- **Comprehension mode** (modules `Tokenizer`, `LemmaIndex`,
  `ComprehensionMatcher`, `ComprehensionGrading`, `ComprehensionFeedback`
  and `AutoGradingService`).
  - The answer is cut into lower-case letter tokens, and each token is
    lemmatised.
  - Two lemma-keyed indices are built from the question's
    group → point → solution tree.
  - Two destructive left-to-right passes follow, over arrays of per-token
    statuses. The first records lifted words, each claiming one Point. The
    second records keywords, each crediting one Solution whose Point is not
    lifted.
  - The grade sums earned Points per group, caps each group at its maximum,
    and caps the total at the question's maximum.
  - The feedback lists the keyword tokens, then the lifted tokens, then a
    `Grade: g / m` line.

The code's form is kept.

- The pure parts are functions.
- The passes, the index builders, the lemmatising loop, the nested grading
  loops and the feedback builders are methods with loops. Each is proved
  equal to a specification function, and the properties are proved as
  lemmas about those functions.
- The status arrays are `array`s that the passes write in place.
- The comprehension solution record is a class. Its `before_validation`
  callbacks are methods that mutate its `solution` and `solutionLemma`
  fields.

Two behaviours of the source are modelled as written.

1. **The lifted-word index holds only the last Point for each lemma.** Line
   149 of `text_response_auto_grading_service.rb` tests `hash.key
   solution_key`. That is `Hash#key`, a reverse lookup by value, and it never
   finds a lemma string among values that are arrays of Points. So the `else`
   branch always runs, and each lemma ends up bound to a one-element list
   holding the last Point, in walking order, that carries it
   (`LemmaIndex.LiftedIndexOf`).
2. **A Point without keyword solutions earns its grade.** Line 272's `all?`
   holds vacuously for such a Point, which therefore earns its full grade
   unless it is lifted (`ComprehensionGrading.PointEarned`).

Four more behaviours a reader might not expect are modelled as the code does:

- Plain-mode feedback drops only absent explanations: `compact!` at line 84
  of `text_response_auto_grading_service.rb` removes nil and keeps empty
  strings.
- Newline conversion applies to the solution only: line 49 converts
  `s.solution` and compares it with the answer text as given.
- The lemma-stripping callback is not part of the `before_validation` chain
  at lines 8-11 of `text_response_comprehension_solution.rb` (see Findings).
- `comprehension_solution?` (lines 26-28 of
  `text_response_comprehension_solution.rb`) is private and never called, so
  it is not modelled.

Each traversal of the groups goes through `TextResponseGroup.OrderedGroups`,
a stable sort on `group_weight`. It models the `default_scope` at line 13 of
`text_response_group.rb`.

## Model

Source cells give paths from the repository root, with line ranges.

| member | source | states |
|---|---|---|
| Text.Downcase | app/services/course/assessment/answer/text_response_auto_grading_service.rb:61 | same length; every character is its ASCII lower-case form |
| Text.DowncaseIdempotent | app/services/course/assessment/answer/text_response_auto_grading_service.rb:61 | lower-casing twice is lower-casing once |
| Text.CaseCmpEqual | app/services/course/assessment/answer/text_response_auto_grading_service.rb:49 | ASCII `casecmp(...) == 0`; `CaseCmpEqualPointwise` proves it holds iff the lengths agree and every character agrees up to ASCII case |
| Text.CaseCmpEqualPointwise | app/services/course/assessment/answer/text_response_auto_grading_service.rb:49 | `casecmp == 0` holds iff the lengths agree and the characters agree up to ASCII case, both directions |
| Text.UniversalNewline | app/services/course/assessment/answer/text_response_auto_grading_service.rb:49 | the converted text has no CR and is no longer than the input |
| Text.UniversalNewlineKeepsUnix | app/services/course/assessment/answer/text_response_auto_grading_service.rb:49 | text without CR is unchanged |
| Text.UniversalNewlineIdempotent | app/services/course/assessment/answer/text_response_auto_grading_service.rb:49 | converting twice is converting once |
| Text.UniversalNewlineOfWindows | app/services/course/assessment/answer/text_response_auto_grading_service.rb:49 | the CR LF spelling of a Unix text converts back to that text |
| Text.UniversalNewlineOfOldMac | app/services/course/assessment/answer/text_response_auto_grading_service.rb:49 | the lone-CR spelling of a Unix text converts back to that text |
| Text.Includes | app/services/course/assessment/answer/text_response_auto_grading_service.rb:61 | `include?`; `IncludesAt` proves it holds iff the needle occurs at some offset |
| Text.IncludesAt | app/services/course/assessment/answer/text_response_auto_grading_service.rb:61 | `include?` holds iff the needle occurs at some offset of the haystack, both directions |
| Text.Strip | app/models/course/assessment/question/text_response_comprehension_solution.rb:35 | `strip`; `StripSpec` proves the result is the input with leading and trailing whitespace cut, and `StripIdempotent` that stripping again changes nothing |
| Text.Blank | app/models/course/assessment/question/text_response_comprehension_solution.rb:31 | `blank?`, only whitespace; `StripSpec` proves a string strips to empty iff it is blank |
| Text.StripSpec | app/models/course/assessment/question/text_response_comprehension_solution.rb:34-36 | `strip` gives a trimmed infix of the input with only whitespace cut from each end; empty iff the input is blank |
| Text.StripIdempotent | app/models/course/assessment/question/text_response_comprehension_solution.rb:34-36 | stripping a stripped string changes nothing |
| PlainMatcher.OfKindCounts | app/services/course/assessment/answer/text_response_auto_grading_service.rb:26 | each part of `partition` holds every solution of its kind as often as it is authored, and none of the other kind |
| PlainMatcher.Partition | app/services/course/assessment/answer/text_response_auto_grading_service.rb:26 | every exact-match solution is in the first part only, every keyword solution in the second part only, and nothing else is in either |
| PlainMatcher.FindExactMatch | app/services/course/assessment/answer/text_response_auto_grading_service.rb:47-50 | None iff no solution matches; otherwise the result is the FIRST solution that matches |
| PlainMatcher.FindKeywords | app/services/course/assessment/answer/text_response_auto_grading_service.rb:59-62 | a solution is in the result iff it is one of the keywords and its lower-cased text occurs in the lower-cased answer; the result is a subsequence of the keywords in authored order |
| PlainMatcher.FindKeywordsCounts | app/services/course/assessment/answer/text_response_auto_grading_service.rb:59-62 | `select` keeps each matching keyword as often as it is authored and drops every copy of the others |
| PlainMatcher.GradeFor | app/services/course/assessment/answer/text_response_auto_grading_service.rb:74-76 | the grade is the minimum of the summed grades and the maximum grade |
| PlainMatcher.ExplanationsFor | app/services/course/assessment/answer/text_response_auto_grading_service.rb:83-85 | the messages are exactly the present explanations, no more than there are solutions; no explanations means no messages |
| PlainMatcher.ExplanationsForInOrder | app/services/course/assessment/answer/text_response_auto_grading_service.rb:83-85 | the messages keep the solutions' order: the messages of a concatenation are the concatenated messages |
| PlainMatcher.ExplanationsForOne | app/services/course/assessment/answer/text_response_auto_grading_service.rb:83-85 | one solution gives exactly its explanation when it has one, and no message when it is nil |
| PlainMatcher.CorrectnessIsCappedGradeReached | app/services/course/assessment/answer/text_response_auto_grading_service.rb:94-96 | an uncapped sum at least the maximum is the same as a capped grade at least the maximum |
| PlainMatcher.PlainGradeBounds | app/services/course/assessment/answer/text_response_auto_grading_service.rb:74-76 | with non-negative grades, `0 <= grade <= maximum_grade` |
| PlainMatcher.MatchedSolutions | app/services/course/assessment/answer/text_response_auto_grading_service.rb:26-31 | the first exact match alone, else the keyword fallback; `ExactMatchTakesPrecedence` and `NoExactMatchFallsBackToKeywords` state both cases |
| PlainMatcher.EvaluateAnswer | app/services/course/assessment/answer/text_response_auto_grading_service.rb:23-38 | correctness, grade and messages of the matched solutions; `PlainGradeBounds`, `CorrectnessIsCappedGradeReached` and `NoMatchGradesZero` state what they are |
| PlainMatcher.CorrectnessFor | app/services/course/assessment/answer/text_response_auto_grading_service.rb:94-96 | the uncapped sum of the matched grades reaches the maximum; `CorrectnessIsCappedGradeReached` proves this is the capped grade reaching it |
| PlainMatcher.ExactMatchTakesPrecedence | app/services/course/assessment/answer/text_response_auto_grading_service.rb:26-31 | when solution i is the first exact match, the matched set is exactly `[solution i]`; keywords are not consulted |
| PlainMatcher.NoExactMatchFallsBackToKeywords | app/services/course/assessment/answer/text_response_auto_grading_service.rb:28-31 | with no exact match, a solution is matched iff it is a keyword solution found in the answer; the matched solutions are a subsequence of the authored ones, and each one occurs as often as it is authored, so line 75 sums every copy |
| PlainMatcher.NoMatchGradesZero | spec/services/course/assessment/answer/text_response_auto_grading_service_spec.rb:91-98 | no match means grade 0 and no messages |
| PlainMatcher.NewlinesAreEquivalent | spec/services/course/assessment/answer/text_response_auto_grading_service_spec.rb:37-48 | a solution written with Windows or lone-CR newlines exactly matches the LF answer |
| Tokenizer.LettersAndSpaces | app/services/course/assessment/answer/text_response_auto_grading_service.rb:107 | `gsub(/([^a-z ])/, ' ')`: same length; letters and spaces kept, everything else becomes a space |
| Tokenizer.Tokens | app/services/course/assessment/answer/text_response_auto_grading_service.rb:107 | the answer lower-cased, non-letters turned to spaces, split on spaces; `TokensAreWords` and `TokensOfJoin` prove the tokens are words and that joined words tokenise back |
| Tokenizer.TokensAreWords | app/services/course/assessment/answer/text_response_auto_grading_service.rb:107 | every token is non-empty and made of `a`-`z` only |
| Tokenizer.SplitJoin | app/services/course/assessment/answer/text_response_auto_grading_service.rb:107 | `split(' ')` undoes joining words with single spaces |
| Tokenizer.TokensOfJoin | app/services/course/assessment/answer/text_response_auto_grading_service.rb:107 | lower-case words joined by spaces tokenise back to those words |
| Tokenizer.LemmaOf | app/services/course/assessment/answer/text_response_auto_grading_service.rb:109 | the lemmatiser's first lemma, or the word itself when it knows none; `Lemmatised` applies it to every token in order |
| Tokenizer.Lemmatised | app/services/course/assessment/answer/text_response_auto_grading_service.rb:108-109 | one lemma per token, in order; each is the lemmatiser's answer, or the token itself when it has none |
| AutoGradingService.LemmatiseTokens | app/services/course/assessment/answer/text_response_auto_grading_service.rb:108-109 | the pushing loop yields exactly `Lemmatised(morphy, tokens)` |
| LemmaIndex.LiftedEntries | app/services/course/assessment/answer/text_response_auto_grading_service.rb:147-148 | a lifted-word solution contributes one (lemma, point) entry per lemma in order; other solutions contribute nothing |
| LemmaIndex.KeywordEntries | app/services/course/assessment/answer/text_response_auto_grading_service.rb:174-175 | a keyword solution contributes one (lemma, solution) entry per lemma in order; other solutions contribute nothing |
| LemmaIndex.GroupPairsMembers | app/services/course/assessment/answer/text_response_auto_grading_service.rb:144-145 | an entry is walked over the groups iff it is walked over the points of some group |
| LemmaIndex.PointPairsMembers | app/services/course/assessment/answer/text_response_auto_grading_service.rb:145-147 | an entry is walked over a group's points iff it is walked over the solutions of some point |
| LemmaIndex.SolutionPairsMembers | app/services/course/assessment/answer/text_response_auto_grading_service.rb:147-148 | an entry is walked over a point's solutions iff some solution contributes it |
| LemmaIndex.LiftedIndexOf | app/services/course/assessment/answer/text_response_auto_grading_service.rb:142-160 | the lifted-word index; `LiftedIndexHoldsLastPoint` states its keys and one-Point lists, and `HashCompreLiftedWord` builds it with the source's loops |
| LemmaIndex.LiftedIndexHoldsLastPoint | app/services/course/assessment/answer/text_response_auto_grading_service.rb:149-153 | a lemma is a key iff a lifted-word solution carries it, and its list is exactly the LAST Point carrying it |
| LemmaIndex.KeywordInsertAllKeys | app/services/course/assessment/answer/text_response_auto_grading_service.rb:176-181 | inserting the walked entries makes a lemma a key iff some entry carries it |
| LemmaIndex.KeywordInsertAllValues | app/services/course/assessment/answer/text_response_auto_grading_service.rb:176-181 | the list under a key is the Solutions paired with it, each once, in order of first appearance |
| LemmaIndex.KeywordInsertAllSpec | app/services/course/assessment/answer/text_response_auto_grading_service.rb:176-181 | both of the above, with "some entry carries it" as an index into the entries |
| LemmaIndex.KeywordIndexOf | app/services/course/assessment/answer/text_response_auto_grading_service.rb:169-187 | the keyword index; `KeywordIndexHoldsSolutions` states its keys and buckets, and `HashCompreKeyword` builds it with the source's loops |
| LemmaIndex.KeywordIndexHoldsSolutions | app/services/course/assessment/answer/text_response_auto_grading_service.rb:176-181 | a lemma is a key iff a keyword solution carries it, and its list holds each such Solution once, in walking order |
| LemmaIndex.HashCompreLiftedWord | app/services/course/assessment/answer/text_response_auto_grading_service.rb:142-160 | the nested loops build exactly `LiftedIndexOf(groups)` |
| LemmaIndex.HashCompreKeyword | app/services/course/assessment/answer/text_response_auto_grading_service.rb:169-187 | the nested loops build exactly `KeywordIndexOf(groups)` |
| ComprehensionMatcher.LiftedStep | app/services/course/assessment/answer/text_response_auto_grading_service.rb:201-210 | one token of the lifted pass; `LiftedStepSpec` states the claim and the buckets after it |
| ComprehensionMatcher.LiftedStepSpec | app/services/course/assessment/answer/text_response_auto_grading_service.rb:201-210 | one step only shrinks buckets; a claim is the head of the token's bucket and is then in no bucket; whatever left a bucket is the claim |
| ComprehensionMatcher.LiftedPass | app/services/course/assessment/answer/text_response_auto_grading_service.rb:198-212 | one status per token; `LiftedPassSpec` and `LiftedPassOnlyClaimsRemove` state what the claims and buckets are |
| ComprehensionMatcher.LiftedPassSpec | app/services/course/assessment/answer/text_response_auto_grading_service.rb:198-212 | buckets only shrink; each claim at i came from the bucket of `lemma[i]`; claimed Points are gone from every bucket; no Point is claimed twice |
| ComprehensionMatcher.LiftedPassOnlyClaimsRemove | app/services/course/assessment/answer/text_response_auto_grading_service.rb:204-210 | a Point leaves a bucket only by being claimed |
| ComprehensionMatcher.DeleteFromAllBuckets | app/services/course/assessment/answer/text_response_auto_grading_service.rb:208-210 | the loop over the buckets removes the element from every bucket and keeps the keys |
| ComprehensionMatcher.FindCompreLiftedWordInAnswer | app/services/course/assessment/answer/text_response_auto_grading_service.rb:198-212 | modifies only the lifted status array; both the new `status[..]` and the remaining index equal the lifted pass |
| ComprehensionMatcher.KeywordPop | app/services/course/assessment/answer/text_response_auto_grading_service.rb:233-247 | the `until` loop only shrinks buckets, and it terminates because the token's bucket shrinks on every pop |
| ComprehensionMatcher.KeywordPopFound | app/services/course/assessment/answer/text_response_auto_grading_service.rb:233-246 | a credited Solution was in the token's bucket, its Point is not lifted, and it is removed from every bucket |
| ComprehensionMatcher.KeywordPopNone | app/services/course/assessment/answer/text_response_auto_grading_service.rb:233 | without a credit the loop ends because the bucket is empty |
| ComprehensionMatcher.KeywordPopRemoved | app/services/course/assessment/answer/text_response_auto_grading_service.rb:234-242 | a popped Solution is either the credit or void (its Point is lifted), and either way it is gone from every bucket |
| ComprehensionMatcher.KeywordStep | app/services/course/assessment/answer/text_response_auto_grading_service.rb:226-247 | one token of the keyword pass; `KeywordStepSpec` states when it credits and what |
| ComprehensionMatcher.KeywordStepSpec | app/services/course/assessment/answer/text_response_auto_grading_service.rb:226-246 | a lifted-claimed token is skipped; a credit requires a non-lifted token, comes from its bucket, has a non-lifted Point and is gone everywhere |
| ComprehensionMatcher.KeywordPass | app/services/course/assessment/answer/text_response_auto_grading_service.rb:224-249 | one status per token; `KeywordPassSpec`, `KeywordPassFromBuckets` and `KeywordPassCredits` state what the credits are |
| ComprehensionMatcher.KeywordPassSpec | app/services/course/assessment/answer/text_response_auto_grading_service.rb:224-249 | buckets only shrink; credited Solutions are gone from every bucket; no Solution is credited twice |
| ComprehensionMatcher.KeywordPassFromBuckets | app/services/course/assessment/answer/text_response_auto_grading_service.rb:226-244 | each credit at i is a Solution from the original bucket of `lemma[i]` |
| ComprehensionMatcher.KeywordPassCredits | app/services/course/assessment/answer/text_response_auto_grading_service.rb:226-244 | a token is never both lifted and keyword, and a credited Solution's Point is lifted nowhere in the answer |
| ComprehensionMatcher.PopUntilCredited | app/services/course/assessment/answer/text_response_auto_grading_service.rb:233-247 | the `until` loop for one token returns the credit and the remaining index that `KeywordPop` gives: it pops until a Solution whose Point is not lifted |
| ComprehensionMatcher.FindCompreKeywordInAnswer | app/services/course/assessment/answer/text_response_auto_grading_service.rb:224-249 | modifies only the keyword status array; the new `status[..]` and the remaining index equal the keyword pass |
| ComprehensionGrading.PointEarned | app/services/course/assessment/answer/text_response_auto_grading_service.rb:269-272 | a Point earns its grade iff it is not lifted and every keyword Solution of it was credited; vacuously, a Point without keyword Solutions earns it unless lifted (`PointWithoutKeywordsEarned`) |
| ComprehensionGrading.PointWithoutKeywordsEarned | app/services/course/assessment/answer/text_response_auto_grading_service.rb:272 | a Point without keyword Solutions earns its grade exactly when it is not lifted |
| ComprehensionGrading.GroupGrade | app/services/course/assessment/answer/text_response_auto_grading_service.rb:274 | the earned Points' sum capped at the group maximum; `ComprehensionGradeBounds` proves it lies between 0 and that maximum |
| ComprehensionGrading.ComprehensionGrade | app/services/course/assessment/answer/text_response_auto_grading_service.rb:261-277 | the groups' sum capped at the question maximum; `ComprehensionGradeBounds`, `ComprehensionGradeMonotone` and `AllPointsLiftedGradesZero` state its bounds, monotonicity and zero case |
| ComprehensionGrading.ComprehensionGradeBounds | app/services/course/assessment/answer/text_response_auto_grading_service.rb:261-277 | with non-negative inputs, `0 <= grade <= maximum_grade` and every group contributes between 0 and its own maximum |
| ComprehensionGrading.GroupsGradeBounds | app/services/course/assessment/answer/text_response_auto_grading_service.rb:266-275 | the sum of the capped group grades is non-negative |
| ComprehensionGrading.PointsGradeNonNegative | app/services/course/assessment/answer/text_response_auto_grading_service.rb:268-273 | the points of a group earn a non-negative total |
| ComprehensionGrading.ComprehensionGradeMonotone | app/services/course/assessment/answer/text_response_auto_grading_service.rb:261-277 | fewer lifted Points and more credited Solutions never lower the grade |
| ComprehensionGrading.GroupsGradeMonotone | app/services/course/assessment/answer/text_response_auto_grading_service.rb:266-275 | the same, for the sum of the group grades |
| ComprehensionGrading.PointsGradeMonotone | app/services/course/assessment/answer/text_response_auto_grading_service.rb:268-273 | the same, for one group's points |
| ComprehensionGrading.AllPointsLiftedGradesZero | app/services/course/assessment/answer/text_response_auto_grading_service.rb:269 | when every Point is lifted the grade is 0 |
| ComprehensionGrading.GroupsGradeAllLifted | app/services/course/assessment/answer/text_response_auto_grading_service.rb:269 | the same, for the sum of the group grades |
| ComprehensionGrading.PointsGradeAllLifted | app/services/course/assessment/answer/text_response_auto_grading_service.rb:269 | lifted Points contribute 0 |
| ComprehensionGrading.CorrectnessForComprehension | app/services/course/assessment/answer/text_response_auto_grading_service.rb:285-287 | `grade >= maximum_grade`; `CorrectExactlyWhenTotalReachesMaximum` proves it holds iff the uncapped total reaches the maximum |
| ComprehensionGrading.CorrectExactlyWhenTotalReachesMaximum | app/services/course/assessment/answer/text_response_auto_grading_service.rb:285-287 | the answer is correct iff the uncapped sum of the capped group grades reaches `maximum_grade` |
| ComprehensionGrading.GradeForComprehension | app/services/course/assessment/answer/text_response_auto_grading_service.rb:261-277 | the nested accumulating loops return exactly `ComprehensionGrade` over the status arrays |
| ComprehensionFeedback.ClaimedPositions | app/services/course/assessment/answer/text_response_auto_grading_service.rb:315-316 | strictly increasing in-range positions; every non-nil status position is among them |
| ComprehensionFeedback.AnyClaimIffPositions | app/services/course/assessment/answer/text_response_auto_grading_service.rb:313 | `status.any?` holds iff some position is claimed |
| ComprehensionFeedback.KeywordItem | app/services/course/assessment/answer/text_response_auto_grading_service.rb:318-321 | the item is the original token when the Solution has no explanation, and the token followed by ` (`, the explanation and `)` when it has one |
| ComprehensionFeedback.KeywordItemsArePerClaim | app/services/course/assessment/answer/text_response_auto_grading_service.rb:315-322 | one keyword item per claimed position, in token order, built from the original token |
| ComprehensionFeedback.LiftedItemsArePerClaim | app/services/course/assessment/answer/text_response_auto_grading_service.rb:338-340 | the lifted items are exactly the claimed original tokens, in order |
| ComprehensionFeedback.GradeExplanation | app/services/course/assessment/answer/text_response_auto_grading_service.rb:351-353 | a single line starting with `Grade: ` |
| ComprehensionFeedback.KeywordExplanations | app/services/course/assessment/answer/text_response_auto_grading_service.rb:312-328 | the keyword section; `ComprehensionExplanationsShape` and `KeywordItemsArePerClaim` state its header and items |
| ComprehensionFeedback.LiftedExplanations | app/services/course/assessment/answer/text_response_auto_grading_service.rb:335-345 | the lifted-word section; `ComprehensionExplanationsShape` and `LiftedItemsArePerClaim` state its header and items |
| ComprehensionFeedback.ComprehensionExplanations | app/services/course/assessment/answer/text_response_auto_grading_service.rb:299-305 | the three sections flattened; `ComprehensionExplanationsShape` states every line |
| ComprehensionFeedback.ComprehensionExplanationsShape | app/services/course/assessment/answer/text_response_auto_grading_service.rb:299-305 | 1, 3 or 5 lines: if any keyword, `Keywords correctly expressed:` and then the keyword items joined by `, `; then, if any lifted word, `Lifted words:` and the lifted tokens joined by `, `; and the grade line `Grade: <grade> / <maximum_grade>`, with both numbers shown, always last |
| ComprehensionFeedback.ExplanationsForKeyword | app/services/course/assessment/answer/text_response_auto_grading_service.rb:312-328 | the pushing loop yields exactly `KeywordExplanations` |
| ComprehensionFeedback.ExplanationsForLiftedWord | app/services/course/assessment/answer/text_response_auto_grading_service.rb:335-345 | the pushing loop yields exactly `LiftedExplanations` |
| ComprehensionFeedback.ExplanationsForComprehension | app/services/course/assessment/answer/text_response_auto_grading_service.rb:299-305 | keyword lines, then lifted lines, then the grade line, as `ComprehensionExplanations` |
| AutoGradingService.Statuses | app/services/course/assessment/answer/text_response_auto_grading_service.rb:111-124 | both status arrays have one entry per lemma |
| AutoGradingService.OrderedGroupsNonNegative | app/models/course/assessment/question/text_response_group.rb:13 | ordering the groups keeps their grades non-negative |
| AutoGradingService.EvaluateComprehension | app/services/course/assessment/answer/text_response_auto_grading_service.rb:104-133 | the comprehension grading as a value; `EvaluateComprehensionSpec` states its grade, correctness and last line, and `EvaluateAnswerComprehension` computes it with the source's loops |
| AutoGradingService.EvaluateComprehensionSpec | app/services/course/assessment/answer/text_response_auto_grading_service.rb:104-133 | the grade is within `[0, maximum_grade]`; correct iff the grade is the maximum; the last line is `Grade: ` followed by the shown grade, ` / ` and the shown maximum grade (line 352) |
| AutoGradingService.StatusesSpec | app/services/course/assessment/answer/text_response_auto_grading_service.rb:111-124 | no token is both lifted and keyword; no Point is lifted twice and no Solution credited twice; each credit comes from the keyword bucket of its token's lemma |
| AutoGradingService.EvaluateAnswerComprehension | app/services/course/assessment/answer/text_response_auto_grading_service.rb:104-133 | allocating the nil-filled status arrays and running tokenise, lemmatise, index, both passes, grade and feedback yields `EvaluateComprehension` |
| AutoGradingService.Evaluation | app/services/course/assessment/answer/text_response_auto_grading_service.rb:5-13 | comprehension questions are graded in comprehension mode and all others in plain mode |
| AutoGradingService.Evaluate | app/services/course/assessment/answer/text_response_auto_grading_service.rb:5-13 | the method returns exactly `Evaluation` |
| Scenarios.Indices | app/services/course/assessment/answer/text_response_auto_grading_service.rb:142-187 | a Point with one lifted word and one keyword yields the indices `{lifted: [point]}` and `{keyword: [solution]}` |
| Scenarios.LiftedOnly | spec/services/course/assessment/answer/text_response_auto_grading_service_spec.rb:105-113 | the answer "lifted" claims the Point and grades 0 |
| Scenarios.KeywordOnly | spec/services/course/assessment/answer/text_response_auto_grading_service_spec.rb:115-123 | the answer "keyword" grades 2 |
| Scenarios.LiftedAndKeywordOfSamePoint | spec/services/course/assessment/answer/text_response_auto_grading_service_spec.rb:125-133 | the answer "lifted keyword" on one Point grades 0 |
| Scenarios.TwoGroupIndices | spec/services/course/assessment/answer/text_response_auto_grading_service_spec.rb:135-150 | two groups sharing a keyword give one bucket with both Solutions, in group order |
| Scenarios.TwoKeywordLifted | spec/services/course/assessment/answer/text_response_auto_grading_service_spec.rb:135-150 | "keyword keyword" claims no lifted word |
| Scenarios.TwoKeywordCredits | app/services/course/assessment/answer/text_response_auto_grading_service.rb:224-249 | over the shared bucket, two non-lifted "keyword" tokens credit the two Solutions in turn |
| Scenarios.TwoKeywordStatuses | spec/services/course/assessment/answer/text_response_auto_grading_service_spec.rb:135-150 | each "keyword" token credits a different Solution, because a credited Solution leaves the shared bucket |
| Scenarios.TwoGroupsGrade | app/services/course/assessment/answer/text_response_auto_grading_service.rb:266-275 | the two-group question's total is 2 for each earned Point |
| Scenarios.TwoKeywords | spec/services/course/assessment/answer/text_response_auto_grading_service_spec.rb:135-150 | "keyword keyword" grades 4 with maximum 4, and 2 with maximum 2 |
| Scenarios.SharedBucketPops | app/services/course/assessment/answer/text_response_auto_grading_service.rb:233-246 | popping the shared bucket credits the first Solution whose Point is not lifted, and discards a void one |
| Scenarios.LiftedThenTwoKeywordStatuses | spec/services/course/assessment/answer/text_response_auto_grading_service_spec.rb:152-160 | "lifted keyword keyword" lifts the first Point, and the first "keyword" credits the second Point's Solution |
| Scenarios.LiftedThenTwoKeywords | spec/services/course/assessment/answer/text_response_auto_grading_service_spec.rb:152-160 | that status grades 2 under any question maximum of at least 2 |
| Scenarios.GradesLiftedKeywordKeyword | spec/services/course/assessment/answer/text_response_auto_grading_service_spec.rb:152-160 | the whole evaluation of any answer whose tokens are "lifted keyword keyword", on the two-group question with the factory's maximum of 2 or any larger maximum and no lemmatiser match, grades 2 |
| Scenarios.LiftedKeywordKeywordTokens | app/services/course/assessment/answer/text_response_auto_grading_service.rb:107 | the text "lifted keyword keyword" splits into exactly those three tokens |
| ComprehensionSolution.RejectBlank | app/models/course/assessment/question/text_response_comprehension_solution.rb:30-32 | the result is no longer than the input |
| ComprehensionSolution.RejectBlankSpec | app/models/course/assessment/question/text_response_comprehension_solution.rb:30-32 | no element is blank; an element remains iff it was there and not blank; the rest keep their order |
| ComprehensionSolution.RejectBlankCounts | app/models/course/assessment/question/text_response_comprehension_solution.rb:30-32 | `reject!` keeps each non-blank entry as often as it occurs and drops every copy of a blank one |
| ComprehensionSolution.StripAll | app/models/course/assessment/question/text_response_comprehension_solution.rb:34-36 | same length; each element is the stripped original |
| ComprehensionSolution.CleanSolutionEntries | app/models/course/assessment/question/text_response_comprehension_solution.rb:8-9 | after the first two callbacks every solution string is non-empty and trimmed |
| ComprehensionSolution.CleanSolutionIdempotent | app/models/course/assessment/question/text_response_comprehension_solution.rb:8-9 | running the first two callbacks again changes nothing |
| ComprehensionSolution.NoBlankRejectsNothing | app/models/course/assessment/question/text_response_comprehension_solution.rb:30-32 | a list of non-empty trimmed strings loses nothing |
| ComprehensionSolution.TrimmedStripsToItself | app/models/course/assessment/question/text_response_comprehension_solution.rb:34-36 | a trimmed string strips to itself |
| ComprehensionSolution.AsWrittenLemmaKeepsWhitespace | app/models/course/assessment/question/text_response_comprehension_solution.rb:10-11 | as written, for a clean solution string whose lemma is not trimmed, the untrimmed lemma is what gets stored |
| ComprehensionSolution.AsWrittenRunExample | app/models/course/assessment/question/text_response_comprehension_solution.rb:10-11 | with the solution `["run"]` and a lemmatiser answering `" run"`, the stored lemmas are `[" run"]` |
| ComprehensionSolution.CleanOneTrimmed | app/models/course/assessment/question/text_response_comprehension_solution.rb:30-36 | a single trimmed, non-empty solution string survives cleaning unchanged |
| ComprehensionSolution.IntendedLemmasTrimmed | app/models/course/assessment/question/text_response_comprehension_solution.rb:8-11 | with the fourth callback in place, every stored lemma is trimmed |
| ComprehensionSolution.TextResponseComprehensionSolution.constructor | app/models/course/assessment/question/text_response_comprehension_solution.rb:3-6 | the record holds the given type, solutions and lemmas |
| ComprehensionSolution.TextResponseComprehensionSolution.AutoGradableSolution | app/models/course/assessment/question/text_response_comprehension_solution.rb:16-18 | holds iff the solution list is non-empty |
| ComprehensionSolution.TextResponseComprehensionSolution.RemoveBlankSolution | app/models/course/assessment/question/text_response_comprehension_solution.rb:30-32 | `solution` becomes `RejectBlank(old(solution))`; the other fields are unchanged |
| ComprehensionSolution.TextResponseComprehensionSolution.StripWhitespaceSolution | app/models/course/assessment/question/text_response_comprehension_solution.rb:34-36 | `solution` becomes the stripped strings; the other fields are unchanged |
| ComprehensionSolution.TextResponseComprehensionSolution.ConvertSolutionToLemma | app/models/course/assessment/question/text_response_comprehension_solution.rb:38-41 | the old lemmas are discarded and `solutionLemma` becomes exactly one lemma per solution string, in order; `solution` is unchanged |
| ComprehensionSolution.TextResponseComprehensionSolution.StripWhitespaceSolutionLemma | app/models/course/assessment/question/text_response_comprehension_solution.rb:43-45 | `solutionLemma` becomes the stripped lemmas; the other fields are unchanged |
| ComprehensionSolution.TextResponseComprehensionSolution.BeforeValidationAsWritten | app/models/course/assessment/question/text_response_comprehension_solution.rb:8-11 | the three registered callbacks, in order: cleaned solutions and their unstripped lemmas |
| ComprehensionSolution.TextResponseComprehensionSolution.BeforeValidation | app/models/course/assessment/question/text_response_comprehension_solution.rb:8-11 | the four intended callbacks: cleaned solutions and their stripped lemmas |
| TextResponse.AutoGradable | app/models/course/assessment/question/text_response.rb:12-14 | holds iff the question has at least one solution |
| TextResponse.AnyGradeAbove | app/models/course/assessment/question/text_response.rb:48 | holds iff some solution's grade is strictly above the maximum |
| TextResponse.ValidateGrade | app/models/course/assessment/question/text_response.rb:47-49 | the only possible error is `InvalidGrade`, added iff some solution's grade exceeds the maximum; equality is allowed |
| TextResponse.ValidQuestionCapsEverySolution | app/models/course/assessment/question/text_response.rb:47-49 | a question that passes validation has every solution's grade at most the maximum |
| TextResponse.FileUploadQuestion | app/models/course/assessment/question/text_response.rb:18-20 | `hide_text`; `QuestionType` picks the file-upload label exactly when it holds |
| TextResponse.QuestionType | app/models/course/assessment/question/text_response.rb:18-28 | the file-upload label iff `hide_text`, else the text-response label |
| TextResponse.Attempt | app/models/course/assessment/question/text_response.rb:34-38 | the new answer's text is the last attempt's when one is given, and unset otherwise |
| TextResponseGroup.ValidateGroupGrade | app/models/course/assessment/question/text_response_group.rb:26-28 | the only possible error is `InvalidGroupGrade`, added iff the group maximum exceeds the question maximum; equality is allowed |
| TextResponseGroup.AutoGradableGroup | app/models/course/assessment/question/text_response_group.rb:15-17 | holds iff some point of the group is auto-gradable |
| TextResponseGroup.EmptyGroupNotGradable | app/models/course/assessment/question/text_response_group.rb:16 | a group without points is not auto-gradable |
| TextResponseGroup.InsertByWeight | app/models/course/assessment/question/text_response_group.rb:13 | inserting adds exactly the one group (as a multiset) |
| TextResponseGroup.InsertByWeightAbove | app/models/course/assessment/question/text_response_group.rb:13 | a lower bound on all weights stays a lower bound after inserting |
| TextResponseGroup.InsertByWeightSorted | app/models/course/assessment/question/text_response_group.rb:13 | inserting into groups sorted by weight keeps them sorted |
| TextResponseGroup.OrderedGroups | app/models/course/assessment/question/text_response_group.rb:13 | the groups in ascending weight; `OrderedGroupsSpec` proves it sorted and a permutation |
| TextResponseGroup.OrderedGroupsSpec | app/models/course/assessment/question/text_response_group.rb:13 | the ordered groups are sorted by ascending weight and are a permutation of the stored groups |
| TextResponseGroup.OrderedGroupsOfSorted | app/models/course/assessment/question/text_response_group.rb:13 | already sorted groups are left in place |
| QuestionsConcern.CorrectlyAnsweredQuestions | app/models/concerns/course/assessment/questions_concern.rb:68-70 | exactly the questions with a correct answer, in order |
| QuestionsConcern.NotCorrectlyAnswered | app/models/concerns/course/assessment/questions_concern.rb:29-31 | exactly the questions without a correct answer, in order |
| QuestionsConcern.AnsweredSplit | app/models/concerns/course/assessment/questions_concern.rb:29-31 | the correctly answered and the not correctly answered questions partition the questions |
| QuestionsConcern.NextUnanswered | app/models/concerns/course/assessment/questions_concern.rb:53-60 | `first` when nothing is answered, else the fold; `NextUnansweredSpec` proves both give the earliest unanswered question, None iff all are answered |
| QuestionsConcern.NextUnansweredSpec | app/models/concerns/course/assessment/questions_concern.rb:53-60 | nil iff every question is answered; otherwise the earliest unanswered question; the `first` shortcut agrees |
| QuestionsConcern.IndexOf | app/models/concerns/course/assessment/questions_concern.rb:42 | `index` gives the first position holding the question |
| QuestionsConcern.StepIndex | app/models/concerns/course/assessment/questions_concern.rb:40-46 | no position iff there are no questions; otherwise a valid position, the smaller of the clamped requested index and the first unanswered position, or of the clamped index and the last position when every (distinct) question is answered |
| QuestionsConcern.FirstUnansweredIsNext | app/models/concerns/course/assessment/questions_concern.rb:53-60 | the first question not answered correctly is `next_unanswered`, and `index` finds it at its own position |
| QuestionsConcern.IndexOfLast | app/models/concerns/course/assessment/questions_concern.rb:42 | with distinct questions, `index(last)` is the last position |
| QuestionsConcern.StepTargets | app/models/concerns/course/assessment/questions_concern.rb:42 | the cap on `step` is the first unanswered position, or the last position when every distinct question is answered |
| QuestionsConcern.StepStopsAtFirstUnanswered | app/models/concerns/course/assessment/questions_concern.rb:40-46 | questions 1, 2, 3 with only 1 answered: asking for position 2 shows question 2 at position 1 |
| QuestionsConcern.Step | app/models/concerns/course/assessment/questions_concern.rb:40-46 | none iff there are no questions; otherwise the question at the clamped requested index or the first unanswered question, whichever comes first, and the last question in place of the unanswered one when every distinct question is answered |
| QuestionsConcern.StepNeverSkipsUnanswered | app/models/concerns/course/assessment/questions_concern.rb:40-46 | every question before the chosen one is answered; the chosen position is at most the clamped requested index, and falls short of it only at a question not answered correctly or at the last question |
| QuestionsConcern.StepWithinReach | app/models/concerns/course/assessment/questions_concern.rb:40-46 | a requested index inside the answered prefix is served as requested |
| QuestionsConcern.Attempt | app/models/concerns/course/assessment/questions_concern.rb:14-23 | one answer per question in the same order: the attempting answer when there is one, otherwise a new one |
| QuestionsConcern.AttemptReusesAttemptingAnswers | app/models/concerns/course/assessment/questions_concern.rb:14-23 | a question with an attempting answer reuses the last such answer; the others get a newly built one |

## Left out

- WordNet lemmatisation (`WordNet::Synset.morphy_all(w).first`) is a foreign library. It is the parameter `morphy: string -> Option<string>`.
- `normalized_answer_text` is not part of this model. The answer text is an input, taken as already normalised.
- PlainMatcher.NewlinesAreEquivalent: covers a solution written with Windows or lone-CR newlines against an LF answer. An answer written with Windows newlines is equivalent only through `normalized_answer_text`, which is not part of this model.
- Lower-casing, `casecmp`, `strip` and `blank?` cover ASCII only. Unicode case folding and Unicode whitespace are not modelled, and neither is the NUL character that `strip` also removes.
- `String(grade)` is the parameter `show: int -> string`. Grades are integers rather than Ruby decimals.
- I/O is not modelled. The service's entry point returns the result instead of writing `answer.correct` and `auto_grading.result`.
- ActiveRecord persistence, I18n lookups, `acts_as` and `initialize_duplicate` are left out. The authored tree is plain datatypes, the labels an enum, and the validators return their errors.
- `TextResponsePoint#auto_gradable_point?` is a parameter of `AutoGradableGroup`. The point model is not part of this model.
- TextResponseGroup.OrderedGroups: the database's order between groups of equal weight is unspecified. The model keeps them in stored order.
- QuestionsConcern: the submission queries become a set of correctly answered question ids and a list of (question, attempting answer) pairs. `question.attempt(submission)` is the parameter `build`.
- Types.CompreSolution: its `point` field is not tied to the id of the Point that holds it. Ruby's `solution.point` is always the containing Point; the model takes the authored tree as given and does not state that well-formedness.
- TextResponse.Attempt: `Option<string>` does not tell apart no last attempt and a last attempt whose text is nil. Ruby assigns nil in the second case and leaves the default in the first; both leave the text unset in the model.
- QuestionsConcern.StepIndex: on an empty relation `index(nil)` is nil and `[current_index, nil].min` raises before `fetch` runs. The model returns None.
- Points and Solutions are compared by id. Ruby compares the records by identity (`equal?`) or by record equality.
- The status arrays are written in place. The two lemma indices are values that each pass method takes and returns; in Ruby the hash is mutated through a shared reference that nothing else holds.
- Controllers, the activity mailer and the client UI are outside the core.

## Findings

| source | as written | input that shows it | evidently intended | confidence | as-written member | corrected member |
|---|---|---|---|---|---|---|
| app/models/course/assessment/question/text_response_comprehension_solution.rb:10-11 | there is no comma after `:convert_solution_to_lemma`, so `:strip_whitespace_solution_lemma` is a separate bare-symbol statement and only three callbacks are registered; stored lemmas are never stripped | a lemmatiser that answers `" run"` for the solution `["run"]` leaves the lemma `" run"` | four callbacks, so every stored lemma is stripped | not executed | ComprehensionSolution.AsWrittenLemmaKeepsWhitespace, ComprehensionSolution.AsWrittenRunExample, ComprehensionSolution.TextResponseComprehensionSolution.BeforeValidationAsWritten | ComprehensionSolution.IntendedLemmasTrimmed, ComprehensionSolution.TextResponseComprehensionSolution.BeforeValidation |
