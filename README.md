# EnglishFlow conversation engine and vocabulary search, in Dafny

EnglishFlow is a browser app for practising spoken English. In its "Conversar" mode the learner speaks. The transcript is lowered, and `getBotResponse` picks a scripted reply: a text the bot speaks and a study tip shown beside it. It runs three passes in order.

1. **Name pass.** If the input mentions `my name is` or `i am `, the input is split on `/my name is|i am/i`. The second part is trimmed and cut at its first space. Its non-letters are removed. If a word is left, the bot greets it with the first letter capitalised.
2. **Keyword table.** Eight pattern groups are tried in declaration order. A group matches when one of its patterns is a substring of the input. The first match picks one of its answers at random.
3. **Fallback pool.** Three suggestions and three tips are paired by position and picked by one shared random index. The first suggestion quotes the transcript as spoken.

In the other categories the app shows vocabulary cards. The search box keeps the cards whose English text or translation contains the search term, compared after lowering.

The project is pure: functions over values, and lemmas about them.

- `Text.dfy` models the JavaScript string operations the engine uses: `includes`, `toLowerCase`, `trim`, `split(' ')[0]`, `replace(/[^a-zA-Z]/g, '')` and capitalisation.
- `ChatEngine.dfy` models the three passes and `getBotResponse`.
- `ChatProperties.dfy` states the engine's promises over all inputs.
- `ChatScenarios.dfy` works through concrete utterances.
- `VocabularySearch.dfy` models the `filteredData` expression.

`Math.random()` is the parameter `rnd`, a real number in [0, 1). `Math.floor(Math.random() * n)` is `PickIndex(rnd, n)`, the floor of `rnd * n` computed exactly. `EveryAnswerReachable` shows that every index is chosen by some draw.

The case-insensitive split is the leftmost match of either alternative, tried in the regular expression's order, with ASCII case folding. No character outside ASCII folds onto the letters of `my name is` or `i am`.

## Model

| member | source | states |
|---|---|---|
| ChatEngine.GetBotResponse | src/App.jsx:95-193 | The engine is total for every input and every draw. Its reply is always scripted: a name greeting with the weather tip, an answer of some keyword group, or a fallback suggestion paired with the tip at the same position. |
| ChatEngine.Reply | src/App.jsx:80 | The handler lowers the transcript and passes both forms to the engine. The reply is scripted for the transcript as spoken: the fallback echo quotes it with its capitals. |
| ChatEngine.NameTriggered | src/App.jsx:97 | The guard holds when the input includes `my name is` or `i am ` with its trailing space. `NameTriggerSplits` shows the split then always has a second part, and `OneWordNeverNames` that an input without a space never holds it. |
| ChatEngine.KeywordOrFallback | src/App.jsx:110-192 | Once the name pass declines, the reply is an answer of some keyword group or a fallback suggestion paired with the tip at its own position. |
| ChatEngine.GroupMatches | src/App.jsx:170 | `group.patterns.some(p => input.includes(p))`. `FirstMatch` returns the first group for which it holds, and `GroupRuledOut` and `GroupHit` decide it for concrete inputs. |
| ChatEngine.GreetingText | src/App.jsx:103 | The greeting template around the capitalised name. `NamePathPrecedence` shows it is the reply whenever the name pass answers. |
| ChatEngine.Suggestions | src/App.jsx:177-181 | The three fallback suggestions, the first quoting the transcript. `SuggestionsDistinct` shows they differ, and `FallbackEchoesTranscript` that the first contains the transcript verbatim. |
| ChatEngine.NameToken | src/App.jsx:97-101 | The name pass answers only when its guard holds and the cleaned token is not empty. The token is made of ASCII letters only. |
| ChatEngine.CleanToken | src/App.jsx:100 | `trim().split(' ')[0].replace(/[^a-zA-Z]/g, '')` yields only ASCII letters. Each of them occurs in the second part and is not whitespace. |
| ChatEngine.MarkerMatchesAt | src/App.jsx:98 | One alternative of the regular expression matches at a position when the text there lowers, character by character with ASCII folding, to the alternative. A match ends inside the input. |
| ChatEngine.FirstAlternative | src/App.jsx:98 | The alternation tries its alternatives in order and returns the length of the first that matches. The match ends inside the input, and it is non-empty when no alternative is empty. |
| ChatEngine.MarkerAt | src/App.jsx:98 | A match of the split's regular expression that starts at a position has a positive length and ends inside the input. |
| ChatEngine.NextMarker | src/App.jsx:98 | The search for the next match from a position returns a position at or after it where a marker starts, with that marker's length. `NextMarkerIs` and `NextMarkerNoLater` show it is the first such position. |
| ChatEngine.SecondPart | src/App.jsx:98-99 | `parts[1]` of the split, present only when a match exists, and shorter than the input. `SecondPartBetweenMarkers` shows it runs from the end of the leftmost match to the next match or the end. |
| ChatEngine.FirstMatch | src/App.jsx:169-170 | The first-match loop returns the lowest-index group holding a substring of the input. Every earlier group holds none. None means no group matches. |
| ChatEngine.PickIndex | src/App.jsx:171 | `Math.floor(Math.random() * n)` is an index below n, and it is the floor of `rnd * n`. |
| ChatProperties.TableWellFormed | src/App.jsx:110-186 | The table has eight groups. Every group has a pattern and an answer, and no pattern is empty. There are three suggestions and three tips. |
| ChatProperties.MarkerAtIs | src/App.jsx:98 | The marker tries `my name is` before `i am`. Its length is that of the first alternative that matches, ignoring case. |
| ChatProperties.OccurrenceIsMarker | src/App.jsx:97-98 | A lower-case occurrence of an alternative is a case-insensitive match of it. |
| ChatProperties.IAmMarkerAt | src/App.jsx:98 | A lower-case `i am` is a marker of length 4. |
| ChatProperties.MyNameIsMarkerAt | src/App.jsx:98 | A lower-case `my name is` is a marker of length 10. |
| ChatProperties.NoMarkerBetween | src/App.jsx:98 | No marker starts where there is no `m` or `i` of either case with room for `i am` after it. |
| ChatProperties.NextMarkerNoLater | src/App.jsx:98 | If some marker starts at or after a position, the search from there finds one, and no later than it. |
| ChatProperties.NextMarkerIs | src/App.jsx:98 | The search for a marker stops at the first marker at or after its starting point. |
| ChatProperties.NextMarkerNone | src/App.jsx:98 | The search finds nothing when no marker starts at or after its starting point. |
| ChatProperties.NextMarkerSkipsNone | src/App.jsx:98 | The search passes over no marker: no marker starts between its starting point and the position it returns. |
| ChatProperties.NextMarkerNoneMeans | src/App.jsx:98 | A search that finds nothing passed over no marker, the converse of `NextMarkerNone`. |
| ChatProperties.NameTriggerSplits | src/App.jsx:97-99 | Whenever the guard holds, the case-insensitive split yields a second part, so `parts.length > 1` always holds inside the guard. |
| ChatProperties.SecondPartBetweenMarkers | src/App.jsx:98-100 | `parts[1]` runs from the end of the leftmost marker to the start of the next marker, or to the end of the input. |
| ChatProperties.SplitPositions | src/App.jsx:98-99 | A split with a second part has a leftmost marker and a piece end, and `parts[1]` is the text between them. |
| ChatProperties.PieceEnd | src/App.jsx:98-99 | The piece after a marker ends at the next marker the search finds, or at the end of the input, and no marker starts inside it. |
| ChatProperties.SplitWitness | src/App.jsx:97-99 | Whenever the guard holds, the leftmost marker and the end of `parts[1]` exist, and `parts[1]` is the text between them. |
| ChatProperties.SecondPartContained | src/App.jsx:98-100 | `parts[1]` is a contiguous block of the input. |
| ChatProperties.NamePathPrecedence | src/App.jsx:97-107 | Once the guard holds and the token is non-empty, the reply is `Nice to meet you, <Token>! How can I help you today?` with the weather tip. No keyword group is consulted. |
| ChatProperties.NameComesFromInput | src/App.jsx:100 | Every character of the greeted name is an ASCII letter of the input. |
| ChatProperties.EmptyTokenFallsThrough | src/App.jsx:101 | An empty cleaned token does not answer. The keyword and fallback passes decide the reply. |
| ChatProperties.UntriggeredFallsThrough | src/App.jsx:97 | Without the guard's phrases the name pass is skipped. |
| ChatProperties.OneWordNeverNames | src/App.jsx:97 | An input without a space never triggers the name pass. |
| ChatProperties.FirstMatchWins | src/App.jsx:169-173 | With no name, the lowest-index matching group answers. The reply is the answer at the drawn index, and later groups are never consulted. |
| ChatProperties.PickIndexOfFraction | src/App.jsx:171 | The draw j / n selects index j of n. |
| ChatProperties.EveryAnswerReachable | src/App.jsx:169-172 | Every answer of the winning group is the reply for some draw in [0, 1). |
| ChatProperties.SuggestionsDistinct | src/App.jsx:177-181 | The three suggestions differ for every transcript. |
| ChatProperties.FallbackTipsDistinct | src/App.jsx:182-186 | The three fallback tips differ. |
| ChatProperties.FallbackReply | src/App.jsx:177-192 | With no name and no matching group, the reply is suggestion `idx` with tip `idx`, for the one drawn `idx`. |
| ChatProperties.FallbackPairing | src/App.jsx:188-191 | A fallback reply's text is suggestion k if and only if its tip is tip k. |
| ChatProperties.FallbackEchoesTranscript | src/App.jsx:178 | For a draw selecting the first suggestion, the reply contains the transcript verbatim. |
| ChatProperties.CaseOnlyReachesEcho | src/App.jsx:178 | Two transcripts that lower alike can get different replies only on the echo suggestion, whose text quotes each transcript as spoken. |
| ChatScenarios.ScenarioHi | src/App.jsx:112-116 | "hi" gets one of the two greeting answers with its own tip. |
| ChatScenarios.ScenarioGoodbye | src/App.jsx:127 | "goodbye" matches by substring: it gets an answer of the feeling-well group through "good". |
| ChatScenarios.ScenarioThis | src/App.jsx:112 | "this" gets a greeting answer through "hi". |
| ChatScenarios.ScenarioGroupPrecedence | src/App.jsx:169-173 | "hello weather" matches the weather group too, but the greeting group, declared first, answers. |
| ChatScenarios.ScenarioNameWithDigits | src/App.jsx:100-103 | "my name is bob123" greets "Bob". |
| ChatScenarios.ScenarioFineIsAName | src/App.jsx:97-107 | "i am fine" greets "Fine" and never reaches the pattern "i am fine". |
| ChatScenarios.ScenarioSplitInsideWord | src/App.jsx:98-103 | "hi amy i am bob" splits at the "i am" inside "hi amy" and greets "Y". |
| ChatScenarios.ScenarioLeftmostNameWins | src/App.jsx:97-103 | "my name is ana i am bob" greets "Ana": the name follows the leftmost match, not the `i am ` that also satisfies the guard. |
| ChatScenarios.ScenarioNoLettersInName | src/App.jsx:154-158 | "my name is !!!" falls through to the single answer of the group about names. |
| ChatScenarios.ScenarioFallbackEcho | src/App.jsx:177-191 | "Xyzzy Plugh", with a draw below one third, gets the first suggestion quoting it with its capitals, paired with the first tip. |
| ChatScenarios.ScenarioSpokenCapitals | src/App.jsx:80 | "My name is BOB" is lowered by the caller and greets "Bob". |
| Text.ToLowerCase | src/App.jsx:80 | Lowering keeps the length and maps each character on its own. |
| Text.ToLowerCaseIdempotent | src/App.jsx:207-208 | Lowering twice is lowering once. |
| Text.ToLowerCaseKeepsContains | src/App.jsx:207-208 | Containment survives lowering both sides under the modelled per-character lowering. JavaScript's context-sensitive final sigma is outside it. |
| Text.Contains | src/App.jsx:170 | `includes`: some position holds the pattern. `ContainsTransitive` and `AbsentCharExcludes` relate it to blocks and to characters. |
| Text.ContainsTransitive | src/App.jsx:207-208 | A block of a block of a text is a block of the text. |
| Text.AbsentCharExcludes | src/App.jsx:97 | A pattern holding a character the text lacks is not contained in it. |
| Text.Trim | src/App.jsx:100 | `trim()` yields a block of its input that neither starts nor ends with JavaScript whitespace. |
| Text.TrimStartDropsWhitespace | src/App.jsx:100 | Everything removed at the front by `trim()` is whitespace. |
| Text.TrimEndDropsWhitespace | src/App.jsx:100 | Everything removed at the back by `trim()` is whitespace. |
| Text.TrimAddsNothing | src/App.jsx:100 | `trim()` adds no character. |
| Text.TrimKeepsNonWhitespace | src/App.jsx:100 | `trim()` keeps every non-whitespace character. |
| Text.TrimIs | src/App.jsx:100 | Given whitespace-only margins around a block that neither starts nor ends with whitespace, `trim()` returns that block. |
| Text.FirstWord | src/App.jsx:100 | `split(' ')[0]` is the prefix that runs up to the first space and holds no space. |
| Text.FirstWordIs | src/App.jsx:100 | The prefix up to a position is the first word when it holds no space and a space, or the end, follows it. |
| Text.KeepLetters | src/App.jsx:100 | `replace(/[^a-zA-Z]/g, '')` yields only ASCII letters and is no longer than its input. |
| Text.KeepLettersMembers | src/App.jsx:100 | The letter filter adds no character and loses no letter. |
| Text.KeepLettersAppend | src/App.jsx:100 | The letter filter distributes over concatenation. |
| Text.KeepLettersOfLetters | src/App.jsx:100 | A string of letters is left unchanged. |
| Text.Capitalize | src/App.jsx:103 | `charAt(0).toUpperCase() + slice(1)` keeps the length and everything after the first character. For a string of ASCII letters the result is letters, led by the capital of the same first letter. |
| VocabularySearch.FilteredData | src/App.jsx:206-209 | "Conversar" gives no cards. Any other category gives a result exactly when it is a key of the content. That result is a subsequence of the category's cards, holds only matching cards, and holds every matching card. |
| VocabularySearch.Filter | src/App.jsx:206-208 | The filter is no longer than its input, and every card it keeps matches the term. |
| VocabularySearch.Matches | src/App.jsx:207-208 | A card matches when its lowered English text or lowered translation contains the lowered term. `FilterSound` and `FilterComplete` tie it to the filter, and `TermCaseIgnored` shows the term's case does not matter. |
| VocabularySearch.FilterIsSubsequence | src/App.jsx:206 | The filter keeps cards in their order. |
| VocabularySearch.FilterSound | src/App.jsx:206-208 | Every card shown comes from the category and matches the term. |
| VocabularySearch.FilterComplete | src/App.jsx:206-208 | Every matching card of the category is shown. |
| VocabularySearch.FilterCounts | src/App.jsx:206-208 | A card is shown as often as it occurs when it matches, and never otherwise. |
| VocabularySearch.FilterAppend | src/App.jsx:206 | The filter distributes over concatenation. |
| VocabularySearch.EmptyTermKeepsAll | src/App.jsx:206-208 | An empty search shows every card. |
| VocabularySearch.TermCaseIgnored | src/App.jsx:207-208 | The term's case does not matter. |
| VocabularySearch.RefinedTermNarrows | src/App.jsx:207-208 | A term containing a shorter term shows a subsequence of what the shorter one shows. |
| VocabularySearch.FilterIdempotent | src/App.jsx:206-208 | Filtering again with the same term changes nothing. |

The name is read after the leftmost match of `/my name is|i am/i`, not after the `i am ` the guard found, and that match may lie inside a word: "hi amy i am bob" greets "Y" (`ScenarioSplitInsideWord`), and "my name is ana i am bob" greets "Ana" (`ScenarioLeftmostNameWins`). A group's patterns are an array, and only the containment of some pattern matters.

## Left out

- Speech synthesis and recognition, the inactivity timer, the one-second reply delay, the chat log, timestamps, JSX and CSS. These are browser APIs and rendering, with no behaviour of the engine in them.
- `Math.random()` is not modelled as a generator. Each call's draw is the parameter `rnd`, and uniformity is not stated.
- ChatEngine.PickIndex: computes `floor(rnd * n)` on exact reals. The rounding of double-precision multiplication is not modelled.
- Text.ToLowerCase: maps only the ASCII capitals and the Latin-1 capitals U+00C0 to U+00DE except U+00D7. Every other character is left as it is, so the rest of Unicode case mapping is not modelled.
- Text.Capitalize: upper-cases the first character only if it is an ASCII letter. The engine only capitalises tokens made of ASCII letters.
- The contents of `./data` (the cards and the category names) are not part of this model. Cards are records with an English text and a translation. A category missing from the content makes the source throw, and the model returns None there.
- The claim that every pattern of the table is written in lower case is not stated as a lemma. The scenarios use the patterns' literal values instead.
