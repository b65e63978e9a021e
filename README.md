# TextWorld Glulx turn interpretation, in Dafny

TextWorld runs games compiled for the Glulx virtual machine inside a
customised `git-glulx` interpreter. Each command the agent types goes to
that interpreter, which answers with human-oriented text. The text is
annotated in two ways:

- **Inform 7 event tags**, emitted in debug mode: `[opening door]` when an
  action rule starts, and `[opening door - succeeded]` or
  `[opening door - failed]` when it ends;
- **side-channel blocks** `<description>\n…</description>`,
  `<inventory>\n…</inventory>` and `<score>\n…</score>`, which carry facts
  the agent asked for.

This project models the layer of `textworld/envs/glulx/git_glulx_ml.py`
that turns that text into a turn snapshot, `GlulxGameState`. It also models
the environment's `step` and `_send`, and its `rreplace` helper.

The modules follow the structure of the program:

| module | models |
|---|---|
| `Wrappers`, `GlulxErrors` | `Option`/`Result`. One error constructor per exception the code raises: `ValueError` from `list.remove`, the final `assert`, `ExtraInfosIsMissingError`, `StateTrackingIsRequiredError`, `OraclePolicyIsRequiredError`, `int()`'s `ValueError`, `GameNotRunningError`, and the `ValueError` of `rsplit` with an empty separator. |
| `Text`, `Numbers`, `Ordering` | The parts of Python's `str`, `int()`, `np.sign` and `sorted(set(…))` that the code relies on: `find`/`in`, `endswith`, `replace`, `strip`, `\s` white space, decimal parsing and code-point order. Also the subsequence relation, used to state that cleaning text only ever deletes characters. |
| `EventTags` | `_detect_i7_events_debug_tags`. The regular expression `(?<!\x1b)\[[^]]+\]\n?` is written out as a tokenizer. The loop with its open-tag stack is a method, proved equal to a left fold (`ScanTokens`). That fold is then related to reference definitions read off the tokens alone: succeeded, opened and closed names. |
| `OutputNormalizer` | `_strip_input_prompt_symbol`, `_strip_i7_event_debug_tags` and `_detect_extra_infos`. `re.search(r"<tag>\n(.*)</tag>", re.DOTALL)` is written out as "first opening marker, last closing marker after it". The loop over the three fact names is a method, proved equal to a right fold (`ExtractAll`). |
| `GameLogic` | The collaborators `GameProgression`, `Inform7Game` and `Game`. Their code is not part of this model; each answer they give is a function of the actions applied so far. The tracker is a class (`Progression`) shared by every snapshot of a session. Feeding it the turn's events is a loop, proved against `Feed`. |
| `GameState` | `GlulxGameState`. Plain attributes are `const` fields. Every property that the code computes on first access and caches with the `hasattr` idiom is a `Lazy` cell; a method per property fills the cell, and a function per property states what reading it now returns. `view` freezes a snapshot into a `View` value. `init` and `update` build new snapshots. |
| `Driver` | `GitGlulxMLEnvironment`: `step` and `_send`, with the interpreter's message queue as a parameter. Also `rreplace` (`new.join(s.rsplit(old, occurrence))`). |

Behaviour worth noting:

- A closing tag such as `[opening door - succeeded]` whose base name is not
  open is an error. `list.remove` raises `ValueError`; the tag is not
  ignored.
- The captured group of a side-channel block keeps the newline before the
  closing marker. So `"<score>\n7\n</score>You see a room.\n>"` yields the
  fact `"7\n"`, not `"7"` (`ScoreBlockOnly`), and the clean text
  `"You see a room."`, since the prompt `"\n>"` is removed first
  (`StripPrompt`). The score still reads
  as 7, because `int()` ignores the surrounding white space
  (`PrintedScoreIsRead`).
- A snapshot is not immutable: its derived fields are computed and cached
  on first read. It also shares its quest tracker with the snapshots before
  and after it. So a derived field that was never read reflects the
  tracker as it is when it is first read, not as it was during its turn.
  The model keeps this: `ScoreValue`, `WonValue` and the other property
  functions read the shared `Progression`.
- A fact asked of a snapshot that never received it raises
  `ExtraInfosIsMissingError` (`ExtraInfoMissing`). The code does not
  separate "not enabled" from "not observed".

## Model

| member | source | states |
|---|---|---|
| Text.IndexOfSpec | textworld/envs/glulx/git_glulx_ml.py:134-139 | The position `str.index` finds is the first occurrence of the pattern, and `in` is false exactly when there is no occurrence at all. |
| Text.LastIndexOfSpec | textworld/envs/glulx/git_glulx_ml.py:106-107 | The position found is the last occurrence at or after the start. None is found only when no occurrence starts there. This is where a greedy `.*` ends. |
| Text.RemoveAll | textworld/envs/glulx/git_glulx_ml.py:131 | `text.replace(match, "")` only deletes characters: the result is a subsequence of the text. |
| Text.RemoveAllSplit | textworld/envs/glulx/git_glulx_ml.py:131 | `replace(pat, "")` deletes the first occurrence of the pattern, keeps what precedes it, and goes on after it. |
| Text.RemoveAllAbsent | textworld/envs/glulx/git_glulx_ml.py:131 | A text without the pattern comes back unchanged. |
| Text.ReplaceAllSplit | textworld/envs/glulx/git_glulx_ml.py:536 | `replace(pat, repl)` puts `repl` in place of the first occurrence, keeps what precedes it, and goes on after it. |
| Text.ReplaceAllAbsent | textworld/envs/glulx/git_glulx_ml.py:536 | A text without the pattern comes back unchanged. |
| Text.ReplaceBySelf | textworld/envs/glulx/git_glulx_ml.py:536 | `str.replace` of a pattern by itself changes nothing. |
| Text.ReplaceByEmptyRemoves | textworld/envs/glulx/git_glulx_ml.py:131 | Replacing by the empty string is the deletion `RemoveAll` describes. |
| Text.Strip | textworld/envs/glulx/git_glulx_ml.py:512 | The stripped command neither starts nor ends with white space and is no longer than the input. |
| Text.StripSpec | textworld/envs/glulx/git_glulx_ml.py:512 | `strip()` keeps exactly the slice between the first and the last non-space character; everything cut is white space. |
| Text.StripIdempotent | textworld/envs/glulx/git_glulx_ml.py:512 | Stripping twice is stripping once. |
| Text.RemoveSurroundedSplit | textworld/envs/glulx/git_glulx_ml.py:304-305 | `re.sub(r"\s*" + re.escape(x) + r"\s*", "", s)` removes the first occurrence of `x` together with all the white space on both sides of it, keeps what precedes, and goes on after it. |
| Text.RemoveSurroundedSubseq | textworld/envs/glulx/git_glulx_ml.py:304-305 | That substitution only deletes characters. |
| Text.RemoveSurroundedAbsent | textworld/envs/glulx/git_glulx_ml.py:304-305 | A text without `x` comes back unchanged. |
| Numbers.Sign | textworld/envs/glulx/git_glulx_ml.py:357 | `np.sign` is 1, 0 or -1, and it is 1 (resp. -1) exactly for a positive (resp. negative) argument. |
| Numbers.ParseIntRoundTrip | textworld/envs/glulx/git_glulx_ml.py:368 | `int(str(n)) == n` for every integer. |
| Numbers.ParseIntNewline | textworld/envs/glulx/git_glulx_ml.py:368 | A rendered integer followed by the newline of its block still reads back as that integer. |
| Ordering.SortedSet | textworld/envs/glulx/git_glulx_ml.py:432 | `sorted(set(xs))` is strictly increasing (so without duplicates) and holds exactly the elements of `xs`. |
| Ordering.SortedUnique | textworld/envs/glulx/git_glulx_ml.py:432 | Two strictly sorted lists with the same elements are equal. |
| Ordering.SortedSetDeterministic | textworld/envs/glulx/git_glulx_ml.py:430-432 | The admissible list depends only on the set of commands, not on their order or repetition: the ordering the code asks for. |
| EventTags.MatchEnd | textworld/envs/glulx/git_glulx_ml.py:130 | The match found at a position is exactly what `(?<!\x1b)\[[^]]+\]\n?` matches there: a `[` not preceded by the escape character, at least one character other than `]`, the first `]`, and the newline after it when there is one. No match is found only where the pattern matches nothing. |
| EventTags.TagMatchUnique | textworld/envs/glulx/git_glulx_ml.py:130 | The pattern matches at most one way at a position. |
| EventTags.MatchIsShaped | textworld/envs/glulx/git_glulx_ml.py:130-132 | Every match is `[`, a name without `]`, `]`, and maybe a newline. |
| EventTags.MatchesFromFirst | textworld/envs/glulx/git_glulx_ml.py:130 | `re.findall` returns the first match at or after the search position, then resumes the search where that match ends. |
| EventTags.MatchesSkip | textworld/envs/glulx/git_glulx_ml.py:130 | Positions where the pattern does not match are passed over by `re.findall`. |
| EventTags.MatchesFromNone | textworld/envs/glulx/git_glulx_ml.py:130 | With no match left, `re.findall` returns nothing more. |
| EventTags.Tokens | textworld/envs/glulx/git_glulx_ml.py:130 | Every `re.findall` match is bracket-shaped, and a text without `[` has none. |
| EventTags.TokenParts | textworld/envs/glulx/git_glulx_ml.py:132 | `match.strip()[1:-1]` is the name between the brackets, non-empty and without `]`. |
| EventTags.PairTokens | textworld/envs/glulx/git_glulx_ml.py:130 | In text whose only `[` are those of two tag lines, `re.findall` returns exactly those two lines, in order. |
| EventTags.ClassifyPlainName | textworld/envs/glulx/git_glulx_ml.py:134-143 | A name without `-` opens a rule under that name. |
| EventTags.ClassifySucceededName | textworld/envs/glulx/git_glulx_ml.py:138-141 | That name followed by " - succeeded" closes the same rule as succeeded. |
| EventTags.PairFirstRemoval | textworld/envs/glulx/git_glulx_ml.py:131 | Removing the opening tag line deletes exactly that line from the text. |
| EventTags.PairSecondRemoval | textworld/envs/glulx/git_glulx_ml.py:131 | Removing the closing tag line then deletes exactly that line too. |
| EventTags.DetectPairAt | textworld/envs/glulx/git_glulx_ml.py:128-152 | An opening token followed by the token that closes it as succeeded: detection reports the rule unless it is a sub-rule, and returns the text with both tokens removed. |
| EventTags.SucceededRuleDetected | textworld/envs/glulx/git_glulx_ml.py:128-152 | For `a + "[n]\n" + b + "[n - succeeded]\n" + c`, detection reports exactly `[n]` (nothing for a sub-rule) and returns exactly `a + b + c`. This holds when `n` is non-empty and has no `[`, `]` or `-`; `a` and `b` have no `[` and do not end in the escape character; and `c` has no `[`. |
| EventTags.Classify | textworld/envs/glulx/git_glulx_ml.py:134-143 | A tag is failed exactly when it holds " - failed". It is succeeded exactly when it holds " - succeeded" and not " - failed". Any other tag opens under its whole name. |
| EventTags.ClassifyBaseName | textworld/envs/glulx/git_glulx_ml.py:134-140 | The base name of a closing tag is the prefix before the first occurrence of its suffix. |
| EventTags.RemoveFirst | textworld/envs/glulx/git_glulx_ml.py:136-140 | `list.remove` fails exactly when the name is absent. Otherwise exactly one copy is removed: same multiset minus one. |
| EventTags.StepTagSpec | textworld/envs/glulx/git_glulx_ml.py:130-143 | One iteration: an opening tag is pushed; a closing tag pops its base name and fails exactly when that name is not open; a succeeded tag is recorded; the token is deleted from the text. |
| EventTags.StepPreserves | textworld/envs/glulx/git_glulx_ml.py:130-143 | One successful iteration adds to the records and the stack exactly what its tag says, and only deletes text. |
| EventTags.ScanInvariant | textworld/envs/glulx/git_glulx_ml.py:128-143 | After a successful loop the records are the succeeded names in encounter order. The stack plus the closed names equals the opened names, as multisets. The cleaned text is a subsequence of the input. |
| EventTags.ScanErrorSticks | textworld/envs/glulx/git_glulx_ml.py:136-140 | Once an iteration raises, the whole scan raises that error. |
| EventTags.BalancedLeavesStackEmpty | textworld/envs/glulx/git_glulx_ml.py:149-150 | When every opened name is closed, the stack ends empty. |
| EventTags.DropSubRules | textworld/envs/glulx/git_glulx_ml.py:145-147 | The filter keeps order, drops every name with a parenthesis, and keeps every other name. |
| EventTags.ScanOne | textworld/envs/glulx/git_glulx_ml.py:131-143 | The loop body computes one step of the fold (`StepTag`). |
| EventTags.ScanAll | textworld/envs/glulx/git_glulx_ml.py:128-143 | The loop over the tokens, with its early exit on a failed `remove`, computes the fold `ScanTokens`. |
| EventTags.DetectEvents | textworld/envs/glulx/git_glulx_ml.py:116-152 | The whole function: the scan, then the sub-rule filter, then the final balance check, whose failure is `UnbalancedTags`. |
| EventTags.DetectedEventsAreSucceeded | textworld/envs/glulx/git_glulx_ml.py:128-152 | Reported events are succeeded names in order, minus sub-rules, with every other succeeded name kept. The cleaned text is a subsequence of the input. |
| EventTags.EventsRequireEmptyStack | textworld/envs/glulx/git_glulx_ml.py:149-150 | Once an event is reported, the detection succeeds exactly when no tag is left open; otherwise it fails with the open tags. |
| EventTags.UnopenedCloseIsFatal | textworld/envs/glulx/git_glulx_ml.py:134-140 | A closing tag whose base name is not open makes the whole detection fail with that name. |
| EventTags.NoTagsNoChange | textworld/envs/glulx/git_glulx_ml.py:130-152 | A text without `[` yields no event and is returned unchanged. |
| OutputNormalizer.StripPrompt | textworld/envs/glulx/git_glulx_ml.py:77-81 | A text ending in "\n>" loses exactly that suffix; any other text is unchanged. |
| OutputNormalizer.StripPromptRoundTrip | textworld/envs/glulx/git_glulx_ml.py:77-81 | Removing the prompt undoes appending it. |
| OutputNormalizer.StripEventTags | textworld/envs/glulx/git_glulx_ml.py:84-86 | The result is the detection's cleaned text: a subsequence of the input, failing exactly when the detection fails, and unchanged without `[`. |
| OutputNormalizer.FindBlock | textworld/envs/glulx/git_glulx_ml.py:106-107 | A block found starts with the opening marker `<tag>\n` and ends with the closing marker `</tag>`, in range and in order. |
| OutputNormalizer.FindBlockSpec | textworld/envs/glulx/git_glulx_ml.py:106-107 | The block is the leftmost-longest match: no opening marker comes before it and no closing marker after it. No block is found only when no opening marker is followed by a closing one. |
| OutputNormalizer.ExtractTag | textworld/envs/glulx/git_glulx_ml.py:107-108 | When the tag has no block, the iteration changes nothing. |
| OutputNormalizer.ExtractTagFound | textworld/envs/glulx/git_glulx_ml.py:108-111 | For a found block, the fact is its inner text cleaned of event tags and the block is cut out. A failure of the scanner on the inner text fails the call. |
| OutputNormalizer.ExtractTagKeys | textworld/envs/glulx/git_glulx_ml.py:110 | Only the fact for this tag is added or replaced; the other facts are kept. |
| OutputNormalizer.ExtractTagSubseq | textworld/envs/glulx/git_glulx_ml.py:109-111 | Both the left-over text and the new fact are subsequences of the text. |
| OutputNormalizer.ExtractOne | textworld/envs/glulx/git_glulx_ml.py:106-111 | The loop body computes one iteration (`ExtractTag`). |
| OutputNormalizer.DetectExtraInfos | textworld/envs/glulx/git_glulx_ml.py:89-113 | The loop over description, inventory and score, in that order, computes the fold `ExtraInfosSpec`. |
| OutputNormalizer.ExtractAllShape | textworld/envs/glulx/git_glulx_ml.py:105-111 | Folding over some fact names only adds facts with those names, and the text only loses characters. |
| OutputNormalizer.ExtraInfosShape | textworld/envs/glulx/git_glulx_ml.py:103-113 | Only description, inventory and score are ever produced, and the clean text is a subsequence of the input. |
| OutputNormalizer.ScoreBlockOnly | textworld/envs/glulx/git_glulx_ml.py:103-113 | A text made of one score block and narrative without `<` yields exactly one fact, "score". Its value is the block's captured group verbatim, including the newline before `</score>`, and the text left is the narrative. |
| OutputNormalizer.ScoreBlockFound | textworld/envs/glulx/git_glulx_ml.py:106-107 | In such a text the block found for "score" spans from the start to the end of `</score>`. |
| OutputNormalizer.NoOtherBlock | textworld/envs/glulx/git_glulx_ml.py:106-107 | In such a text no description or inventory block is found. |
| OutputNormalizer.NoBlocksNoFacts | textworld/envs/glulx/git_glulx_ml.py:103-113 | A text without `<` yields no fact and is returned unchanged. |
| GameLogic.Progression.constructor | textworld/envs/glulx/git_glulx_ml.py:191 | A new tracker has applied nothing yet. |
| GameLogic.Progression.Update | textworld/envs/glulx/git_glulx_ml.py:264 | Applying an action appends it to the tracker's history. |
| GameLogic.Progression.FeedEvents | textworld/envs/glulx/git_glulx_ml.py:258-265 | The feeding loop leaves the tracker, and returns the last detection, as `Feed` says. |
| GameLogic.Feed | textworld/envs/glulx/git_glulx_ml.py:259-264 | Feeding only appends to the history, at most one action per event; no events means no change and no action. |
| GameLogic.FeedAppliesValidActions | textworld/envs/glulx/git_glulx_ml.py:259-264 | Every applied action was valid for the tracker when it was applied, provided `detect_action` only answers with offered actions. |
| GameLogic.FeedInBatches | textworld/envs/glulx/git_glulx_ml.py:259-264 | Feeding a turn's events in two batches, the second against the tracker the first left, gives the same history as feeding them at once. The action reported is the last batch's, or the first one's when the second is empty. |
| GameState.ScoreOf | textworld/envs/glulx/git_glulx_ml.py:359-370 | The tracker's score under state tracking. Otherwise the parsed "score" fact, or `ExtraInfosIsMissingError` without the fact, or `ValueError` for a non-integer. |
| GameState.PrintedScoreIsRead | textworld/envs/glulx/git_glulx_ml.py:365-368 | A score the game printed in its block, newline included, is read back exactly. |
| GameState.BannerOrTracker | textworld/envs/glulx/git_glulx_ml.py:376-394 | `has_won`/`has_lost` are the tracker's verdict when the reward is computed; otherwise they hold exactly when the banner occurs in the feedback. |
| GameState.PolicyOf | textworld/envs/glulx/git_glulx_ml.py:326-338 | Fails unless the reward is computed. Then it is the commands of the winning policy, or empty when there is none. |
| GameState.AdmissibleOf | textworld/envs/glulx/git_glulx_ml.py:422-434 | Fails without state tracking. Otherwise it is strictly sorted and holds exactly the commands of the valid actions. |
| GameState.AdmissibleDependsOnlyOnCommandSet | textworld/envs/glulx/git_glulx_ml.py:429-432 | Trackers offering the same set of commands give the same admissible list. |
| GameState.RewardOf | textworld/envs/glulx/git_glulx_ml.py:346-357 | The reward is 1 on a win and -1 on a loss, 0 without a previous snapshot, and otherwise positive (resp. negative) exactly when the remaining policy shrank (resp. grew). |
| GameState.MergeInfos | textworld/envs/glulx/git_glulx_ml.py:254 | `{**old, **new}`: every key of either, new values winning, old ones carried over. |
| GameState.CutOut | textworld/envs/glulx/git_glulx_ml.py:302-315 | One removal step only deletes characters and does nothing for a blank text to remove. |
| GameState.CutOutRemoves | textworld/envs/glulx/git_glulx_ml.py:302-305 | A stripped part that occurs once is removed together with all the white space on both sides, and nothing else is. |
| GameState.CommandFeedbackDropsDescription | textworld/envs/glulx/git_glulx_ml.py:295-317 | On a later move, a room description that occurs once in the feedback is removed with its surrounding white space, and the rest is stripped. |
| GameState.CommandFeedbackShape | textworld/envs/glulx/git_glulx_ml.py:295-317 | The command feedback is empty on the first move; otherwise it is a subsequence of the feedback and never starts or ends with white space. |
| GameState.CommandFeedbackPlain | textworld/envs/glulx/git_glulx_ml.py:295-317 | With nothing to remove, a later move's command feedback is the stripped feedback. |
| GameState.GlulxGameState.constructor | textworld/envs/glulx/git_glulx_ml.py:161-171 | A new snapshot holds its arguments, has no timeout and has no derived field computed. |
| GameState.GlulxGameState.Score | textworld/envs/glulx/git_glulx_ml.py:359-370 | `score` returns what `ScoreOf` gives on first read and then the cached value; the cache is filled only on success. |
| GameState.GlulxGameState.HasWon | textworld/envs/glulx/git_glulx_ml.py:376-384 | `has_won` returns and caches the value `BannerOrTracker` states. |
| GameState.GlulxGameState.HasLost | textworld/envs/glulx/git_glulx_ml.py:386-394 | `has_lost` returns and caches the value `BannerOrTracker` states. |
| GameState.GlulxGameState.GameEnded | textworld/envs/glulx/git_glulx_ml.py:396-399 | Won, lost or timed out; both flags end up cached. |
| GameState.GlulxGameState.State | textworld/envs/glulx/git_glulx_ml.py:406-412 | The tracker's facts, frozen at first read. |
| GameState.GlulxGameState.PolicyCommands | textworld/envs/glulx/git_glulx_ml.py:326-338 | Returns what `PolicyOf` gives on first read and then the cached value. |
| GameState.GlulxGameState.AdmissibleCommands | textworld/envs/glulx/git_glulx_ml.py:422-434 | Returns what `AdmissibleOf` gives on first read and then the cached value. |
| GameState.GlulxGameState.Description | textworld/envs/glulx/git_glulx_ml.py:268-276 | The description fact, cached; `ExtraInfosIsMissingError` when never received. |
| GameState.GlulxGameState.Inventory | textworld/envs/glulx/git_glulx_ml.py:278-286 | The inventory fact, cached; `ExtraInfosIsMissingError` when never received. |
| GameState.GlulxGameState.CommandFeedback | textworld/envs/glulx/git_glulx_ml.py:288-319 | Returns `CommandFeedbackOf` on first read, caching it, and the cached value afterwards. On a first read it caches description and then inventory, and fails on the first missing one without caching anything after it. |
| GameState.GlulxGameState.IntermediateReward | textworld/envs/glulx/git_glulx_ml.py:340-357 | Fails unless the reward is computed; otherwise the value `RewardOf` states. It caches `has_won`, then `has_lost` only when not won, then `policy_commands` only when neither and a previous snapshot exists, and touches nothing when the reward is not computed. |
| GameState.GlulxGameState.TakeView | textworld/envs/glulx/git_glulx_ml.py:199-230 | `view` returns the frozen snapshot `ViewValue` describes, with the policy exactly when the reward is computed. On success the cells hold exactly the values in the view, and the command lists the configuration does not ask for are untouched. On a failed score read only `state` is cached. |
| GameState.GlulxGameState.Freeze | textworld/envs/glulx/git_glulx_ml.py:220-230 | The view holds the snapshot's fields, the cached texts, the flags and, as configured, the admissible and policy lists. Exactly those flags and lists are cached; the others are untouched. |
| GameState.GlulxGameState.Init | textworld/envs/glulx/git_glulx_ml.py:173-197 | The opening text, without prompt, tags and fact blocks, is the feedback of move 0, with its facts, a fresh tracker, score 0 and nothing else read yet. The reward is only computed for a game with quests. Scanner failures propagate. |
| GameState.GlulxGameState.Update | textworld/envs/glulx/git_glulx_ml.py:232-266 | Fails exactly when fact extraction, this snapshot's view or event detection fails, and then applies nothing; a failed extraction reads nothing either. Otherwise the next snapshot has the command, one more move, this snapshot's view as previous, the merged facts, the feedback cleaned of tags and nothing read yet; under state tracking the shared tracker has applied the turn's detected actions. This snapshot's cells hold what its view read. |
| GameState.GlulxGameState.Settle | textworld/envs/glulx/git_glulx_ml.py:245-266 | `update` once the facts are cut out (`Settled`): the view is taken first and its failure ends the call; otherwise the result is the `Successor` of this snapshot, or the detection error. |
| GameState.GlulxGameState.Advance | textworld/envs/glulx/git_glulx_ml.py:251-266 | Fails exactly when event detection fails, with its error and nothing applied; otherwise the result is the `Successor` built from the view. |
| Driver.SentCommand | textworld/envs/glulx/git_glulx_ml.py:525-526 | An empty command is sent as one space; anything else is sent as it is. Never empty. |
| Driver.SentCommandStripsBack | textworld/envs/glulx/git_glulx_ml.py:512-526 | What the interpreter receives strips back to the stripped command. |
| Driver.UnescapeSplit | textworld/envs/glulx/git_glulx_ml.py:536 | The first spelled-out `\\033[` becomes the escape character and `[`; what precedes it is kept and the rest is restored likewise. |
| Driver.UnescapePlain | textworld/envs/glulx/git_glulx_ml.py:536 | A reply without a backslash comes back unchanged. |
| Driver.RSplit | textworld/envs/glulx/git_glulx_ml.py:618 | `rsplit` gives at least one piece and at most `maxsplit + 1` when `maxsplit` is not negative. |
| Driver.RReplace | textworld/envs/glulx/git_glulx_ml.py:617-619 | Fails exactly for an empty `old`; replacing zero occurrences changes nothing. |
| Driver.RReplaceLast | textworld/envs/glulx/git_glulx_ml.py:617-619 | With a non-zero count, the last occurrence is replaced by `new`, and the text before it is processed with one occurrence fewer (or still without limit). |
| Driver.RReplaceAbsent | textworld/envs/glulx/git_glulx_ml.py:617-619 | Without an occurrence, the text comes back unchanged. |
| Driver.RSplitCutsAll | textworld/envs/glulx/git_glulx_ml.py:618 | `rsplit` stops only after `maxsplit` cuts or when the first piece holds no separator left. |
| Driver.JoinRSplit | textworld/envs/glulx/git_glulx_ml.py:617-619 | Joining the pieces with the separator gives back the text. |
| Driver.RSplitPiecesClean | textworld/envs/glulx/git_glulx_ml.py:618 | No piece but the first holds the separator: the cuts are the last occurrences. |
| Driver.RReplaceSelf | textworld/envs/glulx/git_glulx_ml.py:617-619 | Replacing a pattern by itself gives back the text. |
| Driver.GitGlulxML.Send | textworld/envs/glulx/git_glulx_ml.py:521-538 | Nothing is sent when the interpreter is stopped. An unanswered command stops the environment. An answer comes back with its escape sequences restored. |
| Driver.GitGlulxML.Step | textworld/envs/glulx/git_glulx_ml.py:508-519 | `GameNotRunningError` when stopped or unanswered, with the snapshot kept. Otherwise (`Played`) the reply, restored and stripped of its prompt, is the `update` of the old snapshot with the stripped command. On failure the error of the first failing stage (fact extraction, `view`, event detection) is returned, the old snapshot stays, and the tracker is not fed. On success the new one is its `Successor`, the timeout flag says whether the process died, and the result is that snapshot, its score and `done` = won, lost or timed out, each as the tracker now says. |
| Driver.GitGlulxML.Play | textworld/envs/glulx/git_glulx_ml.py:517-519 | The rest of `step` once answered: update, then report, with the outcome `Played` states: on failure `update`'s error, the old snapshot kept and the tracker unfed; on success the `Successor`, its score and `done`. Once the facts are extracted, the old snapshot keeps what its `view` cached; when extraction fails, its cells are untouched. |
| Driver.GitGlulxML.Report | textworld/envs/glulx/git_glulx_ml.py:518-519 | The timeout flag is set first. The call fails exactly when the score does, with its error and nothing cached; otherwise it returns the snapshot, its score and whether it is won, lost or timed out, and caches those. |

## Left out

- `reset`, `close`, `render`, the environment's constructor, and the
  `enable_extra_info` / `activate_state_tracking` /
  `compute_intermediate_reward` setters are not modelled. These cover
  process start-up, the message queues and the `tw-extra-infos` commands
  sent at reset. `render`'s word wrapping and highlight search are also
  left out; only `rreplace` is modelled.
- Whether the interpreter process is alive (`game_running`, `poll()`) is
  the field `running`. Its value after a reply is the parameter
  `stillRunning` of `Step`. The foreign call `lib.communicate` is the
  function parameter `communicate`. UTF-8 encoding and the freeing of the
  C buffer are not modelled.
- `GameProgression`, `Inform7Game` and `Game` are not part of this model.
  Their answers are functions of the applied-action history (`Logic`).
- GameLogic.FeedAppliesValidActions: assumes, as `DetectsValid`, that
  `detect_action` only answers with an action it was offered. That code is
  not part of this model.
- The base class `textworld.GameState` is not part of this model. Its
  `init` and `update` are taken to record the feedback, to record the
  command, and to count one more move.
- `view` builds a new `GlulxGameState` object. Here it is a `View` value,
  so `previous_state` is a chain of values, and aliasing between a view and
  the live snapshot is not captured.
- The pass-through getters `game_infos`, `command_templates`, `verbs`,
  `entities` and `extras` are not modelled. `objective`, `max_score` and
  `action` are plain fields of the snapshot.
- Numbers.ParseInt: accepts an optional sign and ASCII digits inside
  white space. Python's `int()` also accepts underscores between digits
  and non-ASCII decimal digits; those inputs are not modelled.
- `np.sign` returns a NumPy integer, and `step` types the score as a
  float. The model uses unbounded integers throughout.
- The `(?<!\x1b)` look-behind is modelled on the text as scanned. The
  escape sequences `_send` restores with `replace` are what it guards
  against.
- Python assertions are taken as enabled. Run with `python -O`, the final
  `assert len(open_tags) == 0` is skipped, and detection then never fails
  with `UnbalancedTags`.
- CommandFeedbackShape: states only that the command feedback is
  drawn from the feedback in order. Exactly what is removed is proved
  (`CutOutRemoves`, `CommandFeedbackDropsDescription`) for a part that occurs
  once in the text. With several occurrences, `re.sub` works left to right,
  and a removal can join two pieces into a new occurrence;
  `RemoveSurroundedSplit` covers each step of that.
- StripEventTags: states that the cleaned text is a
  subsequence of the input. Exactly which characters go is proved for
  one rule that opens and succeeds (`SucceededRuleDetected`).
- RemoveAll: its own contract says only that characters are deleted.
  Which ones is `RemoveAllSplit`: the first occurrence goes, what precedes
  it stays, and the removal goes on after it.
- CutOut: its own contract says only that characters are deleted, and
  nothing for a blank part. The removal of a part that occurs once is
  `CutOutRemoves`.
- Tokens: its own contract says only that every match is bracket-shaped.
  That the matches are the pattern's leftmost non-overlapping matches is
  stated about `MatchesFrom` by `MatchesFromFirst`, `MatchesSkip` and
  `MatchesFromNone`; the shape `[name]` with an optional newline is
  `TokenParts`.
- DetectedEventsAreSucceeded: says of the cleaned text only that it is a
  subsequence of the input. The exact text is proved for one rule that
  opens and succeeds (`SucceededRuleDetected`).
- RSplit: its own contract bounds only the number of pieces. That the cuts
  go on while a separator is left is `RSplitCutsAll`, and that they are at
  the last occurrences is `RSplitPiecesClean`.
- Strip: its own contract says only that the result is trimmed and no
  longer than the input. The exact slice `str.strip()` keeps is
  `StripSpec`.
- FindBlock: its own contract says only that the block lies between an
  opening and a closing marker. That it is the leftmost opening marker with
  the last closing marker after it, and that none is found only when no
  block exists, is `FindBlockSpec`.
- RReplace: its own contract covers the empty separator and a zero count.
  What a non-zero count replaces is `RReplaceLast` and `RReplaceAbsent`.
