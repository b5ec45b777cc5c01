# Editor analysis engine: a Dafny model

The page in `script.js` is a code editor with a set of "cognitive" aids. Each aid recomputes
from the editor's text and caret:

- contextual dimming of everything outside the function that holds the caret;
- a flow overlay that links typed declarations to later uses of their names;
- a logic-only preview, which hides structural lines and collapses long comments;
- a complexity gauge with a cognitive-load band;
- ghost-text completions at the caret;
- a debug run that traces the first declarations to a console and, optionally, to tips;
- a state timeline of assignments;
- a boilerplate summary of constructors and auto-properties;
- a boolean simplifier that suggests De Morgan rewrites;
- a usage heatmap for the first method;
- a keyword-driven semantic search;
- a typing monitor that drives zen mode with a 700 ms debounce.

This project models those computations. It does not model the DOM that displays them.

Each regular expression of the script is a hand-written matcher in `patterns.dfy`. The matcher
returns what a backtracking ECMAScript engine returns for that fixed pattern at a given
position: the match's extent and its groups. Every pattern is deterministic once its greedy
runs are fixed, and the comments in `patterns.dfy` say why.

`scan.dfy` is the driver shared by `matchAll`, by `match` with the `g` flag and by the `exec`
loop. Each scan resumes at the end of the previous match and takes the leftmost match from
there. It works on a table of per-position attempts, so its lemmas never look inside a pattern.

The character classes follow ECMAScript:

- `\w` is `[A-Za-z0-9_]`.
- `\s` and `trim()` cover the ECMAScript white space and line terminators.
- `\b` is the boundary between a `\w` character and a non-`\w` character or an end of the text.

The caret and the zen checkbox are parameters, and so is typing time, as the clock reading at
each event.

One module per aid:

- `bounds.dfy` (FunctionBounds): the two loops of `findFunctionBounds`, as methods proved against predicates that pin the result down uniquely, and `applyContextualDimming`, which applies them at the caret line and turns the bounds into the focus band.
- `tracer.dfy` (DeclarationTracer): the declaration/usage links of the flow overlay.
- `preview.dfy` (LogicPreview): the logic-only filter and the comment filter.
- `complexity.dfy` (Complexity): score, band, and how appending a keyword changes the score.
- `ghost.dfy` (GhostSuggestion): the three completion tests and the anchor.
- `debugtrace.dfy` (DebugTrace): the console text and tips of `runDebug`, built by a loop.
- `timeline.dfy` (StateTimeline), `boilerplate.dfy` (BoilerplateSummary), `boolean.dfy` (BooleanSimplifier, a method with the `exec` loop).
- `heatmap.dfy` (Heatmap), `search.dfy` (SemanticSearch).
- `typing.dfy` (TypingMonitor): a class holding the typing flag, the pending timer and the zen class; its event methods are proved against pure step functions. The class invariant `Valid` is the state predicate `Consistent`: the user is typing exactly while a timer is pending, and the zen class is on only while typing.
- Shared: `wrappers.dfy`, `text.dfy` (characters, split/join, trim), `lines.dfy` (line numbers of offsets), `wholewords.dfy` (the `\b<name>\b` scan).

Behaviour of the script worth knowing:

- The flow overlay skips the first whole-word occurrence of a name in the whole text. That occurrence need not be the declaration.
- The function bounds do not promise that the caret lies within them.
- `&&` counts toward complexity only between word characters, because of the `\b` around it.
- The constructor pattern `public\s+(\w+)\s*\(` lists only `public Name(`, never `public int Name(` (`TypedMemberNotListed`).

## Model

| member | source | states |
|---|---|---|
| Wrappers.ShowOrSentinel | script.js:252 | the panel falls back to its sentence exactly when there are no items, and otherwise shows the items |
| Wrappers.Take | script.js:214 | `slice(0, n)` keeps the first min(n, length) elements |
| Wrappers.Slice | script.js:146 | `slice(from, to)` keeps the elements from..to-1 that exist, in order |
| Text.Split | script.js:85 | `split('\n')` yields one more piece than there are line feeds, and no piece holds a line feed |
| Text.JoinSplit | script.js:173 | joining the split lines with line feeds gives back the text |
| Text.SplitJoin | script.js:173 | splitting the join of line-feed-free lines gives back those lines |
| Text.LastLine | script.js:187 | `split('\n').pop()` is the longest line-feed-free suffix, preceded by a line feed unless it is the whole text |
| Text.Trim | script.js:163 | `trim()` removes exactly the white space and line terminators at both ends: the result sits between a leading and a trailing run of white space, and neither begins nor ends with white space |
| Text.TrimUnique | script.js:163 | only one string is the text with its outer white space removed, so Trim's contract pins down `trim()` |
| Text.Lower | script.js:337 | lower-casing keeps the length and lower-cases each ASCII capital, leaving every other character as it is |
| Text.IndexOf | script.js:97 | the first position at or after i that holds c, or the length when there is none |
| LineIndex.Before | script.js:89 | `substring(0, offset)` clamps the offset to the length and is a prefix |
| LineIndex.CaretLine | script.js:88-90 | the caret line is the number of line feeds before the caret, and is a line index of the text |
| LineIndex.LineNumber | script.js:143-148 | the one-based line of an offset is one more than the line feeds before it, and at most the line count |
| LineIndex.CaretLineMonotone | script.js:88-90 | moving the caret right never moves it to an earlier line |
| Patterns.BoundedLiteralAtIff | script.js:97 | the alternation with a trailing `\b` matches exactly when some alternative occurs and is followed by a boundary |
| Patterns.ComplexityTokenAt | script.js:178 | a counted token lies between two word boundaries and its text is one of the eight alternatives |
| Patterns.ComplexityTokenAtIff | script.js:178 | a token starts at i exactly when i is a boundary and some alternative occurs there followed by a boundary |
| Patterns.WholeWordAt | script.js:146 | `\b<name>\b` matches at i exactly when the name occurs there between two boundaries |
| Patterns.WholeWordUnique | script.js:146 | two words that both stand as whole words at the same position are the same word |
| Patterns.DeclarationHeadAt | script.js:138 | when the head matches, it is a type keyword at a boundary, white space, a delimited word, and `=` |
| Patterns.DeclarationHeadAtIff | script.js:138 | the head matches with given keyword end, name and `=` exactly when the text has that shape: a boundary, a type keyword, white space, a word, optional white space and `=` |
| Patterns.ValueAt | script.js:214 | `\s*([^;]+)` fails exactly at a `;` or the end; otherwise its group is non-empty, free of `;`, and stops at `;` or the end |
| Patterns.ValueAtIff | script.js:214 | the value group is v exactly when white space leads to v, v runs to the next `;` or the end, and v starts on a non-space unless only one white-space character is left for it |
| Patterns.TypedDeclarationAt | script.js:138 | when the pattern matches, it captures a name that stands as a whole word after the type |
| Patterns.TypedDeclarationAtIff | script.js:138 | the pattern matches with match m exactly when m is the head followed by `.*` up to the end of the line |
| Patterns.TracedDeclarationAt | script.js:214 | when the pattern matches, it has three groups: a type keyword, a delimited name word and a non-empty value free of `;` |
| Patterns.TracedDeclarationAtIff | script.js:214 | the pattern matches with match m exactly when m's groups are the head's keyword and name and the value after the `=`, and m ends with the value |
| Patterns.OperatorAt | script.js:251 | when the operator matches, it is `=` or a sign followed by `=` |
| Patterns.OperatorAtIff | script.js:251 | the operator ends at o exactly when the text from b to o is one of `=`, `+=`, `-=`, `*=`, `/=` |
| Patterns.AssignmentAt | script.js:251 | when the pattern matches, the update begins with its word, captures an operator and a value free of `;`, and ends right after a `;` |
| Patterns.AssignmentAtIff | script.js:251 | the pattern matches with match m exactly when m is a word from i, white space, an operator, a value up to a `;`, and that `;` |
| Patterns.ConstructorSignatureAt | script.js:260 | when the pattern matches, the match starts with `public`, captures a word and ends with `(` |
| Patterns.ConstructorSignatureAtIff | script.js:260 | the pattern matches with match m exactly when m is `public`, white space, a word, optional white space and `(` |
| Patterns.TypedMemberHeadAt | script.js:261 | when the head matches, `public` is followed by a delimited name word |
| Patterns.TypedMemberHeadAtIff | script.js:261 | the head captures name exactly when `public`, white space, a type word and white space lead to name, and name is a whole run of word characters |
| Patterns.AccessorsAtIff | script.js:261 | the accessors end at end exactly when `{`, `get;`, `set;` and a `}` at end - 1 follow, with optional white space around each |
| Patterns.AutoPropertyAt | script.js:261 | when the pattern matches, the match starts with `public`, captures a word and ends with the `}` of `{ get; set; }` |
| Patterns.AutoPropertyAtIff | script.js:261 | the pattern matches with match m exactly when m is the typed member head followed by the accessors |
| Patterns.MethodSignatureAt | script.js:285 | when the pattern matches, the match starts with `public` and captures a name that stands as a whole word |
| Patterns.MethodSignatureAtIff | script.js:285 | the pattern matches with match m exactly when m is the typed member head, optional white space and `(` |
| Patterns.FalseConjunctionAt | script.js:272 | when the pattern matches, the match runs from `(` to `)` and captures two words |
| Patterns.FalseComparisonAtIff | script.js:272 | `(\w+)\s*==\s*false` matches with word w ending at y exactly when w, white space, `==`, white space and `false` follow one another |
| Patterns.SecondFalseComparisonAtIff | script.js:272 | the rest of the pattern matches exactly when white space, `&&`, white space, the second comparison and `)` follow one another |
| Patterns.FalseConjunctionAtIff | script.js:272 | the pattern matches with match m exactly when m is `(`, the first comparison and the rest |
| Patterns.FalseConjunctionExample | script.js:272 | on `(flag == false && other == false)` the pattern matches the whole text and captures `flag` and `other` |
| Scan.Exec | script.js:274 | `exec` from lastIndex returns the leftmost match at or after it, or none when no attempt from there succeeds |
| Scan.MatchAll | script.js:251 | the global scan returns table matches that ascend and do not overlap, and is empty exactly when `exec` finds nothing |
| Scan.Matches | script.js:251 | every match of the global scan is the pattern's match at its start, and the matches do not overlap |
| Scan.FirstMatch | script.js:285 | a non-global `match` returns the pattern's match at the leftmost position where it matches, or nothing when it matches nowhere |
| Scan.MatchesCover | script.js:274 | every position where the pattern matches lies inside some match of the scan |
| Scan.MatchesGap | script.js:251 | between two consecutive matches of the scan, and before the first, the pattern matches nowhere |
| Scan.MatchAllSingle | script.js:274 | a table with a match at the start and nothing after its end scans to just that match |
| Scan.MatchAllOrdered | script.js:251 | any earlier match of the scan ends before any later one starts |
| Scan.MatchAllSplit | script.js:178 | on a prefix whose attempts agree with the whole text's, the scan of the whole is the prefix's scan followed by the scan from the prefix's end |
| FunctionBounds.ParenPairFromIff | script.js:97 | taking the first `(` is the same as asking for any `(` followed by a `)` before the line ends |
| FunctionBounds.ModifiersExclusive | script.js:97 | no two of the four modifiers occur at the same position |
| FunctionBounds.SignatureAtIff | script.js:97 | the signature pattern matches at i exactly when a modifier, as a whole word, occurs there and is followed by a parenthesis pair |
| FunctionBounds.SignatureFromIff | script.js:97 | the line test holds exactly when the pattern matches at some position of the line |
| FunctionBounds.FindFunctionBounds | script.js:92-113 | start is the nearest signature line at or above the caret line, else 0; end is the first later line where the brace count returns to zero, else the last line; start <= end |
| FunctionBounds.SignatureScan | script.js:96-101 | the upward loop stops at the nearest signature line at or above the caret line, or leaves 0 |
| FunctionBounds.BraceScan | script.js:103-111 | the downward loop keeps the running count of `{` minus `}` and stops at the first line after start where it is zero |
| FunctionBounds.SignatureStartUnique | script.js:96-101 | only one start satisfies the start specification |
| FunctionBounds.BlockEndUnique | script.js:103-111 | only one end satisfies the end specification |
| FunctionBounds.EndAfterStart | script.js:107 | when start is not the last line, the end lies strictly after it |
| FunctionBounds.FocusBand | script.js:123-127 | the focus band runs from start/n to (end + 1)/n of the editor's height, in percent, and lies within 0 to 100 with its top above its bottom |
| FunctionBounds.ContextualDimming | script.js:115-128 | the bounds are those of `findFunctionBounds` on the text's lines at the caret line, start lies at or above the caret line, and the band is theirs |
| WholeWords.Occurrences | script.js:146 | every occurrence found is the name as a whole word, and the occurrences ascend |
| WholeWords.OccurrencesComplete | script.js:146 | every whole-word occurrence of a word is found by the scan |
| WholeWords.OccurrencesExact | script.js:288 | a word occurs at i as a whole word exactly when a match of the scan starts at i |
| DeclarationTracer.Declarations | script.js:138 | the declarations are the global scan of the declaration pattern, so matches of it in text order without overlap |
| DeclarationTracer.DeclarationsCover | script.js:138 | no declaration is skipped: every position where the pattern matches lies inside a found declaration |
| DeclarationTracer.DeclaredName | script.js:142 | the traced variable is a word that stands as a whole word in the text |
| DeclarationTracer.NameOccurrences | script.js:146 | the occurrences of a declared name include the declaration's own |
| DeclarationTracer.LinksOfCount | script.js:146 | a declaration gets min(4, n) - 1 links for n occurrences, so at most three and none when the name occurs once |
| DeclarationTracer.LinksOfTargets | script.js:146-147 | link k leads to occurrence k + 1; the first occurrence is never a target |
| DeclarationTracer.LinksOfLines | script.js:143-148 | each link joins the declaration's one-based line to the one-based line of a whole-word use of its name |
| DeclarationTracer.StartsAscending | script.js:146 | in an ascending scan every later match starts after any earlier one |
| DeclarationTracer.LinksOfFourOccurrences | script.js:146-147 | a name with four or more occurrences links to exactly its second, third and fourth, in order |
| DeclarationTracer.LinksOfFirstUses | script.js:146-147 | a declaration whose name next occurs whole at p1, p2 and p3 gets exactly the three links to those uses, in order |
| DeclarationTracer.LinksOfAll | script.js:141 | the links of n declarations number at most 3n |
| DeclarationTracer.LinksOfAllSingle | script.js:141 | one declaration contributes exactly its own links |
| DeclarationTracer.LinksOfAllAppend | script.js:141 | the links come grouped by declaration in text order: the links of a + b are those of a followed by those of b |
| DeclarationTracer.LinksOfAllMembers | script.js:141 | a link is present exactly when it is a link of one of the declarations |
| DeclarationTracer.TracedDeclarations | script.js:141 | the overlay follows the first min(8, n) declarations |
| DeclarationTracer.FlowLinks | script.js:135-156 | no links when the overlay is off; otherwise the links of the traced declarations in order, never more than 24 |
| DeclarationTracer.FlowLinksMembers | script.js:135-156 | with the overlay on, a connector is drawn exactly for each link of a traced declaration |
| DeclarationTracer.FlowLinksExample | script.js:135-156 | a declaration of `total` followed by three lines that update it gives three connectors from line 1 to lines 2, 3 and 4 |
| LogicPreview.LogicLines | script.js:163 | a line is in the result exactly when it is a non-structural line of the input, and the result is no longer |
| LogicPreview.LogicLinesSingle | script.js:163 | one line filters to nothing when structural and to itself otherwise |
| LogicPreview.LogicLinesAppend | script.js:163 | the filter works line by line: filtering a + b is filtering a, then b, which keeps order and repeats |
| LogicPreview.LogicLinesIdempotent | script.js:163 | filtering twice is filtering once |
| LogicPreview.LogicLinesKeepsAll | script.js:163 | the filter changes nothing exactly when no line is structural |
| LogicPreview.Collapse | script.js:166-171 | a long comment becomes its first 12 characters plus the marker; any other line is unchanged; no line feed is introduced |
| LogicPreview.CollapseComments | script.js:166 | the comment filter maps each line by itself and keeps the line count |
| LogicPreview.KeptLines | script.js:161-164 | with logic-only on, the kept lines are the logic filter of the lines, all non-structural; with it off, all lines are kept |
| LogicPreview.VisibleLines | script.js:159-172 | the shown lines are the kept lines of the text, each collapsed by the comment filter when it is on; they hold no line feeds |
| LogicPreview.PreviewOff | script.js:173 | with both switches off the preview is the text itself |
| LogicPreview.PreviewLines | script.js:173 | the lines of the preview are the visible lines |
| Complexity.Tokens | script.js:178 | the counted tokens are the global scan of the token pattern, so matches of it in order without overlap |
| Complexity.TokensCover | script.js:178 | no token is missed: every position where the token pattern matches lies inside a counted token |
| Complexity.Score | script.js:179 | the gauge is 1 plus the number of tokens, so never below 1 |
| Complexity.LoadOf | script.js:181 | High exactly above 10, Medium exactly from 7 to 10, Low exactly up to 6 |
| Complexity.TokensHaveNoSpace | script.js:178 | no alternative is empty or holds a space |
| Complexity.TokenTestPrefix | script.js:178 | appending text that starts with a space leaves the token test at every position of the old text unchanged |
| Complexity.KeywordAtEnd | script.js:178 | in t + " " + kw no token starts at the space, and kw is one token reaching the end |
| Complexity.AppendedKeywordTokens | script.js:178 | scanning t + " " + kw finds exactly one token more than scanning t |
| Complexity.ScoreAppendKeyword | script.js:178-179 | appending a space and a keyword word raises the score by exactly one |
| GhostSuggestion.SpaceRunStart | script.js:191 | the start of the white-space run that ends at j |
| GhostSuggestion.EndsInForIff | script.js:191 | the `for\s*\($` test holds exactly when some `for` is followed only by white space and a final `(` |
| GhostSuggestion.PatternsExclusive | script.js:190-192 | no line passes two of the three tests, so the order of the assignments cannot matter |
| GhostSuggestion.Completion | script.js:190-192 | each completion is chosen exactly when its test holds; none is chosen exactly when no test holds |
| GhostSuggestion.CurrentLine | script.js:186-187 | the current line is the line-feed-free tail of the text before the caret |
| GhostSuggestion.GhostAt | script.js:184-204 | a suggestion exists exactly when a test holds; it is placed on the one-based caret line, at the column of the caret in its line |
| GhostSuggestion.GhostIgnoresTail | script.js:186 | text after the caret never changes the suggestion |
| DebugTrace.TracedGroups | script.js:214 | a traced match names a delimited word and captures a non-empty value free of `;` |
| DebugTrace.RowOf | script.js:218-219 | a row's name is the captured word, whole in the text; its value is the captured value with its outer white space removed, free of `;` |
| DebugTrace.TrimmedRow | script.js:219 | the row keeps the name and its value is the raw value with exactly its outer white space removed |
| DebugTrace.TraceRows | script.js:214 | the run traces the first min(5, n) declaration matches, in order |
| DebugTrace.TipTexts | script.js:225 | one tip per row, each `name: value` |
| DebugTrace.RunDebug | script.js:212-234 | the console is header, one line per traced row, footer; the tips are the rows' tips when enabled and none otherwise |
| DebugTrace.Report | script.js:215-233 | the loop builds exactly that console text and those tips |
| DebugTrace.ConsoleFrame | script.js:215-233 | the console starts with the header and ends with the footer; with no declaration it is just the two |
| StateTimeline.Updates | script.js:251 | the updates are the global scan of the assignment pattern, so matches of it in order without overlap |
| StateTimeline.UpdatesCover | script.js:251 | no update is skipped: every position where the pattern matches lies inside a found update |
| StateTimeline.AssignmentExtendsLeft | script.js:251 | with no `\b` in front, a match that follows a word character also matches one character earlier |
| StateTimeline.UpdatesStartAtWordBoundary | script.js:251 | every update the scan finds starts at a word boundary |
| StateTimeline.UpdateEndsWithSemicolon | script.js:251 | every update ends with the `;` of its statement |
| StateTimeline.EntryOf | script.js:252 | an entry carries its index; the variable is the word the match starts with, up to a non-word character; the operator is the one in the text after white space; the expression is the value group, non-empty, free of `;`, right before the closing `;` |
| StateTimeline.EntryVariableIsWhole | script.js:252 | a match at a word boundary names a whole word of the text as its variable |
| StateTimeline.UpdateVariableIsWhole | script.js:251-252 | the variable of every row of the timeline is a whole word of the text |
| StateTimeline.Entries | script.js:252 | entry k numbers update k |
| StateTimeline.Timeline | script.js:246-253 | paused message when off; the empty message exactly when no update matches; otherwise min(12, n) entries |
| StateTimeline.TimelineRows | script.js:251-252 | row k is the entry of update k, numbered k |
| StateTimeline.TimelineInTextOrder | script.js:251 | earlier rows come from earlier text: row j's match ends before row k's starts |
| BoilerplateSummary.CapturedName | script.js:260 | the captured name is the whole word at its group, as long as the group |
| BoilerplateSummary.MethodItems | script.js:260 | one method row per constructor match, in order, naming the whole word its group captures |
| BoilerplateSummary.PropertyItems | script.js:261 | one property row per auto-property match, in order, naming the whole word its group captures |
| BoilerplateSummary.Summary | script.js:255-264 | paused message when off; the empty message exactly when there are no matches; otherwise the first min(8, n) of the method rows followed by the property rows |
| BoilerplateSummary.SummaryLayout | script.js:262 | row k is a method row exactly when k is below the number of method rows |
| BoilerplateSummary.MethodsFirst | script.js:262 | no property row precedes a method row |
| BoilerplateSummary.TypedMemberNotListed | script.js:260-261 | a `public Type Name` member never matches the constructor pattern at the same position |
| BooleanSimplifier.HintOf | script.js:275 | a hint names the two captured words, each whole in the text, both inside the parentheses, the first before the second |
| BooleanSimplifier.Messages | script.js:275 | one message per match |
| BooleanSimplifier.MessageAt | script.js:275 | the k-th message is the hint of the k-th match, so the messages keep the order of the matches |
| BooleanSimplifier.Simplify | script.js:266-278 | paused message when off; otherwise the hints of every match of the scan, or the empty message when there are none |
| BooleanSimplifier.CollectHints | script.js:271-276 | the `exec` loop collects exactly the messages of the scan's matches |
| BooleanSimplifier.ExecStep | script.js:274-275 | one turn adds the hint of the match `exec` returns and resumes after it |
| BooleanSimplifier.EveryConjunctionHinted | script.js:272-276 | every position where the pattern matches lies inside a hinted match |
| BooleanSimplifier.FirstHint | script.js:274 | a match at the start of the text is the first match of the scan |
| BooleanSimplifier.SimplifierExample | script.js:266-278 | `(flag == false && other == false)` gives exactly one hint, naming `flag` and `other` |
| BooleanSimplifier.ExampleMessage | script.js:275 | the message for `flag` and `other` ends with the De Morgan rewrite, the negation of the disjunction of `flag` and `other` |
| Heatmap.FirstMethod | script.js:285 | the method is the leftmost match of the pattern, if any |
| Heatmap.MethodName | script.js:287 | the method name is a word that stands as a whole word in the text |
| Heatmap.Level | script.js:290 | level 3 exactly above 6 hits, level 2 exactly for 4 to 6, level 1 exactly up to 3 |
| Heatmap.ApplyHeatmap | script.js:280-291 | off clears the classes; with no method the classes are kept; otherwise one of levels 1 to 3 is set |
| Heatmap.HitsIncludeDeclaration | script.js:288 | the method's own name counts, so there is at least one hit |
| Heatmap.HeatOfFirstMethod | script.js:285-290 | with a method found, the level is the band of the name's whole-word count |
| SemanticSearch.FindKeyFrom | script.js:337 | the first key from i on that occurs in the query; none when no later key occurs |
| SemanticSearch.FindKey | script.js:337 | the chosen key occurs in the lower-cased query and no earlier key does; none exactly when no key occurs |
| SemanticSearch.Results | script.js:336-339 | never empty; the fallback exactly when no key occurs; otherwise the intents of a key that occurs |
| SemanticSearch.IntentMapShape | script.js:42-48 | the keys are exactly the map's, and no intent list is empty or equal to the fallback |
| SemanticSearch.FirstKeyWins | script.js:337 | a key that occurs wins when no earlier key occurs |
| SemanticSearch.DbFirst | script.js:337 | any query that mentions `db` shows the data-access intents |
| SemanticSearch.ResultsIgnoreCase | script.js:337 | a query and its lower-case form give the same results |
| SemanticSearch.InitialSearch | script.js:444 | the search run on load for `db` shows the two data-access intents |
| TypingMonitor.ZenTypingState | script.js:342-345 | the typing flag is set as given and the zen class is on exactly when zen is checked and the user is typing |
| TypingMonitor.AfterInput | script.js:414-418 | an input marks typing, replaces any pending timer with one due 700 ms later, and follows the zen checkbox |
| TypingMonitor.AfterTick | script.js:417 | a due timer fires and returns to the idle state; otherwise nothing changes |
| TypingMonitor.Signal | script.js:344 | the signal says typing exactly while the user is typing, and Idle otherwise |
| TypingMonitor.EventsKeepConsistent | script.js:414-418 | both events keep "typing exactly while a timer is pending, zen only while typing" |
| TypingMonitor.QuietPeriodAfterInput | script.js:417 | after an input at t the user stays typing exactly until t + 700, and then the signal is Idle and zen is off |
| TypingMonitor.SecondInputPostponesIdle | script.js:416-417 | a second input cancels the first timer, so the user stays typing until 700 ms after the later input |
| TypingMonitor.TickIdempotent | script.js:417 | a repeated tick changes nothing further |
| TypingMonitor.RunKeepsConsistent | script.js:414-418 | every sequence of events keeps the state consistent |
| TypingMonitor.Monitor.OnInput | script.js:414-418 | the listener moves the state by AfterInput, and leaves it consistent from any state |
| TypingMonitor.Monitor.OnTick | script.js:417 | the timer check moves the state by AfterTick and keeps a consistent state consistent |
| TypingMonitor.Monitor.constructor | script.js:80 | the page starts idle with no timer pending and no zen class |

## Left out

- The DOM and rendering: how panels are written to `innerHTML` or `textContent`, list markup and escaping, the emoji, arrow and em-dash decorations of the timeline and summary rows, CSS classes other than the heat level and zen, and `display` toggles. The model returns the records, lines and messages that are rendered.
- Pixel geometry: the ghost text's `left`/`top`, the debug tips' positions, the overlay's Bézier connectors and `scrollTop`. The model returns the line and column numbers these are computed from.
- `clearDebugTips` and the removal of old tip elements: element lifetime is a DOM concern; the model returns the new tips.
- `buildFlowchart`, `interpretNaturalLanguage`, `pinAnchor`, the docs tooltip, the sketch canvas and the scratchpad's `localStorage`/JSON persistence are not part of this model.
- `runAll` and the event wiring other than the editor's `input` listener: these are calls of the modelled functions in a fixed order.
- Text.Lower: models `toLowerCase()` for ASCII letters only; full Unicode case mapping is not reproduced, so a query such as `APİ`, whose JavaScript lower case contains `api`, finds no key in the model.
- Strings are sequences of characters, not of UTF-16 code units: `length`, `slice(0, 12)` and column numbers agree with the script only for text outside the astral planes.
- FunctionBounds.FocusBand: the band is computed in exact real arithmetic, not in IEEE doubles, so rounding of the percentages is not modelled.
- TypingMonitor: real timers are replaced by a deadline and explicit ticks carrying the clock reading; `setTimeout`'s scheduling delays are not modelled.
- Glyphs the script's source stores double-encoded (the ellipsis of the comment marker and of the typing signal, the simplifier's arrow) are kept as the characters the source holds.
