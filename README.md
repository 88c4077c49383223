# Spontaneous activity generator: a verified model

The application asks a text-generation service for one "spontaneous activity"
(a title and a description) and shows it on a single page. This project models
its two pieces of logic in Dafny and proves what they promise.

- **The server action** (`app/actions.ts`, module `Actions` in `actions.dfy`).
  `generateActivity` cleans the service's reply: it trims it, strips Markdown code
  fences and keeps the span from the first `{` to the last `}`. It accepts a
  parsed object only when both fields are truthy. Otherwise
  `createFallbackActivityFromText` recovers a title and a description heuristically,
  using a quoted run, then the first short segment, then the first five words.
  When nothing works, an activity is taken from a fixed pool. Every path reports
  success with an activity whose title and description are non-empty.
- **The page** (`app/page.tsx`, module `Page` in `page.dfy`). The component state
  is the class `Page.Home`. The model covers:
  - the player-count stepper, clamped to [2, 10];
  - the multiplayer rewording `With N people: …`;
  - the one-retry-then-fallback handling of a generation request, with the
    `finally` that clears the busy flag;
  - the share text that the copy button writes.
- **JavaScript string built-ins** (`strings.dfy`, module `Strings`). These are the
  built-ins the code relies on, written as functions with contracts: `trim`,
  `toLowerCase`, `includes`, `replace` with a string (with the first-occurrence
  search it performs), a global `replace` with literal alternatives, `split` on a
  character class, and `join`.
  `wrappers.dfy` holds the `Option` type.

The service call, `JSON.parse` and `Math.random` are inputs of the model:
- the service call is a `Completion` value (client set-up throws, the call fails,
  or reply text);
- `JSON.parse` is an oracle `parse: string -> Option<ParsedObject>`, where `None`
  stands for a throw or a non-object;
- `Math.random` is an index into the pool that the caller supplies.

The imperative parts stay imperative:
- `CleanResponse` reassigns the cleaned text step by step;
- `CreateFallbackActivityFromText` reassigns its locals through the branches;
- `FirstSegmentTitle` is the `for … break` loop over the segments;
- `Home` updates its fields in place.

`CleanResponse`, `CreateFallbackActivityFromText`, `DraftTitleAndDescription`,
`SegmentOrWords`, `WordTitleAndDescription` and `FirstSegmentTitle` are proved equal to specification functions, and the
properties are proved about those functions. `Actions.GenerateActivity` and the methods of
`Home` state their results and their new state case by case in their own
`ensures` clauses.

Two details of the code that the model keeps:
- The quoted-title pattern (`app/actions.ts:175`) excludes only the delimiting quote from the title. A title quoted with `"` may contain `'`, and the other way round. `QuoteBranch` therefore states that the title does not contain its own delimiter.
- The share text (`app/page.tsx:165`) is `Try this spontaneous activity: "<title>" - <description>`.

## Model

| member | source | states |
|---|---|---|
| Strings.Trim | app/actions.ts:102 | `trim` leaves neither end a whitespace character |
| Strings.TrimKeepsMiddle | app/actions.ts:102 | trimming keeps a contiguous slice of the input, and every character before and after that slice is one the trim drops |
| Strings.TrimOccurs | app/actions.ts:184 | what trimming keeps is a contiguous part of the input |
| Strings.TrimEmptyIff | app/actions.ts:208 | stripping a class of characters from both ends leaves nothing exactly when every character is in the class |
| Strings.Lower | app/page.tsx:69-72 | `toLowerCase` keeps the length and lower-cases each character in place |
| Strings.LowerIdempotent | app/page.tsx:69-72 | lower-casing twice is lower-casing once |
| Strings.ContainsIffOccurs | app/page.tsx:69-72 | `includes` holds exactly when the pattern occurs at some position |
| Strings.IndexOf | app/actions.ts:179 | the first-occurrence search that `replace` with a string pattern performs finds an occurrence, no earlier position holds one, and it finds none exactly when the text does not contain the pattern |
| Strings.RemoveFirst | app/actions.ts:193 | `replace` with a string shortens the text by the pattern's length when the pattern occurs, and leaves the text as it is otherwise |
| Strings.RemoveFirstCuts | app/actions.ts:193 | when the pattern occurs, there is a first position where it occurs, and `replace` gives the text before it followed by the text after that occurrence |
| Strings.RemoveAll | app/actions.ts:105 | the global `replace` never lengthens the text |
| Strings.RemoveAllWithoutMatches | app/actions.ts:105 | text in which no alternative occurs passes the global `replace` unchanged |
| Strings.Split | app/actions.ts:182 | `split` on a character class gives one more piece than there are separators in the text |
| Strings.SplitPiecesFree | app/actions.ts:182 | no piece of `split` contains a separator |
| Strings.SplitJoin | app/actions.ts:198-199 | splitting the `join` of separator-free pieces on the same separator gives the pieces back |
| Strings.JoinSplit | app/actions.ts:196-199 | joining the pieces with the separator they were split on gives back the text |
| Strings.SplitPiecesOccur | app/actions.ts:182 | every segment of `split` occurs in the text that was split |
| Strings.DecimalString | app/page.tsx:74 | the decimal form of the player count is non-empty, all digits, without a leading zero unless the count is 0, and reads back as the count |
| Actions.RemoveAllLeavesNoFence | app/actions.ts:105 | removing fence alternatives globally leaves no three consecutive backticks, even where removal brings backticks together |
| Actions.NoBacktickUnchanged | app/actions.ts:105 | removing fence alternatives leaves text without a backtick unchanged |
| Actions.FencePassKeepsText | app/actions.ts:105 | the pass that removes bare fences removes only backticks: the text with all backticks taken out is the same before and after |
| Actions.KeepFront | app/actions.ts:104-105 | a backtick-free front passes the removal of fence alternatives unchanged, whatever follows it |
| Actions.StripCodeFences | app/actions.ts:105 | after the two global passes the text contains no fence, and text without a backtick is returned unchanged |
| Actions.StripCodeFencesUnwraps | app/actions.ts:104-105 | a backtick-free reply wrapped in "```json" and "```" comes out of the two passes as exactly the wrapped text |
| Actions.ExtractJsonSpan | app/actions.ts:108-111 | with a `{` before a `}`, the result runs from the first `{` to the last `}`; otherwise the text is unchanged |
| Actions.SpanIsPart | app/actions.ts:108-111 | the extracted span is a contiguous part of the text |
| Actions.CleanedReply | app/actions.ts:102-111 | the text handed to `JSON.parse` contains no fence; it runs from a `{` to a `}` when the fence-free text has a braced span, and is the fence-free text otherwise |
| Actions.CleanResponse | app/actions.ts:102-111 | the step-by-step cleaning equals trim, then fence stripping, then span extraction; the result is fence-free and brace-delimited when a braced span exists |
| Actions.ValidateParsed | app/actions.ts:114-122 | a parsed object is accepted exactly when both fields are present and non-empty, and it is then returned with those fields |
| Actions.RecoveryText | app/actions.ts:168 | the text recovery works on contains no fence, and a reply without a backtick is only trimmed |
| Actions.RecoveryTextUnwraps | app/actions.ts:168 | a backtick-free reply wrapped in "```json" and "```" comes out of the one-pass removal and `trim` as the wrapped text, trimmed |
| Actions.FindQuotedRun | app/actions.ts:175 | the match of the quoted-title pattern is the leftmost run of a quote, at least one other character and the same quote; none is found only when there is no such run |
| Actions.LeftmostRunIsFirstOccurrence | app/actions.ts:175-179 | the first occurrence of the matched run is the match itself, and `replace` leaves the text before the run followed by the text after it |
| Actions.QuoteBranch | app/actions.ts:174-179 | in the quoted branch the title is the content of the leftmost run, free of its delimiter, and the description is the text without the run, trimmed |
| Actions.QuoteCut | app/actions.ts:179 | the quoted draft's description is the text with the leftmost run cut out, trimmed |
| Actions.ShortTitleCountsSpaces | app/actions.ts:185 | "at most five space-separated pieces" is "at most four spaces" |
| Actions.QuoteDraft | app/actions.ts:176-179 | the quoted title is non-empty and free of its delimiting quote |
| Actions.SegmentDraft | app/actions.ts:192-193 | the segment draft keeps the title, and when the title occurs its description is shorter than the text by at least the title's length |
| Actions.WordDraft | app/actions.ts:196-203 | the word draft's title is never empty |
| Actions.DraftFrom | app/actions.ts:170-205 | every branch produces a non-empty title |
| Actions.FirstShortSegment | app/actions.ts:182-189 | the chosen segment is the first whose trimmed form is non-empty, has at most five space-separated pieces and at most 30 characters; none is chosen only when no segment qualifies |
| Actions.FirstSegmentTitle | app/actions.ts:182-189 | the loop with `break` yields the first qualifying trimmed segment, or the empty string |
| Actions.TrimmedSegmentOccurs | app/actions.ts:182-193 | the segment title occurs in the cleaned text, so `replace` always finds it |
| Actions.SegmentBranch | app/actions.ts:181-193 | in the segment branch the title is the first qualifying trimmed segment; it occurs in the text, and the description is the text before its first occurrence followed by the text after it, trimmed |
| Actions.SegmentCut | app/actions.ts:192-193 | a trimmed segment occurs in the text, and the segment draft cuts out exactly its first occurrence |
| Actions.WordBranch | app/actions.ts:194-203 | with more than five words, the title splits back into exactly the first five words, the description into the remaining words, and title + " " + description is the cleaned text; otherwise the title is "Spontaneous Activity" and the description the whole text |
| Actions.DraftTitleAndDescription | app/actions.ts:171-205 | the branches with their reassignments compute the title and description that the three rules define |
| Actions.CleanEdges | app/actions.ts:208 | the cleaned description neither starts nor ends with `.`, `,`, `:` or whitespace |
| Actions.CleanEdgesKeepsMiddle | app/actions.ts:208 | the clean-up keeps a contiguous slice of the description, and everything it drops before and after that slice is `.`, `,`, `:` or whitespace |
| Actions.Polish | app/actions.ts:208-215 | a record is returned only with a non-empty title and a non-empty, edge-clean description |
| Actions.RecoveryFailsOnlyOnEmptyDescription | app/actions.ts:208-215 | recovery returns `null` exactly when the edge clean-up empties the description |
| Actions.FallbackFromText | app/actions.ts:165-220 | a recovered activity has both fields non-empty and a description with clean edges |
| Actions.SegmentOrWords | app/actions.ts:181-204 | without a quoted run, the segment loop and the word split compute the draft the segment and word rules define |
| Actions.WordTitleAndDescription | app/actions.ts:196-203 | the word split with `slice` and `join` computes the word draft |
| Actions.CreateFallbackActivityFromText | app/actions.ts:165-220 | the imperative recovery computes the specified recovery |
| Actions.GenerateActivity | app/actions.ts:24-162 | every path reports success with a usable activity: the pool entry without a key, the last-resort activity when set-up throws, the pool entry with "API error" when the call fails, and otherwise the parsed, else the recovered, else the pool activity |
| Page.Increment | app/page.tsx:189-191 | the result is the least of prev + 1 and 10 |
| Page.Decrement | app/page.tsx:193-195 | the result is the greatest of prev - 1 and 2 |
| Page.PressesStayInRange | app/page.tsx:53 | from the initial count, or any count in [2, 10], every sequence of presses keeps the count in [2, 10] |
| Page.PlusSaturates | app/page.tsx:189-191 | n presses of plus give min(count + n, 10) |
| Page.MentionsGroupIgnoresCase | app/page.tsx:68-73 | the group-word check reads the lower-cased description, so it gives the same answer for a description and its lower-case form |
| Page.PlayersPrefix | app/page.tsx:74 | the prefix starts with `With `, ends with ` people: `, and what lies between is all digits, reads back as the player count, and has no leading zero for a positive count |
| Page.ForMode | app/page.tsx:64-75 | the title is never changed; in multiplayer mode with more than one player, a description mentioning no group gets exactly the prefix `With N people: `; otherwise the activity is unchanged |
| Page.ForModeMentionsGroup | app/page.tsx:68-74 | after the rewording, a multiplayer description always passes the group-word check |
| Page.PrefixMentionsPeople | app/page.tsx:74 | whatever follows the prefix, the lower-cased text contains "people" |
| Page.ForModeIdempotent | app/page.tsx:90-103 | rewording twice gives the same activity as rewording once |
| Page.ShareText | app/page.tsx:165 | the share text starts with the fixed intro and its length is the sum of its parts |
| Page.ShareTextRoundTrip | app/page.tsx:165 | when the title has no double quote, title and description can be read back from the share text |
| Page.ShareTextInjective | app/page.tsx:165 | two activities with quote-free titles have the same share text only if they are equal |
| Page.Home.constructor | app/page.tsx:48-53 | the initial state: no activity, not busy, no retry pending, not copied, solo mode, two players |
| Page.Home.SetGameMode | app/page.tsx:215 | only the mode changes |
| Page.Home.IncrementPlayerCount | app/page.tsx:189-191 | the count becomes `Increment` of the old count, stays in [2, 10], and nothing else changes |
| Page.Home.DecrementPlayerCount | app/page.tsx:193-195 | the count becomes `Decrement` of the old count, stays in [2, 10], and nothing else changes |
| Page.Home.HandleOutcome | app/page.tsx:56-160 | the busy flag is clear on every exit. A success shows the reworded result. A first failure requests a retry with the retry count at 1 and the activity unchanged. A repeated failure or a throw shows a reworded pool activity. The retry count is 0 whenever no retry is requested |
| Page.Home.HandleGenerateActivity | app/page.tsx:56-160 | with the retry count read fresh, a click makes at most two calls and ends with an activity shown, no retry pending and the page not busy; the activity is the first result reworded on success, a reworded page-pool activity when the first request throws, and after a retry the second result reworded or, failing that, a reworded page-pool activity |
| Page.Home.GenerateFromServer | app/page.tsx:60-82 | the result is the server action's, path by path (no key, set-up throws, service error, parsed, else recovered, else pool); it always reports success with a usable activity, so the page never retries and shows that activity, reworded |
| Page.Home.HandleCopyToClipboard | app/page.tsx:162-187 | without an activity nothing is written and nothing changes; otherwise exactly the share text is written, and the copied flag is set when the write succeeds |

## Left out

- The OpenAI client, the prompt, `generateText` and the environment reads (`app/actions.ts:27-99`): these are network I/O and configuration. They are the `hasApiKey` and `Completion` inputs. The `NODE_ENV` branch at `app/actions.ts:89-92` is unreachable, because the key is known to be set there, so it is not modelled.
- `JSON.parse` (`app/actions.ts:115`): a library parser. It is the `parse` oracle, reduced to the two fields the code reads. Non-string truthy field values (numbers, objects) and extra fields of the parsed object are not modelled.
- `Math.random` (`app/actions.ts:32, 134, 142`, `app/page.tsx:86, 130`): randomness. It is an index that the caller supplies.
- The `catch` at `app/actions.ts:216-218`: nothing in the recovery throws, so it is not modelled.
- Unicode: `trim`, `\s` and `toLowerCase` are modelled over ASCII whitespace (space, tab, line feed, carriage return, vertical tab, form feed) and ASCII letters. Lengths count characters, not UTF-16 code units.
- Toasts, `console` output, `navigator.clipboard` internals, the two-second reset of the copied flag (`app/page.tsx:175-178`), rendering and animation, and `app/layout.tsx`: these are UI, I/O and timers. The clipboard's answer is the `clipboardAccepts` input.
- Page.Home.HandleGenerateActivity: reads `retryCount` fresh at the re-invocation. In the code, the recursive call at `app/page.tsx:123` captures the render's stale `retryCount` of 0, so the "at most one retry" bound does not hold for the literal React code. In the code, `finally` also clears `isGenerating` while the retry is still in flight; the model runs the two invocations one after the other.
- Page.Home.HandleOutcome: the await of `app/page.tsx:60` is the `outcome` parameter, so the interval in which the page shows itself busy (`isGenerating` set at line 57) is not observable in the model; only the flag's value on exit is stated.
- Page.Home.HandleOutcome: activities are values, so the in-place mutation of the returned activity on the success branch (`app/page.tsx:74`) and any aliasing it could cause are not modelled. The fallback branches build new records, and the pool is an immutable constant.
- Page.Increment and Page.Decrement: the buttons' `disabled` attributes (`app/page.tsx:238, 249`) are not modelled; the clamps alone keep the count in range.
