# AI Panel discussion mode, modelled in Dafny

The extension puts a side panel next to the tabs of several AI assistants
(ChatGPT, Claude, Gemini, Perplexity). From the panel a user can send one
message to many assistants. They can route one assistant's latest answer to
another with `@` mentions and the `/cross` and `/mutual` commands. They can
also run a *discussion*: two or three assistants answer a topic, then
evaluate each other round by round, and finally summarise. Each assistant's
tab runs a content script. The script injects the panel's messages into the
page, waits until the assistant's answer stops changing, and reports it
back with a `RESPONSE_CAPTURED` message.

This project models that core and proves properties of the model:

- `text.dfy` (module `Text`): the JavaScript string operations the scripts
  rely on (`trim`, ASCII `toLowerCase`, `indexOf`, `substring`, `Set`
  de-duplication).
- `history.dfy` (module `History`): discussion history records, the panel's
  lookups into them, and outgoing messages.
- `prompts.dfy` (module `Prompts`): every message the panel composes, each
  paired with a function that reads the quoted content back out, or a lemma
  that places the quoted blocks.
- `commands.dfy` (module `Commands`): `parseMessage`, the mention matcher
  `/@(claude|chatgpt|gemini)/gi`, and the sends of `handleCrossReference`
  and `handleMutualReview`.
- `verifier.dfy` (module `Verifier`): the panel's `verifyResponseComplete`.
  It is a loop, proved against a reference function. Lemmas prove that it
  accepts on the first read after which the last five texts seen are one
  text of at least 50 characters.
- `discussion.dfy` (module `Discussion`): `discussionState` as a datatype.
  Every handler is a transition function. Each one returns the new state,
  the messages in send order, and whether the round completed. The module
  also states the invariant every reachable state keeps (`Valid`) and
  proves that each transition preserves it.
- `panel.dfy` (module `Panel`): class `DiscussionPanel`. Its fields are
  `discussionState`, the polling timer and the pending summary timer. Its
  methods are the handlers, updating the fields in place. Each method is
  proved to end in the state of its transition and to append that
  transition's messages to `outbox`.
- `capture.dfy` (module `Capture`): the specification shared by the four
  `waitForStreamingComplete` loops. It proves the loop decides on the first
  sample that closes a run of four stable samples.
- `chatgpt.dfy`, `claude.dfy`, `perplexity.dfy`, `gemini.dfy`: each content
  script is a class. Its fields are `isCapturing`, `lastCapturedContent` and
  the list of reports sent. The capture loop is a method, proved against
  `Capture.Scan` with that script's stability rule. Perplexity and Gemini
  also model the retrying `injectMessage` (module `Retry`, `retry.dfy`).
  Gemini also models its periodic backup check and `FORCE_CHECK_RESPONSE`.

Time is counted in ticks of the 500 ms sleeps. Whatever a script reads from
a page or a tab during a loop is a parameter indexed by tick: the `Sample`
sequences, the `first`/`second` reads of a verification, and the `latest`
map of a poll tick.

Some behaviour of the code is modelled as written:

- `nextRound` increments `currentRound` before it checks for missing
  responses, so a blocked round still advances the counter
  (`Discussion.NextWithMissingOnlyCounts`).
- In a three-party round, an evaluator whose next target has no
  previous-round response is sent nothing and stays awaited
  (`Discussion.MissingTargetKeepsEvaluatorPending`).
- `generateSummary` asks and awaits only the first two participants.
- Only the poll drops a response already recorded. A `RESPONSE_CAPTURED`
  message from an awaited assistant is recorded again
  (`Discussion.DedupOnlyOnPoll`).
- `resetDiscussion` replaces `discussionState` wholesale, history included.
  It does not stop a running summary timer, which then ends the next
  discussion once nobody is awaited there (`Panel.DiscussionPanel.CheckForSummary`).
- Gemini's `isDifferent` looks like a 10 % length tolerance. Its last
  disjunct makes it plain inequality of trimmed texts
  (`Gemini.IsDifferent`).
- The `captured` flag that FORCE_CHECK_RESPONSE returns is computed after
  `lastCapturedContent` has been updated (`Gemini.CapturedFlagAsWritten`).
  Since `getLatestResponse` only answers `null` or a text of more than 20
  characters, the flag is always `false`, also when a fresh response was
  just captured (`Gemini.CapturedFlagNeverSetForReaderAnswers`).

## Model

| member | source | states |
|---|---|---|
| Text.TrimStartDropsWhitePrefix | sidepanel/panel.js:576-577 | the trimmed start is a suffix of the input, the dropped prefix is all white space, and the result does not start with white space |
| Text.TrimEndDropsWhiteSuffix | sidepanel/panel.js:576-577 | the trimmed end is a prefix of the input, the dropped suffix is all white space, and the result does not end with white space |
| Text.TrimIsCore | sidepanel/panel.js:576-577 | `trim` gives a part of the input that starts and ends with a non-white character, and is empty exactly when the input is all white space |
| Text.IndexOf | sidepanel/panel.js:276 | `indexOf` is -1 exactly when the text does not occur, otherwise the first position where it occurs |
| History.FindContentFindsFirst | sidepanel/panel.js:899-902 | `history.find` yields the content of the first record of that round and assistant, and nothing when there is none |
| History.FindContentAppend | sidepanel/panel.js:764-773 | appending a record never changes what an earlier match finds, and finds the new record only when nothing matched before |
| History.SummaryOf | sidepanel/panel.js:1106-1108 | the shown summary is the content of the assistant's first summary record, and empty when it has none |
| Prompts.Strip | sidepanel/panel.js:624 | a stripped text is exactly what lies between the prefix and the suffix |
| Prompts.StripFrame | sidepanel/panel.js:624 | stripping gives `x` exactly when the text is prefix, `x`, suffix |
| Prompts.BlockQuotes | sidepanel/panel.js:363-366 | a `<ai_response>` block gives back exactly the content it quotes, and only a block of that content does |
| Prompts.TopicPrompt | sidepanel/panel.js:624 | the topic message is the fixed introduction followed by the topic, which can be read back |
| Prompts.EvaluationPromptQuotes | sidepanel/panel.js:924-939 | an evaluation request carries exactly the target's response: reading it back gives that content iff the message was built from it |
| Prompts.EvaluationPromptInjective | sidepanel/panel.js:974-980 | different responses never produce the same evaluation request |
| Prompts.CrossReferenceQuotesSources | sidepanel/panel.js:361-367 | the cross-reference message starts with the original message and a newline, quotes each source's block at that source's section (one source included), blocks in source order, and nothing follows the last section |
| Prompts.MutualReviewQuotesOthers | sidepanel/panel.js:399-417 | participant `k`'s message excludes `k` from the others, opens with the header, quotes each other participant's response at its section (a single other included), in participant order, and ends with a newline and the prompt |
| Prompts.InterjectMessageQuotes | sidepanel/panel.js:1039-1054 | an interjection starts with the user's text and gives back exactly the other participant's response iff it was built from it |
| Prompts.RoundEntries | sidepanel/panel.js:1076 | a round's entries are exactly the history records of that round |
| Prompts.RoundEntriesAppend | sidepanel/panel.js:1076 | the filter keeps history order and multiplicity: appending a record appends it to its own round's entries only |
| Prompts.RoundQuotesEntry | sidepanel/panel.js:1074-1080 | a round's text contains the text of every record of that round |
| Prompts.RoundsQuoteRound | sidepanel/panel.js:1074-1081 | the text of rounds 1 to `last` contains whatever the text of any one of those rounds contains |
| Prompts.SummaryQuotesHistory | sidepanel/panel.js:1072-1090 | the summary request quotes every recorded response of rounds 1 to the current one |
| Commands.FirstNameSpelled | sidepanel/panel.js:315 | the name found at a position is one of the alternatives and is spelled there in any letter case; when none is found, no alternative is spelled there |
| Commands.MentionAtNamesAi | sidepanel/panel.js:315-317 | a mention is an `@` followed by `claude`, `chatgpt` or `gemini` in any letter case |
| Commands.MatchAllFromSound | sidepanel/panel.js:316 | every match is a mention, matches come in order and do not overlap |
| Commands.MatchAllFindsEveryMention | sidepanel/panel.js:316 | every mention in the text is a match, and every match is a mention |
| Commands.MentionNamesAreMentions | sidepanel/panel.js:317 | `mentions` holds each mentioned name once, and only names that are mentioned |
| Commands.NoMentionInsideName | sidepanel/panel.js:315 | no mention starts inside the name of another, since names contain no `@` |
| Commands.ParseCross | sidepanel/panel.js:281-313 | a `/cross` command parses to a cross-reference only with names on both sides of `<-` |
| Commands.ParseMentions | sidepanel/panel.js:319-345 | the mention rules make a cross-reference only with one target and one source |
| Commands.ParseMessage | sidepanel/panel.js:256-345 | every cross-reference has at least one target and one source |
| Commands.MutualAloneUsesDefault | sidepanel/panel.js:259-270 | `/mutual` alone, in any case and with surrounding white space, asks with the default prompt |
| Commands.MutualWithPrompt | sidepanel/panel.js:259-270 | `/mutual text` asks with the trimmed text |
| Commands.CrossWithoutArrowIsPlain | sidepanel/panel.js:274-279 | `/cross` without `<-` is a plain message that names nobody |
| Commands.CrossCommandLists | sidepanel/panel.js:281-313 | a `/cross` command's targets and sources are exactly the assistants mentioned before and after the arrow |
| Commands.MatchAllFromFirst | sidepanel/panel.js:316 | no mention is skipped before the first match, nor anywhere when there is none |
| Commands.MatchAllFromLast | sidepanel/panel.js:316 | no mention starts after the last match |
| Commands.FirstMatchIsFirstMention | sidepanel/panel.js:326 | `matches[0]` is the first mention in the text |
| Commands.LastMatchIsLastMention | sidepanel/panel.js:325 | `matches[matches.length - 1]` is the last mention in the text |
| Commands.ParseFallsThrough | sidepanel/panel.js:274-318 | outside the commands, and for a `/cross` whose arrow lacks a name on one side, the mention rules decide |
| Commands.TwoMentionsAndKeyword | sidepanel/panel.js:319-337 | with two distinct names and a keyword, the first mention in the text is the target and the last one the source |
| Commands.CrossReferenceOnlyByRule | sidepanel/panel.js:256-345 | a cross-reference comes either from a `/cross` command with an arrow or from two names plus a keyword |
| Commands.CrossReferenceSends | sidepanel/panel.js:347-374 | nothing is sent when a source has no response; otherwise each target receives one message, in target order |
| Commands.CrossReferenceQuotesLatest | sidepanel/panel.js:361-373 | each target receives the same message: the original and a newline, then every source's latest response as a block at its section (one source included), in source order, nothing after |
| Commands.MutualReviewSends | sidepanel/panel.js:380-420 | nothing is sent when a participant's response is missing or blank; otherwise each participant receives one message, in order |
| Commands.MutualReviewQuotesLatest | sidepanel/panel.js:399-417 | each participant is sent every other participant's latest response at its section (a single other included), in participant order, never its own, followed by a newline and the prompt |
| Verifier.VerifyResponseComplete | sidepanel/panel.js:677-736 | the loop returns the verdict of the reference definition for the same reads |
| Verifier.SettledIsRepeats | sidepanel/panel.js:705-717 | "settled" is exactly "the last text seen repeated four more times, and it has at least 50 characters" |
| Verifier.VerifyAcceptsFirstSettled | sidepanel/panel.js:688-736 | verification accepts on the first read after which what was seen has settled, and accepts no text shorter than 50 characters; otherwise it times out with the last text seen |
| Verifier.GrowingReplyTimesOut | sidepanel/panel.js:700-704 | a reply that is longer on every read is never accepted |
| Verifier.RepeatsAtLeast | sidepanel/panel.js:705-707 | the count of trailing repeats reaches `m` exactly when the last `m + 1` texts seen are equal |
| Discussion.IdleIsValid | sidepanel/panel.js:27-36 | the initial state is inactive, with nothing awaited and no history, and satisfies the state invariant |
| Discussion.StartRejectsOrOpensRoundOne | sidepanel/panel.js:574-629 | a selection of other than 2 or 3 changes nothing and sends nothing. Otherwise round 1 opens on the trimmed topic or the default one, awaits every participant, and sends each one the topic |
| Discussion.StartKeepsValid | sidepanel/panel.js:593-602 | starting a discussion keeps the state invariant |
| Discussion.CheckRound | sidepanel/panel.js:839-883 | the round completes exactly when nobody is awaited, and then the evaluation progress is cleared |
| Discussion.RecordAppendsEntry | sidepanel/panel.js:754-773 | every reply is appended to the history with the round, the round type and the evaluation target, and nobody new becomes awaited |
| Discussion.RecordOutsidePlan | sidepanel/panel.js:834-843 | outside a sequential round, a reply stops the wait for its sender and completes the round iff nobody is left |
| Discussion.RoundCompletesWhenNobodyAwaited | sidepanel/panel.js:839-843 | for an awaited sender, the round completes exactly when nobody is awaited afterwards, and then nothing is sent |
| Discussion.ShiftKeepsEvalValid | sidepanel/panel.js:778-784 | moving the answered target from `remaining` to `evaluated` keeps the evaluator walking through the others in order |
| Discussion.RecordShape | sidepanel/panel.js:776-837 | a reply keeps the participants and the round type and removes at most its sender from the awaited list. It changes at most the sender's own evaluation progress |
| Discussion.RecordKeepsPlanValid | sidepanel/panel.js:776-832 | a reply keeps every evaluator's progress well formed |
| Discussion.RecordKeepsPendingMatch | sidepanel/panel.js:786-832 | in a sequential round an evaluator stays awaited exactly while it has a target left, except for the missing-target quirk |
| Discussion.RecordKeepsValid | sidepanel/panel.js:738-870 | recording a reply keeps the state invariant |
| Discussion.RecordInPlan | sidepanel/panel.js:776-832 | in a sequential round a reply shifts the progress. With no target left, the sender stops being awaited. With a next target that has a previous-round response, the sender is sent that response to evaluate. Otherwise nothing is sent |
| Discussion.SequentialEvaluation | sidepanel/panel.js:776-832 | across two replies, an evaluator with two targets is sent the second after answering the first, and after the second stops being awaited. Both replies are recorded with their targets |
| Discussion.MissingTargetKeepsEvaluatorPending | sidepanel/panel.js:826-828 | when the next target has no previous-round response, nothing is sent and the evaluator stays awaited with that target left |
| Discussion.CandidatesAreAccepted | sidepanel/panel.js:651-667 | a poll tick hands on exactly the awaited assistants whose latest response is at least 50 characters after trimming and not yet recorded this round |
| Discussion.DedupOnlyOnPoll | sidepanel/panel.js:651-667 | a response already recorded this round is never handed on by the poll, yet a captured message (panel.js lines 144-150) recording it again leaves two equal records |
| Discussion.ResponsesOfStep | sidepanel/panel.js:896-906 | reading one more participant into `prevRoundResponses` adds exactly its previous-round response |
| Discussion.NextOpensTwoParty | sidepanel/panel.js:909-947 | with two participants and nothing missing, both are awaited in a cross-evaluation round, and each is sent the other's response |
| Discussion.NextOpensThreeParty | sidepanel/panel.js:950-998 | with three participants and nothing missing, all are awaited with the initial progress, and each is sent its first evaluation request |
| Discussion.NextWithMissingOnlyCounts | sidepanel/panel.js:886-906 | with a previous-round response missing, the round number is all that changes and nothing is sent |
| Discussion.NextTwoPartyCrossEvaluates | sidepanel/panel.js:909-947 | two participants: each is sent the other's previous-round response unchanged, and both are awaited |
| Discussion.EvaluationRequestsAreFirst | sidepanel/panel.js:968-983 | the loop's requests, read off the plan and `prevRoundResponses`, are each evaluator's first evaluation request |
| Discussion.FirstEvaluationsSendEach | sidepanel/panel.js:968-983 | evaluators that each have a target get one request each, in order |
| Discussion.NextThreePartyStartsSequence | sidepanel/panel.js:950-998 | three participants: all are awaited. Each starts with the others, in participant order, and is first sent the previous-round response of the first of them |
| Discussion.InitialPlanValid | sidepanel/panel.js:954-965 | the initial plan of three distinct participants is well formed and gives everyone two targets |
| Discussion.NextKeepsValid | sidepanel/panel.js:885-1003 | opening the next round keeps the state invariant |
| Discussion.SummaryAsksFirstTwo | sidepanel/panel.js:1066-1098 | only the first two participants are asked and awaited, with the same prompt, which quotes every recorded entry of rounds 1 to the current one. A third participant is neither asked nor awaited |
| Discussion.SummaryKeepsValid | sidepanel/panel.js:1093-1094 | asking for summaries keeps the state invariant |
| Discussion.ShownSummaries | sidepanel/panel.js:1101-1113 | each shown summary is the content of that assistant's first summary record, or empty when it has none |
| Discussion.ShowSummaryEndsDiscussion | sidepanel/panel.js:1160 | showing the summaries keeps the invariant, and afterwards an interjection sends nothing |
| Discussion.InterjectSends | sidepanel/panel.js:1005-1057 | nothing is sent for a blank message, outside a discussion, or when either of the first two responses is missing |
| Discussion.InterjectQuotesOther | sidepanel/panel.js:1023-1054 | each of the first two participants is sent the trimmed message followed by the other's latest response, which the message gives back |
| Panel.DiscussionPanel.constructor | sidepanel/panel.js:27-36 | the panel starts idle, with no timer and nothing sent |
| Panel.DiscussionPanel.StartDiscussion | sidepanel/panel.js:574-629 | the new state and the sends are those of `Start`, polling starts for a valid selection, and the invariant is kept |
| Panel.DiscussionPanel.SendTopic | sidepanel/panel.js:622-625 | the loop sends the topic to each selected assistant in order |
| Panel.DiscussionPanel.HandleDiscussionResponse | sidepanel/panel.js:738-870 | inactive: nothing changes. Active: the reply, settled by verification and the grace re-check, is recorded as `Record` says, and the invariant is kept |
| Panel.DiscussionPanel.RecordResponse | sidepanel/panel.js:754-843 | the in-place update equals the `Record` transition, sends included |
| Panel.DiscussionPanel.OnResponseCaptured | sidepanel/panel.js:144-150 | a captured response is handled only when the discussion is active and the sender is awaited |
| Panel.DiscussionPanel.PollTick | sidepanel/panel.js:633-673 | the timer stops when inactive or when nobody is awaited; otherwise the tick hands on exactly the poll's candidates and changes no state |
| Panel.DiscussionPanel.NextRound | sidepanel/panel.js:885-1003 | the state and the sends are those of `Next`, polling starts when a round opens, and the invariant is kept |
| Panel.DiscussionPanel.OpenTwoPartyRound | sidepanel/panel.js:909-947 | the two-participant branch ends in `Next`'s state and sends |
| Panel.DiscussionPanel.OpenThreePartyRound | sidepanel/panel.js:950-998 | the three-participant branch ends in `Next`'s state and sends |
| Panel.DiscussionPanel.SendFirstEvaluations | sidepanel/panel.js:968-983 | the loop sends each evaluator the request for its first target |
| Panel.DiscussionPanel.Interject | sidepanel/panel.js:1005-1057 | the sends are those of `InterjectSends`, and the discussion state is unchanged |
| Panel.DiscussionPanel.GenerateSummary | sidepanel/panel.js:1066-1114 | the state and the sends are those of `RequestSummary`, the summary timer waits for the first two, and the invariant is kept |
| Panel.DiscussionPanel.CheckForSummary | sidepanel/panel.js:1101-1113 | once nobody is awaited the timer stops, shows both summaries and ends the discussion, with the rest of the state kept and the invariant preserved; before that, nothing changes |
| Panel.DiscussionPanel.ResetDiscussion | sidepanel/panel.js:1944-1957 | the state is the initial one, history included, and polling stops |
| Panel.CollectResponses | sidepanel/panel.js:651-667 | the loop hands on exactly the awaited assistants the poll's filter accepts, with their responses |
| Panel.PreviousResponses | sidepanel/panel.js:896-906 | `missing` holds iff some participant has no previous-round response, and otherwise the map holds every participant's response |
| Panel.BuildHistoryText | sidepanel/panel.js:1072-1081 | the loop builds the transcript of rounds 1 to the current one |
| Panel.BuildRoundText | sidepanel/panel.js:1074-1080 | one round's text is its header followed by its records in order |
| Capture.Reported | content/chatgpt.js:248-253 | a capture is reported exactly when the loop decided on a content different from the last one reported |
| Capture.Ticks | content/chatgpt.js:212-220 | the loop looks at no more than 1200 samples, one per 500 ms in ten minutes |
| Capture.StreakAtLeast | content/chatgpt.js:244-265 | `stableCount` reaching `m` is exactly `m` stable samples in a row |
| Capture.WindowIsStreak | content/chatgpt.js:246-248 | a run of four stable samples closes exactly when the streak reaches the threshold |
| Capture.ScanDecidesAtFirstWindow | content/chatgpt.js:220-268 | the loop decides on the first sample that closes a run of four stable samples, stops at the first invalid context, and otherwise times out |
| Capture.DecidedSampleIsStable | content/perplexity.js:326-337 | a decided capture is non-empty, at least 50 characters for Perplexity, and not streaming for Claude and Perplexity |
| Capture.ChangingContentNeverDecides | content/chatgpt.js:242-265 | content that changes on every sample is never captured |
| ChatGpt.ContentScript.constructor | content/chatgpt.js:179-180 | nothing captured and no capture in progress |
| ChatGpt.ContentScript.WaitForStreamingComplete | content/chatgpt.js:200-274 | a call while capturing does nothing. Otherwise the loop ends as `Scan` says for ChatGPT's rule and reports its decision only when it differs from the last report |
| Claude.ContentScript.constructor | content/claude.js:168-169 | nothing captured and no capture in progress |
| Claude.ContentScript.WaitForStreamingComplete | content/claude.js:189-241 | the same, with Claude's rule: stable only when no streaming indicator is shown |
| Perplexity.ContentScript.constructor | content/perplexity.js:270-271 | nothing captured and no capture in progress |
| Perplexity.ContentScript.WaitForStreamingComplete | content/perplexity.js:294-364 | the same, with Perplexity's rule: not streaming and at least 50 characters |
| Perplexity.ContentScript.InjectMessage | content/perplexity.js:106-189 | the retry settles as `SettledAs` says, and once the message is sent the capture loop runs |
| Retry.InjectMessage | content/gemini.js:69-95 | the call settles on the first attempt that sends or fails for another reason than a missing element, or else throws on the tenth, after 500 ms per retry |
| Retry.SettlesAtIsFirst | content/perplexity.js:106-132 | the reference definition finds the first attempt that is not a retryable failure, capped at the tenth |
| Retry.OutcomeDetermined | content/gemini.js:69-95 | any outcome meeting the loop's contract is the one the reference definition names |
| Retry.MissingInputGivesUpAfterTenTries | content/gemini.js:77-91 | a page that never shows its input field gets ten tries and 4.5 seconds before the error reaches the caller |
| Gemini.IsDifferent | content/gemini.js:423-426 | for non-empty trimmed content, `isDifferent` is plain inequality |
| Gemini.GeminiReported | content/gemini.js:421-459 | a capture is reported exactly when the decided content `isDifferent` from the last one |
| Gemini.ReportedIffTrimmedDiffers | content/gemini.js:414-459 | a decision is reported exactly when it differs from the last report after trimming |
| Gemini.ForceCheckLast | content/gemini.js:49-60 | FORCE_CHECK_RESPONSE keeps the last capture, or replaces it with an unseen non-empty response |
| Gemini.CapturedFlagAsWritten | content/gemini.js:61 | the `captured` flag holds only for an empty response after a non-empty capture, a response the page reader never gives |
| Gemini.CapturedFlagAsWrittenMisreports | content/gemini.js:52-61 | a fresh response is captured but flagged as not captured |
| Gemini.CapturedFlagNeverSetForReaderAnswers | content/gemini.js:49-62 | for every answer `getLatestResponse` can give (`null`, or a trimmed text longer than 20 characters, lines 542-545 and 620-631) the flag is `false`, and a fresh answer is stored all the same |
| Gemini.ContentScript.constructor | content/gemini.js:299-300 | nothing captured and no capture in progress |
| Gemini.ContentScript.WaitForStreamingComplete | content/gemini.js:360-471 | a call while capturing does nothing. Otherwise the loop ends as `Scan` says for Gemini's trimmed rule and reports only what `isDifferent` from the last report |
| Gemini.ContentScript.AwaitStableContent | content/gemini.js:380-465 | the sampling loop ends exactly as `Scan` says for Gemini's rule |
| Gemini.ContentScript.ReportCapture | content/gemini.js:423-459 | the decided content is reported and stored iff it `isDifferent` from the last capture |
| Gemini.ContentScript.PeriodicResponseCheck | content/gemini.js:172-200 | the check fires on the first of 120 checks that finds an unseen response, and otherwise gives up |
| Gemini.ContentScript.ForceCheckResponse | content/gemini.js:49-62 | an unseen non-empty response is reported and stored, and the reply carries the response and the flag as written |
| Gemini.ContentScript.InjectMessage | content/gemini.js:69-170 | the retry settles as `SettledAs` says. Once sent, the last capture is forgotten and the capture loop runs |
| Gemini.FreshMessageReportsAnyDecision | content/gemini.js:155-162 | after a message is sent, any decided capture is reported, even one equal to the capture before |

## Left out

- Timers, `await` and concurrency are not modelled. A loop runs to its end inside one method call, and time is the number of 500 ms ticks. The interleaving of a capture loop, the periodic check and the panel's poll is not modelled.
- DOM reads (`getLatestResponse` in the panel and in each script, streaming indicators, `isContextValid`) are parameters: one value per tick. The element selectors and `attemptInjectMessage`'s DOM work are not modelled; each attempt is given as sent or failed with a message.
- Logging, status text, button states, the HTML transcript export and `formatMarkdown` have no bearing on the discussion state and are left out. Of `showSummary`, only its effect on the state is modelled: it ends the discussion (`Discussion.ShowSummary`). The HTML it builds is left out.
- `handleSend` and the routing of plain and mention messages to `sendToAI` are not part of this model, beyond `parseMessage` itself. `sendToAI` is recorded as an entry in `outbox`; its result is ignored, as the panel ignores it.
- background.js, tab management, `ensureCurrentRoundResponsesComplete` and the content scripts' MutationObserver paths (`checkForResponse`) are not part of this model. The observers only call `waitForStreamingComplete`, which its `isCapturing` guard covers.
- Text.Lower: lower-cases ASCII letters only. JavaScript's `toLowerCase` also maps other letters; the model applies it only to names and keywords that the `/i` match restricts to ASCII.
- Verifier.VerifyResponseComplete: the branch for a `null` initial content is not modelled, because the panel always passes a string.
- Panel.DiscussionPanel.GenerateSummary: requires at least two participants. With fewer, the code would send to `undefined`; the button is not reachable then.
- Panel.DiscussionPanel.Interject: with fewer than two participants it sends nothing. The code would send to `undefined`, but an active discussion always has two or three participants.
- Panel.DiscussionPanel.StartDiscussion: keeps the invariant only for a selection without repeats, which the checkboxes guarantee.
- Panel.DiscussionPanel.HandleDiscussionResponse: each verification is given its 60 reads up front, not the reads it actually makes.
- Discussion.EvaluationRequests: a target missing from `prevRoundResponses` is sent as the text `undefined`. `nextRound` never reaches that case, and the model proves so (`Discussion.EvaluationRequestsAreFirst`).
- Panel.DiscussionPanel.CheckForSummary: models one summary timer. Asking for summaries twice in the code starts two timers; the model keeps only the latest pair.
- Gemini.ContentScript.PeriodicResponseCheck: returns the tick on which the check fires. The `waitForStreamingComplete` call that the firing tick starts (content/gemini.js:186-188) is not modelled as part of the check; the capture it starts is `Gemini.ContentScript.WaitForStreamingComplete`, which can begin after an earlier capture has already decided.
- The report sends of all four content scripts append to `sent` unconditionally. `safeSendMessage` skips the send when the extension context has become invalid (content/chatgpt.js:14-18, content/gemini.js:14-24 and the same helper in the other two); that check is not modelled.

- Lengths are counted in Unicode characters, as `|s|` does, not in UTF-16 code units as JavaScript's `.length` does. Text with characters outside the Basic Multilingual Plane (emoji, for instance) counts shorter here than in the code. This shifts the 50-character minimums (sidepanel/panel.js:653, 711; content/perplexity.js:331), the growing test (sidepanel/panel.js:700) and Gemini's 20-character reader threshold.
