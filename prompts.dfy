/** The messages the side panel composes: the opening topic prompt, the
    `<ai_response>` blocks that quote one assistant to another, the
    evaluation request of a cross-evaluation round, the cross-reference,
    mutual-review and interjection messages, and the summary request.
    Every builder is paired with a recovery function or a placement lemma
    that says what the receiving assistant finds in the message. */
module Prompts {
  import opened Text
  import opened History

  // ---------------------------------------------------------------------
  // Stripping a known frame, the partner of every "frame + text + frame".

  /** The text between prefix `p` and suffix `q`, when `s` has that frame. */
  function Strip(p: string, q: string, s: string): (r: Option<string>)
    ensures r.Some? ==> s == p + r.value + q
  {
    if |p| + |q| <= |s| && s[..|p|] == p && s[|s| - |q|..] == q then
      var x := s[|p|..|s| - |q|];
      assert s == s[..|p|] + x + s[|s| - |q|..];
      Some(x)
    else None
  }

  lemma StripFrame(p: string, q: string, x: string, s: string)
    ensures Strip(p, q, s) == Some(x) <==> s == p + x + q
  {
    if s == p + x + q {
      assert s[..|p|] == p && s[|s| - |q|..] == q && s[|p|..|s| - |q|] == x;
    }
  }

  // ---------------------------------------------------------------------
  // Quoting one assistant's response.

  function Opening(ai: string): string {
    "<" + ai + "_response>\n"
  }

  function Closing(ai: string): string {
    "\n</" + ai + "_response>"
  }

  /** `<${ai}_response>\n${content}\n</${ai}_response>` */
  function Block(ai: string, content: string): string {
    Opening(ai) + content + Closing(ai)
  }

  /** A quoted response gives back exactly the content quoted. */
  lemma BlockQuotes(ai: string, content: string, b: string)
    ensures Strip(Opening(ai), Closing(ai), b) == Some(content) <==> b == Block(ai, content)
  {
    StripFrame(Opening(ai), Closing(ai), content, b);
  }

  const TopicIntro :=
    "Please share your thoughts on "
    + "the following topic:\n"
    + "\n"

  /** The opening message of a discussion (panel.js, `startDiscussion`). */
  function TopicPrompt(topic: string): (m: string)
    ensures Strip(TopicIntro, "", m) == Some(topic)
  {
    var m := TopicIntro + topic;
    StripFrame(TopicIntro, "", topic, m);
    m
  }

  // ---------------------------------------------------------------------
  // The cross-evaluation request (`nextRound` and the sequential path of
  // `handleDiscussionResponse`).

  function EvaluationIntro(target: string, topic: string): string {
    "Here is " + Capitalize(target) + "'s response to the topic \"" + topic + "\":\n\n"
  }

  const EvaluationAsk :=
    "\n\nPlease evaluate this response. "
    + "What do you agree with? What do "
    + "you disagree with? What would "
    + "you add or change?"

  function EvaluationPrompt(target: string, topic: string, content: string): string {
    EvaluationIntro(target, topic) + Block(target, content) + EvaluationAsk
  }

  /** The response an evaluation request quotes, for a known target and topic. */
  function EvaluatedContent(target: string, topic: string, m: string): Option<string> {
    Strip(EvaluationIntro(target, topic) + Opening(target), Closing(target) + EvaluationAsk, m)
  }

  /** An evaluation request carries exactly the target's content: reading
      it back gives that content, and only that request gives it. */
  lemma EvaluationPromptQuotes(target: string, topic: string, content: string, m: string)
    ensures EvaluatedContent(target, topic, m) == Some(content) <==> m == EvaluationPrompt(target, topic, content)
  {
    var p, q := EvaluationIntro(target, topic) + Opening(target), Closing(target) + EvaluationAsk;
    assert EvaluationPrompt(target, topic, content) == p + content + q;
    StripFrame(p, q, content, m);
  }

  /** Different contents never produce the same evaluation request. */
  lemma EvaluationPromptInjective(target: string, topic: string, c1: string, c2: string)
    requires EvaluationPrompt(target, topic, c1) == EvaluationPrompt(target, topic, c2)
    ensures c1 == c2
  {
    EvaluationPromptQuotes(target, topic, c1, EvaluationPrompt(target, topic, c1));
    EvaluationPromptQuotes(target, topic, c2, EvaluationPrompt(target, topic, c1));
  }

  // ---------------------------------------------------------------------
  // `handleCrossReference`: the original message, then one block per source.

  function CrossSections(sources: seq<string>, contents: seq<string>): seq<string>
    requires |sources| == |contents|
  {
    seq(|sources|, k requires 0 <= k < |sources| => "\n" + Block(sources[k], contents[k]))
  }

  function CrossReferenceMessage(original: string, sources: seq<string>, contents: seq<string>): string
    requires |sources| == |contents|
  {
    original + "\n" + Concat(CrossSections(sources, contents))
  }

  /** Text at offset `d` of part `k` lies at that offset from where part
      `k` starts in the joined parts. */
  lemma PartInConcat(parts: seq<string>, k: nat, x: string, d: nat)
    requires k < |parts| && OccursAt(parts[k], x, d)
    ensures OccursAt(Concat(parts), x, |Concat(parts[..k])| + d)
  {
    ConcatPartAt(parts, k);
    OccursWithin(Concat(parts), parts[k], x, |Concat(parts[..k])|, d);
  }

  /** Where the text at offset 1 of part `k` starts in `head + Concat(parts) + ...`. */
  function SectionStart(head: string, parts: seq<string>, k: nat): nat
    requires k <= |parts|
  {
    |head| + |Concat(parts[..k])| + 1
  }

  /** Text at offset 1 of part `k` lies at that part's section start in
      `head + Concat(parts) + tail`. */
  lemma SectionInJoin(head: string, parts: seq<string>, tail: string, k: nat, x: string)
    requires k < |parts| && OccursAt(parts[k], x, 1)
    ensures OccursAt(head + Concat(parts) + tail, x, SectionStart(head, parts, k))
  {
    PartInConcat(parts, k, x, 1);
    OccursAfter(head, Concat(parts), x, |Concat(parts[..k])| + 1);
    OccursBefore(head + Concat(parts), tail, x, |head| + |Concat(parts[..k])| + 1);
  }

  /** `m` is `head`, then the parts, then `tail`, where part `k` holds
      `blocks[k]` at offset 1: every block lies at its section's start, in
      the order of the parts, and `tail` ends the message. */
  ghost predicate PartsLayout(m: string, head: string, parts: seq<string>, blocks: seq<string>, tail: string)
    requires |blocks| == |parts|
  {
    && StartsWith(m, head)
    && (forall k :: 0 <= k < |blocks| ==> OccursAt(m, blocks[k], SectionStart(head, parts, k)))
    && (forall j, k :: 0 <= j < k < |blocks| ==> SectionStart(head, parts, j) + |blocks[j]| < SectionStart(head, parts, k))
    && OccursAt(m, tail, |head + Concat(parts)|) && |m| == |head + Concat(parts)| + |tail|
  }

  /** A block ends before the next section starts. */
  lemma SectionsInOrder(head: string, parts: seq<string>, j: nat, k: nat, x: string)
    requires j < k < |parts| && OccursAt(parts[j], x, 1)
    ensures SectionStart(head, parts, j) + |x| < SectionStart(head, parts, k)
  {
    ConcatInOrder(parts, j, k);
  }

  lemma AllSectionsInJoin(head: string, parts: seq<string>, blocks: seq<string>, tail: string)
    requires |blocks| == |parts| && forall k :: 0 <= k < |parts| ==> OccursAt(parts[k], blocks[k], 1)
    ensures forall k :: 0 <= k < |blocks| ==> OccursAt(head + Concat(parts) + tail, blocks[k], SectionStart(head, parts, k))
  {
    forall k | 0 <= k < |blocks| ensures OccursAt(head + Concat(parts) + tail, blocks[k], SectionStart(head, parts, k)) {
      SectionInJoin(head, parts, tail, k, blocks[k]);
    }
  }

  lemma AllSectionsInOrder(head: string, parts: seq<string>, blocks: seq<string>)
    requires |blocks| == |parts| && forall k :: 0 <= k < |parts| ==> OccursAt(parts[k], blocks[k], 1)
    ensures forall j, k :: 0 <= j < k < |blocks| ==> SectionStart(head, parts, j) + |blocks[j]| < SectionStart(head, parts, k)
  {
    forall j, k | 0 <= j < k < |blocks| ensures SectionStart(head, parts, j) + |blocks[j]| < SectionStart(head, parts, k) {
      SectionsInOrder(head, parts, j, k, blocks[j]);
    }
  }

  lemma JoinedPartsLayout(head: string, parts: seq<string>, blocks: seq<string>, tail: string)
    requires |blocks| == |parts| && forall k :: 0 <= k < |parts| ==> OccursAt(parts[k], blocks[k], 1)
    ensures PartsLayout(head + Concat(parts) + tail, head, parts, blocks, tail)
  {
    var m := head + Concat(parts) + tail;
    assert StartsWith(m, head) by {
      StartsWithJoin(head, Concat(parts));
      StartsWithJoin(head + Concat(parts), tail);
    }
    assert forall k :: 0 <= k < |blocks| ==> OccursAt(m, blocks[k], SectionStart(head, parts, k)) by {
      AllSectionsInJoin(head, parts, blocks, tail);
    }
    assert forall j, k :: 0 <= j < k < |blocks| ==> SectionStart(head, parts, j) + |blocks[j]| < SectionStart(head, parts, k) by {
      AllSectionsInOrder(head, parts, blocks);
    }
    assert OccursAt(m, tail, |head + Concat(parts)|) by {
      OccursAtEnd(head + Concat(parts), tail);
    }
  }

  lemma BlockInSection(block: string, tail: string)
    ensures OccursAt("\n" + block + tail, block, 1)
  {
    OccursAtEnd("\n", block);
    OccursBefore("\n" + block, tail, block, 1);
  }

  /** The message starts with the original text followed by a newline,
      then quotes the block of every source, in source order and nothing
      after the last. */
  lemma CrossReferenceQuotesSources(original: string, sources: seq<string>, contents: seq<string>)
    requires |sources| == |contents|
    ensures StartsWith(CrossReferenceMessage(original, sources, contents), original + "\n")
    ensures forall k :: 0 <= k < |sources| ==>
              OccursAt(CrossReferenceMessage(original, sources, contents), Block(sources[k], contents[k]),
                       SectionStart(original + "\n", CrossSections(sources, contents), k))
    ensures forall j, k :: 0 <= j < k < |sources| ==>
              SectionStart(original + "\n", CrossSections(sources, contents), j) + |Block(sources[j], contents[j])|
                < SectionStart(original + "\n", CrossSections(sources, contents), k)
    ensures |CrossReferenceMessage(original, sources, contents)| == |original + "\n" + Concat(CrossSections(sources, contents))|
  {
    var parts := CrossSections(sources, contents);
    var blocks := seq(|sources|, i requires 0 <= i < |sources| => Block(sources[i], contents[i]));
    forall k | 0 <= k < |parts| ensures OccursAt(parts[k], blocks[k], 1) {
      OccursAtEnd("\n", blocks[k]);
    }
    JoinedPartsLayout(original + "\n", parts, blocks, "");
    assert original + "\n" + Concat(parts) + "" == CrossReferenceMessage(original, sources, contents);
  }

  // ---------------------------------------------------------------------
  // `handleMutualReview`: each target gets the blocks of all the others.

  const MutualHeader := "Here are the perspectives from other AIs:\n"

  function MutualSections(others: seq<string>, responses: map<string, string>): seq<string>
    requires forall ai :: ai in others ==> ai in responses
  {
    seq(|others|, k requires 0 <= k < |others| => "\n" + Block(others[k], responses[others[k]]) + "\n")
  }

  function MutualReviewMessage(participants: seq<string>, target: string, responses: map<string, string>, prompt: string): string
    requires forall ai :: ai in participants ==> ai in responses
  {
    MutualHeader + Concat(MutualSections(Without(participants, target), responses)) + ("\n" + prompt)
  }

  /** Message `m` opens with `header`, quotes every one of `others` in
      that order, and ends with a newline and the prompt. */
  ghost predicate MutualLayout(m: string, header: string, others: seq<string>, responses: map<string, string>, prompt: string)
    requires forall ai :: ai in others ==> ai in responses
  {
    var parts := MutualSections(others, responses);
    && StartsWith(m, header)
    && (forall a :: 0 <= a < |others| ==>
          OccursAt(m, Block(others[a], responses[others[a]]), SectionStart(header, parts, a)))
    && (forall a, b :: 0 <= a < b < |others| ==>
          SectionStart(header, parts, a) + |Block(others[a], responses[others[a]])| < SectionStart(header, parts, b))
    && OccursAt(m, "\n" + prompt, |header + Concat(parts)|)
    && |m| == |header + Concat(parts)| + |"\n" + prompt|
  }

  lemma MutualMessageLayout(header: string, others: seq<string>, responses: map<string, string>, prompt: string)
    requires forall ai :: ai in others ==> ai in responses
    ensures MutualLayout(header + Concat(MutualSections(others, responses)) + ("\n" + prompt), header, others, responses, prompt)
  {
    var parts := MutualSections(others, responses);
    var blocks := seq(|others|, i requires 0 <= i < |others| => Block(others[i], responses[others[i]]));
    forall k | 0 <= k < |parts| ensures OccursAt(parts[k], blocks[k], 1) {
      BlockInSection(blocks[k], "\n");
    }
    JoinedPartsLayout(header, parts, blocks, "\n" + prompt);
  }

  /** Participant `k`'s mutual-review message quotes every other
      participant, in participant order and never participant `k`, and
      ends with the prompt. */
  lemma MutualReviewQuotesOthers(participants: seq<string>, k: nat, responses: map<string, string>, prompt: string)
    requires NoDuplicates(participants) && k < |participants|
    requires forall ai :: ai in participants ==> ai in responses
    ensures Without(participants, participants[k]) == participants[..k] + participants[k + 1..]
    ensures participants[k] !in Without(participants, participants[k])
    ensures MutualLayout(MutualReviewMessage(participants, participants[k], responses, prompt), MutualHeader,
                         Without(participants, participants[k]), responses, prompt)
  {
    WithoutRemovesAt(participants, k);
    MutualMessageLayout(MutualHeader, Without(participants, participants[k]), responses, prompt);
  }

  // ---------------------------------------------------------------------
  // `handleInterject`: the user's text, then the other side's latest response.

  function InterjectIntro(message: string, other: string): string {
    message + "\n\nHere is " + Capitalize(other) + "'s latest response:\n\n"
  }

  function InterjectMessage(message: string, other: string, response: string): string {
    InterjectIntro(message, other) + Block(other, response)
  }

  /** The response an interjection quotes, for a known message and sender. */
  function InterjectedResponse(message: string, other: string, m: string): Option<string> {
    Strip(InterjectIntro(message, other) + Opening(other), Closing(other), m)
  }

  /** An interjection starts with the user's text and carries exactly the
      other participant's response. */
  lemma InterjectMessageQuotes(message: string, other: string, response: string, m: string)
    ensures StartsWith(InterjectMessage(message, other, response), message)
    ensures InterjectedResponse(message, other, m) == Some(response) <==> m == InterjectMessage(message, other, response)
  {
    var p, q := InterjectIntro(message, other) + Opening(other), Closing(other);
    assert InterjectMessage(message, other, response) == p + response + q;
    assert InterjectMessage(message, other, response)[..|message|] == message;
    StripFrame(p, q, response, m);
  }

  // ---------------------------------------------------------------------
  // `generateSummary`: the history, round by round.

  function EntryText(e: Entry): string {
    "[" + Capitalize(e.ai) + "]:\n" + e.content + "\n\n"
  }

  /** `history.filter(h => h.round === round)` */
  function RoundEntries(history: seq<Entry>, round: nat): (r: seq<Entry>)
    ensures forall e :: e in r <==> e in history && e.round == round
  {
    if history == [] then []
    else (if history[0].round == round then [history[0]] else []) + RoundEntries(history[1..], round)
  }

  /** The filter keeps order and multiplicity: a record appended to the
      history is appended to its round's entries, and to no other round's. */
  lemma {:induction false} RoundEntriesAppend(history: seq<Entry>, e: Entry, round: nat)
    ensures RoundEntries(history + [e], round) == RoundEntries(history, round) + (if e.round == round then [e] else [])
  {
    if history != [] {
      assert (history + [e])[1..] == history[1..] + [e];
      RoundEntriesAppend(history[1..], e, round);
    }
  }

  function EntryTexts(entries: seq<Entry>): seq<string> {
    seq(|entries|, k requires 0 <= k < |entries| => EntryText(entries[k]))
  }

  function RoundText(history: seq<Entry>, round: nat): string {
    "=== Round " + NatToString(round) + " ===\n\n" + Concat(EntryTexts(RoundEntries(history, round)))
  }

  /** Rounds 1 to `last`. */
  function RoundsText(history: seq<Entry>, last: nat): string {
    if last == 0 then "" else RoundsText(history, last - 1) + RoundText(history, last)
  }

  function HistoryText(topic: string, history: seq<Entry>, currentRound: nat): string {
    "Topic: " + topic + "\n\n" + RoundsText(history, currentRound)
  }

  const SummaryIntro :=
    "Please summarize the following "
    + "discussion between AIs. Please "
    + "include:\n1. Main points of consensus\n"
    + "2. Main points of disagreement\n"
    + "3. Core perspectives from each "
    + "side\n4. Overall conclusion\n"
    + "\nDiscussion history:\n"

  function SummaryPrompt(topic: string, history: seq<Entry>, currentRound: nat): string {
    SummaryIntro + HistoryText(topic, history, currentRound)
  }

  lemma RoundQuotesEntry(history: seq<Entry>, e: Entry)
    requires e in history
    ensures Contains(RoundText(history, e.round), EntryText(e))
  {
    var entries := RoundEntries(history, e.round);
    var parts := EntryTexts(entries);
    var k :| 0 <= k < |entries| && entries[k] == e;
    ConcatPartAt(parts, k);
    ContainsShift("=== Round " + NatToString(e.round) + " ===\n\n", Concat(parts), "", EntryText(e));
  }

  lemma {:induction false} RoundsQuoteRound(history: seq<Entry>, last: nat, round: nat, w: string)
    requires 1 <= round <= last && Contains(RoundText(history, round), w)
    ensures Contains(RoundsText(history, last), w)
  {
    if round == last {
      ContainsShift(RoundsText(history, last - 1), RoundText(history, last), "", w);
    } else {
      RoundsQuoteRound(history, last - 1, round, w);
      ContainsShift("", RoundsText(history, last - 1), RoundText(history, last), w);
    }
  }

  /** The summary request quotes every recorded response of rounds 1 to
      the current one, each with its author. */
  lemma SummaryQuotesHistory(topic: string, history: seq<Entry>, currentRound: nat, e: Entry)
    requires e in history && 1 <= e.round <= currentRound
    ensures Contains(SummaryPrompt(topic, history, currentRound), EntryText(e))
  {
    RoundQuotesEntry(history, e);
    RoundsQuoteRound(history, currentRound, e.round, EntryText(e));
    ContainsShift("Topic: " + topic + "\n\n", RoundsText(history, currentRound), "", EntryText(e));
    ContainsShift(SummaryIntro, HistoryText(topic, history, currentRound), "", EntryText(e));
  }
}
