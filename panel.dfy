/** The side panel's discussion mode as it runs: `discussionState` and the
    polling timer as fields that its handlers update in place. Each handler
    is proved to leave the state its transition in module Discussion
    describes, and to hand `sendToAI` that transition's messages in order.
    Responses the panel reads from the assistants' tabs come in as
    parameters: `getLatestResponse` results and the reads a verification
    makes. */
module Panel {
  import opened Text
  import opened History
  import opened Prompts
  import opened Discussion
  import Verifier

  class DiscussionPanel {
    var active: bool
    var topic: string
    var participants: seq<string>
    var currentRound: nat
    var history: seq<Entry>
    var pending: seq<string>
    var roundType: RoundType
    var plan: Option<Plan>
    /** Whether `responsePollingInterval` is running. */
    var polling: bool
    /** The pair `checkForSummary` waits to show, while that timer runs. */
    var summaryPair: Option<(string, string)>
    /** Every `sendToAI(ai, message)`, oldest first. */
    var outbox: seq<Outgoing>

    function Snapshot(): State
      reads this`active, this`topic, this`participants, this`currentRound, this`history, this`pending, this`roundType, this`plan
    {
      State(active, topic, participants, currentRound, history, pending, roundType, plan)
    }

    ghost predicate Valid()
      reads this`active, this`topic, this`participants, this`currentRound, this`history, this`pending, this`roundType, this`plan
    {
      Discussion.Valid(Snapshot())
    }

    constructor ()
      ensures Snapshot() == Idle && Valid() && !polling && summaryPair == None && outbox == []
    {
      active, topic, participants, currentRound := false, "", [], 0;
      history, pending, roundType, plan := [], [], NoRound, None;
      polling, summaryPair, outbox := false, None, [];
      IdleIsValid();
    }

    method Send(ai: string, message: string)
      modifies this`outbox
      ensures outbox == old(outbox) + [Outgoing(ai, message)]
      ensures Snapshot() == old(Snapshot()) && polling == old(polling) && summaryPair == old(summaryPair)
    {
      outbox := outbox + [Outgoing(ai, message)];
    }

    /** `startDiscussion` with the typed topic and the checked participants. */
    method StartDiscussion(topicInput: string, selected: seq<string>)
      modifies this
      ensures var st := Start(old(Snapshot()), topicInput, selected);
              Snapshot() == st.state && outbox == old(outbox) + st.sends
      ensures polling == (2 <= |selected| <= 3 || old(polling)) && summaryPair == old(summaryPair)
      ensures old(Valid()) && NoDuplicates(selected) ==> Valid()
    {
      if Valid() && NoDuplicates(selected) {
        StartKeepsValid(Snapshot(), topicInput, selected);
      }
      var chosen := Trim(topicInput);
      if chosen == "" {
        chosen := DefaultTopic;
      }
      if |selected| < 2 || |selected| > 3 {
        return;
      }
      OpenRoundOne(chosen, selected);
      SendTopic(selected, chosen);
      polling := true;
    }

    /** The new `discussionState` of `startDiscussion`. */
    method OpenRoundOne(chosen: string, selected: seq<string>)
      modifies this`active, this`topic, this`participants, this`currentRound, this`history, this`pending, this`roundType, this`plan
      ensures Snapshot() == State(true, chosen, selected, 1, [], Dedup(selected), Initial, None)
    {
      active, topic, participants, currentRound := true, chosen, selected, 1;
      history, pending, roundType, plan := [], Dedup(selected), Initial, None;
    }

    /** The loop of `startDiscussion` that sends everyone the topic. */
    method SendTopic(selected: seq<string>, topic: string)
      modifies this`outbox
      ensures outbox == old(outbox) + TopicSends(selected, topic)
    {
      for i := 0 to |selected|
        invariant outbox == old(outbox) + TopicSends(selected, topic)[..i]
      {
        Send(selected[i], TopicPrompt(topic));
        assert TopicSends(selected, topic)[..i + 1] == TopicSends(selected, topic)[..i] + [Outgoing(selected[i], TopicPrompt(topic))];
        AppendAssoc(old(outbox), TopicSends(selected, topic)[..i], [Outgoing(selected[i], TopicPrompt(topic))]);
      }
      assert TopicSends(selected, topic)[..|selected|] == TopicSends(selected, topic);
    }

    /** `handleDiscussionResponse`: verify the reply, verify again from a
        later read that has grown, then record it. `first` and `second` are
        the reads of the two verifications, `post` the read in between. */
    method HandleDiscussionResponse(ai: string, content: string, first: seq<Option<string>>, post: Option<string>, second: seq<Option<string>>)
      returns (completed: bool)
      requires |first| >= Verifier.MaxReads && |second| >= Verifier.MaxReads
      modifies this
      ensures !old(active) ==> Snapshot() == old(Snapshot()) && outbox == old(outbox) && !completed
      ensures old(active) ==>
                var st := Record(old(Snapshot()), ai, Settle(content, first, post, second));
                Snapshot() == st.state && outbox == old(outbox) + st.sends && completed == st.roundComplete
      ensures polling == old(polling) && summaryPair == old(summaryPair)
      ensures old(Valid()) ==> Valid()
    {
      if !active {
        return false;
      }
      ghost var s := Snapshot();
      var verified := Verifier.VerifyResponseComplete(content, first);
      var finalContent := verified.content;
      if post.Some? && |post.value| > |finalContent| {
        var again := Verifier.VerifyResponseComplete(post.value, second);
        finalContent := again.content;
      }
      completed := RecordResponse(ai, finalContent);
      if Discussion.Valid(s) {
        RecordKeepsValid(s, ai, finalContent);
      }
    }

    /** The part of `handleDiscussionResponse` after verification, with
        `onRoundComplete`. */
    method RecordResponse(ai: string, finalContent: string) returns (completed: bool)
      requires active
      modifies this
      ensures var st := Record(old(Snapshot()), ai, finalContent);
              Snapshot() == st.state && outbox == old(outbox) + st.sends && completed == st.roundComplete
      ensures polling == old(polling) && summaryPair == old(summaryPair)
    {
      var evaluationTarget: Option<string> := None;
      if plan.Some? && ai in plan.value && plan.value[ai].remaining != [] {
        evaluationTarget := Some(plan.value[ai].remaining[0]);
      }
      history := history + [Entry(currentRound, ai, roundType, finalContent, evaluationTarget)];
      if plan.Some? {
        if ai in plan.value {
          var evalState := plan.value[ai];
          if evalState.remaining != [] {
            evalState := EvalState(evalState.evaluated + {evalState.remaining[0]}, evalState.remaining[1..]);
          }
          plan := Some(plan.value[ai := evalState]);
          if evalState.remaining != [] {
            var nextTarget := evalState.remaining[0];
            var targetResponse := if currentRound == 0 then None else FindContent(history, currentRound - 1, nextTarget);
            if Truthy(targetResponse) {
              Send(ai, EvaluationPrompt(nextTarget, topic, targetResponse.value));
              return false;
            }
          } else {
            pending := Without(pending, ai);
          }
        }
      } else {
        pending := Without(pending, ai);
      }
      if pending == [] {
        plan := None;
        completed := true;
      } else {
        completed := false;
      }
    }

    /** RESPONSE_CAPTURED from a content script: handled only while the
        discussion is active and the sender is awaited. */
    method OnResponseCaptured(ai: string, content: string, first: seq<Option<string>>, post: Option<string>, second: seq<Option<string>>)
      returns (completed: bool)
      requires |first| >= Verifier.MaxReads && |second| >= Verifier.MaxReads
      modifies this
      ensures !(old(active) && ai in old(pending)) ==> Snapshot() == old(Snapshot()) && outbox == old(outbox) && !completed
      ensures old(active) && ai in old(pending) ==>
                var st := Record(old(Snapshot()), ai, Settle(content, first, post, second));
                Snapshot() == st.state && outbox == old(outbox) + st.sends && completed == st.roundComplete
      ensures polling == old(polling) && summaryPair == old(summaryPair)
      ensures old(Valid()) ==> Valid()
    {
      completed := false;
      if active && ai in pending {
        completed := HandleDiscussionResponse(ai, content, first, post, second);
      }
    }

    /** One tick of the polling timer. `latest` is what `getLatestResponse`
        returns for each assistant during the tick. The tick does not wait
        for the handlers it starts: it returns the replies it hands to
        `handleDiscussionResponse`, which run after it. */
    method PollTick(latest: map<string, Option<string>>) returns (handed: seq<Delivery>)
      modifies this
      ensures Snapshot() == old(Snapshot()) && outbox == old(outbox) && summaryPair == old(summaryPair)
      ensures !old(polling) ==> handed == [] && !polling
      ensures old(polling) && (!active || pending == []) ==> handed == [] && !polling
      ensures old(polling) && active && pending != [] ==> polling && handed == Candidates(pending, latest, history, currentRound)
    {
      handed := [];
      if !polling {
        return;
      }
      if !active || pending == [] {
        polling := false;
        return;
      }
      handed := CollectResponses(pending, latest, history, currentRound);
    }

    /** `nextRound`. */
    method NextRound()
      modifies this
      ensures var st := Next(old(Snapshot()));
              Snapshot() == st.state && outbox == old(outbox) + st.sends
      ensures polling == ((!Missing(old(Snapshot())) && 2 <= |participants| <= 3) || old(polling))
      ensures summaryPair == old(summaryPair)
      ensures old(Valid()) ==> Valid()
    {
      ghost var s := Snapshot();
      if Discussion.Valid(s) {
        NextKeepsValid(s);
      }
      currentRound := currentRound + 1;
      var prevRound := currentRound - 1;
      var missing, prevRoundResponses := PreviousResponses(participants, history, prevRound);
      if missing {
        return;
      }
      if |participants| == 2 {
        OpenTwoPartyRound(prevRoundResponses, s);
        return;
      }
      if |participants| == 3 {
        OpenThreePartyRound(prevRoundResponses, s);
        return;
      }
    }

    /** The two-participant branch of `nextRound`. */
    method OpenTwoPartyRound(prevRoundResponses: map<string, string>, ghost s: State)
      requires Snapshot() == s.(currentRound := s.currentRound + 1) && !Missing(s) && |participants| == 2
      requires prevRoundResponses == ResponsesOf(s.participants, s.history, s.currentRound)
      modifies this
      ensures Snapshot() == Next(s).state && outbox == old(outbox) + Next(s).sends
      ensures polling && summaryPair == old(summaryPair)
    {
      NextOpensTwoParty(s);
      var ai1, ai2 := participants[0], participants[1];
      AwaitEvaluations(None, Dedup([ai1, ai2]));
      Send(ai1, EvaluationPrompt(ai2, topic, prevRoundResponses[ai2]));
      Send(ai2, EvaluationPrompt(ai1, topic, prevRoundResponses[ai1]));
      polling := true;
    }

    /** The three-participant branch of `nextRound`: each evaluator starts on
        its first target. */
    method OpenThreePartyRound(prevRoundResponses: map<string, string>, ghost s: State)
      requires Snapshot() == s.(currentRound := s.currentRound + 1) && !Missing(s) && |participants| == 3
      requires prevRoundResponses == ResponsesOf(s.participants, s.history, s.currentRound)
      modifies this`plan, this`pending, this`roundType, this`outbox, this`polling
      ensures Snapshot() == Next(s).state && outbox == old(outbox) + Next(s).sends
      ensures polling
    {
      AwaitThreeEvaluators(s);
      SendThreeFirstEvaluations(prevRoundResponses, s);
      NextOpensThreeParty(s);
      polling := true;
    }

    /** The sends of the three-participant branch: each evaluator's first
        request, in participant order. */
    method SendThreeFirstEvaluations(prevRoundResponses: map<string, string>, ghost s: State)
      requires participants == s.participants && topic == s.topic
      requires prevRoundResponses == ResponsesOf(s.participants, s.history, s.currentRound)
      modifies this`outbox
      ensures outbox == old(outbox) + FirstEvaluations(s.participants, s)
    {
      EvaluationRequestsAreFirst(s.participants, s);
      SendFirstEvaluations(participants, InitialPlan(participants), prevRoundResponses);
    }

    /** The evaluators' progress and the awaited list of a three-participant
        cross-evaluation round. */
    method AwaitThreeEvaluators(ghost s: State)
      requires Snapshot() == s.(currentRound := s.currentRound + 1) && !Missing(s) && |participants| == 3
      modifies this`plan, this`pending, this`roundType
      ensures Snapshot() == Next(s).state
    {
      NextOpensThreeParty(s);
      AwaitEvaluations(Some(InitialPlan(participants)), Dedup(participants));
    }

    /** The cross-evaluation round of `nextRound`: who is awaited, and the
        evaluators' progress when there are three. */
    method AwaitEvaluations(evaluations: Option<Plan>, awaited: seq<string>)
      modifies this`plan, this`pending, this`roundType
      ensures plan == evaluations && pending == awaited && roundType == CrossEval
      ensures Snapshot() == old(Snapshot()).(plan := evaluations, pending := awaited, roundType := CrossEval)
    {
      plan := evaluations;
      pending := awaited;
      roundType := CrossEval;
    }

    /** The loop of `nextRound` that sends each evaluator its first request. */
    method SendFirstEvaluations(evaluators: seq<string>, evaluations: Plan, prevRoundResponses: map<string, string>)
      modifies this`outbox
      ensures outbox == old(outbox) + EvaluationRequests(evaluators, evaluations, prevRoundResponses, topic)
    {
      for j := 0 to |evaluators|
        invariant outbox == old(outbox) + EvaluationRequests(evaluators[..j], evaluations, prevRoundResponses, topic)
      {
        var evaluator := evaluators[j];
        assert evaluators[..j + 1][..j] == evaluators[..j];
        if evaluator in evaluations && evaluations[evaluator].remaining != [] {
          var firstTarget := evaluations[evaluator].remaining[0];
          var targetResponse := if firstTarget in prevRoundResponses then prevRoundResponses[firstTarget] else "undefined";
          var msg := EvaluationPrompt(firstTarget, topic, targetResponse);
          AppendAssoc(old(outbox), EvaluationRequests(evaluators[..j], evaluations, prevRoundResponses, topic), [Outgoing(evaluator, msg)]);
          Send(evaluator, msg);
        }
      }
      assert evaluators[..|evaluators|] == evaluators;
    }

    /** `handleInterject` with the typed message and the latest responses
        of the first two participants. A discussion with one participant
        cannot be active, so the check for none covers it. */
    method Interject(input: string, response1: Option<string>, response2: Option<string>)
      modifies this`outbox
      ensures outbox == old(outbox) + InterjectSends(old(Snapshot()), input, response1, response2)
      ensures Snapshot() == old(Snapshot()) && polling == old(polling) && summaryPair == old(summaryPair)
    {
      var message := Trim(input);
      if message == "" {
        return;
      }
      if !active || |participants| < 2 {
        return;
      }
      var ai1, ai2 := participants[0], participants[1];
      if !Truthy(response1) || !Truthy(response2) {
        return;
      }
      Send(ai1, InterjectMessage(message, ai2, response2.value));
      Send(ai2, InterjectMessage(message, ai1, response1.value));
    }

    /** `generateSummary`: ask the first two participants and start the
        timer that shows their summaries. */
    method GenerateSummary()
      requires |participants| >= 2
      modifies this
      ensures var st := RequestSummary(old(Snapshot()));
              Snapshot() == st.state && outbox == old(outbox) + st.sends
      ensures summaryPair == Some((participants[0], participants[1])) && polling == old(polling)
      ensures old(Valid()) ==> Valid()
    {
      if Valid() {
        SummaryKeepsValid(Snapshot());
      }
      var ai1, ai2 := participants[0], participants[1];
      var historyText := BuildHistoryText(topic, history, currentRound);
      var summaryPrompt := SummaryIntro + historyText;
      roundType := Summary;
      pending := Dedup([ai1, ai2]);
      Send(ai1, summaryPrompt);
      Send(ai2, summaryPrompt);
      summaryPair := Some((ai1, ai2));
    }

    /** One tick of the `checkForSummary` timer: once nobody is awaited it
        stops, shows the two summaries and ends the discussion. */
    method CheckForSummary() returns (shown: Option<(string, string)>)
      modifies this
      ensures outbox == old(outbox) && polling == old(polling)
      ensures old(summaryPair).Some? && old(pending) == [] ==>
                && Snapshot() == ShowSummary(old(Snapshot())) && summaryPair == None
                && shown == Some(ShownSummaries(history, old(summaryPair).value.0, old(summaryPair).value.1))
      ensures !(old(summaryPair).Some? && old(pending) == []) ==>
                Snapshot() == old(Snapshot()) && summaryPair == old(summaryPair) && shown == None
      ensures old(Valid()) ==> Valid()
    {
      shown := None;
      if summaryPair.Some? && pending == [] {
        var ai1, ai2 := summaryPair.value.0, summaryPair.value.1;
        summaryPair := None;
        shown := Some((SummaryOf(history, ai1), SummaryOf(history, ai2)));
        active := false;
      }
    }

    /** `resetDiscussion`: back to the initial state and the polling timer
        stopped. The summary timer, if running, is left alone. */
    method ResetDiscussion()
      modifies this
      ensures Snapshot() == Idle && Valid() && !polling
      ensures outbox == old(outbox) && summaryPair == old(summaryPair)
    {
      active, topic, participants, currentRound := false, "", [], 0;
      history, pending, roundType, plan := [], [], NoRound, None;
      polling := false;
      IdleIsValid();
    }
  }

  /** The poll's loop over the awaited assistants. */
  method CollectResponses(pending: seq<string>, latest: map<string, Option<string>>, history: seq<Entry>, round: nat)
    returns (handed: seq<Delivery>)
    ensures handed == Candidates(pending, latest, history, round)
    ensures forall d :: d in handed <==>
              d.ai in pending && PollAccepts(history, round, d.ai, Latest(latest, d.ai)) && d.content == Latest(latest, d.ai).value
  {
    handed := [];
    for i := 0 to |pending|
      invariant handed == Candidates(pending[..i], latest, history, round)
    {
      var aiType := pending[i];
      assert pending[..i + 1][..i] == pending[..i];
      var response := Latest(latest, aiType);
      if response.Some? && |Trim(response.value)| > 0 {
        if |Trim(response.value)| < MinContentLength {
          continue;
        }
        var alreadyRecorded := AlreadyRecorded(history, aiType, round, response.value);
        if !alreadyRecorded {
          handed := handed + [Delivery(aiType, response.value)];
        }
      }
    }
    assert pending[..|pending|] == pending;
    forall d ensures d in handed <==>
        d.ai in pending && PollAccepts(history, round, d.ai, Latest(latest, d.ai)) && d.content == Latest(latest, d.ai).value
    {
      CandidatesAreAccepted(pending, latest, history, round, d);
    }
  }

  /** The loop of `nextRound` over the participants: the previous round's
      responses, or that one of them is missing. */
  method PreviousResponses(participants: seq<string>, history: seq<Entry>, round: nat)
    returns (missing: bool, responses: map<string, string>)
    ensures missing <==> exists k :: 0 <= k < |participants| && !Truthy(FindContent(history, round, participants[k]))
    ensures !missing ==> responses == ResponsesOf(participants, history, round)
  {
    responses := map[];
    for i := 0 to |participants|
      invariant forall k :: 0 <= k < i ==> Truthy(FindContent(history, round, participants[k]))
      invariant responses == ResponsesOf(participants[..i], history, round)
    {
      var response := FindContent(history, round, participants[i]);
      if !Truthy(response) {
        return true, responses;
      }
      ResponsesOfStep(participants, history, round, i);
      responses := responses[participants[i] := response.value];
    }
    assert participants[..|participants|] == participants;
    missing := false;
  }

  /** The transcript `generateSummary` builds round by round. */
  method BuildHistoryText(topic: string, history: seq<Entry>, currentRound: nat) returns (historyText: string)
    ensures historyText == HistoryText(topic, history, currentRound)
  {
    var opening := "Topic: " + topic + "\n\n";
    historyText := opening;
    var round := 1;
    while round <= currentRound
      invariant 1 <= round <= currentRound + 1
      invariant historyText == opening + RoundsText(history, round - 1)
    {
      var roundText := BuildRoundText(history, round);
      AppendAssoc(opening, RoundsText(history, round - 1), roundText);
      historyText := historyText + roundText;
      round := round + 1;
    }
  }

  /** One round of that transcript: its header, then its records in order. */
  method BuildRoundText(history: seq<Entry>, round: nat) returns (roundText: string)
    ensures roundText == RoundText(history, round)
  {
    var header := "=== Round " + NatToString(round) + " ===\n\n";
    var roundEntries := RoundEntries(history, round);
    var parts := EntryTexts(roundEntries);
    roundText := header;
    for j := 0 to |roundEntries|
      invariant roundText == header + Concat(parts[..j])
    {
      ConcatStep(parts, j);
      AppendAssoc(header, Concat(parts[..j]), parts[j]);
      roundText := roundText + EntryText(roundEntries[j]);
    }
    assert parts[..|roundEntries|] == parts;
  }
}
