/** The side panel's discussion mode as a state machine over
    `discussionState`: starting a discussion, recording a reply, completing
    a round, opening the next one, asking for summaries, interjecting and
    resetting. Each transition returns the new state, the messages it hands
    to `sendToAI` in order, and whether it completed the round. */
module Discussion {
  import opened Text
  import opened History
  import opened Prompts
  import Verifier

  const DefaultTopic :=
    "Latest important news from the "
    + "past 1 week related to new features "
    + "of advanced AI tools included "
    + "but not limited to Gemini, Claude, "
    + "Chatgpt, Grok, Cursor, Antigravity, "
    + "NotebookLm, Notion AI, Perplexity, "
    + "Cursor, Copilot, Deepseek, Qwen, "
    + "Midjourney, Stable Diffusion, "
    + "Manus, Llama, Devin, Comet and "
    + "Replit."

  /** The poll ignores a response shorter than this, after trimming. */
  const MinContentLength := 50

  /** One evaluator's progress in a three-party round. */
  datatype EvalState = EvalState(evaluated: set<string>, remaining: seq<string>)

  /** `pendingEvaluations`: evaluator to progress. */
  type Plan = map<string, EvalState>

  /** `discussionState`. `pending` is the `pendingResponses` set, in its
      insertion order. */
  datatype State = State(
    active: bool,
    topic: string,
    participants: seq<string>,
    currentRound: nat,
    history: seq<Entry>,
    pending: seq<string>,
    roundType: RoundType,
    plan: Option<Plan>)

  /** The state before any discussion and after `resetDiscussion`. */
  const Idle := State(false, "", [], 0, [], [], NoRound, None)

  datatype Step = Step(state: State, sends: seq<Outgoing>, roundComplete: bool)

  function Elems(xs: seq<string>): set<string> {
    set x | x in xs
  }

  // ---------------------------------------------------------------------
  // What every reachable state satisfies.

  /** An evaluator's progress walks through the others in order: what is
      left is a suffix of them, and what was evaluated the rest. */
  ghost predicate EvalValid(others: seq<string>, e: EvalState) {
    && |e.remaining| <= |others|
    && e.remaining == others[|others| - |e.remaining|..]
    && e.evaluated == Elems(others[..|others| - |e.remaining|])
  }

  ghost predicate PlanValid(participants: seq<string>, plan: Plan) {
    && (forall ai :: ai in plan <==> ai in participants)
    && (forall ai :: ai in plan ==> EvalValid(Without(participants, ai), plan[ai]))
  }

  /** In a sequential round an evaluator is awaited exactly while it has
      someone left to evaluate. */
  ghost predicate PendingMatchesPlan(s: State) {
    s.plan.Some? && s.roundType == CrossEval && PlanValid(s.participants, s.plan.value) ==>
      forall ai :: ai in s.participants ==> (ai in s.pending <==> s.plan.value[ai].remaining != [])
  }

  ghost predicate Valid(s: State) {
    && NoDuplicates(s.participants)
    && (|s.participants| == 0 || 2 <= |s.participants| <= 3)
    && (s.active ==> 2 <= |s.participants| && 1 <= s.currentRound)
    && NoDuplicates(s.pending)
    && (forall ai :: ai in s.pending ==> ai in s.participants)
    && (forall k :: 0 <= k < |s.history| ==> 1 <= s.history[k].round <= s.currentRound)
    && (s.plan.Some? ==> PlanValid(s.participants, s.plan.value))
    && PendingMatchesPlan(s)
  }

  lemma IdleIsValid()
    ensures Valid(Idle) && !Idle.active && Idle.pending == [] && Idle.history == []
  {
  }

  // ---------------------------------------------------------------------
  // startDiscussion

  function TopicSends(selected: seq<string>, topic: string): seq<Outgoing> {
    seq(|selected|, k requires 0 <= k < |selected| => Outgoing(selected[k], TopicPrompt(topic)))
  }

  /** The topic as typed, trimmed, or the default one. */
  function TopicOf(input: string): string {
    if Trim(input) == "" then DefaultTopic else Trim(input)
  }

  function Start(s: State, topicInput: string, selected: seq<string>): Step {
    if |selected| < 2 || |selected| > 3 then Step(s, [], false)
    else
      var topic := TopicOf(topicInput);
      Step(State(true, topic, selected, 1, [], Dedup(selected), Initial, None), TopicSends(selected, topic), false)
  }

  /** A selection of other than two or three changes nothing and sends
      nothing; otherwise round 1 starts, everyone is awaited, and each
      participant is sent the topic, which its message gives back. */
  lemma StartRejectsOrOpensRoundOne(s: State, topicInput: string, selected: seq<string>)
    ensures var st := Start(s, topicInput, selected);
            (|selected| < 2 || |selected| > 3) ==> st.state == s && st.sends == []
    ensures var st, t := Start(s, topicInput, selected), Start(s, topicInput, selected).state;
            2 <= |selected| <= 3 ==>
              && t.active && t.currentRound == 1 && t.history == [] && t.participants == selected
              && t.roundType == Initial && t.plan == None
              && (forall ai :: ai in t.pending <==> ai in selected) && NoDuplicates(t.pending)
              && t.topic != "" && (Trim(topicInput) != "" ==> t.topic == Trim(topicInput))
              && |st.sends| == |selected|
              && forall k :: 0 <= k < |selected| ==>
                   st.sends[k].ai == selected[k] && Strip(TopicIntro, "", st.sends[k].message) == Some(t.topic)
  {
    var sends := TopicSends(selected, TopicOf(topicInput));
    assert |sends| == |selected|;
    assert forall k :: 0 <= k < |selected| ==> sends[k] == Outgoing(selected[k], TopicPrompt(TopicOf(topicInput)));
  }

  lemma StartKeepsValid(s: State, topicInput: string, selected: seq<string>)
    requires Valid(s) && NoDuplicates(selected)
    ensures Valid(Start(s, topicInput, selected).state)
  {
  }

  // ---------------------------------------------------------------------
  // handleDiscussionResponse and onRoundComplete

  /** The content recorded for a reply: verified once, and again from the
      later read when that read has grown. */
  function Settle(content: string, first: seq<Option<string>>, post: Option<string>, second: seq<Option<string>>): string {
    var verified := Verifier.Verify(content, first).content;
    if post.Some? && |post.value| > |verified| then Verifier.Verify(post.value, second).content else verified
  }

  /** `remaining[0]` of the evaluator's progress, when it has one. */
  function EvaluationTarget(s: State, ai: string): Option<string> {
    if s.plan.Some? && ai in s.plan.value && s.plan.value[ai].remaining != [] then Some(s.plan.value[ai].remaining[0])
    else None
  }

  /** The evaluation just answered moves from `remaining` to `evaluated`. */
  function Shift(e: EvalState): EvalState {
    if e.remaining != [] then EvalState(e.evaluated + {e.remaining[0]}, e.remaining[1..]) else e
  }

  /** The previous round's response of `ai` (there is none before round 1). */
  function PrevContent(history: seq<Entry>, round: nat, ai: string): Option<string> {
    if round == 0 then None else FindContent(history, round - 1, ai)
  }

  /** The completion check that ends `handleDiscussionResponse`, with
      `onRoundComplete` clearing the plan. */
  function CheckRound(t: State): (st: Step)
    ensures st.roundComplete <==> t.pending == []
    ensures st.sends == [] && st.state == if t.pending == [] then t.(plan := None) else t
  {
    if t.pending == [] then Step(t.(plan := None), [], true) else Step(t, [], false)
  }

  function Record(s: State, ai: string, content: string): Step {
    var entry := Entry(s.currentRound, ai, s.roundType, content, EvaluationTarget(s, ai));
    var t := s.(history := s.history + [entry]);
    if s.plan.None? then CheckRound(t.(pending := Without(s.pending, ai)))
    else if ai !in s.plan.value then CheckRound(t)
    else
      var e := Shift(s.plan.value[ai]);
      var u := t.(plan := Some(s.plan.value[ai := e]));
      if e.remaining == [] then CheckRound(u.(pending := Without(s.pending, ai)))
      else
        var next := e.remaining[0];
        var response := PrevContent(u.history, s.currentRound, next);
        if Truthy(response) then Step(u, [Outgoing(ai, EvaluationPrompt(next, s.topic, response.value))], false)
        else CheckRound(u)
  }

  /** Every reply is appended to the history, tagged with the round, the
      round type and the evaluation it answers; nothing else but the
      awaited set and the plan changes. */
  lemma RecordAppendsEntry(s: State, ai: string, content: string)
    ensures var t := Record(s, ai, content).state;
            && t.history == s.history + [Entry(s.currentRound, ai, s.roundType, content, EvaluationTarget(s, ai))]
            && t.active == s.active && t.topic == s.topic && t.participants == s.participants
            && t.currentRound == s.currentRound && t.roundType == s.roundType
            && (forall x :: x in t.pending ==> x in s.pending)
            && (forall x :: x in s.pending && x != ai ==> x in t.pending)
  {
  }

  /** Outside a sequential round, a reply stops the wait for its sender,
      and the round completes once nobody is awaited. */
  lemma RecordOutsidePlan(s: State, ai: string, content: string)
    requires s.plan.None?
    ensures var st := Record(s, ai, content);
            && st.state.pending == Without(s.pending, ai)
            && ai !in st.state.pending
            && (st.roundComplete <==> st.state.pending == [])
            && st.sends == []
  {
  }

  /** For an awaited sender the round completes exactly when the awaited
      set empties, and a completed round drops its plan. */
  lemma RoundCompletesWhenNobodyAwaited(s: State, ai: string, content: string)
    requires ai in s.pending
    ensures var st := Record(s, ai, content);
            && (st.roundComplete <==> st.state.pending == [])
            && (st.roundComplete ==> st.state.plan == None && st.sends == [])
  {
  }

  lemma ShiftKeepsEvalValid(others: seq<string>, e: EvalState)
    requires EvalValid(others, e)
    ensures EvalValid(others, Shift(e))
    ensures e.remaining != [] ==> Shift(e).remaining == e.remaining[1..] && Shift(e).evaluated == e.evaluated + {e.remaining[0]}
  {
    if e.remaining != [] {
      var n, d := |others|, |others| - |e.remaining|;
      assert others[..d + 1] == others[..d] + [others[d]];
      assert e.remaining[0] == others[d];
      assert Elems(others[..d + 1]) == Elems(others[..d]) + {others[d]};
    }
  }

  /** The plan after a reply is no plan, the same plan, or the same plan
      with the sender's progress shifted; the awaited set is the same or
      loses the sender. */
  lemma RecordShape(s: State, ai: string, content: string)
    ensures var t := Record(s, ai, content).state;
            && t.participants == s.participants && t.roundType == s.roundType
            && (t.pending == s.pending || t.pending == Without(s.pending, ai))
            && (t.plan.Some? ==> s.plan.Some?)
            && (t.plan.Some? && ai !in s.plan.value ==> t.plan == s.plan && t.pending == s.pending)
            && (t.plan.Some? && ai in s.plan.value ==> t.plan == Some(s.plan.value[ai := Shift(s.plan.value[ai])]))
  {
    if s.plan.Some? && ai in s.plan.value {
      RecordInPlan(s, ai, content);
    }
  }

  lemma PlanUpdateValid(ps: seq<string>, plan: Plan, ai: string, e: EvalState)
    requires PlanValid(ps, plan) && ai in plan && EvalValid(Without(ps, ai), e)
    ensures PlanValid(ps, plan[ai := e])
  {
  }

  lemma RecordKeepsPlanValid(s: State, ai: string, content: string)
    requires s.plan.Some? ==> PlanValid(s.participants, s.plan.value)
    ensures var t := Record(s, ai, content).state;
            t.plan.Some? ==> PlanValid(t.participants, t.plan.value)
  {
    RecordShape(s, ai, content);
    if s.plan.Some? && ai in s.plan.value {
      var plan := s.plan.value;
      ShiftKeepsEvalValid(Without(s.participants, ai), plan[ai]);
      PlanUpdateValid(s.participants, plan, ai, Shift(plan[ai]));
    }
  }

  lemma RecordKeepsPendingMatch(s: State, ai: string, content: string)
    requires Valid(s)
    ensures PendingMatchesPlan(Record(s, ai, content).state)
  {
    var t := Record(s, ai, content).state;
    RecordShape(s, ai, content);
    RecordAppendsEntry(s, ai, content);
    if t.plan.Some? && t.roundType == CrossEval && ai in s.plan.value {
      RecordInPlan(s, ai, content);
      var plan := s.plan.value;
      var e := Shift(plan[ai]);
      forall p | p in t.participants ensures (p in t.pending <==> t.plan.value[p].remaining != []) {
        if p == ai {
          if e.remaining != [] {
            assert plan[ai].remaining != [] && t.pending == s.pending;
          } else {
            assert t.pending == Without(s.pending, ai);
          }
        }
      }
    }
  }

  lemma ValidAfterReply(s: State, ai: string, e: Entry, t: State)
    requires Valid(s) && s.active && e.round == s.currentRound
    requires t.active == s.active && t.participants == s.participants && t.currentRound == s.currentRound
    requires t.history == s.history + [e]
    requires t.pending == s.pending || t.pending == Without(s.pending, ai)
    requires t.plan.Some? ==> PlanValid(t.participants, t.plan.value)
    requires PendingMatchesPlan(t)
    ensures Valid(t)
  {
    WithoutKeepsNoDuplicates(s.pending, ai);
  }

  /** Recording a reply keeps every invariant of the state. */
  lemma RecordKeepsValid(s: State, ai: string, content: string)
    requires Valid(s) && s.active
    ensures Valid(Record(s, ai, content).state)
  {
    RecordShape(s, ai, content);
    RecordAppendsEntry(s, ai, content);
    RecordKeepsPlanValid(s, ai, content);
    RecordKeepsPendingMatch(s, ai, content);
    ValidAfterReply(s, ai, Entry(s.currentRound, ai, s.roundType, content, EvaluationTarget(s, ai)), Record(s, ai, content).state);
  }

  lemma WithoutKeepsNoDuplicates(xs: seq<string>, y: string)
    requires NoDuplicates(xs)
    ensures NoDuplicates(Without(xs, y))
  {
    if y in xs {
      var k :| 0 <= k < |xs| && xs[k] == y;
      WithoutRemovesAt(xs, k);
    } else {
      WithoutAbsent(xs, y);
    }
  }

  /** A reply inside a sequential round, with the previous-round lookup
      made on the history before the reply (the reply is of the current
      round, so it cannot be what the lookup finds). */
  lemma RecordInPlan(s: State, ai: string, content: string)
    requires s.plan.Some? && ai in s.plan.value
    ensures var e := Shift(s.plan.value[ai]);
            var entry := Entry(s.currentRound, ai, s.roundType, content, EvaluationTarget(s, ai));
            var u := s.(history := s.history + [entry], plan := Some(s.plan.value[ai := e]));
            Record(s, ai, content) ==
              if e.remaining == [] then CheckRound(u.(pending := Without(s.pending, ai)))
              else if Truthy(PrevContent(s.history, s.currentRound, e.remaining[0])) then
                Step(u, [Outgoing(ai, EvaluationPrompt(e.remaining[0], s.topic, PrevContent(s.history, s.currentRound, e.remaining[0]).value))], false)
              else CheckRound(u)
  {
    var e := Shift(s.plan.value[ai]);
    var entry := Entry(s.currentRound, ai, s.roundType, content, EvaluationTarget(s, ai));
    if e.remaining != [] && s.currentRound != 0 {
      FindContentAppend(s.history, entry, s.currentRound - 1, e.remaining[0]);
    }
  }

  /** A three-party evaluator with two evaluations left answers the first,
      is sent the second (when its target answered the previous round) and
      stays awaited; its next reply answers the second and ends its wait.
      The two entries are tagged with the two targets in order. */
  lemma SequentialEvaluation(s: State, ai: string, x: string, y: string, c1: string, c2: string)
    requires s.plan.Some? && ai in s.plan.value && s.plan.value[ai].remaining == [x, y]
    requires Truthy(PrevContent(s.history, s.currentRound, y))
    ensures var st1 := Record(s, ai, c1);
            var st2 := Record(st1.state, ai, c2);
            && st1.sends == [Outgoing(ai, EvaluationPrompt(y, s.topic, PrevContent(s.history, s.currentRound, y).value))]
            && !st1.roundComplete && st1.state.pending == s.pending
            && st2.state.history == s.history + [Entry(s.currentRound, ai, s.roundType, c1, Some(x)),
                                                 Entry(s.currentRound, ai, s.roundType, c2, Some(y))]
            && st2.state.pending == Without(s.pending, ai)
            && st2.sends == []
  {
    RecordInPlan(s, ai, c1);
    var st1 := Record(s, ai, c1);
    assert Shift(s.plan.value[ai]) == EvalState(s.plan.value[ai].evaluated + {x}, [y]);
    RecordInPlan(st1.state, ai, c2);
  }

  /** The sequential-round quirk: if the next target has no previous-round
      response, nothing is sent and the evaluator stays awaited, so the
      round cannot complete through it. */
  lemma MissingTargetKeepsEvaluatorPending(s: State, ai: string, x: string, y: string, c: string)
    requires s.plan.Some? && ai in s.plan.value && s.plan.value[ai].remaining == [x, y]
    requires ai in s.pending
    requires !Truthy(PrevContent(s.history, s.currentRound, y))
    ensures var st := Record(s, ai, c);
            && st.sends == [] && !st.roundComplete
            && st.state.pending == s.pending
            && st.state.plan.Some? && st.state.plan.value[ai].remaining == [y]
  {
    RecordInPlan(s, ai, c);
    assert Shift(s.plan.value[ai]) == EvalState(s.plan.value[ai].evaluated + {x}, [y]);
  }

  // ---------------------------------------------------------------------
  // The poll and the push path

  /** The poll's filter on a pending assistant's latest response. */
  predicate PollAccepts(history: seq<Entry>, round: nat, ai: string, response: Option<string>) {
    && response.Some?
    && |Trim(response.value)| > 0
    && |Trim(response.value)| >= MinContentLength
    && !AlreadyRecorded(history, ai, round, response.value)
  }

  /** A reply handed to `handleDiscussionResponse`. */
  datatype Delivery = Delivery(ai: string, content: string)

  /** What one poll tick hands on, in the order of the awaited set. */
  function Candidates(pending: seq<string>, latest: map<string, Option<string>>, history: seq<Entry>, round: nat): seq<Delivery> {
    if pending == [] then []
    else
      var ai := pending[|pending| - 1];
      Candidates(pending[..|pending| - 1], latest, history, round)
        + (if PollAccepts(history, round, ai, Latest(latest, ai)) then [Delivery(ai, Latest(latest, ai).value)] else [])
  }

  /** A tick hands on exactly the awaited assistants whose latest response
      passes the filter, with that response. */
  lemma {:induction false} CandidatesAreAccepted(pending: seq<string>, latest: map<string, Option<string>>, history: seq<Entry>, round: nat, d: Delivery)
    ensures d in Candidates(pending, latest, history, round) <==>
              d.ai in pending && PollAccepts(history, round, d.ai, Latest(latest, d.ai)) && d.content == Latest(latest, d.ai).value
  {
    if pending != [] {
      var init := pending[..|pending| - 1];
      CandidatesAreAccepted(init, latest, history, round, d);
      assert pending == init + [pending[|pending| - 1]];
    }
  }

  /** The de-duplication is the poll's alone: a response already recorded
      for this round is never handed on again by the poll, but the push
      path, guarded only by the awaited set, records it a second time. */
  lemma DedupOnlyOnPoll(s: State, ai: string, latest: map<string, Option<string>>)
    requires Latest(latest, ai).Some? && AlreadyRecorded(s.history, ai, s.currentRound, Latest(latest, ai).value)
    ensures forall d :: d in Candidates(s.pending, latest, s.history, s.currentRound) ==> d.ai != ai
    ensures var h := Record(s, ai, Latest(latest, ai).value).state.history;
            exists j, k :: 0 <= j < k < |h| && Matches(h[j], s.currentRound, ai) && Matches(h[k], s.currentRound, ai)
                           && h[j].content == h[k].content == Latest(latest, ai).value
  {
    forall d | d in Candidates(s.pending, latest, s.history, s.currentRound) ensures d.ai != ai {
      CandidatesAreAccepted(s.pending, latest, s.history, s.currentRound, d);
    }
    var c := Latest(latest, ai).value;
    var j :| 0 <= j < |s.history| && Matches(s.history[j], s.currentRound, ai) && s.history[j].content == c;
    RecordAppendsEntry(s, ai, c);
    var h := Record(s, ai, c).state.history;
    assert h[j] == s.history[j] && h[|s.history|].content == c;
  }

  // ---------------------------------------------------------------------
  // nextRound

  /** Some participant has no (or an empty) response in the round just
      finished. */
  predicate Missing(s: State) {
    exists k :: 0 <= k < |s.participants| && !Truthy(FindContent(s.history, s.currentRound, s.participants[k]))
  }

  function PrevResponse(s: State, ai: string): string {
    Content(FindContent(s.history, s.currentRound, ai))
  }

  /** `prevRoundResponses`: each participant's response in `round`. */
  function ResponsesOf(participants: seq<string>, history: seq<Entry>, round: nat): map<string, string> {
    map ai | ai in participants :: Content(FindContent(history, round, ai))
  }

  /** One more participant read into `prevRoundResponses`. */
  lemma ResponsesOfStep(participants: seq<string>, history: seq<Entry>, round: nat, i: nat)
    requires i < |participants|
    ensures ResponsesOf(participants[..i + 1], history, round)
            == ResponsesOf(participants[..i], history, round)[participants[i] := Content(FindContent(history, round, participants[i]))]
  {
    assert forall ai :: ai in participants[..i + 1] <==> ai in participants[..i] || ai == participants[i] by {
      assert participants[..i + 1] == participants[..i] + [participants[i]];
    }
  }

  /** Every evaluator starts with the others still to evaluate. */
  function InitialPlan(participants: seq<string>): Plan {
    map ai | ai in participants :: EvalState({}, Without(participants, ai))
  }

  /** The first evaluation request of an evaluator, if it has a target. */
  function FirstEvaluation(evaluator: string, s: State): seq<Outgoing> {
    var others := Without(s.participants, evaluator);
    if others != [] then [Outgoing(evaluator, EvaluationPrompt(others[0], s.topic, PrevResponse(s, others[0])))] else []
  }

  /** The first evaluation requests, in the order of the evaluators. */
  function FirstEvaluations(evaluators: seq<string>, s: State): seq<Outgoing> {
    if evaluators == [] then []
    else FirstEvaluations(evaluators[..|evaluators| - 1], s) + FirstEvaluation(evaluators[|evaluators| - 1], s)
  }

  function Next(s: State): Step {
    var t := s.(currentRound := s.currentRound + 1);
    if Missing(s) then Step(t, [], false)
    else if |s.participants| == 2 then
      var a1, a2 := s.participants[0], s.participants[1];
      Step(t.(pending := Dedup([a1, a2]), roundType := CrossEval, plan := None),
           [Outgoing(a1, EvaluationPrompt(a2, s.topic, PrevResponse(s, a2))),
            Outgoing(a2, EvaluationPrompt(a1, s.topic, PrevResponse(s, a1)))], false)
    else if |s.participants| == 3 then
      Step(t.(plan := Some(InitialPlan(s.participants)), pending := Dedup(s.participants), roundType := CrossEval),
           FirstEvaluations(s.participants, s), false)
    else Step(t, [], false)
  }

  /** The two branches of `Next` that open an evaluation round. */
  lemma NextOpensTwoParty(s: State)
    requires !Missing(s) && |s.participants| == 2
    ensures var a1, a2 := s.participants[0], s.participants[1];
            && Next(s).state == s.(currentRound := s.currentRound + 1, pending := Dedup([a1, a2]), roundType := CrossEval, plan := None)
            && Next(s).sends == [Outgoing(a1, EvaluationPrompt(a2, s.topic, PrevResponse(s, a2))),
                                 Outgoing(a2, EvaluationPrompt(a1, s.topic, PrevResponse(s, a1)))]
  {
  }

  lemma NextOpensThreeParty(s: State)
    requires !Missing(s) && |s.participants| == 3
    ensures Next(s).state == s.(currentRound := s.currentRound + 1, plan := Some(InitialPlan(s.participants)),
                                pending := Dedup(s.participants), roundType := CrossEval)
    ensures Next(s).sends == FirstEvaluations(s.participants, s)
  {
  }

  /** The round counter moves on before the responses are checked: with one
      missing, the round number is all that changes. */
  lemma NextWithMissingOnlyCounts(s: State)
    requires Missing(s)
    ensures Next(s) == Step(s.(currentRound := s.currentRound + 1), [], false)
  {
  }

  /** Two participants: each is sent the other's previous-round response,
      which its request quotes unchanged, and both are awaited. */
  lemma NextTwoPartyCrossEvaluates(s: State)
    requires !Missing(s) && |s.participants| == 2
    ensures var st, a1, a2 := Next(s), s.participants[0], s.participants[1];
            && st.state.currentRound == s.currentRound + 1
            && st.state.roundType == CrossEval && st.state.plan == None
            && (forall ai :: ai in st.state.pending <==> ai in s.participants)
            && |st.sends| == 2 && st.sends[0].ai == a1 && st.sends[1].ai == a2
            && EvaluatedContent(a2, s.topic, st.sends[0].message) == FindContent(s.history, s.currentRound, a2)
            && EvaluatedContent(a1, s.topic, st.sends[1].message) == FindContent(s.history, s.currentRound, a1)
  {
    var a1, a2 := s.participants[0], s.participants[1];
    assert Truthy(FindContent(s.history, s.currentRound, a1)) && Truthy(FindContent(s.history, s.currentRound, a2));
    var st := Next(s);
    assert s.participants == [a1, a2] && st.state.pending == Dedup([a1, a2]);
    EvaluationPromptQuotes(a2, s.topic, PrevResponse(s, a2), st.sends[0].message);
    EvaluationPromptQuotes(a1, s.topic, PrevResponse(s, a1), st.sends[1].message);
  }

  /** What the loop of `nextRound` sends, read off its own inputs: each
      evaluator with a progress record and a target left is sent that
      target's response from `responses`. A target without one would be
      interpolated as `undefined`. */
  function EvaluationRequests(evaluators: seq<string>, plan: Plan, responses: map<string, string>, topic: string): seq<Outgoing> {
    if evaluators == [] then []
    else
      var evaluator := evaluators[|evaluators| - 1];
      var earlier := EvaluationRequests(evaluators[..|evaluators| - 1], plan, responses, topic);
      if evaluator in plan && plan[evaluator].remaining != [] then
        var target := plan[evaluator].remaining[0];
        var response := if target in responses then responses[target] else "undefined";
        earlier + [Outgoing(evaluator, EvaluationPrompt(target, topic, response))]
      else earlier
  }

  /** With the plan `nextRound` sets up and the previous round's responses,
      those requests are the first evaluation requests of the round. */
  lemma {:induction false} EvaluationRequestsAreFirst(evaluators: seq<string>, s: State)
    requires forall ai :: ai in evaluators ==> ai in s.participants
    ensures var responses := ResponsesOf(s.participants, s.history, s.currentRound);
            EvaluationRequests(evaluators, InitialPlan(s.participants), responses, s.topic) == FirstEvaluations(evaluators, s)
  {
    if evaluators != [] {
      var n := |evaluators| - 1;
      var evaluator := evaluators[n];
      assert evaluator in s.participants;
      var others := Without(s.participants, evaluator);
      assert InitialPlan(s.participants)[evaluator].remaining == others;
      if others != [] {
        assert others[0] in others;
      }
      assert forall ai :: ai in evaluators[..n] ==> ai in evaluators;
      EvaluationRequestsAreFirst(evaluators[..n], s);
    }
  }

  /** Evaluators that each have a target get one request each, in order. */
  lemma {:induction false} FirstEvaluationsSendEach(evaluators: seq<string>, s: State)
    requires forall k :: 0 <= k < |evaluators| ==> Without(s.participants, evaluators[k]) != []
    ensures |FirstEvaluations(evaluators, s)| == |evaluators|
    ensures forall k :: 0 <= k < |evaluators| ==> [FirstEvaluations(evaluators, s)[k]] == FirstEvaluation(evaluators[k], s)
  {
    if evaluators != [] {
      var n := |evaluators| - 1;
      assert forall k :: 0 <= k < n ==> evaluators[..n][k] == evaluators[k];
      FirstEvaluationsSendEach(evaluators[..n], s);
      var prev, last := FirstEvaluations(evaluators[..n], s), FirstEvaluation(evaluators[n], s);
      assert FirstEvaluations(evaluators, s) == prev + last;
      assert |last| == 1;
      forall k | 0 <= k < |evaluators| ensures [(prev + last)[k]] == FirstEvaluation(evaluators[k], s) {
        if k < n {
          assert (prev + last)[k] == prev[k];
        } else {
          assert (prev + last)[k] == last[0];
        }
      }
    }
  }

  /** Three participants: everyone is awaited, each starts with the others
      to evaluate in participant order, and each evaluator is first sent the
      previous-round response of the first of them. */
  lemma NextThreePartyStartsSequence(s: State)
    requires !Missing(s) && |s.participants| == 3 && NoDuplicates(s.participants)
    ensures var st := Next(s);
            && st.state.currentRound == s.currentRound + 1 && st.state.roundType == CrossEval
            && (forall ai :: ai in st.state.pending <==> ai in s.participants)
            && st.state.plan == Some(InitialPlan(s.participants))
            && |st.sends| == 3
            && forall k :: 0 <= k < 3 ==>
                 var others := Without(s.participants, s.participants[k]);
                 && others == s.participants[..k] + s.participants[k + 1..]
                 && st.sends[k].ai == s.participants[k]
                 && EvaluatedContent(others[0], s.topic, st.sends[k].message) == FindContent(s.history, s.currentRound, others[0])
  {
    var ps := s.participants;
    forall k | 0 <= k < 3 ensures Without(ps, ps[k]) == ps[..k] + ps[k + 1..] && |Without(ps, ps[k])| == 2 {
      WithoutRemovesAt(ps, k);
    }
    FirstEvaluationsSendEach(ps, s);
    var st := Next(s);
    forall k | 0 <= k < 3
      ensures EvaluatedContent(Without(ps, ps[k])[0], s.topic, st.sends[k].message) == FindContent(s.history, s.currentRound, Without(ps, ps[k])[0])
    {
      var first := Without(ps, ps[k])[0];
      assert first in ps;
      var i :| 0 <= i < 3 && ps[i] == first;
      assert Truthy(FindContent(s.history, s.currentRound, ps[i]));
      EvaluationPromptQuotes(first, s.topic, PrevResponse(s, first), st.sends[k].message);
    }
  }

  lemma InitialPlanValid(ps: seq<string>)
    requires NoDuplicates(ps) && |ps| == 3
    ensures PlanValid(ps, InitialPlan(ps))
    ensures forall ai :: ai in ps ==> InitialPlan(ps)[ai].remaining != []
  {
    var plan := InitialPlan(ps);
    assert forall ai :: ai in plan <==> ai in ps;
    forall ai | ai in ps ensures EvalValid(Without(ps, ai), plan[ai]) && plan[ai].remaining != [] {
      var k :| 0 <= k < 3 && ps[k] == ai;
      InitialEvalValid(ps, k);
    }
  }

  /** Evaluator `k` starts with the two others still to evaluate. */
  lemma InitialEvalValid(ps: seq<string>, k: nat)
    requires NoDuplicates(ps) && |ps| == 3 && k < 3
    ensures EvalValid(Without(ps, ps[k]), EvalState({}, Without(ps, ps[k])))
    ensures Without(ps, ps[k]) != []
  {
    var others := Without(ps, ps[k]);
    WithoutRemovesAt(ps, k);
    assert others[..0] == [];
    assert others[|others| - |others|..] == others;
  }

  /** Opening the next round keeps every invariant of the state. */
  lemma NextKeepsValid(s: State)
    requires Valid(s)
    ensures Valid(Next(s).state)
  {
    var t := Next(s).state;
    if Missing(s) || !(2 <= |s.participants| <= 3) {
      assert t == s.(currentRound := s.currentRound + 1);
    } else if |s.participants| == 2 {
      NextOpensTwoParty(s);
    } else {
      NextOpensThreeParty(s);
      InitialPlanValid(s.participants);
    }
  }

  // ---------------------------------------------------------------------
  // generateSummary

  function SummarySends(s: State): seq<Outgoing>
    requires |s.participants| >= 2
  {
    var prompt := SummaryPrompt(s.topic, s.history, s.currentRound);
    [Outgoing(s.participants[0], prompt), Outgoing(s.participants[1], prompt)]
  }

  function RequestSummary(s: State): Step
    requires |s.participants| >= 2
  {
    Step(s.(roundType := Summary, pending := Dedup([s.participants[0], s.participants[1]])), SummarySends(s), false)
  }

  /** Only the first two participants are asked, with one prompt that
      quotes every recorded entry of rounds 1 to the current one; a third
      participant is neither asked nor awaited. */
  lemma SummaryAsksFirstTwo(s: State, e: Entry)
    requires |s.participants| >= 2
    ensures var st := RequestSummary(s);
            && st.state.roundType == Summary
            && (forall ai :: ai in st.state.pending <==> ai == s.participants[0] || ai == s.participants[1])
            && |st.sends| == 2 && st.sends[0].ai == s.participants[0] && st.sends[1].ai == s.participants[1]
            && st.sends[0].message == st.sends[1].message
            && (e in s.history && 1 <= e.round <= s.currentRound ==> Contains(st.sends[0].message, EntryText(e)))
            && (|s.participants| == 3 && NoDuplicates(s.participants) ==>
                  s.participants[2] !in st.state.pending && forall k :: 0 <= k < 2 ==> st.sends[k].ai != s.participants[2])
  {
    if e in s.history && 1 <= e.round <= s.currentRound {
      SummaryQuotesHistory(s.topic, s.history, s.currentRound, e);
    }
  }

  lemma SummaryKeepsValid(s: State)
    requires Valid(s) && |s.participants| >= 2
    ensures Valid(RequestSummary(s).state)
  {
  }

  /** What `checkForSummary` shows once nobody is awaited: the first
      summary-round entry of each of the two, or an empty text. */
  function ShownSummaries(history: seq<Entry>, ai1: string, ai2: string): (r: (string, string))
    ensures FirstSummary(history, ai1, r.0) && FirstSummary(history, ai2, r.1)
  {
    (SummaryOf(history, ai1), SummaryOf(history, ai2))
  }

  /** `showSummary`: the discussion ends; the rest of the state is kept. */
  function ShowSummary(s: State): State {
    s.(active := false)
  }

  /** Showing the summaries keeps the invariant, and from then on an
      interjection sends nothing. */
  lemma ShowSummaryEndsDiscussion(s: State, input: string, r1: Option<string>, r2: Option<string>)
    requires Valid(s)
    ensures Valid(ShowSummary(s))
    ensures InterjectSends(ShowSummary(s), input, r1, r2) == []
  {
  }

  // ---------------------------------------------------------------------
  // handleInterject

  /** The interjection sends: none for a blank message, outside a
      discussion, or when either of the first two has no response;
      otherwise each of the two gets the message and the other's response. */
  function InterjectSends(s: State, input: string, r1: Option<string>, r2: Option<string>): (r: seq<Outgoing>)
    ensures (Trim(input) == "" || !s.active || |s.participants| < 2 || !Truthy(r1) || !Truthy(r2)) ==> r == []
  {
    var message := Trim(input);
    if message == "" || !s.active || |s.participants| < 2 then []
    else if !Truthy(r1) || !Truthy(r2) then []
    else
      var a1, a2 := s.participants[0], s.participants[1];
      [Outgoing(a1, InterjectMessage(message, a2, r2.value)), Outgoing(a2, InterjectMessage(message, a1, r1.value))]
  }

  /** Each of the first two participants is sent the trimmed message,
      followed by the other's latest response, which its message gives back. */
  lemma InterjectQuotesOther(s: State, input: string, r1: Option<string>, r2: Option<string>)
    requires Trim(input) != "" && s.active && |s.participants| >= 2 && Truthy(r1) && Truthy(r2)
    ensures var r, a1, a2 := InterjectSends(s, input, r1, r2), s.participants[0], s.participants[1];
            && |r| == 2 && r[0].ai == a1 && r[1].ai == a2
            && StartsWith(r[0].message, Trim(input)) && StartsWith(r[1].message, Trim(input))
            && InterjectedResponse(Trim(input), a2, r[0].message) == r2
            && InterjectedResponse(Trim(input), a1, r[1].message) == r1
  {
    var r, a1, a2 := InterjectSends(s, input, r1, r2), s.participants[0], s.participants[1];
    InterjectMessageQuotes(Trim(input), a2, r2.value, r[0].message);
    InterjectMessageQuotes(Trim(input), a1, r1.value, r[1].message);
  }
}
