/** The side panel's discussion history and its outgoing messages: the
    records `handleDiscussionResponse` appends to `discussionState.history`,
    the lookups the panel makes into it, and a message handed to
    `sendToAI`. */
module History {
  import opened Text

  /** `discussionState.roundType`: `null`, `'initial'`, `'cross-eval'`, `'summary'`. */
  datatype RoundType = NoRound | Initial | CrossEval | Summary

  /** `{round, ai, type, content, evaluationTarget?}` */
  datatype Entry = Entry(round: nat, ai: string, kind: RoundType, content: string, evaluationTarget: Option<string>)

  /** One `sendToAI(ai, message)`. Its result is not used by the panel. */
  datatype Outgoing = Outgoing(ai: string, message: string)

  /** What `getLatestResponse` returns for each assistant at one moment;
      an assistant without an entry has no response. */
  function Latest(latest: map<string, Option<string>>, ai: string): Option<string> {
    if ai in latest then latest[ai] else None
  }

  predicate Matches(e: Entry, round: nat, ai: string) {
    e.round == round && e.ai == ai
  }

  /** `history.find(h => h.round === round && h.ai === ai)?.content`. */
  function FindContent(history: seq<Entry>, round: nat, ai: string): Option<string> {
    if history == [] then None
    else if Matches(history[0], round, ai) then Some(history[0].content)
    else FindContent(history[1..], round, ai)
  }

  /** The lookup finds the content of the first matching record, and
      nothing only when no record matches. */
  lemma {:induction false} FindContentFindsFirst(history: seq<Entry>, round: nat, ai: string)
    ensures var r := FindContent(history, round, ai);
            && (r.None? <==> forall k :: 0 <= k < |history| ==> !Matches(history[k], round, ai))
            && (r.Some? ==> exists k :: 0 <= k < |history| && Matches(history[k], round, ai)
                                       && history[k].content == r.value
                                       && forall j :: 0 <= j < k ==> !Matches(history[j], round, ai))
  {
    if history != [] && !Matches(history[0], round, ai) {
      FindContentFindsFirst(history[1..], round, ai);
      assert forall k :: 1 <= k < |history| ==> history[k] == history[1..][k - 1];
      var r := FindContent(history, round, ai);
      if r.Some? {
        var k' :| 0 <= k' < |history[1..]| && Matches(history[1..][k'], round, ai)
                  && history[1..][k'].content == r.value
                  && forall j :: 0 <= j < k' ==> !Matches(history[1..][j], round, ai);
        assert Matches(history[k' + 1], round, ai);
      }
    }
  }

  /** Appending never changes what an earlier match finds. */
  lemma {:induction false} FindContentAppend(history: seq<Entry>, e: Entry, round: nat, ai: string)
    ensures FindContent(history + [e], round, ai)
            == if FindContent(history, round, ai).Some? then FindContent(history, round, ai)
               else if Matches(e, round, ai) then Some(e.content) else None
  {
    if history != [] {
      assert (history + [e])[1..] == history[1..] + [e];
      FindContentAppend(history[1..], e, round, ai);
    }
  }

  /** `history.some(h => h.ai === ai && h.round === round && h.content === content)`. */
  predicate AlreadyRecorded(history: seq<Entry>, ai: string, round: nat, content: string) {
    exists k :: 0 <= k < |history| && Matches(history[k], round, ai) && history[k].content == content
  }

  predicate IsSummaryOf(e: Entry, ai: string) {
    e.kind == Summary && e.ai == ai
  }

  /** `r` is the content of the first summary record of `ai` in
      `history`, or empty when there is none. */
  predicate FirstSummary(history: seq<Entry>, ai: string, r: string) {
    && (forall k :: 0 <= k < |history| && IsSummaryOf(history[k], ai) && (forall j :: 0 <= j < k ==> !IsSummaryOf(history[j], ai))
                ==> r == history[k].content)
    && ((forall k :: 0 <= k < |history| ==> !IsSummaryOf(history[k], ai)) ==> r == "")
  }

  /** `history.filter(h => h.type === 'summary').find(s => s.ai === ai)?.content || ''`:
      the content of the first summary record of `ai`, or empty when there
      is none. */
  function SummaryOf(history: seq<Entry>, ai: string): (r: string)
    ensures FirstSummary(history, ai, r)
  {
    if history == [] then ""
    else if IsSummaryOf(history[0], ai) then history[0].content
    else
      var r := SummaryOf(history[1..], ai);
      assert forall k :: 1 <= k < |history| ==> history[k] == history[1..][k - 1];
      r
  }
}
