/** The Gemini content script: the capture loop with trimmed comparison and
    its tolerant-looking de-duplication, the periodic backup check, the
    FORCE_CHECK_RESPONSE request and the retrying `injectMessage`. */
module Gemini {
  import opened Text
  import opened Capture
  import Retry

  /** Ticks of the periodic backup check: 120 checks, 500 ms apart. */
  const MaxChecks := 120

  /** `isDifferent` on the trimmed current and last contents. The length
      tolerance it spells out is subsumed by its last disjunct, so for the
      non-empty contents the loop can decide on it is plain inequality. */
  function IsDifferent(normalizedCurrent: string, normalizedLast: string): (b: bool)
    ensures |normalizedCurrent| > 0 ==> (b <==> normalizedCurrent != normalizedLast)
  {
    var current, last := |normalizedCurrent| as real, |normalizedLast| as real;
    || |normalizedLast| == 0
    || current < last * 0.9
    || current > last * 1.1
    || normalizedCurrent != normalizedLast
  }

  /** The capture a run reports: a decided content that `isDifferent`
      from the last one reported, compared after trimming. */
  function GeminiReported(last: string, r: Run): (c: Option<string>)
    ensures c.Some? <==> r.Ran? && r.exit.Decided? && IsDifferent(Trim(r.exit.content), Trim(last))
    ensures c.Some? ==> c.value == r.exit.content
  {
    if r.Ran? && r.exit.Decided? && IsDifferent(Trim(r.exit.content), Trim(last)) then Some(r.exit.content) else None
  }

  /** What the loop decides on is reported exactly when it differs, after
      trimming, from the last report; an untrimmed difference alone (say a
      trailing newline) is not reported again. */
  lemma ReportedIffTrimmedDiffers(last: string, samples: seq<Sample>)
    ensures var r := Ran(Scan(GeminiRule, samples));
            GeminiReported(last, r).Some? <==> r.exit.Decided? && Trim(r.exit.content) != Trim(last)
  {
    if Scan(GeminiRule, samples).Decided? {
      DecidedSampleIsStable(GeminiRule, samples);
    }
  }

  /** A response the periodic check has not seen reported yet. */
  predicate Unseen(last: string, response: Option<string>) {
    response.Some? && |response.value| > 0 && response.value != last
  }

  /** What FORCE_CHECK_RESPONSE leaves in `lastCapturedContent`. */
  function ForceCheckLast(last: string, response: Option<string>): (r: string)
    ensures r == last || (Unseen(last, response) && r == response.value)
  {
    if Unseen(last, response) then response.value else last
  }

  /** The `captured` flag as written: `response !== null && response !==
      lastCapturedContent`, evaluated after the update. It holds only for
      an empty response after a non-empty capture, when nothing was sent. */
  function CapturedFlagAsWritten(last: string, response: Option<string>): (b: bool)
    ensures b <==> response == Some("") && last != ""
  {
    response.Some? && response.value != ForceCheckLast(last, response)
  }

  /** A concrete request on which the flag disagrees with what the request
      did: a fresh response is captured but flagged `false`. */
  lemma CapturedFlagAsWrittenMisreports()
    ensures ForceCheckLast("", Some("Hello")) == "Hello" && !CapturedFlagAsWritten("", Some("Hello"))
  {
  }

  /** `getLatestResponse` answers `null` or a trimmed text of more than 20
      characters, so on every answer it gives the flag is `false`, and every
      fresh answer is stored although the reply says it was not captured. */
  lemma CapturedFlagNeverSetForReaderAnswers(last: string, response: Option<string>)
    requires response.None? || |response.value| > 20
    ensures !CapturedFlagAsWritten(last, response)
    ensures response.Some? && response.value != last ==>
              Unseen(last, response) && ForceCheckLast(last, response) == response.value
  {
  }

  datatype ForceCheckReply = ForceCheckReply(content: Option<string>, captured: bool)

  class ContentScript {
    var lastCapturedContent: string
    var isCapturing: bool
    /** Contents of the RESPONSE_CAPTURED messages sent, oldest first. */
    var sent: seq<string>

    constructor ()
      ensures lastCapturedContent == "" && !isCapturing && sent == []
    {
      lastCapturedContent := "";
      isCapturing := false;
      sent := [];
    }

    /** `samples[i]` is what iteration `i` observes. The stored content is
        the untrimmed sample. The loop itself is `AwaitStableContent`; the
        de-duplicated report it makes before returning is `ReportCapture`. */
    method WaitForStreamingComplete(samples: seq<Sample>) returns (r: Run)
      requires |samples| >= MaxTicks
      modifies this
      ensures old(isCapturing) ==> r == AlreadyCapturing && isCapturing
      ensures !old(isCapturing) ==> r == Ran(Scan(GeminiRule, samples)) && !isCapturing
      ensures GeminiReported(old(lastCapturedContent), r) == None ==>
                lastCapturedContent == old(lastCapturedContent) && sent == old(sent)
      ensures GeminiReported(old(lastCapturedContent), r).Some? ==>
                lastCapturedContent == GeminiReported(old(lastCapturedContent), r).value
                && sent == old(sent) + [lastCapturedContent]
    {
      if isCapturing {
        return AlreadyCapturing;
      }
      isCapturing := true;
      var exit := AwaitStableContent(samples);
      if exit.Decided? {
        ReportCapture(exit.content);
      }
      isCapturing := false;
      return Ran(exit);
    }

    /** The sampling loop of `waitForStreamingComplete`, up to its decision. */
    method AwaitStableContent(samples: seq<Sample>) returns (exit: Exit)
      requires |samples| >= MaxTicks
      ensures exit == Scan(GeminiRule, samples)
    {
      var previousContent := "";
      var stableCount := 0;
      var i := 0;
      while i < Ticks(samples)
        invariant i <= Ticks(samples)
        invariant previousContent == PreviousAt(samples, i)
        invariant ScanFrom(GeminiRule, samples, i, stableCount) == Scan(GeminiRule, samples)
        decreases Ticks(samples) - i
      {
        if !samples[i].contextValid {
          return ContextLost(i);
        }
        var currentContent := samples[i].content;
        var normalizedCurrent := Trim(currentContent);
        var normalizedPrevious := Trim(previousContent);
        if normalizedCurrent == normalizedPrevious && |normalizedCurrent| > 0 {
          stableCount := stableCount + 1;
          if stableCount >= StableThreshold {
            return Decided(i, currentContent);
          }
        } else {
          stableCount := 0;
        }
        previousContent := currentContent;
        i := i + 1;
      }
      return TimedOut;
    }

    /** `isDifferent` and the report it guards. */
    method ReportCapture(currentContent: string)
      modifies this
      ensures IsDifferent(Trim(currentContent), Trim(old(lastCapturedContent))) ==>
                lastCapturedContent == currentContent && sent == old(sent) + [currentContent]
      ensures !IsDifferent(Trim(currentContent), Trim(old(lastCapturedContent))) ==>
                lastCapturedContent == old(lastCapturedContent) && sent == old(sent)
      ensures isCapturing == old(isCapturing)
    {
      var normalizedCurrent := Trim(currentContent);
      var normalizedLast := Trim(lastCapturedContent);
      if IsDifferent(normalizedCurrent, normalizedLast) {
        lastCapturedContent := currentContent;
        sent := sent + [currentContent];
      }
    }

    /** The backup check: `responses[n - 1]` is what check `n` reads. It
        fires on the first check that finds an unseen response, and gives up
        after the 120th. */
    method PeriodicResponseCheck(responses: seq<Option<string>>) returns (fired: Option<nat>)
      requires |responses| >= MaxChecks
      ensures fired.Some? ==> 1 <= fired.value <= MaxChecks
                              && Unseen(lastCapturedContent, responses[fired.value - 1])
                              && forall j :: 0 <= j < fired.value - 1 ==> !Unseen(lastCapturedContent, responses[j])
      ensures fired.None? ==> forall j :: 0 <= j < MaxChecks ==> !Unseen(lastCapturedContent, responses[j])
    {
      var checkCount := 0;
      while checkCount < MaxChecks
        invariant checkCount <= MaxChecks
        invariant forall j :: 0 <= j < checkCount ==> !Unseen(lastCapturedContent, responses[j])
      {
        checkCount := checkCount + 1;
        var currentResponse := responses[checkCount - 1];
        if Unseen(lastCapturedContent, currentResponse) {
          return Some(checkCount);
        }
      }
      return None;
    }

    /** FORCE_CHECK_RESPONSE: report an unseen non-empty response at once,
        and reply with the response and the flag `CapturedFlagAsWritten`. */
    method ForceCheckResponse(response: Option<string>) returns (reply: ForceCheckReply)
      modifies this
      ensures lastCapturedContent == ForceCheckLast(old(lastCapturedContent), response)
      ensures Unseen(old(lastCapturedContent), response) ==> sent == old(sent) + [response.value]
      ensures !Unseen(old(lastCapturedContent), response) ==> sent == old(sent)
      ensures reply.content == response
      ensures reply.captured == CapturedFlagAsWritten(old(lastCapturedContent), response)
      ensures isCapturing == old(isCapturing)
    {
      if Unseen(lastCapturedContent, response) {
        lastCapturedContent := response.value;
        sent := sent + [response.value];
      }
      var captured := response.Some? && response.value != lastCapturedContent;
      reply := ForceCheckReply(response, captured);
    }

    /** `injectMessage`: retry, and once the message is sent forget the
        last capture and run the capture loop (here to completion). */
    method InjectMessage(attempts: seq<Retry.Attempt>, samples: seq<Sample>)
      returns (o: Retry.Outcome, r: Option<Run>)
      requires |attempts| >= Retry.MaxRetries && |samples| >= MaxTicks
      modifies this
      ensures Retry.SettledAs(attempts, o)
      ensures o.Thrown? ==> r == None && isCapturing == old(isCapturing)
                            && lastCapturedContent == old(lastCapturedContent) && sent == old(sent)
      ensures o.Delivered? ==> r.Some?
      ensures r.Some? && old(isCapturing) ==> r.value == AlreadyCapturing && isCapturing
      ensures r.Some? && !old(isCapturing) ==> r.value == Ran(Scan(GeminiRule, samples)) && !isCapturing
      ensures r.Some? && GeminiReported("", r.value) == None ==> lastCapturedContent == "" && sent == old(sent)
      ensures r.Some? && GeminiReported("", r.value).Some? ==>
                lastCapturedContent == GeminiReported("", r.value).value && sent == old(sent) + [lastCapturedContent]
    {
      var delay;
      o, delay := Retry.InjectMessage(attempts);
      if o.Delivered? {
        lastCapturedContent := "";
        var run := WaitForStreamingComplete(samples);
        r := Some(run);
      } else {
        r := None;
      }
    }
  }

  /** After a message is sent, any decided capture is reported, even one
      identical to the capture before the message. */
  lemma FreshMessageReportsAnyDecision(samples: seq<Sample>)
    requires Scan(GeminiRule, samples).Decided?
    ensures GeminiReported("", Ran(Scan(GeminiRule, samples))).Some?
  {
    ReportedIffTrimmedDiffers("", samples);
  }
}
