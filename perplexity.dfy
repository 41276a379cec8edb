/** The Perplexity content script's capture state and its
    `waitForStreamingComplete` loop. */
module Perplexity {
  import opened Text
  import opened Capture
  import Retry

  class ContentScript {
    /** The last content reported to the extension. */
    var lastCapturedContent: string
    /** Set while a capture loop is running. */
    var isCapturing: bool
    /** Contents of the RESPONSE_CAPTURED messages sent, oldest first. */
    var sent: seq<string>

    constructor ()
      ensures lastCapturedContent == "" && !isCapturing && sent == []
    {
      lastCapturedContent := "";
      isCapturing := false;
      sent := [];
    }

    /** `samples[i]` is what iteration `i` observes. A completed capture
        is sent only if it differs from the last one sent. */
    method WaitForStreamingComplete(samples: seq<Sample>) returns (r: Run)
      requires |samples| >= MaxTicks
      modifies this
      ensures old(isCapturing) ==> r == AlreadyCapturing && isCapturing
      ensures !old(isCapturing) ==> r == Ran(Scan(PerplexityRule, samples)) && !isCapturing
      ensures Reported(old(lastCapturedContent), r) == None ==>
                lastCapturedContent == old(lastCapturedContent) && sent == old(sent)
      ensures Reported(old(lastCapturedContent), r).Some? ==>
                lastCapturedContent == Reported(old(lastCapturedContent), r).value
                && sent == old(sent) + [lastCapturedContent]
    {
      if isCapturing {
        return AlreadyCapturing;
      }
      isCapturing := true;
      var previousContent := "";
      var stableCount := 0;
      var i := 0;
      while i < Ticks(samples)
        invariant i <= Ticks(samples)
        invariant previousContent == PreviousAt(samples, i)
        invariant ScanFrom(PerplexityRule, samples, i, stableCount) == Scan(PerplexityRule, samples)
        invariant isCapturing && lastCapturedContent == old(lastCapturedContent) && sent == old(sent)
        decreases Ticks(samples) - i
      {
        if !samples[i].contextValid {
          isCapturing := false;
          return Ran(ContextLost(i));
        }
        var isStreaming := samples[i].streaming;
        var currentContent := samples[i].content;
        var contentStable := currentContent == previousContent && |currentContent| > 0;
        if isStreaming {
          stableCount := 0;
        } else if contentStable {
          if |currentContent| < MinContentLength {
            stableCount := 0;
          } else {
            stableCount := stableCount + 1;
            if stableCount >= StableThreshold {
              if currentContent != lastCapturedContent {
                lastCapturedContent := currentContent;
                sent := sent + [currentContent];
              }
              isCapturing := false;
              return Ran(Decided(i, currentContent));
            }
          }
        } else {
          stableCount := 0;
        }
        previousContent := currentContent;
        i := i + 1;
      }
      isCapturing := false;
      return Ran(TimedOut);
    }
    /** `injectMessage` followed, once the message is sent, by the capture
        loop that `attemptInjectMessage` starts (run here to completion). */
    method InjectMessage(attempts: seq<Retry.Attempt>, samples: seq<Sample>)
      returns (o: Retry.Outcome, r: Option<Run>)
      requires |attempts| >= Retry.MaxRetries && |samples| >= MaxTicks
      modifies this
      ensures Retry.SettledAs(attempts, o)
      ensures o.Thrown? ==> r == None && isCapturing == old(isCapturing)
      ensures o.Delivered? ==> r.Some?
      ensures r.Some? && old(isCapturing) ==> r.value == AlreadyCapturing && isCapturing
      ensures r.Some? && !old(isCapturing) ==> r.value == Ran(Scan(PerplexityRule, samples)) && !isCapturing
      ensures (r == None || Reported(old(lastCapturedContent), r.value) == None) ==>
                lastCapturedContent == old(lastCapturedContent) && sent == old(sent)
      ensures r.Some? && Reported(old(lastCapturedContent), r.value).Some? ==>
                lastCapturedContent == Reported(old(lastCapturedContent), r.value).value
                && sent == old(sent) + [lastCapturedContent]
    {
      var delay;
      o, delay := Retry.InjectMessage(attempts);
      if o.Delivered? {
        var run := WaitForStreamingComplete(samples);
        r := Some(run);
      } else {
        r := None;
      }
    }
  }
}
