/** The ChatGPT content script's capture state and its
    `waitForStreamingComplete` loop. */
module ChatGpt {
  import opened Text
  import opened Capture

  class ContentScript {
    /** The last content reported to the extension. */
    var lastCapturedContent: string
    /** Set while a capture loop is running. */
    var isCapturing: bool
    /** Contents of the RESPONSE_CAPTURED messages sent, oldest first. */
    var sent: seq<string>

    constructor ()
      ensures lastCapturedContent == "" && !isCapturing && sent == []
    {
      lastCapturedContent := "";
      isCapturing := false;
      sent := [];
    }

    /** `samples[i]` is what iteration `i` observes. A completed capture
        is sent only if it differs from the last one sent. */
    method WaitForStreamingComplete(samples: seq<Sample>) returns (r: Run)
      requires |samples| >= MaxTicks
      modifies this
      ensures old(isCapturing) ==> r == AlreadyCapturing && isCapturing
      ensures !old(isCapturing) ==> r == Ran(Scan(ChatGptRule, samples)) && !isCapturing
      ensures Reported(old(lastCapturedContent), r) == None ==>
                lastCapturedContent == old(lastCapturedContent) && sent == old(sent)
      ensures Reported(old(lastCapturedContent), r).Some? ==>
                lastCapturedContent == Reported(old(lastCapturedContent), r).value
                && sent == old(sent) + [lastCapturedContent]
    {
      if isCapturing {
        return AlreadyCapturing;
      }
      isCapturing := true;
      var previousContent := "";
      var stableCount := 0;
      var i := 0;
      while i < Ticks(samples)
        invariant i <= Ticks(samples)
        invariant previousContent == PreviousAt(samples, i)
        invariant ScanFrom(ChatGptRule, samples, i, stableCount) == Scan(ChatGptRule, samples)
        invariant isCapturing && lastCapturedContent == old(lastCapturedContent) && sent == old(sent)
        decreases Ticks(samples) - i
      {
        if !samples[i].contextValid {
          isCapturing := false;
          return Ran(ContextLost(i));
        }
        var currentContent := samples[i].content;
        var contentStable := currentContent == previousContent && |currentContent| > 0;
        if contentStable {
          stableCount := stableCount + 1;
          if stableCount >= StableThreshold {
            if currentContent != lastCapturedContent {
              lastCapturedContent := currentContent;
              sent := sent + [currentContent];
            }
            isCapturing := false;
            return Ran(Decided(i, currentContent));
          }
        } else {
          stableCount := 0;
        }
        previousContent := currentContent;
        i := i + 1;
      }
      isCapturing := false;
      return Ran(TimedOut);
    }
  }
}
