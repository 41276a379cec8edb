/** What the four content scripts' `waitForStreamingComplete` loops have in
    common, as a specification: the page is sampled once per tick; a sample
    that "continues" the previous one raises `stableCount`, any other resets
    it; the loop decides when the count reaches the threshold. The scripts
    differ only in what continuing means (`Stable`), which `Rule` selects. */
module Capture {
  import opened Text

  const CheckInterval := 500
  const MaxWait := 600000
  /** Loop iterations before the ten-minute ceiling: one per 500 ms sleep. */
  const MaxTicks := MaxWait / CheckInterval
  const StableThreshold := 4
  /** Perplexity's shortest acceptable answer. */
  const MinContentLength := 50

  /** One iteration's view of the page: whether the extension context is
      still valid (checked before sleeping), whether a streaming indicator
      is present, and the latest response text (`getLatestResponse() || ''`). */
  datatype Sample = Sample(contextValid: bool, streaming: bool, content: string)

  /** How a capture loop ends: a capture decision on the sample with index
      `at`, a `return` because the context was invalidated, or the ceiling. */
  datatype Exit = Decided(at: nat, content: string) | ContextLost(at: nat) | TimedOut

  /** Whether a call ran the loop or found a capture already in progress. */
  datatype Run = AlreadyCapturing | Ran(exit: Exit)

  /** The capture a run reports under exact de-duplication: a decided
      content that differs from the last content reported. */
  function Reported(last: string, r: Run): (c: Option<string>)
    ensures c.Some? <==> r.Ran? && r.exit.Decided? && r.exit.content != last
    ensures c.Some? ==> c.value == r.exit.content
  {
    if r.Ran? && r.exit.Decided? && r.exit.content != last then Some(r.exit.content) else None
  }

  datatype Rule = ChatGptRule | ClaudeRule | PerplexityRule | GeminiRule

  /** Whether sample `s` continues a stable run after `previous`. */
  predicate Stable(rule: Rule, previous: string, s: Sample) {
    match rule
    case ChatGptRule => s.content == previous && |s.content| > 0
    case ClaudeRule => !s.streaming && s.content == previous && |s.content| > 0
    case PerplexityRule => !s.streaming && s.content == previous && |s.content| >= MinContentLength
    case GeminiRule => Trim(s.content) == Trim(previous) && |Trim(s.content)| > 0
  }

  /** Samples the loop can look at before the ceiling. */
  function Ticks(samples: seq<Sample>): (n: nat)
    ensures n <= |samples| && n <= MaxTicks
    ensures n == |samples| || n == MaxTicks
  {
    if |samples| < MaxTicks then |samples| else MaxTicks
  }

  /** `previousContent` at the start of iteration `i`: '' at first, then
      the content of the sample before. */
  function PreviousAt(samples: seq<Sample>, i: nat): string
    requires i <= |samples|
  {
    if i == 0 then "" else samples[i - 1].content
  }

  /** The loop from iteration `i` on, with `stableCount == count`. */
  function ScanFrom(rule: Rule, samples: seq<Sample>, i: nat, count: nat): Exit
    requires i <= Ticks(samples)
    decreases Ticks(samples) - i
  {
    if i == Ticks(samples) then TimedOut
    else if !samples[i].contextValid then ContextLost(i)
    else if Stable(rule, PreviousAt(samples, i), samples[i]) then
      if count + 1 >= StableThreshold then Decided(i, samples[i].content)
      else ScanFrom(rule, samples, i + 1, count + 1)
    else ScanFrom(rule, samples, i + 1, 0)
  }

  /** The whole loop: `previousContent = ''`, `stableCount = 0`. */
  function Scan(rule: Rule, samples: seq<Sample>): Exit {
    ScanFrom(rule, samples, 0, 0)
  }

  /** Reference definition: sample `k` closes a run of `StableThreshold`
      consecutive stable samples. */
  ghost predicate StableWindow(rule: Rule, samples: seq<Sample>, k: nat)
    requires k < |samples|
  {
    && StableThreshold <= k + 1
    && forall j :: k + 1 - StableThreshold <= j <= k ==> Stable(rule, PreviousAt(samples, j), samples[j])
  }

  ghost predicate ValidBefore(samples: seq<Sample>, n: nat)
    requires n <= |samples|
  {
    forall j :: 0 <= j < n ==> samples[j].contextValid
  }

  ghost predicate NoWindowBefore(rule: Rule, samples: seq<Sample>, n: nat)
    requires n <= |samples|
  {
    forall j :: 0 <= j < n ==> !StableWindow(rule, samples, j)
  }

  /** Length of the run of stable samples that ends just before index `i`. */
  function Streak(rule: Rule, samples: seq<Sample>, i: nat): nat
    requires i <= |samples|
  {
    if i == 0 then 0
    else if Stable(rule, PreviousAt(samples, i - 1), samples[i - 1]) then Streak(rule, samples, i - 1) + 1
    else 0
  }

  /** A streak of at least `m` is exactly `m` stable samples in a row. */
  lemma {:induction false} StreakAtLeast(rule: Rule, samples: seq<Sample>, i: nat, m: nat)
    requires i <= |samples|
    ensures Streak(rule, samples, i) >= m <==>
            (m <= i && forall j :: i - m <= j < i ==> Stable(rule, PreviousAt(samples, j), samples[j]))
  {
    if m == 0 || i == 0 {
    } else if Stable(rule, PreviousAt(samples, i - 1), samples[i - 1]) {
      StreakAtLeast(rule, samples, i - 1, m - 1);
      if m <= i {
        assert (forall j :: i - m <= j < i ==> Stable(rule, PreviousAt(samples, j), samples[j])) <==>
               (forall j :: i - m <= j < i - 1 ==> Stable(rule, PreviousAt(samples, j), samples[j]));
      }
    } else if m <= i {
      assert i - m <= i - 1 < i;
    }
  }

  /** A window closes at `k` exactly when the streak after it reaches the threshold. */
  lemma WindowIsStreak(rule: Rule, samples: seq<Sample>, k: nat)
    requires k < |samples|
    ensures StableWindow(rule, samples, k) <==> Streak(rule, samples, k + 1) >= StableThreshold
  {
    StreakAtLeast(rule, samples, k + 1, StableThreshold);
  }

  /** The three ways the loop can end after starting at iteration `from`. */
  ghost predicate FirstExit(rule: Rule, samples: seq<Sample>, from: nat, e: Exit)
    requires from <= Ticks(samples)
  {
    match e
    case Decided(k, c) =>
      && from <= k < Ticks(samples) && c == samples[k].content
      && StableWindow(rule, samples, k) && NoWindowBefore(rule, samples, k) && ValidBefore(samples, k + 1)
    case ContextLost(k) =>
      && from <= k < Ticks(samples) && !samples[k].contextValid
      && ValidBefore(samples, k) && NoWindowBefore(rule, samples, k)
    case TimedOut =>
      ValidBefore(samples, Ticks(samples)) && NoWindowBefore(rule, samples, Ticks(samples))
  }

  /** One more valid, window-free iteration extends both prefixes. */
  lemma ExtendPrefix(rule: Rule, samples: seq<Sample>, i: nat)
    requires i < |samples| && samples[i].contextValid && !StableWindow(rule, samples, i)
    requires ValidBefore(samples, i) && NoWindowBefore(rule, samples, i)
    ensures ValidBefore(samples, i + 1) && NoWindowBefore(rule, samples, i + 1)
  {
  }

  lemma StreakStep(rule: Rule, samples: seq<Sample>, i: nat)
    requires i < |samples|
    ensures Streak(rule, samples, i + 1) ==
            if Stable(rule, PreviousAt(samples, i), samples[i]) then Streak(rule, samples, i) + 1 else 0
  {
  }

  /** Deciding at `i` is deciding at the first window. */
  lemma DecidedHere(rule: Rule, samples: seq<Sample>, i: nat)
    requires i < Ticks(samples) && samples[i].contextValid
    requires ValidBefore(samples, i) && NoWindowBefore(rule, samples, i)
    requires Streak(rule, samples, i + 1) >= StableThreshold
    ensures FirstExit(rule, samples, i, Decided(i, samples[i].content))
  {
    WindowIsStreak(rule, samples, i);
  }

  /** An exit that is first from `i + 1` on is first from `i` on. */
  lemma FirstExitFromEarlier(rule: Rule, samples: seq<Sample>, i: nat, e: Exit)
    requires i < Ticks(samples)
    requires FirstExit(rule, samples, i + 1, e)
    ensures FirstExit(rule, samples, i, e)
  {
  }

  lemma {:induction false} ScanFromDecidesAtFirstWindow(rule: Rule, samples: seq<Sample>, i: nat, count: nat)
    requires i <= Ticks(samples)
    requires count == Streak(rule, samples, i) && count < StableThreshold
    requires ValidBefore(samples, i) && NoWindowBefore(rule, samples, i)
    ensures FirstExit(rule, samples, i, ScanFrom(rule, samples, i, count))
    decreases Ticks(samples) - i
  {
    if i == Ticks(samples) || !samples[i].contextValid {
    } else {
      StreakStep(rule, samples, i);
      var next := Streak(rule, samples, i + 1);
      if next >= StableThreshold {
        DecidedHere(rule, samples, i);
      } else {
        WindowIsStreak(rule, samples, i);
        ExtendPrefix(rule, samples, i);
        ScanFromDecidesAtFirstWindow(rule, samples, i + 1, next);
        FirstExitFromEarlier(rule, samples, i, ScanFrom(rule, samples, i + 1, next));
      }
    }
  }

  /** The capture loop decides on the first sample that closes a window of
      four consecutive stable samples, provided the context stayed valid and
      the ceiling was not reached; it returns early at the first invalid
      context; otherwise it times out having seen no window. */
  lemma ScanDecidesAtFirstWindow(rule: Rule, samples: seq<Sample>)
    ensures FirstExit(rule, samples, 0, Scan(rule, samples))
  {
    ScanFromDecidesAtFirstWindow(rule, samples, 0, 0);
  }

  /** A decided capture is never a sample the rule calls unstable: for
      Claude and Perplexity it was taken with no streaming indicator, and
      Perplexity's is at least 50 characters long. */
  lemma DecidedSampleIsStable(rule: Rule, samples: seq<Sample>)
    requires Scan(rule, samples).Decided?
    ensures var k := Scan(rule, samples).at;
            && k < |samples| && Scan(rule, samples).content == samples[k].content
            && Stable(rule, PreviousAt(samples, k), samples[k])
    ensures rule == PerplexityRule ==> |Scan(rule, samples).content| >= MinContentLength
    ensures rule in {ClaudeRule, PerplexityRule} ==> !samples[Scan(rule, samples).at].streaming
  {
    ScanDecidesAtFirstWindow(rule, samples);
  }

  /** Content that keeps changing from one sample to the next (for Gemini:
      after trimming) never leads to a capture decision, however many
      samples arrive. */
  lemma ChangingContentNeverDecides(rule: Rule, samples: seq<Sample>)
    requires forall j :: 0 < j < |samples| ==> samples[j].content != samples[j - 1].content
    requires rule == GeminiRule ==> forall j :: 0 < j < |samples| ==> Trim(samples[j].content) != Trim(samples[j - 1].content)
    ensures !Scan(rule, samples).Decided?
  {
    ScanDecidesAtFirstWindow(rule, samples);
  }
}
