/** The side panel's `verifyResponseComplete`: before a reply is recorded,
    the panel re-samples it every 500 ms for up to 30 s and accepts it once it
    has read the same text four times in a row and that text is at least
    50 characters long. */
module Verifier {
  import opened Text

  const CheckInterval := 500
  const MaxWait := 30000
  /** Reads before the 30-second ceiling. */
  const MaxReads := MaxWait / CheckInterval
  const StableThreshold := 4
  const MinContentLength := 50

  /** How verification ends: accepted on read `at`, or the ceiling with the
      content to use anyway. */
  datatype Verdict = Complete(at: nat, content: string) | TimedOut(content: string)

  /** A read that is skipped: `getLatestResponse` gave nothing (an empty
      reply, no reply or an error all come back as null) or only blanks. */
  predicate Blank(read: Option<string>) {
    read.None? || Trim(read.value) == ""
  }

  function Horizon(samples: seq<Option<string>>): (n: nat)
    ensures n <= |samples| && n <= MaxReads
    ensures n == |samples| || n == MaxReads
  {
    if |samples| < MaxReads then |samples| else MaxReads
  }

  /** The loop from read `i` on, with `previousContent == previous` and
      `stableCount == count`. */
  function VerifyFrom(initial: string, samples: seq<Option<string>>, i: nat, previous: string, count: nat): Verdict
    requires i <= Horizon(samples)
    decreases Horizon(samples) - i
  {
    if i == Horizon(samples) then TimedOut(if previous != "" then previous else initial)
    else if Blank(samples[i]) then VerifyFrom(initial, samples, i + 1, previous, count)
    else
      var current := samples[i].value;
      if |current| > |previous| then VerifyFrom(initial, samples, i + 1, current, 0)
      else if current == previous then
        if count + 1 >= StableThreshold then
          if |current| >= MinContentLength then Complete(i, current)
          else VerifyFrom(initial, samples, i + 1, previous, 0)
        else VerifyFrom(initial, samples, i + 1, previous, count + 1)
      else VerifyFrom(initial, samples, i + 1, current, 0)
  }

  /** `verifyResponseComplete(aiType, initial)` when read `i` returns `samples[i]`. */
  function Verify(initial: string, samples: seq<Option<string>>): Verdict {
    VerifyFrom(initial, samples, 0, initial, 0)
  }

  /** The loop, as the panel runs it. */
  method VerifyResponseComplete(initial: string, samples: seq<Option<string>>) returns (v: Verdict)
    requires |samples| >= MaxReads
    ensures v == Verify(initial, samples)
  {
    var previousContent := initial;
    var stableCount := 0;
    var i := 0;
    while i < Horizon(samples)
      invariant i <= Horizon(samples)
      invariant VerifyFrom(initial, samples, i, previousContent, stableCount) == Verify(initial, samples)
      decreases Horizon(samples) - i
    {
      var currentContent := samples[i];
      i := i + 1;
      if Blank(currentContent) {
        continue;
      }
      if |currentContent.value| > |previousContent| {
        stableCount := 0;
        previousContent := currentContent.value;
        continue;
      } else if currentContent.value == previousContent {
        stableCount := stableCount + 1;
        if stableCount >= StableThreshold {
          if |currentContent.value| >= MinContentLength {
            return Complete(i - 1, currentContent.value);
          } else {
            stableCount := 0;
            continue;
          }
        }
      } else {
        stableCount := 0;
        previousContent := currentContent.value;
      }
    }
    var finalContent := if previousContent != "" then previousContent else initial;
    return TimedOut(finalContent);
  }

  // ---------------------------------------------------------------------
  // Reference definition: what the panel has seen, and when it is settled.

  /** The initial content followed by the non-blank samples among the first `n`. */
  function Seen(initial: string, samples: seq<Option<string>>, n: nat): (w: seq<string>)
    requires n <= |samples|
    ensures |w| >= 1 && w[0] == initial
  {
    if n == 0 then [initial]
    else Seen(initial, samples, n - 1) + (if Blank(samples[n - 1]) then [] else [samples[n - 1].value])
  }

  function Last(w: seq<string>): string
    requires |w| >= 1
  {
    w[|w| - 1]
  }

  /** The last five things seen are one text of at least 50 characters. */
  ghost predicate Settled(w: seq<string>) {
    && |w| >= StableThreshold + 1
    && |Last(w)| >= MinContentLength
    && forall j :: |w| - (StableThreshold + 1) <= j < |w| ==> w[j] == Last(w)
  }

  /** Number of trailing repetitions of the last element. */
  function Repeats(w: seq<string>): (r: nat)
    requires |w| >= 1
    ensures r < |w|
  {
    if |w| >= 2 && w[|w| - 1] == w[|w| - 2] then 1 + Repeats(w[..|w| - 1]) else 0
  }

  lemma {:induction false} RepeatsAtLeast(w: seq<string>, m: nat)
    requires |w| >= 1
    ensures Repeats(w) >= m <==> (m < |w| && forall j :: |w| - 1 - m <= j < |w| ==> w[j] == Last(w))
  {
    if m == 0 {
    } else if |w| >= 2 && w[|w| - 1] == w[|w| - 2] {
      var u := w[..|w| - 1];
      RepeatsAtLeast(u, m - 1);
      assert Last(u) == Last(w);
      if m < |w| && forall j :: |w| - 1 - m <= j < |w| ==> w[j] == Last(w) {
        assert forall j :: |u| - 1 - (m - 1) <= j < |u| ==> u[j] == Last(u);
      }
    } else if |w| >= 2 {
      assert w[|w| - 2] != Last(w);
    }
  }

  lemma SettledIsRepeats(w: seq<string>)
    requires |w| >= 1
    ensures Settled(w) <==> Repeats(w) >= StableThreshold && |Last(w)| >= MinContentLength
  {
    RepeatsAtLeast(w, StableThreshold);
  }

  /** `stableCount` as a function of what was seen: the trailing repetitions,
      counted modulo the threshold for a text too short to accept. */
  function CountOf(w: seq<string>): nat
    requires |w| >= 1
  {
    if |Last(w)| >= MinContentLength then Repeats(w) else Repeats(w) % StableThreshold
  }

  ghost predicate NeverSettled(initial: string, samples: seq<Option<string>>, n: nat)
    requires n <= |samples|
  {
    forall m :: 0 <= m <= n ==> !Settled(Seen(initial, samples, m))
  }

  /** `v` is accepted on the first read from `from` on after which the
      panel has settled, or times out with the last text seen, never
      having settled. */
  ghost predicate FirstSettled(initial: string, samples: seq<Option<string>>, from: nat, v: Verdict)
    requires from <= Horizon(samples)
  {
    match v
    case Complete(k, c) =>
      && from <= k < Horizon(samples) && samples[k] == Some(c)
      && NeverSettled(initial, samples, k) && Settled(Seen(initial, samples, k + 1))
    case TimedOut(c) =>
      c == Last(Seen(initial, samples, Horizon(samples))) && NeverSettled(initial, samples, Horizon(samples))
  }

  lemma SeenStep(initial: string, samples: seq<Option<string>>, i: nat)
    requires i < |samples|
    ensures Blank(samples[i]) ==> Seen(initial, samples, i + 1) == Seen(initial, samples, i)
    ensures !Blank(samples[i]) ==> Seen(initial, samples, i + 1) == Seen(initial, samples, i) + [samples[i].value]
  {
  }

  lemma RepeatsStep(w: seq<string>, x: string)
    requires |w| >= 1
    ensures Repeats(w + [x]) == if x == Last(w) then Repeats(w) + 1 else 0
  {
    var u := w + [x];
    assert u[..|u| - 1] == w;
    assert u[|u| - 1] == x && u[|u| - 2] == Last(w);
  }

  /** `stableCount` counted modulo the threshold, one read further on. */
  lemma CountStep(r: nat, count: nat)
    requires count == r % StableThreshold
    ensures count + 1 >= StableThreshold ==> (r + 1) % StableThreshold == 0
    ensures count + 1 < StableThreshold ==> (r + 1) % StableThreshold == count + 1
  {
  }

  /** A read of a new text resets the count, a repeat raises it. */
  lemma CountOfStep(w: seq<string>, x: string)
    requires |w| >= 1 && !Settled(w)
    ensures x != Last(w) ==> CountOf(w + [x]) == 0 && !Settled(w + [x])
    ensures x == Last(w) ==>
              if CountOf(w) + 1 >= StableThreshold then
                if |x| >= MinContentLength then Settled(w + [x]) else CountOf(w + [x]) == 0 && !Settled(w + [x])
              else CountOf(w + [x]) == CountOf(w) + 1 && !Settled(w + [x])
  {
    RepeatsStep(w, x);
    SettledIsRepeats(w);
    SettledIsRepeats(w + [x]);
    assert Last(w + [x]) == x;
    if x == Last(w) && |x| < MinContentLength {
      CountStep(Repeats(w), CountOf(w));
    }
  }

  /** One read of the loop, in terms of what has been seen: it accepts
      exactly when that read settles the panel, and otherwise carries on
      with the state the reference definition predicts. */
  lemma VerifyStep(initial: string, samples: seq<Option<string>>, i: nat, previous: string, count: nat)
    requires i < Horizon(samples)
    requires previous == Last(Seen(initial, samples, i)) && count == CountOf(Seen(initial, samples, i))
    requires !Settled(Seen(initial, samples, i))
    ensures Settled(Seen(initial, samples, i + 1)) ==>
              !Blank(samples[i]) && VerifyFrom(initial, samples, i, previous, count) == Complete(i, samples[i].value)
    ensures !Settled(Seen(initial, samples, i + 1)) ==>
              VerifyFrom(initial, samples, i, previous, count)
              == VerifyFrom(initial, samples, i + 1, Last(Seen(initial, samples, i + 1)), CountOf(Seen(initial, samples, i + 1)))
  {
    SeenStep(initial, samples, i);
    if !Blank(samples[i]) {
      CountOfStep(Seen(initial, samples, i), samples[i].value);
    }
  }

  lemma {:induction false} VerifyFromSettlesFirst(initial: string, samples: seq<Option<string>>, i: nat, previous: string, count: nat)
    requires i <= Horizon(samples)
    requires previous == Last(Seen(initial, samples, i)) && count == CountOf(Seen(initial, samples, i))
    requires NeverSettled(initial, samples, i)
    ensures FirstSettled(initial, samples, i, VerifyFrom(initial, samples, i, previous, count))
    decreases Horizon(samples) - i
  {
    if i == Horizon(samples) {
      if previous == "" {
        NonInitialSeenNonEmpty(initial, samples, i);
      }
    } else {
      assert !Settled(Seen(initial, samples, i));
      VerifyStep(initial, samples, i, previous, count);
      var w' := Seen(initial, samples, i + 1);
      if !Settled(w') {
        assert NeverSettled(initial, samples, i + 1) by {
          forall m | 0 <= m <= i + 1 ensures !Settled(Seen(initial, samples, m)) {
            if m == i + 1 { assert Seen(initial, samples, m) == w'; }
          }
        }
        VerifyFromSettlesFirst(initial, samples, i + 1, Last(w'), CountOf(w'));
      }
    }
  }

  /** What was seen after the opening content is never empty, so
      `previousContent || initialContent` is whatever was seen last. */
  lemma {:induction false} NonInitialSeenNonEmpty(initial: string, samples: seq<Option<string>>, n: nat)
    requires n <= |samples|
    ensures forall j :: 1 <= j < |Seen(initial, samples, n)| ==> Seen(initial, samples, n)[j] != ""
  {
    if n > 0 {
      NonInitialSeenNonEmpty(initial, samples, n - 1);
      if !Blank(samples[n - 1]) {
        assert Trim("") == "";
      }
    }
  }

  /** Verification accepts on the first read after which the last five
      texts seen (the opening content included) are one text of at least
      50 characters; without such a read it times out with the last text
      seen. */
  lemma VerifyAcceptsFirstSettled(initial: string, samples: seq<Option<string>>)
    ensures FirstSettled(initial, samples, 0, Verify(initial, samples))
    ensures Verify(initial, samples).Complete? ==> |Verify(initial, samples).content| >= MinContentLength
  {
    VerifyFromSettlesFirst(initial, samples, 0, initial, 0);
    if Verify(initial, samples).Complete? {
      var k := Verify(initial, samples).at;
      assert Last(Seen(initial, samples, k + 1)) == Verify(initial, samples).content by {
        SeenStep(initial, samples, k);
      }
    }
  }

  /** Reads that each return a longer text than the one before (the
      first: longer than the opening content). */
  ghost predicate Growing(initial: string, samples: seq<Option<string>>) {
    && (forall j :: 0 <= j < |samples| ==> samples[j].Some?)
    && (|samples| > 0 ==> |samples[0].value| > |initial|)
    && (forall j :: 0 < j < |samples| ==> |samples[j].value| > |samples[j - 1].value|)
  }

  lemma {:induction false} GrowingNeverRepeats(initial: string, samples: seq<Option<string>>, n: nat)
    requires n <= |samples| && Growing(initial, samples)
    ensures Repeats(Seen(initial, samples, n)) == 0
    ensures |Last(Seen(initial, samples, n))| <= if n == 0 then |initial| else |samples[n - 1].value|
  {
    if n > 0 {
      GrowingNeverRepeats(initial, samples, n - 1);
      SeenStep(initial, samples, n - 1);
      if !Blank(samples[n - 1]) {
        RepeatsStep(Seen(initial, samples, n - 1), samples[n - 1].value);
      }
    }
  }

  /** A reply that is still growing on every read is never accepted. */
  lemma GrowingReplyTimesOut(initial: string, samples: seq<Option<string>>)
    requires Growing(initial, samples)
    ensures Verify(initial, samples).TimedOut?
  {
    VerifyAcceptsFirstSettled(initial, samples);
    if Verify(initial, samples).Complete? {
      var k := Verify(initial, samples).at;
      GrowingNeverRepeats(initial, samples, k + 1);
      SettledIsRepeats(Seen(initial, samples, k + 1));
    }
  }
}
