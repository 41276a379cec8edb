/** The side panel's message parser, `parseMessage`, and the sends that
    the `/cross` and `/mutual` commands make (`handleCrossReference`,
    `handleMutualReview`). Mentions are `@claude`, `@chatgpt` and
    `@gemini` in any letter case, found as `matchAll` finds them. */
module Commands {
  import opened Text
  import opened History
  import opened Prompts

  const AiTypes: seq<string> := ["claude", "chatgpt", "gemini"]

  const DefaultMutualPrompt :=
    "Please evaluate the above perspectives. "
    + "What do you agree with? What do "
    + "you disagree with? What would "
    + "you add?"

  /** The words of `evalKeywords`, matched without regard to letter case. */
  const EvalKeywords: seq<string> := ["evaluate", "think of", "opinion", "review", "agree", "analysis", "compare",
    "learn from", "what do you think", "how", "perspective", "viewpoint", "critique", "supplement", "criticize",
    "analyze", "consider", "believe"]

  /** `evalKeywords.test(message)`. A keyword character matches a text
      character exactly when the text character lower-cases to it, since
      `/i` without `u` never folds a non-ASCII character to an ASCII one. */
  predicate HasKeyword(message: string) {
    exists k :: 0 <= k < |EvalKeywords| && Contains(Lower(message), EvalKeywords[k])
  }

  // ---------------------------------------------------------------------
  // Mentions: `/@(claude|chatgpt|gemini)/gi`.

  /** One match: where its `@` is, and `m[1].toLowerCase()`. */
  datatype Mention = Mention(index: nat, name: string)

  /** `name` spelled at `j` in any letter case. */
  predicate NameAt(s: string, j: nat, name: string) {
    j + |name| <= |s| && forall t :: 0 <= t < |name| ==> LowerChar(s[j + t]) == name[t]
  }

  /** The first of `names` spelled at `j`, as the alternation tries them. */
  function FirstName(s: string, j: nat, names: seq<string>): Option<string> {
    if names == [] then None
    else if NameAt(s, j, names[0]) then Some(names[0])
    else FirstName(s, j, names[1..])
  }

  lemma {:induction false} FirstNameSpelled(s: string, j: nat, names: seq<string>)
    ensures FirstName(s, j, names).Some? ==> FirstName(s, j, names).value in names && NameAt(s, j, FirstName(s, j, names).value)
    ensures FirstName(s, j, names).None? ==> forall k :: 0 <= k < |names| ==> !NameAt(s, j, names[k])
  {
    if names != [] && !NameAt(s, j, names[0]) {
      FirstNameSpelled(s, j, names[1..]);
      assert forall k :: 1 <= k < |names| ==> names[k] == names[1..][k - 1];
    }
  }

  /** The name a match starting at `i` would capture. */
  function MentionAt(s: string, i: nat): Option<string> {
    if i < |s| && s[i] == '@' then FirstName(s, i + 1, AiTypes) else None
  }

  /** A match is an `@` followed by one of the three names. */
  lemma MentionAtNamesAi(s: string, i: nat)
    ensures MentionAt(s, i).Some? ==>
              && MentionAt(s, i).value in AiTypes && i < |s| && s[i] == '@' && NameAt(s, i + 1, MentionAt(s, i).value)
  {
    if i < |s| && s[i] == '@' {
      FirstNameSpelled(s, i + 1, AiTypes);
    }
  }

  function End(m: Mention): nat {
    m.index + 1 + |m.name|
  }

  /** The matches from position `i` on; after a match the search resumes
      at its end (`lastIndex`). */
  function MatchAllFrom(s: string, i: nat): seq<Mention>
    decreases |s| - i
  {
    if i >= |s| then []
    else match MentionAt(s, i)
      case Some(name) => [Mention(i, name)] + MatchAllFrom(s, i + 1 + |name|)
      case None => MatchAllFrom(s, i + 1)
  }

  /** Every match is a mention, and the matches do not overlap. */
  lemma {:induction false} MatchAllFromSound(s: string, i: nat)
    ensures forall k :: 0 <= k < |MatchAllFrom(s, i)| ==>
              i <= MatchAllFrom(s, i)[k].index && MentionAt(s, MatchAllFrom(s, i)[k].index) == Some(MatchAllFrom(s, i)[k].name)
    ensures forall k :: 0 <= k < |MatchAllFrom(s, i)| - 1 ==> End(MatchAllFrom(s, i)[k]) <= MatchAllFrom(s, i)[k + 1].index
    decreases |s| - i
  {
    if i < |s| {
      match MentionAt(s, i)
      case Some(name) =>
        MatchAllFromSound(s, i + 1 + |name|);
      case None =>
        MatchAllFromSound(s, i + 1);
    }
  }

  function MatchAll(s: string): seq<Mention> {
    MatchAllFrom(s, 0)
  }

  function Names(ms: seq<Mention>): seq<string> {
    seq(|ms|, k requires 0 <= k < |ms| => ms[k].name)
  }

  /** `[...new Set(matches.map(m => m[1].toLowerCase()))]` */
  function MentionNames(s: string): seq<string> {
    Dedup(Names(MatchAll(s)))
  }

  /** The characters of a name are letters, so no match starts inside one. */
  lemma NoMentionInsideName(s: string, i: nat, name: string, j: nat)
    requires MentionAt(s, i) == Some(name) && i < j < i + 1 + |name|
    ensures MentionAt(s, j).None?
  {
    var t := j - i - 1;
    MentionAtNamesAi(s, i);
    assert LowerChar(s[i + 1 + t]) == name[t];
    assert 'a' <= name[t] <= 'z';
  }

  /** No match at `k` runs past `j`. */
  predicate Clear(s: string, k: nat, j: nat) {
    match MentionAt(s, k)
    case None => true
    case Some(name) => k + 1 + |name| <= j
  }

  lemma {:induction false} MatchAllFromComplete(s: string, i: nat, j: nat, name: string)
    requires i <= j && MentionAt(s, j) == Some(name)
    requires forall k :: i <= k < j ==> Clear(s, k, j)
    ensures Mention(j, name) in MatchAllFrom(s, i)
    decreases |s| - i
  {
    assert j < |s|;
    if i == j {
      assert MatchAllFrom(s, i) == [Mention(j, name)] + MatchAllFrom(s, j + 1 + |name|);
    } else {
      match MentionAt(s, i)
      case Some(first) =>
        assert Clear(s, i, j);
        var rest := MatchAllFrom(s, i + 1 + |first|);
        MatchAllFromComplete(s, i + 1 + |first|, j, name);
        assert MatchAllFrom(s, i) == [Mention(i, first)] + rest;
      case None =>
        MatchAllFromComplete(s, i + 1, j, name);
        assert MatchAllFrom(s, i) == MatchAllFrom(s, i + 1);
    }
  }

  /** The matches are exactly the places where `@` and a name start. */
  lemma MatchAllFindsEveryMention(s: string, j: nat, name: string)
    ensures MentionAt(s, j) == Some(name) <==> Mention(j, name) in MatchAll(s)
  {
    MatchAllFromSound(s, 0);
    if MentionAt(s, j) == Some(name) {
      forall k | 0 <= k < j ensures Clear(s, k, j) {
        if MentionAt(s, k).Some? && k + 1 + |MentionAt(s, k).value| > j {
          NoMentionInsideName(s, k, MentionAt(s, k).value, j);
        }
      }
      MatchAllFromComplete(s, 0, j, name);
    }
  }

  /** A name is mentioned exactly when some `@` in the text starts it. */
  lemma MentionNamesAreMentions(s: string, name: string)
    ensures name in MentionNames(s) <==> exists i :: 0 <= i < |s| && MentionAt(s, i) == Some(name)
  {
    var ms := MatchAll(s);
    if name in MentionNames(s) {
      var k :| 0 <= k < |ms| && Names(ms)[k] == name;
      MatchAllFromSound(s, 0);
      MentionAtNamesAi(s, ms[k].index);
    }
    if exists i :: 0 <= i < |s| && MentionAt(s, i) == Some(name) {
      var i :| 0 <= i < |s| && MentionAt(s, i) == Some(name);
      MatchAllFindsEveryMention(s, i, name);
      var k :| 0 <= k < |ms| && ms[k] == Mention(i, name);
      assert Names(ms)[k] == name;
    }
  }

  // ---------------------------------------------------------------------
  // The parse.

  /** `{mutual: true, prompt, mentions: []}`, `{crossRef: true, mentions,
      targetAIs, sourceAIs}`, or `{crossRef: false, mentions}`; each with
      its `originalMessage`. */
  datatype Parsed =
    | MutualReview(prompt: string, originalMessage: string)
    | CrossReference(mentions: seq<string>, targetAIs: seq<string>, sourceAIs: seq<string>, originalMessage: string)
    | Plain(mentions: seq<string>, originalMessage: string)

  predicate IsMutualCommand(trimmed: string) {
    Lower(trimmed) == "/mutual" || StartsWith(Lower(trimmed), "/mutual ")
  }

  /** The prompt after `/mutual`, or the default one. */
  function MutualPrompt(trimmed: string): string {
    var p := if |trimmed| > 7 then Trim(SubstringFrom(trimmed, 7)) else "";
    if p == "" then DefaultMutualPrompt else p
  }

  predicate IsCrossCommand(message: string) {
    StartsWith(Lower(Trim(message)), "/cross ")
  }

  /** The text before `<-`, after `/cross `. */
  function BeforeArrow(message: string, arrow: nat): string {
    Trim(Substring(message, 7, arrow))
  }

  function AfterArrow(message: string, arrow: nat): string {
    Trim(SubstringFrom(message, arrow + 2))
  }

  /** What follows the last source mention. */
  function ActualMessage(after: string): string {
    var ms := MatchAll(after);
    if |ms| > 0 then Trim(SubstringFrom(after, End(ms[|ms| - 1]))) else after
  }

  /** A `/cross` command with an arrow: a cross-reference when both sides
      name someone, `None` to fall through to the mention rules. */
  function ParseCross(message: string, arrow: nat): (r: Option<Parsed>)
    ensures r.Some? ==> r.value.CrossReference? && r.value.targetAIs != [] && r.value.sourceAIs != []
  {
    var before, after := BeforeArrow(message, arrow), AfterArrow(message, arrow);
    var targets, sources := MentionNames(before), MentionNames(after);
    if |targets| > 0 && |sources| > 0 then
      Some(CrossReference(targets + sources, targets, sources, ActualMessage(after)))
    else None
  }

  /** Two distinct names and an evaluation keyword: the first match
      evaluates the last one. Otherwise a plain send to the mentioned. */
  function ParseMentions(message: string): (r: Parsed)
    ensures r.CrossReference? ==> |r.targetAIs| == 1 && |r.sourceAIs| == 1
  {
    var matches := MatchAll(message);
    var mentions := Dedup(Names(matches));
    if |mentions| == 2 && HasKeyword(message) then
      CrossReference(mentions, [matches[0].name], [matches[|matches| - 1].name], message)
    else Plain(mentions, message)
  }

  function ParseMessage(message: string): (r: Parsed)
    ensures r.CrossReference? ==> r.targetAIs != [] && r.sourceAIs != []
  {
    var trimmed := Trim(message);
    if IsMutualCommand(trimmed) then MutualReview(MutualPrompt(trimmed), message)
    else if IsCrossCommand(message) && IndexOf(message, "<-") == -1 then Plain([], message)
    else if IsCrossCommand(message) && ParseCross(message, IndexOf(message, "<-")).Some? then
      ParseCross(message, IndexOf(message, "<-")).value
    else ParseMentions(message)
  }

  // ---------------------------------------------------------------------
  // What the parse promises.

  /** `/mutual` alone asks for the fixed default prompt. */
  lemma MutualAloneUsesDefault(message: string)
    requires Lower(Trim(message)) == "/mutual"
    ensures ParseMessage(message) == MutualReview(DefaultMutualPrompt, message)
  {
  }

  /** `/mutual text` asks with the text, trimmed. */
  lemma MutualWithPrompt(message: string)
    requires StartsWith(Lower(Trim(message)), "/mutual ")
    requires Trim(SubstringFrom(Trim(message), 7)) != ""
    ensures ParseMessage(message) == MutualReview(Trim(SubstringFrom(Trim(message), 7)), message)
  {
  }

  /** `/cross` without an arrow is an ordinary message that names nobody. */
  lemma CrossWithoutArrowIsPlain(message: string)
    requires !IsMutualCommand(Trim(message)) && IsCrossCommand(message) && !Contains(message, "<-")
    ensures ParseMessage(message) == Plain([], message)
  {
  }

  /** A `/cross` command with an arrow and names on both sides: the target
      and source lists are the names mentioned before and after the arrow,
      lower-case, each once. */
  lemma CrossCommandLists(message: string, name: string)
    requires !IsMutualCommand(Trim(message)) && IsCrossCommand(message) && Contains(message, "<-")
    requires ParseCross(message, IndexOf(message, "<-")).Some?
    ensures var r, before, after := ParseMessage(message), BeforeArrow(message, IndexOf(message, "<-")), AfterArrow(message, IndexOf(message, "<-"));
            && r.CrossReference?
            && r.mentions == r.targetAIs + r.sourceAIs
            && NoDuplicates(r.targetAIs) && NoDuplicates(r.sourceAIs)
            && (name in r.targetAIs <==> exists i :: 0 <= i < |before| && MentionAt(before, i) == Some(name))
            && (name in r.sourceAIs <==> exists i :: 0 <= i < |after| && MentionAt(after, i) == Some(name))
            && (name in r.targetAIs + r.sourceAIs ==> name in AiTypes)
  {
    var arrow := IndexOf(message, "<-");
    var before, after := BeforeArrow(message, arrow), AfterArrow(message, arrow);
    MentionNamesAreMentions(before, name);
    MentionNamesAreMentions(after, name);
    if name in MentionNames(before) {
      var i :| 0 <= i < |before| && MentionAt(before, i) == Some(name);
      MentionAtNamesAi(before, i);
    }
    if name in MentionNames(after) {
      var i :| 0 <= i < |after| && MentionAt(after, i) == Some(name);
      MentionAtNamesAi(after, i);
    }
  }

  /** The first mention in the text. */
  ghost predicate FirstMention(s: string, i: nat, name: string) {
    i < |s| && MentionAt(s, i) == Some(name) && forall j :: 0 <= j < i ==> MentionAt(s, j).None?
  }

  ghost predicate LastMention(s: string, i: nat, name: string) {
    i < |s| && MentionAt(s, i) == Some(name) && forall j :: i < j < |s| ==> MentionAt(s, j).None?
  }

  /** Nothing is skipped before the first match, nor anywhere when there is none. */
  lemma {:induction false} MatchAllFromFirst(s: string, i: nat)
    ensures MatchAllFrom(s, i) == [] ==> forall j :: i <= j < |s| ==> MentionAt(s, j).None?
    ensures MatchAllFrom(s, i) != [] ==> forall j :: i <= j < MatchAllFrom(s, i)[0].index ==> MentionAt(s, j).None?
    decreases |s| - i
  {
    if i < |s| && MentionAt(s, i).None? {
      MatchAllFromFirst(s, i + 1);
    }
  }

  /** Nothing is skipped after the last match. */
  lemma {:induction false} MatchAllFromLast(s: string, i: nat)
    ensures MatchAllFrom(s, i) != [] ==>
              forall j :: MatchAllFrom(s, i)[|MatchAllFrom(s, i)| - 1].index < j < |s| ==> MentionAt(s, j).None?
    decreases |s| - i
  {
    if i < |s| {
      match MentionAt(s, i)
      case Some(name) =>
        var next := i + 1 + |name|;
        var rest := MatchAllFrom(s, next);
        if rest == [] {
          MatchAllFromFirst(s, next);
          forall j | i < j < next ensures MentionAt(s, j).None? {
            NoMentionInsideName(s, i, name, j);
          }
        } else {
          MatchAllFromLast(s, next);
        }
      case None =>
        MatchAllFromLast(s, i + 1);
    }
  }

  /** Outside the two commands, and for a `/cross` command whose arrow
      has no name on one side, the mention rules decide. */
  lemma ParseFallsThrough(message: string)
    requires !IsMutualCommand(Trim(message))
    requires !(IsCrossCommand(message) && (IndexOf(message, "<-") == -1 || ParseCross(message, IndexOf(message, "<-")).Some?))
    ensures ParseMessage(message) == ParseMentions(message)
  {
  }

  /** Two distinct names and a keyword, outside the commands: the first
      mention in the text is the target, the last one the source. When the
      same name is mentioned at both ends, with the other in between, that
      name is asked to review itself. */
  lemma TwoMentionsAndKeyword(message: string, i: nat, x: string, j: nat, y: string)
    requires !IsMutualCommand(Trim(message))
    requires !(IsCrossCommand(message) && (IndexOf(message, "<-") == -1 || ParseCross(message, IndexOf(message, "<-")).Some?))
    requires |MentionNames(message)| == 2 && HasKeyword(message)
    requires FirstMention(message, i, x) && LastMention(message, j, y)
    ensures ParseMessage(message) == CrossReference(MentionNames(message), [x], [y], message)
  {
    ParseFallsThrough(message);
    FirstMatchIsFirstMention(message, i, x);
    LastMatchIsLastMention(message, j, y);
  }

  /** The first match is the first mention. */
  lemma FirstMatchIsFirstMention(s: string, i: nat, x: string)
    requires FirstMention(s, i, x)
    ensures MatchAll(s) != [] && MatchAll(s)[0] == Mention(i, x)
  {
    var ms := MatchAll(s);
    MatchAllFromSound(s, 0);
    MatchAllFromFirst(s, 0);
    assert ms != [];
    assert MentionAt(s, ms[0].index).Some?;
  }

  /** The last match is the last mention. */
  lemma LastMatchIsLastMention(s: string, j: nat, y: string)
    requires LastMention(s, j, y)
    ensures MatchAll(s) != [] && MatchAll(s)[|MatchAll(s)| - 1] == Mention(j, y)
  {
    var ms := MatchAll(s);
    MatchAllFromSound(s, 0);
    MatchAllFromFirst(s, 0);
    MatchAllFromLast(s, 0);
    assert ms != [];
    assert MentionAt(s, ms[|ms| - 1].index).Some?;
    MentionAtNamesAi(s, ms[|ms| - 1].index);
  }

  /** Outside the two commands, a cross-reference needs exactly two
      distinct names and a keyword. */
  lemma CrossReferenceOnlyByRule(message: string)
    requires ParseMessage(message).CrossReference?
    ensures || (IsCrossCommand(message) && Contains(message, "<-") && !IsMutualCommand(Trim(message)))
            || (|MentionNames(message)| == 2 && HasKeyword(message))
  {
  }

  // ---------------------------------------------------------------------
  // The command handlers' sends.

  /** The latest responses of `ais`, in their order. */
  function Contents(ais: seq<string>, latest: map<string, Option<string>>): seq<string> {
    seq(|ais|, k requires 0 <= k < |ais| => Content(Latest(latest, ais[k])))
  }

  /** The latest responses of `ais`, by name. */
  function ResponseMap(ais: seq<string>, latest: map<string, Option<string>>): map<string, string> {
    map ai | ai in ais :: Content(Latest(latest, ai))
  }

  /** `handleCrossReference`: with every source's latest response at hand,
      each target receives the original message followed by one block per
      source; with any missing, nothing is sent. */
  function CrossReferenceSends(targets: seq<string>, sources: seq<string>, original: string,
                               latest: map<string, Option<string>>): (r: seq<Outgoing>)
    ensures (exists k :: 0 <= k < |sources| && !Truthy(Latest(latest, sources[k]))) ==> r == []
    ensures (forall k :: 0 <= k < |sources| ==> Truthy(Latest(latest, sources[k]))) ==> |r| == |targets|
    ensures forall k :: 0 <= k < |r| ==> r[k].ai == targets[k]
  {
    if exists k :: 0 <= k < |sources| && !Truthy(Latest(latest, sources[k])) then []
    else
      var message := CrossReferenceMessage(original, sources, Contents(sources, latest));
      seq(|targets|, k requires 0 <= k < |targets| => Outgoing(targets[k], message))
  }

  /** Every target receives the same message: the original text and a
      newline, then the latest response of every source as a block, in
      source order and nothing after the last. */
  lemma CrossReferenceQuotesLatest(targets: seq<string>, sources: seq<string>, original: string,
                                   latest: map<string, Option<string>>, t: nat)
    requires forall i :: 0 <= i < |sources| ==> Truthy(Latest(latest, sources[i]))
    requires t < |targets|
    ensures StartsWith(CrossReferenceSends(targets, sources, original, latest)[t].message, original + "\n")
    ensures forall k :: 0 <= k < |sources| ==>
              OccursAt(CrossReferenceSends(targets, sources, original, latest)[t].message,
                       Block(sources[k], Latest(latest, sources[k]).value),
                       SectionStart(original + "\n", CrossSections(sources, Contents(sources, latest)), k))
    ensures forall j, k :: 0 <= j < k < |sources| ==>
              SectionStart(original + "\n", CrossSections(sources, Contents(sources, latest)), j)
                + |Block(sources[j], Latest(latest, sources[j]).value)|
                < SectionStart(original + "\n", CrossSections(sources, Contents(sources, latest)), k)
    ensures |CrossReferenceSends(targets, sources, original, latest)[t].message|
              == |original + "\n" + Concat(CrossSections(sources, Contents(sources, latest)))|
  {
    var contents := Contents(sources, latest);
    forall k | 0 <= k < |sources| ensures contents[k] == Latest(latest, sources[k]).value {
    }
    CrossReferenceQuotesSources(original, sources, contents);
  }

  /** A response `handleMutualReview` accepts: present and not blank. */
  predicate Usable(response: Option<string>) {
    response.Some? && Trim(response.value) != ""
  }

  predicate AllUsable(participants: seq<string>, latest: map<string, Option<string>>) {
    forall k :: 0 <= k < |participants| ==> Usable(Latest(latest, participants[k]))
  }

  /** `handleMutualReview`: with a usable latest response from every
      participant, each participant receives the others' responses and the
      prompt; with any missing, nothing is sent. */
  function MutualReviewSends(participants: seq<string>, prompt: string, latest: map<string, Option<string>>): (r: seq<Outgoing>)
    ensures (exists k :: 0 <= k < |participants| && !Usable(Latest(latest, participants[k]))) ==> r == []
    ensures (forall k :: 0 <= k < |participants| ==> Usable(Latest(latest, participants[k]))) ==> |r| == |participants|
    ensures forall k :: 0 <= k < |r| ==> r[k].ai == participants[k]
  {
    if !AllUsable(participants, latest) then []
    else
      var responses := ResponseMap(participants, latest);
      seq(|participants|, k requires 0 <= k < |participants| =>
        Outgoing(participants[k], MutualReviewMessage(participants, participants[k], responses, prompt)))
  }

  /** Participant `k` is sent the latest responses of the others, in
      participant order and never its own, then the prompt. */
  lemma MutualReviewQuotesLatest(participants: seq<string>, prompt: string, latest: map<string, Option<string>>, k: nat)
    requires NoDuplicates(participants) && k < |participants|
    requires AllUsable(participants, latest)
    ensures forall ai :: ai in participants ==>
              ai in ResponseMap(participants, latest) && ResponseMap(participants, latest)[ai] == Latest(latest, ai).value
    ensures Without(participants, participants[k]) == participants[..k] + participants[k + 1..]
    ensures participants[k] !in Without(participants, participants[k])
    ensures MutualLayout(MutualReviewSends(participants, prompt, latest)[k].message, MutualHeader,
                         Without(participants, participants[k]), ResponseMap(participants, latest), prompt)
  {
    var responses := ResponseMap(participants, latest);
    forall ai | ai in participants ensures ai in responses && responses[ai] == Latest(latest, ai).value {
      var i :| 0 <= i < |participants| && participants[i] == ai;
      assert Usable(Latest(latest, participants[i]));
    }
    MutualReviewQuotesOthers(participants, k, responses, prompt);
  }
}
