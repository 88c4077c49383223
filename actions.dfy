/**
 * The server action of app/actions.ts: obtain one activity, either from the
 * text-generation service (cleaning its reply, parsing it, recovering a title and
 * a description heuristically from text that does not parse) or from a fixed
 * pool, so that every path reports success with a usable activity.
 *
 * The service call, `JSON.parse` and `Math.random` are inputs of the model:
 * a `Completion` value, a `parse` oracle and an index into the pool.
 */
module Actions {
  import opened Wrappers
  import opened Strings

  datatype Activity = Activity(title: string, description: string)

  /** Both fields non-empty: the only kind of activity the page can show. */
  predicate Usable(a: Activity) {
    a.title != [] && a.description != []
  }

  /** The server-side pool, used when the service is unavailable or its reply is unusable. */
  const FallbackActivities: seq<Activity> := [
    Activity("Reverse Order Day",
      "Do your normal routine completely backwards today. Start with dinner foods for breakfast, say goodbye when meeting people, and end your day with a morning ritual."),
    Activity("Random Accent Hour",
      "Speak in a made-up accent for one hour in public. Commit fully to the character and see how people respond differently to you."),
    Activity("Five Compliments Challenge",
      "Give five genuine compliments to complete strangers today. Notice how it makes you feel and how they react to unexpected kindness.")
  ]

  /** The activity returned when something outside the service call throws. */
  const LastResortActivity: Activity :=
    Activity("Street Performance",
      "Find a busy public area and perform a simple talent for 2 minutes. It could be singing, dancing, or even reciting a poem. Notice how it feels to be watched by strangers.")

  // ---------------------------------------------------------------------------
  // Code fences

  const Fence: string := "```"

  /** Alternatives that all begin with a fence, the bare fence among them. */
  predicate FencePatterns(pats: seq<string>) {
    Fence in pats && forall k :: 0 <= k < |pats| ==> Fence <= pats[k]
  }

  /** With fence alternatives, text that does not start with a fence keeps its first character. */
  lemma RemoveAllKeepsHead(t: string, pats: seq<string>)
    requires FencePatterns(pats) && t != [] && !(Fence <= t)
    ensures NonEmptyPatterns(pats)
    ensures RemoveAll(t, pats) == [t[0]] + RemoveAll(t[1..], pats)
  {
    assert NonEmptyPatterns(pats) by {
      forall k | 0 <= k < |pats| ensures pats[k] != [] {
        assert Fence <= pats[k];
      }
    }
    forall k | 0 <= k < |pats| ensures !(pats[k] <= t) {
      assert Fence <= pats[k];
    }
  }

  /**
   * Removing fence alternatives globally leaves no fence behind: a character kept
   * just before a removed match is never a backtick, so no new fence forms.
   */
  lemma {:induction false} RemoveAllLeavesNoFence(s: string, pats: seq<string>)
    requires FencePatterns(pats)
    ensures NonEmptyPatterns(pats)
    ensures !Contains(RemoveAll(s, pats), Fence)
    decreases |s|
  {
    assert NonEmptyPatterns(pats) by {
      forall k | 0 <= k < |pats| ensures pats[k] != [] {
        assert Fence <= pats[k];
      }
    }
    if s != [] {
      match FirstPrefix(s, pats)
      case Some(k) =>
        RemoveAllLeavesNoFence(s[|pats[k]|..], pats);
      case None =>
        var i :| 0 <= i < |pats| && pats[i] == Fence;
        assert !(Fence <= s);
        var rest := RemoveAll(s[1..], pats);
        RemoveAllLeavesNoFence(s[1..], pats);
        assert RemoveAll(s, pats) == [s[0]] + rest;
        if s[0] == '`' && |s| > 1 {
          if s[1] != '`' {
            assert !(Fence <= s[1..]);
            RemoveAllKeepsHead(s[1..], pats);
          } else if |s| > 2 {
            assert s[2] != '`';
            assert !(Fence <= s[1..]);
            RemoveAllKeepsHead(s[1..], pats);
            assert s[1..][1..] == s[2..];
            assert !(Fence <= s[2..]);
            RemoveAllKeepsHead(s[2..], pats);
          } else {
            assert s[1..] == "`";
            assert !(Fence <= s[1..]);
            RemoveAllKeepsHead(s[1..], pats);
            assert s[1..][1..] == [];
          }
        }
    }
  }

  /** A part of fence-free text is fence-free. */
  lemma FenceFreePart(s: string, part: string)
    requires Contains(s, part) && !Contains(s, Fence)
    ensures !Contains(part, Fence)
  {
    if Contains(part, Fence) {
      ContainsTransitive(s, part, Fence);
    }
  }

  /** Fence alternatives leave text without a backtick unchanged. */
  lemma NoBacktickUnchanged(s: string, pats: seq<string>)
    requires forall k :: 0 <= k < |pats| ==> Fence <= pats[k]
    ensures NonEmptyPatterns(pats)
    ensures '`' !in s ==> RemoveAll(s, pats) == s
  {
    forall k | 0 <= k < |pats| ensures pats[k] != [] && pats[k][0] == '`' {
      assert Fence <= pats[k];
    }
    if '`' !in s {
      forall k | 0 <= k < |pats| ensures !Contains(s, pats[k]) {
        if Contains(s, pats[k]) {
          ContainsHead(s, pats[k]);
        }
      }
      RemoveAllWithoutMatches(s, pats);
    }
  }

  /** `s` without its backticks. */
  function WithoutBackticks(s: string): string {
    if s == [] then [] else (if s[0] == '`' then [] else [s[0]]) + WithoutBackticks(s[1..])
  }

  /**
   * The bare-fence pass of line 105 removes backticks only: every other character
   * of the text is kept, in order.
   */
  lemma {:induction false} FencePassKeepsText(s: string)
    ensures WithoutBackticks(RemoveAll(s, [Fence])) == WithoutBackticks(s)
    decreases |s|
  {
    if s != [] {
      match FirstPrefix(s, [Fence])
      case Some(_) =>
        FencePassKeepsText(s[3..]);
        assert s[1..][1..] == s[2..] && s[2..][1..] == s[3..];
        assert WithoutBackticks(s) == WithoutBackticks(s[1..]) == WithoutBackticks(s[2..]);
      case None =>
        FencePassKeepsText(s[1..]);
        var rest := RemoveAll(s[1..], [Fence]);
        assert ([s[0]] + rest)[1..] == rest;
    }
  }

  /** Text without a backtick in front of the rest passes fence removal unchanged. */
  lemma {:induction false} KeepFront(t: string, u: string, pats: seq<string>)
    requires forall k :: 0 <= k < |pats| ==> Fence <= pats[k]
    requires '`' !in t
    ensures NonEmptyPatterns(pats)
    ensures RemoveAll(t + u, pats) == t + RemoveAll(u, pats)
    decreases |t|
  {
    forall k | 0 <= k < |pats| ensures pats[k] != [] && pats[k][0] == '`' {
      assert Fence <= pats[k];
    }
    if t == [] {
      assert t + u == u;
    } else {
      forall k | 0 <= k < |pats| ensures !(pats[k] <= t + u) {
        assert (t + u)[0] == t[0] != '`';
      }
      assert FirstPrefix(t + u, pats).None?;
      assert (t + u)[1..] == t[1..] + u;
      assert '`' !in t[1..] by { assert forall c :: c in t[1..] ==> c in t; }
      KeepFront(t[1..], u, pats);
      assert t == [t[0]] + t[1..];
    }
  }

  /**
   * Line 105: remove every "```json", then every "```" (two global passes). No
   * fence is left, and text without a backtick passes unchanged.
   */
  function StripCodeFences(s: string): (r: string)
    ensures !Contains(r, Fence)
    ensures '`' !in s ==> r == s
  {
    NoBacktickUnchanged(s, ["```json"]);
    var once := RemoveAll(s, ["```json"]);
    RemoveAllLeavesNoFence(once, [Fence]);
    NoBacktickUnchanged(once, [Fence]);
    RemoveAll(once, [Fence])
  }

  /** A reply wrapped in "```json" and "```" loses exactly the wrapping. */
  lemma StripCodeFencesUnwraps(x: string)
    requires '`' !in x
    ensures StripCodeFences("```json" + x + Fence) == x
  {
    var s := "```json" + x + Fence;
    assert RemoveAll(s, ["```json"]) == x + Fence by {
      assert FirstPrefix(s, ["```json"]) == Some(0);
      assert s[7..] == x + Fence;
      KeepFront(x, Fence, ["```json"]);
      assert !Contains(Fence, "```json") by {
        if Contains(Fence, "```json") { ContainsNoLonger(Fence, "```json"); }
      }
      RemoveAllWithoutMatches(Fence, ["```json"]);
    }
    assert RemoveAll(x + Fence, [Fence]) == x by {
      KeepFront(x, Fence, [Fence]);
      assert FirstPrefix(Fence, [Fence]) == Some(0);
      assert x + [] == x;
    }
  }

  // ---------------------------------------------------------------------------
  // Extracting the object

  /** Some `{` is followed, later on, by a `}`: the pattern /\{.*\}/s matches. */
  predicate HasBracedSpan(s: string) {
    exists i, j :: 0 <= i < j < |s| && s[i] == '{' && s[j] == '}'
  }

  /**
   * Lines 108-111: the greedy match of /\{.*\}/s, from the first `{` to the last
   * `}`, when there is one; otherwise the text itself.
   */
  function ExtractJsonSpan(s: string): (r: string)
    ensures !HasBracedSpan(s) ==> r == s
    ensures HasBracedSpan(s) ==> |r| >= 2 && r[0] == '{' && r[|r| - 1] == '}'
    ensures HasBracedSpan(s) ==>
      exists i, j :: 0 <= i < j < |s| && s[i] == '{' && s[j] == '}' && r == s[i..j + 1]
        && (forall k :: 0 <= k < i ==> s[k] != '{')
        && (forall k :: j < k < |s| ==> s[k] != '}')
  {
    match (FindChar(s, '{'), FindLastChar(s, '}'))
    case (Some(i), Some(j)) => if i < j then s[i..j + 1] else s
    case _ => s
  }

  /** The cleaned reply that lines 102-111 hand to `JSON.parse`. */
  function CleanedReply(text: string): (r: string)
    ensures !Contains(r, Fence)
    ensures HasBracedSpan(StripCodeFences(Trim(text))) ==> |r| >= 2 && r[0] == '{' && r[|r| - 1] == '}'
    ensures !HasBracedSpan(StripCodeFences(Trim(text))) ==> r == StripCodeFences(Trim(text))
  {
    var fenceFree := StripCodeFences(Trim(text));
    SpanIsPart(fenceFree);
    FenceFreePart(fenceFree, ExtractJsonSpan(fenceFree));
    ExtractJsonSpan(fenceFree)
  }

  /** The extracted span is a contiguous part of the text. */
  lemma SpanIsPart(s: string)
    ensures Contains(s, ExtractJsonSpan(s))
  {
    var r := ExtractJsonSpan(s);
    if r == s {
      assert s <= s;
    } else {
      var i, j := FindChar(s, '{').value, FindLastChar(s, '}').value;
      assert r == s[i..j + 1];
      OccurrenceContains(s, r, i);
    }
  }

  /** Lines 102-111, step by step: trim, strip fences, keep the braced span if any. */
  method CleanResponse(text: string) returns (cleaned: string)
    ensures cleaned == CleanedReply(text)
    ensures !Contains(cleaned, Fence)
    ensures HasBracedSpan(StripCodeFences(Trim(text))) ==> cleaned[0] == '{' && cleaned[|cleaned| - 1] == '}'
  {
    cleaned := Trim(text);
    cleaned := RemoveAll(cleaned, ["```json"]);
    cleaned := RemoveAll(cleaned, [Fence]);
    assert cleaned == StripCodeFences(Trim(text));
    ghost var fenceFree := cleaned;
    var open, close := FindChar(cleaned, '{'), FindLastChar(cleaned, '}');
    if open.Some? && close.Some? && open.value < close.value {
      cleaned := cleaned[open.value..close.value + 1];
    }
    assert cleaned == ExtractJsonSpan(fenceFree);
    assert cleaned == CleanedReply(text);
  }

  // ---------------------------------------------------------------------------
  // Validating a parsed reply

  /** What `JSON.parse` yields, reduced to the two string fields the code reads. */
  datatype ParsedObject = ParsedObject(title: Option<string>, description: Option<string>)

  /** JavaScript truthiness of an optional string field: present and non-empty. */
  predicate Truthy(field: Option<string>) {
    field.Some? && field.value != []
  }

  /** Line 118: a parsed object is accepted only when both fields are truthy. */
  function ValidateParsed(parsed: Option<ParsedObject>): (r: Option<Activity>)
    ensures r.Some? <==> parsed.Some? && Truthy(parsed.value.title) && Truthy(parsed.value.description)
    ensures r.Some? ==> (Usable(r.value)
      && r.value == Activity(parsed.value.title.value, parsed.value.description.value))
  {
    match parsed
    case Some(ParsedObject(Some(t), Some(d))) =>
      if t != [] && d != [] then Some(Activity(t, d)) else None
    case _ => None
  }

  // ---------------------------------------------------------------------------
  // Heuristic recovery (createFallbackActivityFromText)

  const Placeholder: string := "Spontaneous Activity"

  /** Characters the final clean-up strips from both ends of a description. */
  predicate IsEdgeChar(c: char) {
    c == '.' || c == ',' || c == ':' || IsSpace(c)
  }

  /** Line 208: `description.replace(/^[.,:\s]+|[.,:\s]+$/g, "")`. */
  function CleanEdges(d: string): (r: string)
    ensures r == [] || (!IsEdgeChar(r[0]) && !IsEdgeChar(r[|r| - 1]))
  {
    TrimWhere(d, IsEdgeChar)
  }

  /** Line 168: one global pass removing "```json" or "```", then `trim`. */
  function RecoveryText(text: string): (r: string)
    ensures !Contains(r, Fence)
    ensures '`' !in text ==> r == Trim(text)
  {
    var stripped := RemoveAll(text, ["```json", Fence]);
    RemoveAllLeavesNoFence(text, ["```json", Fence]);
    NoBacktickUnchanged(text, ["```json", Fence]);
    TrimOccurs(stripped, IsSpace);
    FenceFreePart(stripped, Trim(stripped));
    Trim(stripped)
  }

  /** A reply wrapped in "```json" and "```" loses exactly the wrapping, and is then trimmed. */
  lemma RecoveryTextUnwraps(x: string)
    requires '`' !in x
    ensures RecoveryText("```json" + x + Fence) == Trim(x)
  {
    var pats := ["```json", Fence];
    var s := "```json" + x + Fence;
    assert RemoveAll(s, pats) == x by {
      assert FirstPrefix(s, pats) == Some(0);
      assert s[7..] == x + Fence;
      KeepFront(x, Fence, pats);
      assert FirstPrefix(Fence, pats) == Some(1);
      assert x + [] == x;
    }
  }

  /** The two quote characters the title pattern of line 175 accepts. */
  predicate IsQuote(c: char) {
    c == '"' || c == '\''
  }

  /**
   * The pattern /"([^"]+)"|'([^']+)'/ matches from `open` to `close`: a quote, at
   * least one character other than that quote, and the same quote again.
   */
  predicate QuotedRunAt(s: string, open: nat, close: nat) {
    open + 1 < close < |s| && IsQuote(s[open]) && s[close] == s[open]
    && forall k :: open < k < close ==> s[k] != s[open]
  }

  /** The leftmost quoted run starting at or after `from` (line 175). */
  function FindQuotedRun(s: string, from: nat): (r: Option<(nat, nat)>)
    decreases |s| - from
    ensures r.Some? ==> from <= r.value.0 && QuotedRunAt(s, r.value.0, r.value.1)
    ensures r.Some? ==> forall p: nat, q: nat :: from <= p < r.value.0 ==> !QuotedRunAt(s, p, q)
    ensures r.None? ==> forall p: nat, q: nat :: from <= p ==> !QuotedRunAt(s, p, q)
  {
    if from >= |s| then None
    else if IsQuote(s[from]) then
      match FindChar(s[from + 1..], s[from])
      case Some(k) =>
        if k > 0 then Some((from, from + 1 + k))
        else
          assert s[from + 1] == s[from];
          FindQuotedRun(s, from + 1)
      case None =>
        FindQuotedRun(s, from + 1)
    else FindQuotedRun(s, from + 1)
  }

  /** Wherever the text of a quoted run occurs again, a quoted run starts there too. */
  lemma OccurrenceIsRun(s: string, open: nat, close: nat, i: nat)
    requires QuotedRunAt(s, open, close)
    requires i + (close + 1 - open) <= |s| && s[i..i + (close + 1 - open)] == s[open..close + 1]
    ensures QuotedRunAt(s, i, i + (close - open))
  {
    var len := close + 1 - open;
    forall k | i <= k < i + len ensures s[k] == s[open + (k - i)] {
      assert s[k] == s[i..i + len][k - i] == s[open..close + 1][k - i];
    }
    assert s[i] == s[open];
    forall k | i < k < i + (close - open) ensures s[k] != s[i] {
      assert s[k] == s[open + (k - i)];
    }
  }

  /** The leftmost quoted run is the first occurrence of its own text. */
  lemma LeftmostRunIsFirstOccurrence(s: string, open: nat, close: nat)
    requires QuotedRunAt(s, open, close)
    requires forall p: nat, q: nat :: p < open ==> !QuotedRunAt(s, p, q)
    ensures IndexOf(s, s[open..close + 1]) == Some(open)
    ensures RemoveFirst(s, s[open..close + 1]) == s[..open] + s[close + 1..]
  {
    var m := s[open..close + 1];
    assert IndexOf(s, m) == Some(open) by {
      assert OccursAt(s, m, open);
      OccurrenceContains(s, m, open);
      var i := IndexOf(s, m).value;
      OccurrenceIsRun(s, open, close, i);
    }
  }

  /** A segment title: non-empty, at most five space-separated pieces, at most 30 characters (line 185). */
  predicate IsShortTitle(t: string) {
    t != [] && |Split(t, {' '})| <= 5 && |t| <= 30
  }

  /** "At most five space-separated pieces" is "at most four spaces". */
  lemma ShortTitleCountsSpaces(t: string)
    ensures IsShortTitle(t) <==> t != [] && CountIn(t, {' '}) <= 4 && |t| <= 30
  {
    assert |Split(t, {' '})| == CountIn(t, {' '}) + 1;
  }

  /** Index of the first segment whose trimmed form is a short title. */
  function FirstShortSegment(segments: seq<string>): (r: Option<nat>)
    ensures r.Some? ==> r.value < |segments| && IsShortTitle(Trim(segments[r.value]))
    ensures r.Some? ==> forall j :: 0 <= j < r.value ==> !IsShortTitle(Trim(segments[j]))
    ensures r.None? ==> forall j :: 0 <= j < |segments| ==> !IsShortTitle(Trim(segments[j]))
  {
    if segments == [] then None
    else if IsShortTitle(Trim(segments[0])) then Some(0)
    else match FirstShortSegment(segments[1..])
      case Some(k) => Some(k + 1)
      case None => None
  }

  /** Title and description before the clean-up of line 208 (lines 174-205). */
  datatype Draft = Draft(title: string, description: string)

  /** Lines 176-179: the quoted content is the title, the rest of the text the description. */
  function QuoteDraft(s: string, open: nat, close: nat): (r: Draft)
    requires QuotedRunAt(s, open, close)
    ensures r.title != [] && s[open] !in r.title
  {
    var title := s[open + 1..close];
    assert forall k :: 0 <= k < |title| ==> title[k] != s[open];
    Draft(s[open + 1..close], Trim(RemoveFirst(s, s[open..close + 1])))
  }

  /** Lines 192-193: a segment title, and the text without it as the description. */
  function SegmentDraft(s: string, title: string): (r: Draft)
    ensures r.title == title
    ensures Contains(s, title) ==> |r.description| <= |s| - |title|
  {
    Draft(title, Trim(RemoveFirst(s, title)))
  }

  /** Lines 196-203: the first five words, or the placeholder. */
  function WordDraft(s: string): (r: Draft)
    ensures r.title != []
  {
    var words := Split(s, {' '});
    if |words| > 5 then Draft(Join(words[..5], ' '), Join(words[5..], ' '))
    else Draft(Placeholder, s)
  }

  function DraftFrom(s: string): (r: Draft)
    ensures r.title != []
  {
    match FindQuotedRun(s, 0)
    case Some((open, close)) => QuoteDraft(s, open, close)
    case None =>
      var segments := Split(s, {'\n', '.'});
      match FirstShortSegment(segments)
      case Some(k) => SegmentDraft(s, Trim(segments[k]))
      case None => WordDraft(s)
  }

  /**
   * The clean-up keeps a contiguous middle of the description: everything it
   * drops before and after that middle is an edge character.
   */
  lemma CleanEdgesKeepsMiddle(d: string) returns (i: nat, j: nat)
    ensures i <= j <= |d| && CleanEdges(d) == d[i..j]
    ensures forall k :: 0 <= k < i ==> IsEdgeChar(d[k])
    ensures forall k :: j <= k < |d| ==> IsEdgeChar(d[k])
  {
    i, j := TrimKeepsMiddle(d, IsEdgeChar);
  }

  /** Lines 165-220 as a function of the reply text. */
  function FallbackFromText(text: string): (r: Option<Activity>)
    ensures r.Some? ==> Usable(r.value)
    ensures r.Some? ==> (!IsEdgeChar(r.value.description[0])
      && !IsEdgeChar(r.value.description[|r.value.description| - 1]))
  {
    Polish(DraftFrom(RecoveryText(text)))
  }

  /** Lines 208-215: clean the description's edges; keep the pair only if both parts are non-empty. */
  function Polish(draft: Draft): (r: Option<Activity>)
    ensures r.Some? ==> Usable(r.value)
    ensures r.Some? ==> (!IsEdgeChar(r.value.description[0])
      && !IsEdgeChar(r.value.description[|r.value.description| - 1]))
  {
    var description := CleanEdges(draft.description);
    if draft.title != [] && description != [] then Some(Activity(draft.title, description)) else None
  }

  /** Recovery fails exactly when the clean-up leaves the description empty. */
  lemma RecoveryFailsOnlyOnEmptyDescription(text: string)
    ensures FallbackFromText(text).None? <==> CleanEdges(DraftFrom(RecoveryText(text)).description) == []
  {
    assert FallbackFromText(text) == Polish(DraftFrom(RecoveryText(text)));
  }

  /**
   * Quoted branch (lines 175-179): the title is the content of the leftmost quoted
   * run, free of its delimiting quote, and the description is the text with that
   * run cut out, trimmed.
   */
  lemma QuoteBranch(s: string, open: nat, close: nat)
    requires FindQuotedRun(s, 0) == Some((open, close))
    ensures DraftFrom(s).title == s[open + 1..close]
    ensures s[open] !in DraftFrom(s).title
    ensures DraftFrom(s).description == Trim(s[..open] + s[close + 1..])
  {
    assert DraftFrom(s) == QuoteDraft(s, open, close) by { DraftFromQuote(s, open, close); }
    QuoteCut(s, open, close);
  }

  /** The quoted draft's description is the text with the leftmost run cut out, trimmed. */
  lemma QuoteCut(s: string, open: nat, close: nat)
    requires QuotedRunAt(s, open, close)
    requires forall p: nat, q: nat :: p < open ==> !QuotedRunAt(s, p, q)
    ensures QuoteDraft(s, open, close).description == Trim(s[..open] + s[close + 1..])
  {
    LeftmostRunIsFirstOccurrence(s, open, close);
  }

  /**
   * Segment branch (lines 182-193): with no quoted run, the title is the first
   * trimmed segment (split on line feeds and full stops) that is a short title, and
   * the description is the text with the first occurrence of that title cut out,
   * trimmed; that occurrence exists.
   */
  lemma SegmentBranch(s: string, k: nat) returns (title: string, description: string, i: nat)
    requires FindQuotedRun(s, 0).None?
    requires FirstShortSegment(Split(s, {'\n', '.'})) == Some(k)
    ensures DraftFrom(s) == Draft(title, description)
    ensures title == Trim(Split(s, {'\n', '.'})[k]) && IsShortTitle(title)
    ensures OccursAt(s, title, i) && forall j: nat :: j < i ==> !OccursAt(s, title, j)
    ensures description == Trim(s[..i] + s[i + |title|..])
  {
    title := Trim(Split(s, {'\n', '.'})[k]);
    i, description := SegmentCut(s, title);
    DraftFromSegment(s, k);
  }

  /** The segment title occurs in the text, and cutting its first occurrence out gives the segment draft. */
  lemma SegmentCut(s: string, title: string) returns (i: nat, description: string)
    requires exists k: nat :: k < |Split(s, {'\n', '.'})| && title == Trim(Split(s, {'\n', '.'})[k])
    ensures OccursAt(s, title, i) && forall j: nat :: j < i ==> !OccursAt(s, title, j)
    ensures description == Trim(s[..i] + s[i + |title|..])
    ensures SegmentDraft(s, title) == Draft(title, description)
  {
    var k: nat :| k < |Split(s, {'\n', '.'})| && title == Trim(Split(s, {'\n', '.'})[k]);
    TrimmedSegmentOccurs(s, {'\n', '.'}, k);
    i := SegmentDraftCutsTitle(s, title);
    description := Trim(s[..i] + s[i + |title|..]);
  }

  /** Which draft the segment branch builds. */
  lemma DraftFromSegment(s: string, k: nat)
    requires FindQuotedRun(s, 0).None?
    requires FirstShortSegment(Split(s, {'\n', '.'})) == Some(k)
    ensures DraftFrom(s) == SegmentDraft(s, Trim(Split(s, {'\n', '.'})[k]))
  {
  }

  /** Which draft the quoted branch builds. */
  lemma DraftFromQuote(s: string, open: nat, close: nat)
    requires FindQuotedRun(s, 0) == Some((open, close))
    ensures DraftFrom(s) == QuoteDraft(s, open, close)
  {
  }

  /** The quoted branch's draft, part by part; kept apart to keep DraftTitleAndDescription's proof small. */
  lemma QuotedDraftParts(s: string, open: nat, close: nat)
    requires FindQuotedRun(s, 0) == Some((open, close))
    ensures open + 1 < close < |s|
    ensures DraftFrom(s) == Draft(s[open + 1..close], Trim(RemoveFirst(s, s[open..close + 1])))
  {
    DraftFromQuote(s, open, close);
  }

  /** Which draft the word branch builds. */
  lemma DraftFromWords(s: string)
    requires FindQuotedRun(s, 0).None?
    requires FirstShortSegment(Split(s, {'\n', '.'})).None?
    ensures DraftFrom(s) == WordDraft(s)
  {
  }

  /** The segment draft's description is the text with the title's first occurrence cut out. */
  lemma SegmentDraftCutsTitle(s: string, t: string) returns (i: nat)
    requires Contains(s, t)
    ensures OccursAt(s, t, i)
    ensures forall j: nat :: j < i ==> !OccursAt(s, t, j)
    ensures SegmentDraft(s, t).description == Trim(s[..i] + s[i + |t|..])
  {
    i := RemoveFirstCuts(s, t);
  }

  /** A trimmed segment occurs in the text it was split from. */
  lemma TrimmedSegmentOccurs(s: string, seps: set<char>, k: nat)
    requires k < |Split(s, seps)|
    ensures Contains(s, Trim(Split(s, seps)[k]))
  {
    var segment := Split(s, seps)[k];
    SplitPiecesOccur(s, seps, k);
    TrimOccurs(segment, IsSpace);
    ContainsTransitive(s, segment, Trim(segment));
  }

  /**
   * Word branch (lines 196-203): with neither a quoted run nor a short segment,
   * more than five space-separated words give the first five as the title and the
   * rest as the description, which put back together with a space are the text;
   * otherwise the title is the placeholder and the description the whole text.
   */
  lemma WordBranch(s: string)
    requires FindQuotedRun(s, 0).None?
    requires FirstShortSegment(Split(s, {'\n', '.'})).None?
    ensures var words := Split(s, {' '});
      if |words| > 5 then
        DraftFrom(s).title + " " + DraftFrom(s).description == s
        && Split(DraftFrom(s).title, {' '}) == words[..5]
        && Split(DraftFrom(s).description, {' '}) == words[5..]
      else
        DraftFrom(s) == Draft(Placeholder, s)
  {
    var words := Split(s, {' '});
    assert DraftFrom(s) == WordDraft(s) by { DraftFromWords(s); }
    if |words| > 5 {
      assert Join(words[..5], ' ') + " " + Join(words[5..], ' ') == s by {
        JoinSplit(s, ' ');
        assert words == words[..5] + words[5..];
        JoinAppend(words[..5], words[5..], ' ');
      }
      forall k | 0 <= k < |words| ensures ' ' !in words[k] {
        SplitPiecesFree(s, {' '}, k);
      }
      assert forall k :: 0 <= k < 5 ==> words[..5][k] == words[k];
      SplitJoin(words[..5], ' ');
      assert forall k :: 0 <= k < |words| - 5 ==> words[5..][k] == words[k + 5];
      SplitJoin(words[5..], ' ');
    }
  }

  /** Lines 182-189: the loop with `break` that picks the first short trimmed segment, or "". */
  method FirstSegmentTitle(segments: seq<string>) returns (title: string)
    ensures FirstShortSegment(segments).Some? ==> title == Trim(segments[FirstShortSegment(segments).value])
    ensures FirstShortSegment(segments).None? ==> title == []
  {
    title := "";
    var k := 0;
    while k < |segments|
      invariant 0 <= k <= |segments|
      invariant title == []
      invariant forall j :: 0 <= j < k ==> !IsShortTitle(Trim(segments[j]))
    {
      var trimmed := Trim(segments[k]);
      if IsShortTitle(trimmed) {
        title := trimmed;
        assert FirstShortSegment(segments) == Some(k);
        break;
      }
      k := k + 1;
    }
  }

  /** Lines 165-220, as the code is written: branches, then a loop with `break` over the segments. */
  method CreateFallbackActivityFromText(text: string) returns (r: Option<Activity>)
    ensures r == FallbackFromText(text)
  {
    var cleanText := RemoveAll(text, ["```json", Fence]);
    cleanText := Trim(cleanText);
    assert cleanText == RecoveryText(text);
    var title, description := DraftTitleAndDescription(cleanText);
    description := CleanEdges(description);
    if title != [] && description != [] {
      r := Some(Activity(title, description));
    } else {
      r := None;
    }
  }

  /** Lines 171-205: the three ways of finding a title in the cleaned text. */
  method DraftTitleAndDescription(cleanText: string) returns (title: string, description: string)
    ensures Draft(title, description) == DraftFrom(cleanText)
  {
    var titleMatch := FindQuotedRun(cleanText, 0);
    if titleMatch.Some? {
      var (open, close) := titleMatch.value;
      title := cleanText[open + 1..close];
      description := Trim(RemoveFirst(cleanText, cleanText[open..close + 1]));
      QuotedDraftParts(cleanText, open, close);
      return;
    }
    title, description := SegmentOrWords(cleanText);
  }

  /** Lines 181-204: without a quoted run, the first short segment, else the words. */
  method SegmentOrWords(cleanText: string) returns (title: string, description: string)
    requires FindQuotedRun(cleanText, 0).None?
    ensures Draft(title, description) == DraftFrom(cleanText)
  {
    var segments := Split(cleanText, {'\n', '.'});
    title := FirstSegmentTitle(segments);
    if title != [] {
      description := Trim(RemoveFirst(cleanText, title));
      assert Draft(title, description) == DraftFrom(cleanText) by {
        assert FirstShortSegment(segments).Some?;
        DraftFromSegment(cleanText, FirstShortSegment(segments).value);
        assert Draft(title, description) == SegmentDraft(cleanText, title);
      }
      return;
    }
    title, description := WordTitleAndDescription(cleanText);
    assert Draft(title, description) == DraftFrom(cleanText) by {
      DraftFromWords(cleanText);
    }
  }

  /** Lines 196-203: the first five words and the rest, or the placeholder and the whole text. */
  method WordTitleAndDescription(cleanText: string) returns (title: string, description: string)
    ensures Draft(title, description) == WordDraft(cleanText)
  {
    var words := Split(cleanText, {' '});
    if |words| > 5 {
      title := Join(words[..5], ' ');
      description := Join(words[5..], ' ');
    } else {
      title := Placeholder;
      description := cleanText;
    }
  }

  // ---------------------------------------------------------------------------
  // generateActivity

  /** How the call to the text-generation service turns out. */
  datatype Completion =
    | ClientSetupThrows   // creating the client throws: the outer catch, lines 149-160
    | ServiceError        // the call itself fails: lines 137-148
    | Reply(text: string) // the call returns text: lines 101-136

  datatype GenerateResult = GenerateResult(success: bool, activity: Activity, error: Option<string>)

  /**
   * Lines 24-162. `hasApiKey` is whether `OPENAI_API_KEY` is set, `parse` stands
   * for `JSON.parse`, and `randomIndex` for the index `Math.random` picks.
   */
  method GenerateActivity(hasApiKey: bool, completion: Completion,
                          parse: string -> Option<ParsedObject>, randomIndex: nat)
    returns (result: GenerateResult)
    requires randomIndex < |FallbackActivities|
    ensures result.success && Usable(result.activity)
    ensures !hasApiKey ==> result == GenerateResult(true, FallbackActivities[randomIndex], None)
    ensures hasApiKey && completion.ClientSetupThrows? ==> result == GenerateResult(true, LastResortActivity, None)
    ensures hasApiKey && completion.ServiceError? ==>
      result == GenerateResult(true, FallbackActivities[randomIndex], Some("API error"))
    ensures hasApiKey && completion.Reply? ==>
      result.error.None? &&
      var parsed := ValidateParsed(parse(CleanedReply(completion.text)));
      var recovered := FallbackFromText(completion.text);
      result.activity ==
        if parsed.Some? then parsed.value
        else if recovered.Some? then recovered.value
        else FallbackActivities[randomIndex]
  {
    if !hasApiKey {
      return GenerateResult(true, FallbackActivities[randomIndex], None);
    }
    match completion
    case ClientSetupThrows =>
      result := GenerateResult(true, LastResortActivity, None);
    case ServiceError =>
      result := GenerateResult(true, FallbackActivities[randomIndex], Some("API error"));
    case Reply(text) =>
      var cleaned := CleanResponse(text);
      var parsed := ValidateParsed(parse(cleaned));
      if parsed.Some? {
        return GenerateResult(true, parsed.value, None);
      }
      var recovered := CreateFallbackActivityFromText(text);
      if recovered.Some? {
        return GenerateResult(true, recovered.value, None);
      }
      result := GenerateResult(true, FallbackActivities[randomIndex], None);
  }
}
