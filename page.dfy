/**
 * The client page (app/page.tsx): the player-count stepper, the multiplayer
 * rewording of a description, the one-retry-then-fallback handling of a
 * generation request, and the text that "share" copies.
 */
module Page {
  import opened Wrappers
  import opened Strings
  import Actions

  type Activity = Actions.Activity

  /** Lines 12-38: the page's own pool, used after a failed retry or an exception. */
  const FallbackActivities: seq<Activity> := [
    Actions.Activity("High Five a Stranger",
      "Find a friendly-looking stranger in a public place and offer them a high five. Smile and say 'Happy Tuesday!' (or whatever day it is)."),
    Actions.Activity("Explore a New Building",
      "Walk into a building you've never been in before. It could be a hotel lobby, a university building, or an office tower. Spend 10 minutes exploring and notice three interesting details."),
    Actions.Activity("Random Bus Adventure",
      "Get on the next bus that arrives at your nearest stop. Ride for 3 stops, get off, and find something interesting in that neighborhood."),
    Actions.Activity("Compliment Chain",
      "Give genuine compliments to three strangers in a row. Notice how it makes you feel and how they react."),
    Actions.Activity("Reverse Shopping",
      "Go to a store and ask an employee to recommend their favorite item under $10. Buy it without questioning their choice.")
  ]

  datatype GameMode = Solo | Multiplayer

  const MinPlayers := 2
  const MaxPlayers := 10

  // ---------------------------------------------------------------------------
  // Player count

  /** Line 190: `Math.min(prev + 1, 10)`. */
  function Increment(prev: int): (r: int)
    ensures r <= prev + 1 && r <= MaxPlayers
    ensures r == prev + 1 || r == MaxPlayers
  {
    if prev + 1 < MaxPlayers then prev + 1 else MaxPlayers
  }

  /** Line 194: `Math.max(prev - 1, 2)`. */
  function Decrement(prev: int): (r: int)
    ensures r >= prev - 1 && r >= MinPlayers
    ensures r == prev - 1 || r == MinPlayers
  {
    if prev - 1 > MinPlayers then prev - 1 else MinPlayers
  }

  /** A press of the plus or the minus button. */
  datatype Press = Plus | Minus

  /** The count after a sequence of presses. */
  function Presses(count: int, presses: seq<Press>): int
    decreases presses
  {
    if presses == [] then count
    else Presses(if presses[0] == Plus then Increment(count) else Decrement(count), presses[1..])
  }

  /** From the initial count (line 53) or any count in range, every sequence of presses stays in [2, 10]. */
  lemma {:induction false} PressesStayInRange(count: int, presses: seq<Press>)
    requires MinPlayers <= count <= MaxPlayers
    ensures MinPlayers <= Presses(count, presses) <= MaxPlayers
    decreases presses
  {
    if presses != [] {
      var next := if presses[0] == Plus then Increment(count) else Decrement(count);
      PressesStayInRange(next, presses[1..]);
    }
  }

  /** Pressing plus n times from a count in range gives min(count + n, 10). */
  lemma {:induction false} PlusSaturates(count: int, n: nat)
    requires MinPlayers <= count <= MaxPlayers
    ensures Presses(count, seq(n, _ => Plus)) == if count + n < MaxPlayers then count + n else MaxPlayers
    decreases n
  {
    if n > 0 {
      var presses := seq(n, _ => Plus);
      assert presses[1..] == seq(n - 1, _ => Plus);
      PlusSaturates(Increment(count), n - 1);
    }
  }

  // ---------------------------------------------------------------------------
  // The multiplayer rewording

  /** Lines 69-72: the lower-cased description already speaks of several people. */
  predicate MentionsGroup(description: string) {
    var lower := Lower(description);
    Contains(lower, "people") || Contains(lower, "friends")
      || Contains(lower, "partners") || Contains(lower, "together")
  }

  /** The template `With ${playerCount} people: ` of lines 74, 100 and 144. */
  function PlayersPrefix(n: nat): (r: string)
    ensures |r| > 14 && r[..5] == "With " && r[|r| - 9..] == " people: "
    ensures forall k :: 5 <= k < |r| - 9 ==> '0' <= r[k] <= '9'
    ensures DecimalValue(r[5..|r| - 9]) == n
    ensures n > 0 ==> r[5] != '0'
  {
    var digits := DecimalString(n);
    var r := "With " + digits + " people: ";
    assert r[5..|r| - 9] == digits;
    assert forall k :: 5 <= k < |r| - 9 ==> r[k] == digits[k - 5] && digits[k - 5] in digits;
    r
  }

  /** Whether a description mentions a group does not depend on its letter case. */
  lemma MentionsGroupIgnoresCase(description: string)
    ensures MentionsGroup(Lower(description)) == MentionsGroup(description)
  {
    LowerIdempotent(description);
  }

  /**
   * Lines 64-75, 90-103 and 134-147: in multiplayer mode with more than one
   * player, a description that does not already mention a group is prefixed
   * with the player count; everything else is left as it is.
   */
  function ForMode(a: Activity, mode: GameMode, playerCount: int): (r: Activity)
    ensures r.title == a.title
    ensures mode == Multiplayer && playerCount > 1 && !MentionsGroup(a.description) ==>
      r.description == PlayersPrefix(playerCount) + a.description
    ensures !(mode == Multiplayer && playerCount > 1 && !MentionsGroup(a.description)) ==> r == a
  {
    if mode == Multiplayer && playerCount > 1 && !MentionsGroup(a.description) then
      Actions.Activity(a.title, PlayersPrefix(playerCount) + a.description)
    else a
  }

  /** After the rewording, a multiplayer description always mentions a group. */
  lemma ForModeMentionsGroup(a: Activity, playerCount: int)
    requires playerCount > 1
    ensures MentionsGroup(ForMode(a, Multiplayer, playerCount).description)
  {
    if !MentionsGroup(a.description) {
      PrefixMentionsPeople(playerCount, a.description);
    }
  }

  /** Whatever follows it, the prefix puts "people" into the lower-cased text. */
  lemma PrefixMentionsPeople(n: nat, rest: string)
    ensures Contains(Lower(PlayersPrefix(n) + rest), "people")
  {
    var head := "With " + DecimalString(n) + " ";
    var tail := ": " + rest;
    var d := PlayersPrefix(n) + rest;
    assert d == head + "people" + tail;
    assert Lower(d) == Lower(head) + "people" + Lower(tail) by {
      LowerAppend(head + "people", tail);
      LowerAppend(head, "people");
      LowerKeeps("people");
    }
    ContainsInfix(Lower(head), "people", Lower(tail));
  }

  /** Rewording twice is rewording once: the prefix itself contains "people". */
  lemma ForModeIdempotent(a: Activity, mode: GameMode, playerCount: int)
    ensures ForMode(ForMode(a, mode, playerCount), mode, playerCount) == ForMode(a, mode, playerCount)
  {
    if mode == Multiplayer && playerCount > 1 {
      ForModeMentionsGroup(a, playerCount);
    }
  }

  // ---------------------------------------------------------------------------
  // The share text

  const ShareIntro := "Try this spontaneous activity: \""
  const ShareSeparator := "\" - "

  /** Line 165. */
  function ShareText(a: Activity): (r: string)
    ensures ShareIntro <= r
    ensures |r| == |ShareIntro| + |a.title| + |ShareSeparator| + |a.description|
  {
    ShareIntro + a.title + ShareSeparator + a.description
  }

  /** Reads a share text back: the title ends at the first double quote after the intro. */
  function ParseShareText(s: string): (r: Option<Activity>)
    ensures r.Some? ==> '"' !in r.value.title
  {
    if !(ShareIntro <= s) then None
    else
      var rest := s[|ShareIntro|..];
      match FindChar(rest, '"')
      case None => None
      case Some(i) =>
        if ShareSeparator <= rest[i..] then
          assert forall c :: c in rest[..i] ==> c != '"';
          Some(Actions.Activity(rest[..i], rest[i + |ShareSeparator|..]))
        else None
  }

  /** A title without a double quote can be read back from the share text, and so can the description. */
  lemma ShareTextRoundTrip(a: Activity)
    requires '"' !in a.title
    ensures ParseShareText(ShareText(a)) == Some(a)
  {
    var s := ShareText(a);
    var rest := a.title + ShareSeparator + a.description;
    assert s[|ShareIntro|..] == rest;
    assert rest[|a.title|] == '"';
    assert forall k :: 0 <= k < |a.title| ==> rest[k] == a.title[k];
    assert FindChar(rest, '"') == Some(|a.title|);
    assert rest[|a.title|..] == ShareSeparator + a.description;
    assert rest[..|a.title|] == a.title;
    assert rest[|a.title| + |ShareSeparator|..] == a.description;
  }

  /** Two activities whose titles have no double quote share the same text only if they are equal. */
  lemma ShareTextInjective(a: Activity, b: Activity)
    requires '"' !in a.title && '"' !in b.title
    requires ShareText(a) == ShareText(b)
    ensures a == b
  {
    ShareTextRoundTrip(a);
    ShareTextRoundTrip(b);
  }

  // ---------------------------------------------------------------------------
  // The page state

  /** How one call of `generateActivity()` from the page turns out. */
  datatype Outcome =
    | Returned(success: bool, activity: Option<Activity>) // the call resolved (line 60)
    | Threw                                               // the call rejected: the catch of lines 127-156

  /** Line 62: `result.success && result.activity`. */
  predicate Succeeded(outcome: Outcome) {
    outcome.Returned? && outcome.success && outcome.activity.Some?
  }

  /** The page's outcome for a result of the server action. */
  function FromServer(result: Actions.GenerateResult): Outcome {
    Returned(result.success, Some(result.activity))
  }

  /** The component's state (lines 48-53). */
  class Home {
    var activity: Option<Activity>
    var isGenerating: bool
    var retryCount: nat
    var isCopied: bool
    var gameMode: GameMode
    var playerCount: int

    /** At most one retry is pending, and the count stays within the stepper's range. */
    predicate Valid()
      reads this
    {
      retryCount <= 1 && MinPlayers <= playerCount <= MaxPlayers
    }

    /** Lines 48-53: the initial state. */
    constructor ()
      ensures Valid()
      ensures activity.None? && !isGenerating && retryCount == 0 && !isCopied
      ensures gameMode == Solo && playerCount == 2
    {
      activity := None;
      isGenerating := false;
      retryCount := 0;
      isCopied := false;
      gameMode := Solo;
      playerCount := 2;
    }

    /** Lines 215 and 223: the mode buttons. */
    method SetGameMode(mode: GameMode)
      requires Valid()
      modifies this
      ensures Valid()
      ensures gameMode == mode
      ensures activity == old(activity) && isGenerating == old(isGenerating) && retryCount == old(retryCount)
      ensures isCopied == old(isCopied) && playerCount == old(playerCount)
    {
      gameMode := mode;
    }

    /** Lines 189-191. */
    method IncrementPlayerCount()
      requires Valid()
      modifies this
      ensures Valid()
      ensures playerCount == Increment(old(playerCount))
      ensures activity == old(activity) && isGenerating == old(isGenerating) && retryCount == old(retryCount)
      ensures isCopied == old(isCopied) && gameMode == old(gameMode)
    {
      playerCount := Increment(playerCount);
    }

    /** Lines 193-195. */
    method DecrementPlayerCount()
      requires Valid()
      modifies this
      ensures Valid()
      ensures playerCount == Decrement(old(playerCount))
      ensures activity == old(activity) && isGenerating == old(isGenerating) && retryCount == old(retryCount)
      ensures isCopied == old(isCopied) && gameMode == old(gameMode)
    {
      playerCount := Decrement(playerCount);
    }

    /**
     * Lines 56-160, one invocation: set the busy flag, look at the outcome, and
     * clear the flag in `finally`. `retry` is whether the invocation re-invokes
     * itself (line 123); `randomIndex` stands for the index `Math.random` picks.
     */
    method HandleOutcome(outcome: Outcome, randomIndex: nat) returns (retry: bool)
      requires Valid()
      requires randomIndex < |FallbackActivities|
      modifies this
      ensures Valid()
      ensures !isGenerating
      ensures gameMode == old(gameMode) && playerCount == old(playerCount) && isCopied == old(isCopied)
      ensures retry <==> outcome.Returned? && !Succeeded(outcome) && old(retryCount) == 0
      ensures retry ==> retryCount == 1 && activity == old(activity)
      ensures !retry ==> retryCount == 0
      ensures Succeeded(outcome) ==> activity == Some(ForMode(outcome.activity.value, gameMode, playerCount))
      ensures !Succeeded(outcome) && !retry ==>
        activity == Some(ForMode(FallbackActivities[randomIndex], gameMode, playerCount))
    {
      // Line 57. The page is busy while the request of line 60 is awaited; that
      // await is the `outcome` parameter, so no state is observed in between.
      isGenerating := true;
      if outcome.Threw? {
        activity := Some(ForMode(FallbackActivities[randomIndex], gameMode, playerCount));
        retryCount := 0;
        retry := false;
      } else if outcome.success && outcome.activity.Some? {
        activity := Some(ForMode(outcome.activity.value, gameMode, playerCount));
        retryCount := 0;
        retry := false;
      } else if retryCount > 0 {
        activity := Some(ForMode(FallbackActivities[randomIndex], gameMode, playerCount));
        retryCount := 0;
        retry := false;
      } else {
        retryCount := retryCount + 1;
        retry := true;
      }
      isGenerating := false;
    }

    /**
     * A click on the generate button (line 310), with the re-invocation read
     * against the state it left: at most two calls, after which an activity is
     * shown, no retry is pending and the page is not busy.
     */
    method HandleGenerateActivity(first: Outcome, second: Outcome, randomIndex: nat) returns (calls: nat)
      requires Valid() && retryCount == 0
      requires randomIndex < |FallbackActivities|
      modifies this
      ensures Valid()
      ensures calls == (if Succeeded(first) || first.Threw? then 1 else 2)
      ensures activity.Some? && retryCount == 0 && !isGenerating
      ensures gameMode == old(gameMode) && playerCount == old(playerCount) && isCopied == old(isCopied)
      ensures Succeeded(first) ==> activity == Some(ForMode(first.activity.value, gameMode, playerCount))
      ensures first.Threw? ==> activity == Some(ForMode(FallbackActivities[randomIndex], gameMode, playerCount))
      ensures calls == 2 && Succeeded(second) ==> activity == Some(ForMode(second.activity.value, gameMode, playerCount))
      ensures calls == 2 && !Succeeded(second) ==>
        activity == Some(ForMode(FallbackActivities[randomIndex], gameMode, playerCount))
    {
      var retry := HandleOutcome(first, randomIndex);
      calls := 1;
      if retry {
        retry := HandleOutcome(second, randomIndex);
        calls := 2;
      }
    }

    /**
     * The page calling the server action of app/actions.ts: the action always
     * reports success with a usable activity, so the retry and the page's own
     * pool are never reached and the shown activity is the server's, reworded.
     */
    method GenerateFromServer(hasApiKey: bool, completion: Actions.Completion,
                              parse: string -> Option<Actions.ParsedObject>, serverIndex: nat)
      returns (result: Actions.GenerateResult)
      requires Valid() && retryCount == 0
      requires serverIndex < |Actions.FallbackActivities|
      modifies this
      ensures Valid()
      ensures result.success && Actions.Usable(result.activity)
      ensures !hasApiKey ==> result == Actions.GenerateResult(true, Actions.FallbackActivities[serverIndex], None)
      ensures hasApiKey && completion.ClientSetupThrows? ==>
        result == Actions.GenerateResult(true, Actions.LastResortActivity, None)
      ensures hasApiKey && completion.ServiceError? ==>
        result == Actions.GenerateResult(true, Actions.FallbackActivities[serverIndex], Some("API error"))
      ensures hasApiKey && completion.Reply? ==>
        result.error.None? &&
        var parsed := Actions.ValidateParsed(parse(Actions.CleanedReply(completion.text)));
        var recovered := Actions.FallbackFromText(completion.text);
        result.activity ==
          if parsed.Some? then parsed.value
          else if recovered.Some? then recovered.value
          else Actions.FallbackActivities[serverIndex]
      ensures activity == Some(ForMode(result.activity, gameMode, playerCount))
      ensures Actions.Usable(activity.value)
      ensures retryCount == 0 && !isGenerating
      ensures gameMode == old(gameMode) && playerCount == old(playerCount) && isCopied == old(isCopied)
    {
      result := Actions.GenerateActivity(hasApiKey, completion, parse, serverIndex);
      var retry := HandleOutcome(FromServer(result), 0);
    }

    /**
     * Lines 162-187: nothing happens without an activity; otherwise the share text
     * is handed to the clipboard, and a successful write sets the copied flag.
     * `clipboardAccepts` stands for whether `navigator.clipboard.writeText` resolves.
     */
    method HandleCopyToClipboard(clipboardAccepts: bool) returns (written: Option<string>)
      requires Valid()
      modifies this
      ensures Valid()
      ensures old(activity).None? ==> written.None? && isCopied == old(isCopied)
      ensures old(activity).Some? ==> written == Some(ShareText(old(activity).value))
      ensures old(activity).Some? ==> isCopied == (clipboardAccepts || old(isCopied))
      ensures activity == old(activity) && isGenerating == old(isGenerating) && retryCount == old(retryCount)
      ensures gameMode == old(gameMode) && playerCount == old(playerCount)
    {
      if activity.None? {
        return None;
      }
      var shareText := ShareText(activity.value);
      written := Some(shareText);
      if clipboardAccepts {
        isCopied := true;
      }
    }
  }
}
