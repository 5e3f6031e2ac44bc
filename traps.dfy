/** Random trap assignment (assignRandomNukes in App.tsx). The source draws uniformly
    random positions and skips those already trapped; here each placement picks some
    untrapped position, which is what a draw that is not skipped does. */
module Traps {
  import opened Text
  import opened GameTypes
  import opened Deck

  /** `Math.min(nukeCount, cardCount - 1)`; a negative target places nothing. The
      clamp keeps at least one card of a `cardCount`-card deck safe. */
  function SafeNukeCount(nukeCount: nat, cardCount: nat): (k: nat)
    ensures k <= nukeCount
    ensures cardCount >= 1 ==> k < cardCount && (k == nukeCount || k == cardCount - 1)
    ensures cardCount == 0 ==> k == 0
  {
    if cardCount == 0 then 0 else Min(nukeCount, cardCount - 1)
  }

  /** The card as the random assignment leaves it once it is picked. */
  function AiTrapped(c: Card): Card {
    c.(isNuke := true, placedBy := Some("AI"))
  }

  /** `d` is `raw` with some of its cards trapped by the random assignment: every card
      is kept or trapped and tagged "AI". */
  predicate ArmedFrom(d: seq<Card>, raw: seq<Card>) {
    |d| == |raw| && forall i :: 0 <= i < |d| ==> d[i] == raw[i] || d[i] == AiTrapped(raw[i])
  }

  /** A clean deck armed at random has every card hidden, every trap tagged "AI" and
      every safe card untagged. */
  lemma ArmedHiddenAndTagged(d: seq<Card>, raw: seq<Card>, i: nat)
    requires AllClean(raw) && ArmedFrom(d, raw) && i < |d|
    ensures !d[i].isRevealed && d[i].id == raw[i].id && d[i].text == raw[i].text
    ensures d[i].placedBy == if d[i].isNuke then Some("AI") else None
  {
    assert IsClean(raw[i]);
  }

  /** The placement loop of assignRandomNukes on a copy of `options`: exactly `target`
      more cards end up trapped, each of them tagged "AI"; every other card, and the
      id, text and reveal state of every card, is unchanged. */
  method PlaceRandomTraps(options: seq<Card>, target: nat) returns (d: seq<Card>)
    requires NukeCount(options) + target <= |options|
    ensures |d| == |options|
    ensures NukeCount(d) == NukeCount(options) + target
    ensures forall i :: 0 <= i < |d| ==>
      d[i] == options[i] || (!options[i].isNuke && d[i] == AiTrapped(options[i]))
  {
    d := options;
    var placed := 0;
    while placed < target
      invariant placed <= target && |d| == |options|
      invariant NukeCount(d) == NukeCount(options) + placed
      invariant forall i :: 0 <= i < |d| ==>
        d[i] == options[i] || (!options[i].isNuke && d[i] == AiTrapped(options[i]))
      decreases target - placed
    {
      SafeCardExists(d);
      var idx :| 0 <= idx < |d| && !d[idx].isNuke;
      CountsAfterSet(d, idx, AiTrapped(d[idx]));
      d := d[idx := AiTrapped(d[idx])];
      placed := placed + 1;
    }
  }

  /** On a clean deck of `cardCount` cards the assignment leaves exactly
      `min(nukeCount, cardCount - 1)` traps, so a hidden safe card remains. */
  lemma RandomAssignmentLeavesSafeCard(options: seq<Card>, d: seq<Card>, nukeCount: nat)
    requires AllClean(options) && |options| >= 1 && |d| == |options|
    requires NukeCount(d) == SafeNukeCount(nukeCount, |options|)
    requires forall i :: 0 <= i < |d| ==> d[i] == options[i] || d[i] == AiTrapped(options[i])
    ensures NukeCount(d) == Min(nukeCount, |options| - 1)
    ensures UnrevealedSafeCount(d) >= 1
  {
    HiddenCounts(d);
  }

  /** Random placement on a clean deck changes only traps and their tags: the texts,
      ids and hidden state stay, and a reset gives the clean deck back. */
  lemma RandomPlacementKeeps(options: seq<Card>, d: seq<Card>)
    requires |d| == |options|
    requires forall i :: 0 <= i < |d| ==> d[i] == options[i] || d[i] == AiTrapped(options[i])
    ensures Texts(d) == Texts(options)
    ensures CanonicalIds(options) ==> CanonicalIds(d)
    ensures NoneRevealed(options) ==> NoneRevealed(d)
    ensures AllClean(options) ==> ResetDeck(d) == options
  {
  }
}
