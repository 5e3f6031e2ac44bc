/** The deck of a round (App.tsx): building it from item texts, revealing, placing a
    trap by hand, revealing everything at the end and the reset between rounds; and
    the manual card-entry inputs a deck can be built from. */
module Deck {
  import opened Text
  import opened GameTypes

  /** The id given to the card at position `i`: `card-${i}`. */
  function CardId(i: nat): string { "card-" + NatToString(i) }

  lemma CardIdInjective(i: nat, j: nat)
    requires CardId(i) == CardId(j)
    ensures i == j
  {
    PrefixCancel("card-", NatToString(i), NatToString(j));
    NatToStringInjective(i, j);
  }

  /** Every card carries the id of its position. */
  predicate CanonicalIds(d: seq<Card>) {
    forall i :: 0 <= i < |d| ==> d[i].id == CardId(i)
  }

  predicate DistinctCardIds(d: seq<Card>) {
    forall i, j :: 0 <= i < j < |d| ==> d[i].id != d[j].id
  }

  lemma CanonicalDistinct(d: seq<Card>)
    requires CanonicalIds(d)
    ensures DistinctCardIds(d)
  {
    forall i, j | 0 <= i < j < |d| ensures d[i].id != d[j].id {
      if d[i].id == d[j].id {
        CardIdInjective(i, j);
      }
    }
  }

  predicate IsClean(c: Card) {
    !c.isNuke && !c.isRevealed && c.placedBy == None
  }

  predicate AllClean(d: seq<Card>) {
    forall i :: 0 <= i < |d| ==> IsClean(d[i])
  }

  predicate NoneRevealed(d: seq<Card>) {
    forall i :: 0 <= i < |d| ==> !d[i].isRevealed
  }

  predicate AllRevealed(d: seq<Card>) {
    forall i :: 0 <= i < |d| ==> d[i].isRevealed
  }

  /** The texts of the deck, in order. */
  function Texts(d: seq<Card>): (t: seq<string>)
    ensures |t| == |d|
  {
    seq(|d|, i requires 0 <= i < |d| => d[i].text)
  }

  /** The deck built from item texts: one clean card per text, in order, with
      pairwise different ids. */
  function BuildDeck(items: seq<string>): (d: seq<Card>)
    ensures |d| == |items| && Texts(d) == items
    ensures CanonicalIds(d) && DistinctCardIds(d) && AllClean(d)
  {
    var d := seq(|items|, i requires 0 <= i < |items| => Card(CardId(i), items[i], false, false, None));
    CanonicalDistinct(d);
    d
  }

  /** `deck.find(c => c.id === id)`, as a position: the first card with that id. */
  function IndexOf(d: seq<Card>, id: string): (r: Option<nat>)
    ensures r.Some? ==> r.value < |d| && d[r.value].id == id
    ensures r.Some? ==> forall j :: 0 <= j < r.value ==> d[j].id != id
    ensures r.None? ==> forall j :: 0 <= j < |d| ==> d[j].id != id
  {
    if d == [] then None
    else if d[0].id == id then Some(0)
    else match IndexOf(d[1..], id)
      case None => None
      case Some(k) => Some(k + 1)
  }

  /** The card-click reveal: every card with this id becomes revealed. */
  function RevealCard(d: seq<Card>, id: string): (r: seq<Card>)
    ensures |r| == |d|
  {
    seq(|d|, i requires 0 <= i < |d| => if d[i].id == id then d[i].(isRevealed := true) else d[i])
  }

  /** With distinct ids, a reveal changes the one card with that id. */
  lemma RevealOne(d: seq<Card>, k: nat)
    requires DistinctCardIds(d) && k < |d|
    ensures RevealCard(d, d[k].id) == d[k := d[k].(isRevealed := true)]
  {
  }

  /** revealAllCards: the end-of-game transparency. */
  function RevealAll(d: seq<Card>): (r: seq<Card>)
    ensures |r| == |d|
  {
    seq(|d|, i requires 0 <= i < |d| => d[i].(isRevealed := true))
  }

  /** Revealing everything keeps the cards and their traps and leaves nothing hidden. */
  lemma RevealAllKeeps(d: seq<Card>)
    ensures AllRevealed(RevealAll(d))
    ensures CanonicalIds(d) ==> CanonicalIds(RevealAll(d))
    ensures forall i :: 0 <= i < |d| ==>
      RevealAll(d)[i].(isRevealed := d[i].isRevealed) == d[i]
  {
  }

  /** The `placedBy` after one more placement by `name`: the earlier names, then ", ",
      then `name`; only `name` when nobody placed a trap here yet. */
  function AppendPlacer(placedBy: Option<string>, name: string): (r: string)
    ensures |r| >= |name| && r[|r| - |name|..] == name
    ensures placedBy.Some? && placedBy.value != "" ==>
      |r| == |placedBy.value| + 2 + |name| && r[..|placedBy.value|] == placedBy.value
      && r[|placedBy.value|..|placedBy.value| + 2] == ", "
    ensures placedBy.None? || placedBy.value == "" ==> r == name
  {
    var existing := if placedBy.Some? && placedBy.value != "" then placedBy.value + ", " else "";
    existing + name
  }

  /** The names joined with ", ". */
  function JoinNames(names: seq<string>): string
  {
    if |names| == 0 then ""
    else if |names| == 1 then names[0]
    else JoinNames(names[..|names| - 1]) + ", " + names[|names| - 1]
  }

  /** Placements accumulate: after placements by the players `names`, one more by
      `name` leaves all of them comma-joined in placement order. */
  lemma PlacerAccumulates(names: seq<string>, name: string)
    requires forall i :: 0 <= i < |names| ==> names[i] != ""
    ensures AppendPlacer(if names == [] then None else Some(JoinNames(names)), name) == JoinNames(names + [name])
  {
    assert (names + [name])[..|names|] == names;
    if |names| >= 2 {
      assert JoinNames(names) != "";
    }
  }

  /** A card after a manual placement by `name`. */
  function Trapped(c: Card, name: string): Card {
    c.(isNuke := true, placedBy := Some(AppendPlacer(c.placedBy, name)))
  }

  /** handleManualTrapSelect on the deck: the card with this id is trapped and records
      `name`, whether or not it was trapped already. */
  function PlaceTrap(d: seq<Card>, id: string, name: string): (r: seq<Card>)
    ensures |r| == |d|
  {
    seq(|d|, i requires 0 <= i < |d| => if d[i].id == id then Trapped(d[i], name) else d[i])
  }

  /** With distinct ids, a placement changes exactly the card with that id. */
  lemma PlaceTrapOne(d: seq<Card>, k: nat, name: string)
    requires DistinctCardIds(d) && k < |d|
    ensures PlaceTrap(d, d[k].id, name) == d[k := Trapped(d[k], name)]
  {
  }

  /** A placement on an id no card has leaves the deck as it is. */
  lemma PlaceTrapAbsent(d: seq<Card>, id: string, name: string)
    requires forall i :: 0 <= i < |d| ==> d[i].id != id
    ensures PlaceTrap(d, id, name) == d
  {
  }

  function ResetCard(c: Card): Card {
    c.(isRevealed := false, isNuke := false, placedBy := None)
  }

  /** The reset between rounds: reveal, trap and `placedBy` are cleared on every card. */
  function ResetDeck(d: seq<Card>): (r: seq<Card>)
    ensures |r| == |d|
  {
    seq(|d|, i requires 0 <= i < |d| => ResetCard(d[i]))
  }

  /** A reset deck is the deck a fresh build from the same texts gives: same ids, same
      texts, in the same order, all clean. */
  lemma ResetIsFreshBuild(d: seq<Card>)
    requires CanonicalIds(d)
    ensures ResetDeck(d) == BuildDeck(Texts(d))
  {
  }

  /** What happened during a round is forgotten by the reset. */
  lemma ResetForgetsRound(d: seq<Card>, id: string, name: string)
    ensures ResetDeck(PlaceTrap(d, id, name)) == ResetDeck(d)
    ensures ResetDeck(RevealCard(d, id)) == ResetDeck(d)
    ensures ResetDeck(RevealAll(d)) == ResetDeck(d)
    ensures ResetDeck(ResetDeck(d)) == ResetDeck(d)
  {
  }

  /** The number of trapped cards. */
  function NukeCount(d: seq<Card>): (n: nat)
    ensures n <= |d|
  {
    if d == [] then 0 else Ind(d[0].isNuke) + NukeCount(d[1..])
  }

  /** The number of cards still hidden and safe. */
  function UnrevealedSafeCount(d: seq<Card>): (n: nat)
    ensures n <= |d|
  {
    if d == [] then 0 else Ind(!d[0].isNuke && !d[0].isRevealed) + UnrevealedSafeCount(d[1..])
  }

  lemma {:induction false} CountsAfterSet(d: seq<Card>, k: nat, c: Card)
    requires k < |d|
    ensures NukeCount(d[k := c]) == NukeCount(d) - Ind(d[k].isNuke) + Ind(c.isNuke)
    ensures UnrevealedSafeCount(d[k := c])
         == UnrevealedSafeCount(d) - Ind(!d[k].isNuke && !d[k].isRevealed) + Ind(!c.isNuke && !c.isRevealed)
  {
    if k == 0 {
      assert d[k := c][1..] == d[1..];
    } else {
      assert d[k := c][1..] == d[1..][k - 1 := c];
      CountsAfterSet(d[1..], k - 1, c);
    }
  }

  lemma {:induction false} NoNukes(d: seq<Card>)
    requires forall i :: 0 <= i < |d| ==> !d[i].isNuke
    ensures NukeCount(d) == 0
  {
    if d != [] {
      NoNukes(d[1..]);
    }
  }

  /** While fewer cards than the deck holds are trapped, an untrapped one exists. */
  lemma {:induction false} SafeCardExists(d: seq<Card>)
    requires NukeCount(d) < |d|
    ensures exists i :: 0 <= i < |d| && !d[i].isNuke
  {
    if d[0].isNuke {
      SafeCardExists(d[1..]);
      var i :| 0 <= i < |d[1..]| && !d[1..][i].isNuke;
      assert !d[i + 1].isNuke;
    }
  }

  /** On a deck with nothing revealed, every card is either trapped or hidden and safe. */
  lemma {:induction false} HiddenCounts(d: seq<Card>)
    requires NoneRevealed(d)
    ensures UnrevealedSafeCount(d) + NukeCount(d) == |d|
  {
    if d != [] {
      HiddenCounts(d[1..]);
    }
  }

  /** With distinct ids, a manual placement adds at most one trapped card, so the
      number of trapped cards never exceeds the number of placements. */
  lemma PlaceTrapNukes(d: seq<Card>, id: string, name: string)
    requires DistinctCardIds(d)
    ensures NukeCount(PlaceTrap(d, id, name)) <= NukeCount(d) + 1
    ensures NoneRevealed(d) ==> NoneRevealed(PlaceTrap(d, id, name))
  {
    match IndexOf(d, id)
    case None =>
      PlaceTrapAbsent(d, id, name);
    case Some(k) =>
      PlaceTrapOne(d, k, name);
      CountsAfterSet(d, k, Trapped(d[k], name));
  }

  /** The cards an automatic player may pick from during play. */
  function Unrevealed(d: seq<Card>): (r: seq<Card>)
    ensures |r| <= |d|
    ensures forall c :: c in r ==> c in d && !c.isRevealed
    ensures forall c :: c in d && !c.isRevealed ==> c in r
  {
    if d == [] then []
    else (if !d[0].isRevealed then [d[0]] else []) + Unrevealed(d[1..])
  }

  /** While a hidden safe card is left, the automatic player always has a card to pick. */
  lemma {:induction false} HiddenSafeIsUnrevealed(d: seq<Card>)
    requires UnrevealedSafeCount(d) >= 1
    ensures |Unrevealed(d)| > 0
  {
    if d[0].isRevealed {
      HiddenSafeIsUnrevealed(d[1..]);
    }
  }

  /** The resize of the manual-entry inputs when the deck size changes: the first
      `n` inputs are kept, missing ones are blank. */
  function ResizeInputs(prev: seq<string>, n: nat): (r: seq<string>)
    ensures |r| == n
  {
    if |prev| == n then prev
    else seq(n, i requires 0 <= i < n => if i < |prev| then prev[i] else "")
  }

  /** Resizing keeps what fits and blanks the rest; growing and then shrinking back
      gives the inputs back. */
  lemma ResizeKeeps(prev: seq<string>, n: nat, m: nat)
    ensures forall i :: 0 <= i < n ==> ResizeInputs(prev, n)[i] == if i < |prev| then prev[i] else ""
    ensures m >= |prev| ==> ResizeInputs(ResizeInputs(prev, m), |prev|) == prev
  {
  }

  /** The validated manual inputs: trimmed, blank ones dropped, in order. */
  function FilledInputs(inputs: seq<string>): (r: seq<string>)
    ensures |r| <= |inputs|
    ensures forall i :: 0 <= i < |r| ==> r[i] != ""
  {
    if inputs == [] then []
    else (if Trim(inputs[0]) != "" then [Trim(inputs[0])] else []) + FilledInputs(inputs[1..])
  }

  /** No manual input is blank. */
  predicate AllFilled(inputs: seq<string>) {
    forall i :: 0 <= i < |inputs| ==> Trim(inputs[i]) != ""
  }

  /** Every input trimmed, blank ones kept. */
  function TrimmedInputs(inputs: seq<string>): (r: seq<string>)
    ensures |r| == |inputs|
  {
    seq(|inputs|, i requires 0 <= i < |inputs| => Trim(inputs[i]))
  }

  /** No input is dropped exactly when none is blank. */
  lemma {:induction false} FilledAllIff(inputs: seq<string>)
    ensures |FilledInputs(inputs)| == |inputs| <==> AllFilled(inputs)
  {
    if inputs != [] {
      var tail := inputs[1..];
      FilledAllIff(tail);
      if Trim(inputs[0]) == "" {
        assert |FilledInputs(inputs)| < |inputs|;
      } else if AllFilled(tail) {
        forall i | 0 < i < |inputs| ensures Trim(inputs[i]) != "" {
          assert inputs[i] == tail[i - 1];
        }
      } else {
        var j :| 0 <= j < |tail| && Trim(tail[j]) == "";
        assert inputs[j + 1] == tail[j];
      }
    }
  }

  /** With no blank input, the validated inputs are the inputs trimmed, in order. */
  lemma {:induction false} FilledIsTrimmed(inputs: seq<string>)
    requires AllFilled(inputs)
    ensures FilledInputs(inputs) == TrimmedInputs(inputs)
  {
    if inputs != [] {
      var tail := inputs[1..];
      assert AllFilled(tail) by {
        forall j | 0 <= j < |tail| ensures Trim(tail[j]) != "" {
          assert tail[j] == inputs[j + 1];
        }
      }
      FilledIsTrimmed(tail);
      var head := Trim(inputs[0]);
      assert FilledInputs(inputs) == [head] + FilledInputs(tail);
      var t := TrimmedInputs(inputs);
      assert t[0] == head;
      assert t[1..] == TrimmedInputs(tail);
      assert t == [head] + t[1..];
    }
  }
}
