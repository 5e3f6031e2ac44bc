/** The result shaping of the content provider client (services/geminiService.ts):
    whatever the generative service returns, or fails to return, becomes a category
    and exactly `targetCount` item texts; narration falls back to short fixed strings. */
module Content {
  import opened Text
  import opened GameTypes

  /** What the provider call for a round produced, as the shaping code sees it. */
  datatype ProviderReply =
    | MissingKey                                   // no API key is configured
    | ProviderError                                // the call threw, returned no text, or its JSON did not parse
    | Reply(category: string, items: seq<string>)  // the parsed JSON object

  datatype RoundContent = RoundContent(category: string, items: seq<string>)

  /** The placeholder pushed for the `i`-th missing item. */
  function MysteryItem(i: nat): string { "Mystery Item " + NatToString(i) }

  /** The `i`-th item of the offline fallback. */
  function OfflineItem(i: nat): string { "Error / Offline " + NatToString(i) }

  const MissingKeyItem: string := "MISSING API KEY"

  /** The padding loop: appends "Mystery Item 0", "Mystery Item 1", ... until the list
      holds `targetCount` items; a list that is long enough is returned as it is. */
  method PadItems(items: seq<string>, targetCount: nat) returns (padded: seq<string>)
    ensures |padded| == if |items| < targetCount then targetCount else |items|
    ensures padded[..|items|] == items
    ensures forall i :: |items| <= i < |padded| ==> padded[i] == MysteryItem(i - |items|)
  {
    padded := items;
    if |items| < targetCount {
      var deficit := targetCount - |items|;
      for i := 0 to deficit
        invariant |padded| == |items| + i
        invariant padded[..|items|] == items
        invariant forall k :: |items| <= k < |padded| ==> padded[k] == MysteryItem(k - |items|)
      {
        padded := padded + [MysteryItem(i)];
      }
    }
  }

  /** The round content generateRoundContent settles on, given the provider's reply:
      always exactly `targetCount` items. A reply's own items come first, in order,
      cut at `targetCount`, and numbered placeholders fill any shortfall; a missing
      key and a failed call give sentinel categories and items. In CUSTOM mode with a
      topic the category is the upper-cased topic. */
  function RoundContentOf(mode: GameMode, customTopic: string, targetCount: nat, reply: ProviderReply)
    : (r: RoundContent)
    ensures |r.items| == targetCount
    ensures reply.MissingKey? ==>
      r.category == "SYSTEM ERROR" && forall i :: 0 <= i < targetCount ==> r.items[i] == MissingKeyItem
    ensures reply.ProviderError? ==>
      r.category == "OFFLINE MODE" && forall i :: 0 <= i < targetCount ==> r.items[i] == OfflineItem(i)
    ensures reply.Reply? && mode == Custom && customTopic != "" ==> r.category == Upper(customTopic)
    ensures reply.Reply? && !(mode == Custom && customTopic != "") ==> r.category == reply.category
    ensures reply.Reply? && |reply.items| >= targetCount ==> r.items == reply.items[..targetCount]
    ensures reply.Reply? && |reply.items| <= targetCount ==>
      && r.items[..|reply.items|] == reply.items
      && forall i :: |reply.items| <= i < targetCount ==> r.items[i] == MysteryItem(i - |reply.items|)
  {
    match reply
    case MissingKey =>
      RoundContent("SYSTEM ERROR", seq(targetCount, _ => MissingKeyItem))
    case ProviderError =>
      RoundContent("OFFLINE MODE", seq(targetCount, i requires 0 <= i < targetCount => OfflineItem(i)))
    case Reply(category, items) =>
      RoundContent(
        if mode == Custom && customTopic != "" then Upper(customTopic) else category,
        seq(targetCount, i requires 0 <= i < targetCount =>
          if i < |items| then items[i] else MysteryItem(i - |items|)))
  }

  /** generateRoundContent with the provider call replaced by its reply: the reply's
      items are padded by the placeholder loop and then cut to `targetCount`, which
      yields exactly RoundContentOf. */
  method GenerateRoundContent(mode: GameMode, customTopic: string, targetCount: nat, reply: ProviderReply)
    returns (r: RoundContent)
    ensures r == RoundContentOf(mode, customTopic, targetCount, reply)
  {
    match reply
    case MissingKey =>
      r := RoundContent("SYSTEM ERROR", seq(targetCount, _ => MissingKeyItem));
    case ProviderError =>
      r := RoundContent("OFFLINE MODE", seq(targetCount, i requires 0 <= i < targetCount => OfflineItem(i)));
    case Reply(category, items) =>
      var padded := PadItems(items, targetCount);
      var cat := if mode == Custom && customTopic != "" then Upper(customTopic) else category;
      r := RoundContent(cat, padded[..targetCount]);
  }

  /** The offline placeholders are pairwise different. */
  lemma OfflineItemsDistinct(i: nat, j: nat)
    requires i != j
    ensures OfflineItem(i) != OfflineItem(j)
  {
    if OfflineItem(i) == OfflineItem(j) {
      PrefixCancel("Error / Offline ", NatToString(i), NatToString(j));
      NatToStringInjective(i, j);
    }
  }

  /** The padding placeholders are pairwise different. */
  lemma MysteryItemsDistinct(i: nat, j: nat)
    requires i != j
    ensures MysteryItem(i) != MysteryItem(j)
  {
    if MysteryItem(i) == MysteryItem(j) {
      PrefixCancel("Mystery Item ", NatToString(i), NatToString(j));
      NatToStringInjective(i, j);
    }
  }

  datatype NarrationEvent = Start | Safe | Death | Win

  /** What the provider call for a narration line produced. */
  datatype NarrationReply =
    | NoKey                 // no API key is configured
    | NarrationError        // the call threw
    | Narration(text: string)

  const MissingKeyNarration: string := "Error: Logic Core Offline (Missing API Key)"

  /** generateGameMasterCommentary with the provider call replaced by its reply: never
      empty; the provider's text when it gave some, otherwise a fixed fallback that is
      "Eliminated." only for a death. */
  function Commentary(event: NarrationEvent, reply: NarrationReply): (r: string)
    ensures r != ""
    ensures reply.Narration? && reply.text != "" ==> r == reply.text
    ensures reply.Narration? && reply.text == "" ==> r == "Proceed."
    ensures reply.NarrationError? ==> (r == "Eliminated." <==> event == Death)
    ensures reply.NarrationError? && event != Death ==> r == "Safe."
    ensures reply.NoKey? ==> r == MissingKeyNarration
  {
    match reply
    case NoKey => MissingKeyNarration
    case Narration(text) => if text != "" then text else "Proceed."
    case NarrationError => if event == Death then "Eliminated." else "Safe."
  }
}
