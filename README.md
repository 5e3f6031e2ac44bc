# Safe / Nuked: a verified model of the local game engine

Safe / Nuked is a party game. Players take turns revealing cards of a deck, some of which are hidden traps ("nukes"). A revealed trap eliminates the player who picked it. The game ends when at most one player is still ALIVE.

This project models the game's local engine in Dafny:

- the state machine of `App.tsx`;
- the result shaping of the content provider client, `services/geminiService.ts`.

Modules, leaves first:

| module | file | what it holds |
|---|---|---|
| `Text` | text.dfy | JavaScript `trim`, `substring(0, n)`, ASCII `toUpperCase`, decimal rendering of a number |
| `GameTypes` | types.dfy | players, cards, the lifecycle status, the mode, the turn time limit, the automatic opponent |
| `Content` | content.dfy | `generateRoundContent` with the provider reply as an input; the commentary fallbacks |
| `Roster` | roster.dfy | join, status update, the survivors' filter, the restart clean-up |
| `Deck` | deck.dfy | deck building, reveals, manual placement, reveal-all, reset between rounds, the manual-entry inputs |
| `Traps` | traps.dfy | the random trap loop of `assignRandomNukes` |
| `Turns` | turns.dfy | the loop of `moveToNextPlayer` |
| `GameEngine` | game.dfy | class `Game`: the game state fields and one method per handler |

How the model treats each kind of source code:

- **Handlers.** Each handler of `App.tsx` is a method of `Game`. Its `modifies` clause names the fields it writes.
- **Invariant.** `Valid()` is kept by every handler. It has three parts:
  - settings within the ranges the controls allow;
  - the roster agrees with the status;
  - the deck agrees with the status.
- **Pure expressions.** The source's `map`/`filter` expressions are functions: the status update, the survivors, the reveals, the reset and the `placedBy` append.
- **Loops.** The source's `while`/`for` loops are methods with loop invariants: trap placement, the turn walk and the placeholder padding.
- **Randomness.**
  - The random trap loop draws an untrapped position with `:|`.
  - The automatic opponent takes its pick as a `pick: nat` argument, used modulo the number of candidates.
- **Provider calls.** Their outcome is an argument: `ProviderReply` for a round, `NarrationReply` for commentary.
- **Delays.** The reshuffle after a death or after the safe cards run out has two steps:
  - the click announces it: status LOADING_ROUND, plus a `pending` marker saying why;
  - `Reshuffle` then runs the delayed body.

On the death path, App.tsx calls `moveToNextPlayer` twice, at line 149 and in the delayed body at line 426. Both calls read the same snapshot of `players` and `currentPlayerIndex`, so both choose the same index. The model advances once, in `CheckWinCondition`. After exhaustion, `Reshuffle` advances the turn.

## Model

| member | source | states |
|---|---|---|
| `Text.TrimStartCuts` | App.tsx:160-163 | the leading half of `trim` keeps a suffix, cuts only whitespace, and what it keeps does not start with whitespace |
| `Text.Trim` | App.tsx:160-163 | `trim` never lengthens its input; what it keeps and what it cuts is stated by TrimStartCuts, TrimEndCuts, TrimIsInfix, TrimEnds and TrimEmptyIff |
| `Text.TrimEndCuts` | App.tsx:160-163 | the trailing half of `trim` keeps a prefix, cuts only whitespace, and what it keeps does not end with whitespace |
| `Text.TrimIsInfix` | App.tsx:281 | a trimmed string is a contiguous slice `s[a..a + |r|]` of the input, starting where TrimStart starts, with only whitespace before it and only whitespace after it |
| `Text.TrimEnds` | App.tsx:160-163 | a non-empty trimmed string starts and ends with a non-whitespace character |
| `Text.TrimEmptyIff` | App.tsx:160 | a name is rejected (trims to empty) exactly when it consists of whitespace only |
| `Text.Truncate` | App.tsx:163 | `substring(0, 10)` gives a prefix of at most the limit: the whole string when it fits, exactly the limit's length when it does not |
| `Text.Upper` | services/geminiService.ts:80 | upper-casing keeps the length, replaces each lower-case ASCII letter by its own capital, leaves no lower-case ASCII letter and keeps every other character |
| `Text.NatToString` | App.tsx:162 | the decimal text of a timestamp is a non-empty digit string |
| `Text.NatToStringValue` | App.tsx:162 | reading the decimal text back gives the number itself, so its digits are the right ones |
| `Text.NatToStringInjective` | App.tsx:162 | different timestamps give different player ids |
| `Content.PadItems` | services/geminiService.ts:72-76 | a short list is extended to exactly `targetCount`, the reply's items first and then "Mystery Item 0", "Mystery Item 1", ... in order; a long list is kept |
| `Content.RoundContentOf` | services/geminiService.ts:24-95 | always exactly `targetCount` items; a missing key gives "SYSTEM ERROR" and copies of "MISSING API KEY"; an error gives "OFFLINE MODE" and "Error / Offline i"; a reply's items come first, cut at `targetCount` or padded with numbered placeholders; in CUSTOM mode with a topic the category is the upper-cased topic, whatever the provider said |
| `Content.GenerateRoundContent` | services/geminiService.ts:24-95 | the padding loop followed by the slice produces exactly the content `RoundContentOf` describes |
| `Content.OfflineItemsDistinct` | services/geminiService.ts:93 | the offline placeholder items are pairwise different |
| `Content.MysteryItemsDistinct` | services/geminiService.ts:75 | the padding placeholders are pairwise different |
| `Content.Commentary` | services/geminiService.ts:98-136 | commentary is never empty; without a key it is the fixed error line; an empty reply gives "Proceed."; a failure gives "Eliminated." exactly for a death and "Safe." otherwise |
| `Roster.AllAliveCounts` | App.tsx:217-234 | a roster where everybody is ALIVE has every player counted ALIVE and no WINNER |
| `Roster.UpdateOne` | App.tsx:364-366 | with distinct ids, a status update changes the one player with that id and shifts each status count by that player's change only |
| `Roster.UpdatePlayerStatus` | App.tsx:364-366 | the roster keeps its length; with distinct ids UpdateOne states that exactly the player with that id changes, and only in status |
| `Roster.AliveOthers` | App.tsx:135 | the survivors are players of the roster, ALIVE, and not the dying player |
| `Roster.AliveOthersComplete` | App.tsx:135 | every ALIVE player other than the dying one is among the survivors |
| `Roster.AliveOthersCount` | App.tsx:135 | with distinct ids, the number of survivors is the ALIVE count minus the dying player's own entry |
| `Roster.AliveOthersIgnoresDying` | App.tsx:135 | the survivors besides the dying player are the same whether that player's own status is updated first or not, so the win check gives the same answer on a stale roster |
| `Roster.LastStanding` | App.tsx:138-147 | with no survivor nobody is ALIVE; with one survivor, crowning them leaves exactly one WINNER, nobody ALIVE and the eliminated player as they were |
| `Roster.PlayerName` | App.tsx:163 | the recorded name is a prefix of the trimmed input of at most ten characters, non-empty and not starting with whitespace whenever the trimmed input is not empty |
| `Roster.Join` | App.tsx:159-168 | a name that trims to empty changes nothing; otherwise exactly one ALIVE player is appended with the given id and avatar, host exactly when the roster was empty, named by a non-empty prefix of at most ten characters of the trimmed input |
| `Roster.JoinKeeps` | App.tsx:159-168 | a join under a fresh id keeps ids distinct and everybody ALIVE, and adds no other id |
| `Roster.RestartRoster` | App.tsx:463-466 | after a restart everybody is ALIVE, the automatic opponent is gone, and every remaining player is an earlier human player with status reset |
| `Roster.RestartRosterAppend` | App.tsx:465-466 | restart works entry by entry: the roster `a + b` cleans up to the cleaned `a` followed by the cleaned `b`, so no player moves |
| `Roster.RestartKeepsOrder` | App.tsx:463-466 | the opponent appended at game start leaves again on restart, and a roster without it comes back in join (turn) order with everybody ALIVE |
| `Roster.RestartKeepsHumans` | App.tsx:465-466 | no human player is lost on restart |
| `Roster.RestartDistinct` | App.tsx:465-466 | restart keeps player ids distinct |
| `Deck.CardIdInjective` | App.tsx:259 | different positions give different card ids |
| `Deck.CanonicalDistinct` | App.tsx:258-263 | a deck whose cards carry their positions' ids has pairwise different ids |
| `Deck.BuildDeck` | App.tsx:258-263 | one clean card per item text, in order, with pairwise different ids |
| `Deck.IndexOf` | App.tsx:382 | the position found holds the id and no earlier card does; when nothing is found, no card has the id |
| `Deck.RevealOne` | App.tsx:386 | with distinct ids, a click reveals exactly the clicked card |
| `Deck.RevealCard` | App.tsx:386 | the deck keeps its length; with distinct ids RevealOne states that only the clicked card is revealed |
| `Deck.RevealAllKeeps` | App.tsx:153-155 | reveal-all leaves no card hidden and changes nothing but the reveal flags |
| `Deck.RevealAll` | App.tsx:153-155 | the deck keeps its length; RevealAllKeeps states that every card is shown and nothing but the reveal flags changes |
| `Deck.PlacerAccumulates` | App.tsx:335-339 | successive placements on one card record all placers' names, comma-joined in placement order |
| `Deck.AppendPlacer` | App.tsx:335-339 | the new name always comes last; when a name was already recorded it is kept in front, followed by ", "; otherwise the new name alone is recorded |
| `Deck.PlaceTrapOne` | App.tsx:333-343 | with distinct ids, a placement traps and tags exactly the chosen card, trapped before or not, and leaves every other card unchanged |
| `Deck.PlaceTrap` | App.tsx:333-343 | the deck keeps its length; PlaceTrapOne, PlaceTrapAbsent and PlaceTrapNukes state which card changes and how |
| `Deck.PlaceTrapAbsent` | App.tsx:333-343 | a placement on an id no card has changes nothing |
| `Deck.PlaceTrapNukes` | App.tsx:333-345 | a placement adds at most one trapped card and reveals nothing |
| `Deck.ResetIsFreshBuild` | App.tsx:417 | the reset between rounds gives the deck a fresh build from the same texts would: same ids and texts in the same order, everything else cleared |
| `Deck.ResetDeck` | App.tsx:417 | the deck keeps its length; ResetIsFreshBuild and ResetForgetsRound state that ids and texts stay and everything else is cleared |
| `Deck.ResetForgetsRound` | App.tsx:417 | placements and reveals made during a round do not survive the reset, and resetting twice is resetting once |
| `Deck.CountsAfterSet` | App.tsx:309-312 | replacing one card shifts the trap count and the hidden-safe count by that card's change only |
| `Deck.SafeCardExists` | App.tsx:307-309 | while fewer cards than the deck holds are trapped, an untrapped one exists, so the rejection loop can always draw one |
| `Deck.HiddenCounts` | App.tsx:355-361 | on a deck with nothing revealed, the traps and the hidden safe cards add up to the deck size |
| `Deck.Unrevealed` | App.tsx:73 | the automatic opponent's candidates are exactly the hidden cards of the deck |
| `Deck.HiddenSafeIsUnrevealed` | App.tsx:73-74 | while a hidden safe card is left, the automatic opponent's candidate list is not empty |
| `Deck.ResizeKeeps` | App.tsx:113-120 | a resize keeps the inputs that still fit and blanks new ones; growing and then shrinking back restores the inputs |
| `Deck.ResizeInputs` | App.tsx:113-120 | there is exactly one input per card; ResizeKeeps states which inputs are kept |
| `Deck.FilledInputs` | App.tsx:281 | the accepted inputs are no more than the inputs and none of them is empty |
| `Deck.FilledAllIff` | App.tsx:281-285 | submission goes ahead (no input dropped) exactly when no input is blank |
| `Deck.FilledIsTrimmed` | App.tsx:281-292 | with no blank input, the accepted cards are the inputs trimmed, in order |
| `Traps.SafeNukeCount` | App.tsx:305 | the clamped target never exceeds the request and always leaves at least one card of the deck untrapped |
| `Traps.PlaceRandomTraps` | App.tsx:302-314 | exactly `target` more cards are trapped, each one previously untrapped and tagged "AI"; every other card, and every id, text and reveal flag, is unchanged |
| `Traps.RandomAssignmentLeavesSafeCard` | App.tsx:301-314 | on a clean deck the assignment traps exactly `min(nukeCount, cardCount - 1)` cards and a hidden safe card remains |
| `Traps.RandomPlacementKeeps` | App.tsx:307-314 | random placement keeps texts, ids and hidden state, and a reset gives the clean deck back |
| `Traps.ArmedHiddenAndTagged` | App.tsx:301-314 | a clean deck armed at random has every card hidden, keeps every id and text, tags every trap "AI" and leaves every safe card untagged |
| `Turns.Succ` | App.tsx:369 | one step around the roster is `(i + 1) % n` and stays in range |
| `Turns.CircClosed` | App.tsx:369-373 | within one lap, `d` steps after `cur` is `cur + d` wrapped once |
| `Turns.CircCovers` | App.tsx:371-373 | one lap visits every position |
| `Turns.NextAliveIndex` | App.tsx:368-374 | the walk ends in range; when anyone is ALIVE it lands on the first ALIVE player strictly after the current one in circular order; when nobody is, it stops one step after the current player |
| `GameEngine.Game.constructor` | App.tsx:15-39 | the game starts in the lobby with no players, round 1, a full clock, twelve cards, four traps and twelve blank manual inputs |
| `GameEngine.Game.SetMode` | App.tsx:592-600 | the mode buttons set the mode and keep the invariant |
| `GameEngine.Game.SetCustomTopic` | App.tsx:606-609 | the topic field sets the topic |
| `GameEngine.Game.SetCardCount` | App.tsx:626-634 | the grid slider sets the deck size and the manual inputs follow it |
| `GameEngine.Game.SetNukeCount` | App.tsx:642-649 | the threat slider sets a trap quota between 1 and `min(8, cardCount - 4)` |
| `GameEngine.Game.SetManualEntry` | App.tsx:658-664 | turning manual entry on also turns manual traps off |
| `GameEngine.Game.SetManualTraps` | App.tsx:671-677 | the manual-traps box has no effect while manual entry is on |
| `GameEngine.Game.AddLocalPlayer` | App.tsx:159-177 | the roster becomes `Join` of the old roster under the new id, and the invariant (distinct ids, no automatic opponent in the lobby) is kept |
| `GameEngine.Game.InitGameSequence` | App.tsx:217-252 | nothing happens without players or, in CUSTOM mode without a topic, unless cards are entered by hand (the start button is disabled then, App.tsx:686); a lone player gets the automatic opponent; manual entry waits in MANUAL_ENTRY with the deck, category, clock and placement count unchanged; otherwise every card of the shaped content is dealt hidden and either trap setup starts from zero placements on the clean deck, or play starts with a full clock and exactly `min(nukeCount, cardCount - 1)` cards trapped and tagged "AI" |
| `GameEngine.Game.SeatPlayers` | App.tsx:223-234 | a lone player gets the automatic opponent, and the roster is then ready for a round |
| `GameEngine.Game.LoadNewRound` | App.tsx:254-277 | the deck holds exactly the shaped round content, every card hidden, under the shaped category; manual traps start setup with no placements on the clean deck; otherwise play starts with a full clock and the clean deck with exactly the clamped number of cards trapped and tagged "AI" |
| `GameEngine.Game.ArmDeck` | App.tsx:268-276 | arming keeps the texts, leaves every card hidden and resets back to the clean deck; manual setup starts from zero placements on the clean deck, random arming starts play with a full clock and the clamped number of cards, each trapped and tagged "AI" |
| `GameEngine.Game.SetManualInput` | App.tsx:714-724 | editing one manual input changes that input only |
| `GameEngine.Game.SubmitManualCards` | App.tsx:279-299 | with any blank input nothing changes; otherwise the deck is the trimmed inputs in order, every card hidden, the category is the topic or "USER GENERATED CONTENT", and play starts with the clamped number of cards trapped and tagged "AI" |
| `GameEngine.Game.StartManualRound` | App.tsx:287-298 | the accepted cards become the deck in order, every card hidden, with the clamped number trapped and tagged "AI", and play starts |
| `GameEngine.Game.AssignRandomNukes` | App.tsx:301-319 | play starts with a full clock and exactly `min(nukeCount, cardCount - 1)` traps; each card is kept or trapped and tagged "AI"; texts are kept; a hidden safe card remains (through the invariant) |
| `GameEngine.Game.HandleManualTrapSelect` | App.tsx:321-353 | once the quota is met nothing changes; otherwise the placer whose turn it is (placements cycle through the roster) traps the chosen card and the counter goes up by exactly one |
| `GameEngine.Game.ConfirmManualTraps` | App.tsx:355-362 | while placements are missing nothing changes; otherwise play starts with a full clock |
| `GameEngine.Game.MoveToNextPlayer` | App.tsx:368-377 | the turn passes to the first ALIVE player after the current one; when nobody is ALIVE it stops one step after the current one; the index stays in range and the clock is reset |
| `GameEngine.Game.CheckWinCondition` | App.tsx:134-151 | with at most one survivor the game is over and every card is shown; with exactly one, that survivor alone is WINNER; with none, the roster is unchanged; otherwise play goes on with the roster and deck unchanged and the turn passes to the first ALIVE player after the eliminated one |
| `GameEngine.Game.EndGame` | App.tsx:138-147 | game over with every card shown and as many WINNERs as there are survivors (zero or one) |
| `GameEngine.Game.RevealAllCards` | App.tsx:153-155 | every card is shown and nothing else about the deck changes |
| `GameEngine.Game.HandleTimeOut` | App.tsx:122-132 | the current player is ELIMINATED, then the win check decides. With at most one other ALIVE player the game is over, every card is shown and the turn index stays; the one survivor, if any, is WINNER. Otherwise play continues with the turn passed to the first ALIVE player after the eliminated one and a full clock |
| `GameEngine.Game.Eliminate` | App.tsx:128 | only the current player's status changes, and the list of survivors besides them is the same before and after |
| `GameEngine.Game.Tick` | App.tsx:100-110 | outside TIMED play nothing changes; with time left one second passes and nothing else changes; at zero the current player times out with exactly the HandleTimeOut outcome: game over with every card shown and the one survivor, if any, as WINNER, or play continuing with the first ALIVE player after them and a full clock |
| `GameEngine.Game.HandleCardClick` | App.tsx:379-461 | a click on anything but a hidden card during play changes nothing. Otherwise exactly that card is revealed. A trap eliminates the current player: game over with every card shown and the turn index kept if at most one other player is ALIVE, the one survivor (if any) being WINNER; else the turn passes to the next ALIVE player and a reshuffle is announced. A safe card passes the turn to the next ALIVE player, or announces a reshuffle if no hidden safe card is left |
| `GameEngine.Game.StepOnTrap` | App.tsx:391-429 | a revealed trap leads to exactly one outcome: game over with no WINNER or with the one survivor as WINNER (every card shown and the turn index kept in both), or a pending reshuffle with only the current player's status changed and the turn passed on |
| `GameEngine.Game.AnnounceReshuffle` | App.tsx:410-413 | the round stops in LOADING_ROUND with the reason for the reshuffle recorded |
| `GameEngine.Game.StepOnSafe` | App.tsx:431-460 | a revealed safe card either announces a reshuffle when no hidden safe card is left, or passes the turn on |
| `GameEngine.Game.Reshuffle` | App.tsx:414-427 | with nothing pending nothing happens; otherwise the round number goes up by one and the deck is the reset of the old one (same ids and texts, every card hidden): for manual traps exactly that deck with setup from zero placements, otherwise that deck with the clamped number of cards trapped and tagged "AI"; after exhaustion the turn moves on |
| `GameEngine.Game.NextRound` | App.tsx:444-456 | the round number goes up by one, the turn moves on only after exhaustion, and the roster is ready for the new deck |
| `GameEngine.Game.AiPlayTurn` | App.tsx:63-80 | the automatic opponent acts only on its own turn during play; then it always has a hidden card to pick, and the card it picks is revealed |
| `GameEngine.Game.AiPlaceTrap` | App.tsx:82-96 | the automatic opponent places only when the placement rotation reaches it, and then traps its chosen card as a manual placement by it |
| `GameEngine.Game.RestartGame` | App.tsx:463-474 | back to the lobby at round 1 with index 0 and the roster cleaned up by `RestartRoster` (the automatic opponent gone, every other player ALIVE, in join order by RestartKeepsOrder) |

## Left out

- Rendering: the JSX screens, the components, the typewriter effect, and the masking of traps during setup. None of them changes the game state.
- The online mode (`createRoom`, `joinRoom` and the `connection` flag): it is a mock. The model is the LOCAL connection, which is why the automatic opponent is always added for a lone player.
- Authentication and `server.js`: a display-name source outside the game.
- The Gemini SDK call, the prompt texts and JSON parsing: foreign calls. Their outcome is the `ProviderReply`/`NarrationReply` argument. The `roundNumber` argument of `generateRoundContent` is unused in the source and is omitted.
- The game master log and the thinking flag: they only update a display line. The narration texts themselves are display output too, but the handlers' waits for them are not harmless; see the HandleCardClick and InitGameSequence lines below. `Commentary` models the fallback choice but is not wired into `Game`.
- The avatar cycling and the clearing of the name field after a join (App.tsx:170-176): lobby input state, not game state.
- The `alert` on an incomplete manual submission: output only; the model leaves the state unchanged.
- The `Math.random` distributions. The model proves counts and structure for every possible draw, not uniformity.
- Wall-clock timing. The model differs from the code in these places:
  - After a trap, the code stays in PLAYING for three seconds before it shows LOADING_ROUND. The model enters LOADING_ROUND at once, so no click can land in that window.
  - Pending timers are not cancelled by a restart. `RestartGame` clears the pending reshuffle.
  - The double `moveToNextPlayer` on the death path gives a single advance, as explained above.
- HandleTimeOut: requires a running round. In a running round the current player is always ALIVE, so the early return for a non-ALIVE player (App.tsx:124) cannot be reached in the model.
- HandleCardClick: runs as one atomic step in the model. The source waits for the DEATH narration (App.tsx:394) after the elimination (App.tsx:392) and before the win check (App.tsx:398). During that wait the status is still PLAYING and hidden cards are still clickable (App.tsx:875). The model therefore loses these interleavings: a second click that re-enters the trap or safe path and can schedule a second reshuffle, and a TIMED-mode timeout in the same window, which reaches the early return for a non-ALIVE player (App.tsx:124).
- HandleCardClick: the early return for a lone dead player (App.tsx:403-406) cannot be reached in the model, because every round the model starts has at least two players. In the source it can be reached after an abort during InitGameSequence (next line).
- InitGameSequence: runs as one atomic step in the model. The source waits for the START narration and for the round content (App.tsx:248 and 251) while in LOADING_ROUND, and the header offers ABORT meanwhile (App.tsx:824-825). The model loses the interleaving in which an abort returns to the lobby and the pending `loadNewRound` then starts play on the restarted roster, possibly a lone human without an opponent.
- AiPlayTurn: states that the chosen card ends up revealed. The full effect of its click is the HandleCardClick contract for that card.
- AddLocalPlayer: requires that the new id `Date.now().toString()` is not already a player's id. The source does not check this: two joins in the same millisecond, or a clock set back, give two players one id, and then a status update (App.tsx:365) and the survivors' filter (App.tsx:135) treat both as one. The model assumes the clock moves on between joins; every roster invariant (distinct ids) and every win-check contract rests on that.
- Truncate: counts Unicode characters, while JavaScript's `substring` and `length` count UTF-16 code units. A name with characters outside the Basic Multilingual Plane (emoji) is cut shorter by the source than by the model: "😀😀😀😀😀😀" is 12 code units, the source keeps 5 emoji, the model keeps 6. Names typed in the lobby field are limited by its `maxLength`, but a logged-in user's name is not.
- Upper: handles ASCII letters only. Full Unicode case mapping of `toUpperCase` is not modelled.
- JavaScript numbers are unbounded integers here. Counters and indices stay far below 2^53 in any game.
