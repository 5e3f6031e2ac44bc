/** The local game engine of App.tsx: one game's state and the handlers that move it
    from the lobby through rounds of card picks to game over. Each handler is one
    method; a delayed continuation of the source (the reshuffle after a death or
    after the safe cards run out) is a separate step, Reshuffle. */
module GameEngine {
  import opened Text
  import opened GameTypes
  import opened Content
  import opened Roster
  import opened Deck
  import opened Traps
  import opened Turns

  /** A reshuffle that has been announced (status LOADING_ROUND) and not yet run:
      after a death, or after the last safe card was revealed. */
  datatype PendingReset = NoReset | AfterTrap | AfterExhaustion

  /** The statuses in which a round is under way or about to start. */
  predicate InRound(s: Status) {
    s == ManualEntry || s == LoadingRound || s == SetupTraps || s == Playing
  }

  /** The deck sizes the grid slider offers. */
  predicate ValidCardCount(n: nat) {
    n == 12 || n == 16 || n == 20 || n == 24
  }

  class Game {
    var status: Status
    var mode: GameMode
    var players: seq<Player>
    var deck: seq<Card>
    var category: string
    var currentRound: nat
    var currentPlayerIndex: nat
    var manualActsCount: nat
    var timeLeft: int
    var pending: PendingReset
    var customTopic: string
    var isManualTraps: bool
    var isManualEntry: bool
    var cardCount: nat
    var nukeCount: nat
    var manualCardInputs: seq<string>

    /** The lobby settings are within the ranges the controls allow. */
    ghost predicate ValidSettings()
      reads this`cardCount, this`nukeCount, this`manualCardInputs, this`isManualEntry, this`isManualTraps
    {
      && ValidCardCount(cardCount)
      && 1 <= nukeCount <= 8 && nukeCount <= cardCount - 4
      && |manualCardInputs| == cardCount
      && !(isManualEntry && isManualTraps)
    }

    /** The roster and the turn agree with the status: nobody has won or lost in the
        lobby, a round has at least two ALIVE players and the current one is one of
        them, and a finished game has nobody ALIVE and at most one WINNER. */
    ghost predicate ValidRoster()
      reads this`players, this`status, this`currentPlayerIndex
    {
      && DistinctPlayerIds(players)
      && (status == Lobby ==> currentPlayerIndex == 0 && AllAlive(players) && !HasId(players, AiBotId))
      && (status != Lobby ==> 2 <= |players| && currentPlayerIndex < |players|)
      && (InRound(status) ==>
            && CountStatus(players, Alive) >= 2
            && players[currentPlayerIndex].status == Alive
            && CountStatus(players, Winner) == 0)
      && (status == GameOver ==> CountStatus(players, Alive) == 0 && CountStatus(players, Winner) <= 1)
    }

    /** The deck agrees with the status: a reshuffle is pending exactly while a round
        is loading, placement by hand never traps more cards than placements were
        made, play always has a hidden safe card, and a finished game shows every card. */
    ghost predicate ValidDeck()
      reads this`deck, this`status, this`pending, this`cardCount, this`isManualTraps,
        this`manualActsCount, this`nukeCount
    {
      && CanonicalIds(deck)
      && (status == GameOver ==> AllRevealed(deck))
      && (status == LoadingRound <==> pending != NoReset)
      && (pending != NoReset ==> |deck| == cardCount)
      && (status == SetupTraps ==>
            && isManualTraps && |deck| == cardCount && NoneRevealed(deck)
            && manualActsCount <= nukeCount && NukeCount(deck) <= manualActsCount)
      && (status == Playing ==> |deck| == cardCount && UnrevealedSafeCount(deck) >= 1)
    }

    /** What holds between handlers. */
    ghost predicate Valid()
      reads this
    {
      ValidSettings() && ValidRoster() && ValidDeck()
    }

    /** The state after mount: the lobby with the default settings and twelve blank
        manual inputs. */
    constructor ()
      ensures Valid()
      ensures status == Lobby && mode == Classic && players == [] && deck == [] && category == ""
      ensures currentRound == 1 && currentPlayerIndex == 0 && manualActsCount == 0
      ensures timeLeft == TurnTimeLimit && pending == NoReset
      ensures customTopic == "" && !isManualTraps && !isManualEntry
      ensures cardCount == 12 && nukeCount == 4
      ensures manualCardInputs == ResizeInputs([], 12)
    {
      status := Lobby;
      mode := Classic;
      players := [];
      deck := [];
      category := "";
      currentRound := 1;
      currentPlayerIndex := 0;
      manualActsCount := 0;
      timeLeft := TurnTimeLimit;
      pending := NoReset;
      customTopic := "";
      isManualTraps := false;
      isManualEntry := false;
      cardCount := 12;
      nukeCount := 4;
      manualCardInputs := ResizeInputs([], 12);
    }

    // ---------------------------------------------------------------- lobby settings

    method SetMode(m: GameMode)
      requires Valid() && status == Lobby
      modifies this`mode
      ensures Valid() && mode == m
    {
      mode := m;
    }

    method SetCustomTopic(t: string)
      requires Valid() && status == Lobby
      modifies this`customTopic
      ensures Valid() && customTopic == t
    {
      customTopic := t;
    }

    /** The grid slider, followed by the resize of the manual inputs. */
    method SetCardCount(n: nat)
      requires Valid() && status == Lobby && ValidCardCount(n)
      modifies this`cardCount, this`manualCardInputs
      ensures Valid() && cardCount == n
      ensures manualCardInputs == ResizeInputs(old(manualCardInputs), n)
    {
      cardCount := n;
      manualCardInputs := ResizeInputs(manualCardInputs, n);
    }

    /** The threat slider: from 1 to `min(8, cardCount - 4)`. */
    method SetNukeCount(n: nat)
      requires Valid() && status == Lobby && 1 <= n <= Min(8, cardCount - 4)
      modifies this`nukeCount
      ensures Valid() && nukeCount == n
    {
      nukeCount := n;
    }

    /** Turning manual entry on turns manual traps off. */
    method SetManualEntry(on: bool)
      requires Valid() && status == Lobby
      modifies this`isManualEntry, this`isManualTraps
      ensures Valid() && isManualEntry == on
      ensures isManualTraps == (!on && old(isManualTraps))
    {
      isManualEntry := on;
      if on {
        isManualTraps := false;
      }
    }

    /** The manual-traps checkbox is disabled while manual entry is on. */
    method SetManualTraps(on: bool)
      requires Valid() && status == Lobby
      modifies this`isManualTraps
      ensures Valid()
      ensures isManualTraps == if old(isManualEntry) then old(isManualTraps) else on
    {
      if !isManualEntry {
        isManualTraps := on;
      }
    }

    /** addLocalPlayer: the player joins under the id `Date.now().toString()`, here the
        decimal text of `now`. */
    method AddLocalPlayer(rawName: string, avatar: string, now: nat)
      requires Valid() && status == Lobby && !HasId(players, NatToString(now))
      modifies this`players
      ensures Valid()
      ensures players == Join(old(players), rawName, avatar, NatToString(now))
    {
      var id := NatToString(now);
      assert id != AiBotId by {
        assert IsDigits(id) && AiBotId[0] == 'a';
      }
      JoinKeeps(players, rawName, avatar, id, AiBotId);
      players := Join(players, rawName, avatar, id);
    }

    // ---------------------------------------------------------------- starting a round

    /** initGameSequence with the provider's reply to the round request given. Nothing
        happens without players, or in CUSTOM mode without a topic unless the cards
        are entered by hand. A lone player gets the automatic opponent. Manual entry
        waits for the cards; otherwise the round is loaded at once. */
    method InitGameSequence(reply: ProviderReply)
      requires Valid() && status == Lobby
      modifies this`players, this`status, this`deck, this`category, this`manualActsCount, this`timeLeft
      ensures Valid()
      ensures old(|players| < 1 || (mode == Custom && customTopic == "" && !isManualEntry)) ==>
        unchanged(this)
      ensures !old(|players| < 1 || (mode == Custom && customTopic == "" && !isManualEntry)) ==>
        && players == (if |old(players)| == 1 then old(players) + [AiPlayer] else old(players))
        && currentPlayerIndex == 0
        && (old(isManualEntry) ==>
              status == ManualEntry && deck == old(deck) && category == old(category)
              && timeLeft == old(timeLeft) && manualActsCount == old(manualActsCount))
        && (!old(isManualEntry) ==>
              && Texts(deck) == RoundContentOf(mode, customTopic, cardCount, reply).items
              && category == RoundContentOf(mode, customTopic, cardCount, reply).category
              && NoneRevealed(deck)
              && (isManualTraps ==>
                    status == SetupTraps && manualActsCount == 0
                    && deck == BuildDeck(RoundContentOf(mode, customTopic, cardCount, reply).items))
              && (!isManualTraps ==>
                    && status == Playing && timeLeft == TurnTimeLimit
                    && ArmedFrom(deck, BuildDeck(RoundContentOf(mode, customTopic, cardCount, reply).items))
                    && NukeCount(deck) == SafeNukeCount(nukeCount, cardCount)))
    {
      if |players| < 1 || (mode == Custom && customTopic == "" && !isManualEntry) {
        return;
      }
      SeatPlayers();
      if isManualEntry {
        status := ManualEntry;
        return;
      }
      LoadNewRound(reply);
    }

    /** The seating of initGameSequence: a lone player gets the automatic opponent,
        and the roster is ready for a round. */
    method SeatPlayers()
      requires Valid() && status == Lobby && |players| >= 1
      modifies this`players
      ensures players == (if |old(players)| == 1 then old(players) + [AiPlayer] else old(players))
      ensures RosterReady() && currentPlayerIndex == 0
    {
      if |players| == 1 {
        assert players[0].id != AiBotId;
        players := players + [AiPlayer];
      }
      AllAliveCounts(players);
    }

    /** The roster can start or continue a round: at least two players, two of them
        ALIVE including the current one, and no WINNER. */
    ghost predicate RosterReady()
      reads this
    {
      && ValidSettings() && DistinctPlayerIds(players)
      && 2 <= |players| && currentPlayerIndex < |players|
      && CountStatus(players, Alive) >= 2 && players[currentPlayerIndex].status == Alive
      && CountStatus(players, Winner) == 0
    }

    /** loadNewRound: the shaped content becomes a clean deck, which is then armed. */
    method LoadNewRound(reply: ProviderReply)
      requires RosterReady() && pending == NoReset
      modifies this`deck, this`category, this`status, this`manualActsCount, this`timeLeft
      ensures Valid()
      ensures Texts(deck) == RoundContentOf(mode, customTopic, cardCount, reply).items
      ensures category == RoundContentOf(mode, customTopic, cardCount, reply).category
      ensures NoneRevealed(deck)
      ensures isManualTraps ==>
        status == SetupTraps && manualActsCount == 0
        && deck == BuildDeck(RoundContentOf(mode, customTopic, cardCount, reply).items)
      ensures !isManualTraps ==>
        && status == Playing && timeLeft == TurnTimeLimit
        && ArmedFrom(deck, BuildDeck(RoundContentOf(mode, customTopic, cardCount, reply).items))
        && NukeCount(deck) == SafeNukeCount(nukeCount, cardCount)
    {
      var content := GenerateRoundContent(mode, customTopic, cardCount, reply);
      var raw := BuildDeck(content.items);
      category := content.category;
      ArmDeck(raw);
    }

    /** The trap phase of a new round and of a reshuffle: manual placement starts
        from zero placements, or the traps are placed at random. */
    method ArmDeck(raw: seq<Card>)
      requires RosterReady() && pending == NoReset
      requires |raw| == cardCount && AllClean(raw) && CanonicalIds(raw)
      modifies this`deck, this`status, this`manualActsCount, this`timeLeft
      ensures Valid()
      ensures Texts(deck) == Texts(raw) && ResetDeck(deck) == raw && NoneRevealed(deck)
      ensures isManualTraps ==> status == SetupTraps && deck == raw && manualActsCount == 0
      ensures !isManualTraps ==>
        && status == Playing && timeLeft == TurnTimeLimit
        && ArmedFrom(deck, raw) && NukeCount(deck) == SafeNukeCount(nukeCount, cardCount)
    {
      if isManualTraps {
        NoNukes(raw);
        deck := raw;
        status := SetupTraps;
        manualActsCount := 0;
      } else {
        AssignRandomNukes(raw);
      }
    }

    /** One of the manual-entry text fields. */
    method SetManualInput(idx: nat, text: string)
      requires Valid() && status == ManualEntry && idx < |manualCardInputs|
      modifies this`manualCardInputs
      ensures Valid() && manualCardInputs == old(manualCardInputs)[idx := text]
    {
      manualCardInputs := manualCardInputs[idx := text];
    }

    /** submitManualCards: with a blank input nothing happens; otherwise the trimmed
        inputs become the deck, in order, and the traps are placed at random. */
    method SubmitManualCards()
      requires Valid() && status == ManualEntry
      modifies this`deck, this`category, this`status, this`timeLeft
      ensures Valid()
      ensures !AllFilled(manualCardInputs) ==> unchanged(this)
      ensures AllFilled(manualCardInputs) ==>
        && status == Playing && timeLeft == TurnTimeLimit
        && category == (if customTopic != "" then customTopic else "USER GENERATED CONTENT")
        && Texts(deck) == TrimmedInputs(manualCardInputs)
        && ArmedFrom(deck, BuildDeck(TrimmedInputs(manualCardInputs))) && NoneRevealed(deck)
        && NukeCount(deck) == SafeNukeCount(nukeCount, cardCount)
    {
      var filled := FilledInputs(manualCardInputs);
      if |filled| < cardCount {
        FilledAllIff(manualCardInputs);
        return;
      }
      StartManualRound(filled);
      FilledAllIff(manualCardInputs);
      FilledIsTrimmed(manualCardInputs);
    }

    /** The accepted manual cards become the deck and the traps are placed at random. */
    method StartManualRound(texts: seq<string>)
      requires Valid() && status == ManualEntry && |texts| == cardCount
      modifies this`deck, this`category, this`status, this`timeLeft
      ensures Valid()
      ensures status == Playing && timeLeft == TurnTimeLimit
      ensures category == (if customTopic != "" then customTopic else "USER GENERATED CONTENT")
      ensures Texts(deck) == texts && NukeCount(deck) == SafeNukeCount(nukeCount, cardCount)
      ensures ArmedFrom(deck, BuildDeck(texts)) && NoneRevealed(deck)
    {
      var raw := BuildDeck(texts);
      category := if customTopic != "" then customTopic else "USER GENERATED CONTENT";
      AssignRandomNukes(raw);
    }

    /** assignRandomNukes: `min(nukeCount, cardCount - 1)` more cards are trapped, each
        tagged "AI", and play starts with a full clock. */
    method AssignRandomNukes(options: seq<Card>)
      requires RosterReady() && pending == NoReset
      requires |options| == cardCount && AllClean(options) && CanonicalIds(options)
      modifies this`deck, this`status, this`timeLeft
      ensures Valid()
      ensures status == Playing && timeLeft == TurnTimeLimit
      ensures |deck| == |options| && NukeCount(deck) == SafeNukeCount(nukeCount, cardCount)
      ensures ArmedFrom(deck, options)
      ensures Texts(deck) == Texts(options) && ResetDeck(deck) == options && NoneRevealed(deck)
    {
      NoNukes(options);
      var d := PlaceRandomTraps(options, SafeNukeCount(nukeCount, cardCount));
      RandomAssignmentLeavesSafeCard(options, d, nukeCount);
      RandomPlacementKeeps(options, d);
      deck := d;
      status := Playing;
      timeLeft := TurnTimeLimit;
    }

    // ---------------------------------------------------------------- manual traps

    /** handleManualTrapSelect: once the quota is met nothing happens; otherwise the
        player whose turn it is to place (placements cycle through the roster) traps
        the card, even one trapped already, and the placement is counted. */
    method HandleManualTrapSelect(cardId: string)
      requires Valid() && status == SetupTraps
      modifies this`deck, this`manualActsCount
      ensures Valid()
      ensures old(manualActsCount) >= nukeCount ==> deck == old(deck) && manualActsCount == old(manualActsCount)
      ensures old(manualActsCount) < nukeCount ==>
        && deck == PlaceTrap(old(deck), cardId, players[old(manualActsCount) % |players|].name)
        && manualActsCount == old(manualActsCount) + 1
    {
      if manualActsCount >= nukeCount {
        return;
      }
      var placer := players[manualActsCount % |players|];
      CanonicalDistinct(deck);
      PlaceTrapNukes(deck, cardId, placer.name);
      deck := PlaceTrap(deck, cardId, placer.name);
      manualActsCount := manualActsCount + 1;
    }

    /** confirmManualTraps: play starts once every placement is made. */
    method ConfirmManualTraps()
      requires Valid() && status == SetupTraps
      modifies this`status, this`timeLeft
      ensures Valid()
      ensures manualActsCount < nukeCount ==> status == old(status) && timeLeft == old(timeLeft)
      ensures manualActsCount >= nukeCount ==> status == Playing && timeLeft == TurnTimeLimit
    {
      if manualActsCount < nukeCount {
        return;
      }
      HiddenCounts(deck);
      status := Playing;
      timeLeft := TurnTimeLimit;
    }

    // ---------------------------------------------------------------- turns

    /** moveToNextPlayer: the turn passes to the first ALIVE player after the current
        one, and the clock restarts. */
    method MoveToNextPlayer()
      requires currentPlayerIndex < |players|
      modifies this`currentPlayerIndex, this`timeLeft
      ensures currentPlayerIndex < |players| && timeLeft == TurnTimeLimit
      ensures CountStatus(players, Alive) > 0 ==>
        players[currentPlayerIndex].status == Alive
        && FirstAliveAfter(players, old(currentPlayerIndex), currentPlayerIndex)
      ensures (forall i :: 0 <= i < |players| ==> players[i].status != Alive) ==>
        currentPlayerIndex == Circ(old(currentPlayerIndex), 1, |players|)
    {
      if CountStatus(players, Alive) > 0 {
        CountPositive(players, Alive);
      }
      var next := NextAliveIndex(players, currentPlayerIndex);
      currentPlayerIndex := next;
      timeLeft := TurnTimeLimit;
    }

    /** checkWinCondition, called once the current player `dyingId` is ELIMINATED. With
        at most one other ALIVE player the game is over and every card is shown; the
        last one standing, if any, is the WINNER. Otherwise the turn moves on. */
    method CheckWinCondition(dyingId: string)
      requires ValidSettings() && ValidDeck() && status == Playing
      requires DistinctPlayerIds(players) && 2 <= |players| && currentPlayerIndex < |players|
      requires players[currentPlayerIndex].id == dyingId && players[currentPlayerIndex].status == Eliminated
      requires CountStatus(players, Winner) == 0
      modifies this`status, this`deck, this`players, this`currentPlayerIndex, this`timeLeft
      ensures Valid()
      ensures |players| == |old(players)|
      ensures |AliveOthers(old(players), dyingId)| <= 1 ==>
        && status == GameOver && deck == RevealAll(old(deck))
        && currentPlayerIndex == old(currentPlayerIndex)
        && players[currentPlayerIndex].status == Eliminated
      ensures |AliveOthers(old(players), dyingId)| == 1 ==>
        && players == UpdatePlayerStatus(old(players), AliveOthers(old(players), dyingId)[0].id, Winner)
        && CountStatus(players, Winner) == 1
      ensures |AliveOthers(old(players), dyingId)| == 0 ==> players == old(players)
      ensures |AliveOthers(old(players), dyingId)| >= 2 ==>
        && status == Playing && players == old(players) && deck == old(deck)
        && players[currentPlayerIndex].status == Alive && timeLeft == TurnTimeLimit
        && FirstAliveAfter(players, old(currentPlayerIndex), currentPlayerIndex)
    {
      var alive := AliveOthers(players, dyingId);
      AliveOthersCount(players, currentPlayerIndex);
      if |alive| <= 1 {
        EndGame(alive);
      } else {
        MoveToNextPlayer();
      }
    }

    /** The end of the game decided by checkWinCondition: every card is shown and the
        one survivor, if there is one, is the WINNER. */
    method EndGame(survivors: seq<Player>)
      requires ValidSettings() && ValidDeck() && status == Playing
      requires DistinctPlayerIds(players) && 2 <= |players| && currentPlayerIndex < |players|
      requires players[currentPlayerIndex].status == Eliminated && CountStatus(players, Winner) == 0
      requires survivors == AliveOthers(players, players[currentPlayerIndex].id) && |survivors| <= 1
      modifies this`status, this`deck, this`players
      ensures Valid() && status == GameOver && deck == RevealAll(old(deck))
      ensures players == if |survivors| == 1 then UpdatePlayerStatus(old(players), survivors[0].id, Winner)
                         else old(players)
      ensures players[currentPlayerIndex] == old(players)[currentPlayerIndex]
      ensures CountStatus(players, Winner) == |survivors|
    {
      LastStanding(players, currentPlayerIndex);
      if |survivors| == 1 {
        players := UpdatePlayerStatus(players, survivors[0].id, Winner);
      }
      status := GameOver;
      assert ValidRoster();
      RevealAllCards();
    }

    /** revealAllCards: every card is shown, nothing else about the deck changes. */
    method RevealAllCards()
      modifies this`deck
      ensures deck == RevealAll(old(deck))
      ensures AllRevealed(deck) && (CanonicalIds(old(deck)) ==> CanonicalIds(deck))
    {
      RevealAllKeeps(deck);
      deck := RevealAll(deck);
    }

    /** handleTimeOut: the current player, if ALIVE, is ELIMINATED, then the win
        condition is checked. */
    method HandleTimeOut()
      requires Valid() && status == Playing
      modifies this`deck, this`players, this`status, this`currentPlayerIndex, this`timeLeft
      ensures Valid() && |players| == |old(players)|
      ensures var cur := old(players)[old(currentPlayerIndex)];
        var others := AliveOthers(old(players), cur.id);
        var survivors := |others|;
        && (survivors <= 1 ==>
              status == GameOver && deck == RevealAll(old(deck)) && currentPlayerIndex == old(currentPlayerIndex))
        && players[old(currentPlayerIndex)].status == Eliminated
        && (survivors == 0 ==> players == UpdatePlayerStatus(old(players), cur.id, Eliminated))
        && (survivors == 1 ==>
              && players == UpdatePlayerStatus(UpdatePlayerStatus(old(players), cur.id, Eliminated), others[0].id, Winner)
              && CountStatus(players, Winner) == 1)
        && (survivors >= 2 ==>
              && status == Playing && deck == old(deck)
              && players == UpdatePlayerStatus(old(players), cur.id, Eliminated)
              && players[currentPlayerIndex].status == Alive
              && FirstAliveAfter(players, old(currentPlayerIndex), currentPlayerIndex)
              && timeLeft == TurnTimeLimit)
    {
      var cur := players[currentPlayerIndex];
      Eliminate();
      CheckWinCondition(cur.id);
    }

    /** The current (ALIVE) player is ELIMINATED; the survivors are the same whether
        counted before or after. */
    method Eliminate()
      requires DistinctPlayerIds(players) && currentPlayerIndex < |players|
      requires players[currentPlayerIndex].status == Alive && CountStatus(players, Winner) == 0
      modifies this`players
      ensures players == UpdatePlayerStatus(old(players), old(players)[currentPlayerIndex].id, Eliminated)
      ensures players == old(players)[currentPlayerIndex := old(players)[currentPlayerIndex].(status := Eliminated)]
      ensures DistinctPlayerIds(players) && CountStatus(players, Winner) == 0
      ensures players[currentPlayerIndex].id == old(players)[currentPlayerIndex].id
      ensures players[currentPlayerIndex].status == Eliminated
      ensures AliveOthers(players, players[currentPlayerIndex].id)
           == AliveOthers(old(players), players[currentPlayerIndex].id)
    {
      var k := currentPlayerIndex;
      UpdateOne(players, k, Eliminated, Alive);
      UpdateOne(players, k, Eliminated, Winner);
      AliveOthersIgnoresDying(players, players[k].id, Eliminated);
      players := UpdatePlayerStatus(players, players[k].id, Eliminated);
    }

    /** The TIMED-mode clock: one second passes while time is left; at zero the current
        player times out. */
    method Tick()
      requires Valid()
      modifies this`deck, this`players, this`status, this`currentPlayerIndex, this`timeLeft
      ensures Valid()
      ensures !(old(status) == Playing && mode == Timed) ==> unchanged(this)
      ensures old(status) == Playing && mode == Timed && old(timeLeft) > 0 ==>
        timeLeft == old(timeLeft) - 1 && status == Playing
        && players == old(players) && deck == old(deck) && currentPlayerIndex == old(currentPlayerIndex)
      ensures |players| == |old(players)|
      ensures old(status) == Playing && mode == Timed && old(timeLeft) <= 0 ==>
        var cur := old(players)[old(currentPlayerIndex)];
        var others := AliveOthers(old(players), cur.id);
        && players[old(currentPlayerIndex)].status == Eliminated
        && (|others| <= 1 ==>
              status == GameOver && deck == RevealAll(old(deck)) && currentPlayerIndex == old(currentPlayerIndex))
        && (|others| == 0 ==> players == UpdatePlayerStatus(old(players), cur.id, Eliminated))
        && (|others| == 1 ==>
              && players == UpdatePlayerStatus(UpdatePlayerStatus(old(players), cur.id, Eliminated), others[0].id, Winner)
              && CountStatus(players, Winner) == 1)
        && (|others| >= 2 ==>
              && status == Playing && deck == old(deck)
              && players == UpdatePlayerStatus(old(players), cur.id, Eliminated)
              && FirstAliveAfter(players, old(currentPlayerIndex), currentPlayerIndex)
              && timeLeft == TurnTimeLimit)
    {
      if status == Playing && mode == Timed {
        if timeLeft > 0 {
          timeLeft := timeLeft - 1;
        } else {
          HandleTimeOut();
        }
      }
    }

    // ---------------------------------------------------------------- picking a card

    /** A click that handleCardClick acts on: during play, on a card of the deck that
        is still hidden. */
    ghost predicate Clickable(cardId: string)
      reads this
    {
      status == Playing && IndexOf(deck, cardId).Some? && !deck[IndexOf(deck, cardId).value].isRevealed
    }

    /** handleCardClick. Any other click does nothing. The card is revealed. A trap
        ELIMINATES the current player and the win condition decides: game over, or a
        reshuffle is announced if more than one other player is ALIVE. A safe card
        passes the turn on, unless it was the last hidden safe card: then a reshuffle
        is announced. */
    method HandleCardClick(cardId: string)
      requires Valid()
      modifies this`deck, this`players, this`status, this`pending, this`currentPlayerIndex, this`timeLeft
      ensures Valid()
      ensures !old(Clickable(cardId)) ==> unchanged(this)
      ensures |players| == |old(players)|
      ensures old(Clickable(cardId)) ==>
        var k := IndexOf(old(deck), cardId).value;
        var revealed := old(deck)[k := old(deck)[k].(isRevealed := true)];
        var cur := old(players)[old(currentPlayerIndex)];
        var others := AliveOthers(old(players), cur.id);
        var survivors := |others|;
        && (old(deck)[k].isNuke ==>
              && players[old(currentPlayerIndex)].status == Eliminated
              && (survivors <= 1 ==>
              status == GameOver && deck == RevealAll(revealed) && currentPlayerIndex == old(currentPlayerIndex))
              && (survivors == 0 ==> players == UpdatePlayerStatus(old(players), cur.id, Eliminated))
              && (survivors == 1 ==>
                    players == UpdatePlayerStatus(UpdatePlayerStatus(old(players), cur.id, Eliminated), others[0].id, Winner))
              && (survivors >= 2 ==>
                    && status == LoadingRound && pending == AfterTrap && deck == revealed
                    && players == UpdatePlayerStatus(old(players), cur.id, Eliminated)
                    && FirstAliveAfter(players, old(currentPlayerIndex), currentPlayerIndex)))
        && (!old(deck)[k].isNuke ==>
              && players == old(players) && deck == revealed
              && (UnrevealedSafeCount(revealed) == 0 ==>
                    status == LoadingRound && pending == AfterExhaustion
                    && currentPlayerIndex == old(currentPlayerIndex))
              && (UnrevealedSafeCount(revealed) > 0 ==>
                    status == Playing && timeLeft == TurnTimeLimit
                    && FirstAliveAfter(players, old(currentPlayerIndex), currentPlayerIndex)))
    {
      if status != Playing {
        return;
      }
      var found := IndexOf(deck, cardId);
      if found.None? {
        return;
      }
      var k := found.value;
      if deck[k].isRevealed {
        return;
      }
      CanonicalDistinct(deck);
      RevealOne(deck, k);
      if deck[k].isNuke {
        StepOnTrap(k);
      } else {
        StepOnSafe(k);
      }
    }

    /** The reveal of a trapped card by the current player, and what follows it. */
    method StepOnTrap(k: nat)
      requires Valid() && status == Playing && k < |deck| && deck[k].isNuke && !deck[k].isRevealed
      modifies this`deck, this`players, this`status, this`pending, this`currentPlayerIndex, this`timeLeft
      ensures Valid() && |players| == |old(players)|
      ensures
        var revealed := old(deck)[k := old(deck)[k].(isRevealed := true)];
        var cur := old(players)[old(currentPlayerIndex)];
        var others := AliveOthers(old(players), cur.id);
        var survivors := |others|;
        && players[old(currentPlayerIndex)].status == Eliminated
        && (survivors <= 1 ==>
              status == GameOver && deck == RevealAll(revealed) && currentPlayerIndex == old(currentPlayerIndex))
        && (survivors == 0 ==> players == UpdatePlayerStatus(old(players), cur.id, Eliminated))
        && (survivors == 1 ==>
              players == UpdatePlayerStatus(UpdatePlayerStatus(old(players), cur.id, Eliminated), others[0].id, Winner))
        && (survivors >= 2 ==>
              && status == LoadingRound && pending == AfterTrap && deck == revealed
              && players == UpdatePlayerStatus(old(players), cur.id, Eliminated)
              && FirstAliveAfter(players, old(currentPlayerIndex), currentPlayerIndex))
    {
      CountsAfterSet(deck, k, deck[k].(isRevealed := true));
      deck := deck[k := deck[k].(isRevealed := true)];
      assert ValidDeck();
      var cur := players[currentPlayerIndex];
      Eliminate();
      CheckWinCondition(cur.id);
      if status == Playing {
        AnnounceReshuffle(AfterTrap);
      }
    }

    /** The reshuffle is announced: the round stops and waits for Reshuffle. */
    method AnnounceReshuffle(after: PendingReset)
      requires ValidSettings() && ValidRoster() && status == Playing && pending == NoReset
      requires CanonicalIds(deck) && |deck| == cardCount && after != NoReset
      modifies this`status, this`pending
      ensures Valid() && status == LoadingRound && pending == after
    {
      status := LoadingRound;
      pending := after;
    }

    /** The reveal of a safe card by the current player, and what follows it. */
    method StepOnSafe(k: nat)
      requires Valid() && status == Playing && k < |deck| && !deck[k].isNuke && !deck[k].isRevealed
      modifies this`deck, this`status, this`pending, this`currentPlayerIndex, this`timeLeft
      ensures Valid()
      ensures deck == old(deck)[k := old(deck)[k].(isRevealed := true)]
      ensures UnrevealedSafeCount(deck) == 0 ==>
        status == LoadingRound && pending == AfterExhaustion && currentPlayerIndex == old(currentPlayerIndex)
      ensures UnrevealedSafeCount(deck) > 0 ==>
        status == Playing && timeLeft == TurnTimeLimit
        && FirstAliveAfter(players, old(currentPlayerIndex), currentPlayerIndex)
    {
      CountsAfterSet(deck, k, deck[k].(isRevealed := true));
      deck := deck[k := deck[k].(isRevealed := true)];
      if UnrevealedSafeCount(deck) == 0 {
        AnnounceReshuffle(AfterExhaustion);
      } else {
        MoveToNextPlayer();
      }
    }

    /** The delayed second half of a reset: the round number goes up, the same texts
        come back as a clean deck, and it is armed again. After the safe cards ran out
        the turn also moves on; after a death it already did. */
    method Reshuffle()
      requires Valid()
      modifies this`currentRound, this`deck, this`status, this`manualActsCount, this`timeLeft,
        this`currentPlayerIndex, this`pending
      ensures Valid()
      ensures old(pending) == NoReset ==> unchanged(this)
      ensures old(pending) != NoReset ==>
        && pending == NoReset
        && currentRound == old(currentRound) + 1
        && ResetDeck(deck) == ResetDeck(old(deck)) && NoneRevealed(deck)
        && (isManualTraps ==> status == SetupTraps && deck == ResetDeck(old(deck)) && manualActsCount == 0)
        && (!isManualTraps ==>
              status == Playing && ArmedFrom(deck, ResetDeck(old(deck)))
              && NukeCount(deck) == SafeNukeCount(nukeCount, cardCount)
              && timeLeft == TurnTimeLimit)
        && (old(pending) == AfterTrap ==> currentPlayerIndex == old(currentPlayerIndex))
        && (old(pending) == AfterExhaustion ==>
              FirstAliveAfter(players, old(currentPlayerIndex), currentPlayerIndex))
    {
      if pending == NoReset {
        return;
      }
      var clean := ResetDeck(deck);
      ResetIsFreshBuild(deck);
      NextRound();
      ArmDeck(clean);
    }

    /** The bookkeeping half of Reshuffle: the pending reset is cleared, the round
        number goes up and, after the safe cards ran out, the turn moves on. The
        roster is then ready for the new deck. */
    method NextRound()
      requires Valid() && pending != NoReset
      modifies this`currentRound, this`currentPlayerIndex, this`timeLeft, this`pending
      ensures RosterReady() && pending == NoReset && currentRound == old(currentRound) + 1
      ensures old(pending) == AfterTrap ==> currentPlayerIndex == old(currentPlayerIndex)
      ensures old(pending) == AfterExhaustion ==>
        FirstAliveAfter(players, old(currentPlayerIndex), currentPlayerIndex)
    {
      var after := pending;
      pending := NoReset;
      currentRound := currentRound + 1;
      if after == AfterExhaustion {
        MoveToNextPlayer();
      }
    }

    // ---------------------------------------------------------------- the automatic opponent

    /** The automatic opponent's turn during play: it clicks a hidden card, the one at
        position `pick` (wrapped) among the hidden cards. */
    method AiPlayTurn(pick: nat)
      requires Valid()
      modifies this`deck, this`players, this`status, this`pending, this`currentPlayerIndex, this`timeLeft
      ensures Valid()
      ensures !(old(status) == Playing && old(players)[old(currentPlayerIndex)].id == AiBotId) ==> unchanged(this)
      ensures old(status) == Playing && old(players)[old(currentPlayerIndex)].id == AiBotId ==>
        var available := old(Unrevealed(deck));
        && |available| > 0 && |deck| == |old(deck)|
        && exists k :: 0 <= k < |deck| && old(deck)[k] == available[pick % |available|] && deck[k].isRevealed
    {
      if status == Playing && players[currentPlayerIndex].id == AiBotId
         && players[currentPlayerIndex].status == Alive
      {
        var available := Unrevealed(deck);
        HiddenSafeIsUnrevealed(deck);
        var c := available[pick % |available|];
        assert c in available;
        var k :| 0 <= k < |deck| && deck[k] == c;
        CanonicalDistinct(deck);
        assert IndexOf(deck, c.id) == Some(k);
        ghost var before := deck;
        HandleCardClick(c.id);
        assert deck == before[k := before[k].(isRevealed := true)] || deck == RevealAll(before[k := before[k].(isRevealed := true)]);
        assert deck[k].isRevealed;
      }
    }

    /** During manual setup with placements left, the rotation has reached the
        automatic opponent. */
    ghost predicate AiPlacesNext()
      reads this
    {
      status == SetupTraps && manualActsCount < nukeCount && |players| > 0
      && players[manualActsCount % |players|].id == AiBotId
    }

    /** The automatic opponent's placement during manual trap setup, when the placement
        rotation reaches it: it traps the card at position `pick` (wrapped). */
    method AiPlaceTrap(pick: nat)
      requires Valid()
      modifies this`deck, this`manualActsCount
      ensures Valid()
      ensures !old(AiPlacesNext()) ==> unchanged(this)
      ensures old(AiPlacesNext()) ==>
        && deck == PlaceTrap(old(deck), old(deck)[pick % |old(deck)|].id, players[old(manualActsCount) % |players|].name)
        && manualActsCount == old(manualActsCount) + 1
    {
      if status == SetupTraps && manualActsCount < nukeCount {
        var placer := players[manualActsCount % |players|];
        if placer.id == AiBotId {
          HandleManualTrapSelect(deck[pick % |deck|].id);
        }
      }
    }

    // ---------------------------------------------------------------- restart

    /** restartGame (ABORT during a round, NEW GAME at the end): back to the lobby with
        the automatic opponent gone and every other player ALIVE, in join order. */
    method RestartGame()
      requires Valid() && (status == LoadingRound || status == Playing || status == GameOver)
      modifies this`players, this`currentRound, this`currentPlayerIndex, this`status, this`pending
      ensures Valid()
      ensures status == Lobby && currentRound == 1 && currentPlayerIndex == 0 && pending == NoReset
      ensures players == RestartRoster(old(players))
    {
      RestartDistinct(players);
      players := RestartRoster(players);
      currentRound := 1;
      currentPlayerIndex := 0;
      status := Lobby;
      pending := NoReset;
    }
  }
}
