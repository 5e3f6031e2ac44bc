/** The player roster: joining, status updates, the survivors' filter and the
    clean-up on restart (App.tsx). Roster order is join order and is the turn order. */
module Roster {
  import opened Text
  import opened GameTypes

  predicate DistinctPlayerIds(ps: seq<Player>) {
    forall i, j :: 0 <= i < j < |ps| ==> ps[i].id != ps[j].id
  }

  predicate AllAlive(ps: seq<Player>) {
    forall i :: 0 <= i < |ps| ==> ps[i].status == Alive
  }

  predicate HasId(ps: seq<Player>, id: string) {
    exists i :: 0 <= i < |ps| && ps[i].id == id
  }

  /** The number of players whose status is `s`. */
  function CountStatus(ps: seq<Player>, s: PlayerStatus): (n: nat)
    ensures n <= |ps|
  {
    if ps == [] then 0 else Ind(ps[0].status == s) + CountStatus(ps[1..], s)
  }

  /** In a roster where everybody is ALIVE, everybody counts as ALIVE and nobody has won. */
  lemma {:induction false} AllAliveCounts(ps: seq<Player>)
    requires AllAlive(ps)
    ensures CountStatus(ps, Alive) == |ps| && CountStatus(ps, Winner) == 0
  {
    if ps != [] {
      AllAliveCounts(ps[1..]);
    }
  }

  /** A positive count has a witness. */
  lemma {:induction false} CountPositive(ps: seq<Player>, s: PlayerStatus)
    requires CountStatus(ps, s) > 0
    ensures exists i :: 0 <= i < |ps| && ps[i].status == s
  {
    if ps[0].status != s {
      CountPositive(ps[1..], s);
      var i :| 0 <= i < |ps[1..]| && ps[1..][i].status == s;
      assert ps[i + 1].status == s;
    }
  }

  /** Replacing one player changes each count by what left and what came in. */
  lemma {:induction false} CountAfterSet(ps: seq<Player>, k: nat, p: Player, s: PlayerStatus)
    requires k < |ps|
    ensures CountStatus(ps[k := p], s) == CountStatus(ps, s) - Ind(ps[k].status == s) + Ind(p.status == s)
  {
    if k == 0 {
      assert ps[k := p][1..] == ps[1..];
    } else {
      assert ps[k := p][1..] == ps[1..][k - 1 := p];
      CountAfterSet(ps[1..], k - 1, p, s);
    }
  }

  /** updatePlayerStatus: every player with the given id gets the new status. */
  function UpdatePlayerStatus(ps: seq<Player>, id: string, s: PlayerStatus): (r: seq<Player>)
    ensures |r| == |ps|
  {
    seq(|ps|, i requires 0 <= i < |ps| => if ps[i].id == id then ps[i].(status := s) else ps[i])
  }

  /** With distinct ids, updating a player's status changes that one entry only, keeps
      every id, and shifts the counts by one entry's worth. */
  lemma UpdateOne(ps: seq<Player>, k: nat, s: PlayerStatus, t: PlayerStatus)
    requires DistinctPlayerIds(ps) && k < |ps|
    ensures UpdatePlayerStatus(ps, ps[k].id, s) == ps[k := ps[k].(status := s)]
    ensures DistinctPlayerIds(UpdatePlayerStatus(ps, ps[k].id, s))
    ensures CountStatus(UpdatePlayerStatus(ps, ps[k].id, s), t)
         == CountStatus(ps, t) - Ind(ps[k].status == t) + Ind(s == t)
  {
    assert UpdatePlayerStatus(ps, ps[k].id, s) == ps[k := ps[k].(status := s)];
    CountAfterSet(ps, k, ps[k].(status := s), t);
  }

  /** The players other than `dyingId` who are still ALIVE, in roster order. */
  function AliveOthers(ps: seq<Player>, dyingId: string): (r: seq<Player>)
    ensures |r| <= |ps|
    ensures forall p :: p in r ==> p in ps && p.status == Alive && p.id != dyingId
  {
    if ps == [] then []
    else (if ps[0].id != dyingId && ps[0].status == Alive then [ps[0]] else []) + AliveOthers(ps[1..], dyingId)
  }

  /** Every ALIVE player other than `dyingId` is among the survivors. */
  lemma {:induction false} AliveOthersComplete(ps: seq<Player>, dyingId: string, p: Player)
    requires p in ps && p.status == Alive && p.id != dyingId
    ensures p in AliveOthers(ps, dyingId)
  {
    if ps[0] != p {
      AliveOthersComplete(ps[1..], dyingId, p);
    }
  }

  lemma {:induction false} AliveOthersAbsent(ps: seq<Player>, id: string)
    requires forall i :: 0 <= i < |ps| ==> ps[i].id != id
    ensures |AliveOthers(ps, id)| == CountStatus(ps, Alive)
  {
    if ps != [] {
      AliveOthersAbsent(ps[1..], id);
    }
  }

  /** With distinct ids, the survivors besides player `k` are all ALIVE players but `k`. */
  lemma {:induction false} AliveOthersCount(ps: seq<Player>, k: nat)
    requires DistinctPlayerIds(ps) && k < |ps|
    ensures |AliveOthers(ps, ps[k].id)| == CountStatus(ps, Alive) - Ind(ps[k].status == Alive)
  {
    if k == 0 {
      AliveOthersAbsent(ps[1..], ps[0].id);
    } else {
      assert ps[1..][k - 1] == ps[k];
      AliveOthersCount(ps[1..], k - 1);
    }
  }

  /** The survivors besides `dyingId` do not depend on the dying player's own status:
      counting them before or after that player is ELIMINATED gives the same players. */
  lemma {:induction false} AliveOthersIgnoresDying(ps: seq<Player>, dyingId: string, s: PlayerStatus)
    ensures AliveOthers(UpdatePlayerStatus(ps, dyingId, s), dyingId) == AliveOthers(ps, dyingId)
  {
    if ps != [] {
      var q := UpdatePlayerStatus(ps, dyingId, s);
      assert q[1..] == UpdatePlayerStatus(ps[1..], dyingId, s);
      AliveOthersIgnoresDying(ps[1..], dyingId, s);
    }
  }

  /** The end of checkWinCondition on the roster, once player `k` is ELIMINATED: when
      exactly one other player is ALIVE, crowning that player leaves one WINNER,
      nobody ALIVE, player `k` as it was and every id distinct; when nobody else is
      ALIVE, nobody is ALIVE at all. */
  lemma LastStanding(ps: seq<Player>, k: nat)
    requires DistinctPlayerIds(ps) && k < |ps| && ps[k].status == Eliminated
    requires CountStatus(ps, Winner) == 0
    ensures |AliveOthers(ps, ps[k].id)| == 0 ==> CountStatus(ps, Alive) == 0
    ensures |AliveOthers(ps, ps[k].id)| == 1 ==>
      var q := UpdatePlayerStatus(ps, AliveOthers(ps, ps[k].id)[0].id, Winner);
      && DistinctPlayerIds(q) && q[k] == ps[k]
      && CountStatus(q, Alive) == 0 && CountStatus(q, Winner) == 1
  {
    var alive := AliveOthers(ps, ps[k].id);
    AliveOthersCount(ps, k);
    if |alive| == 1 {
      var w := alive[0];
      assert w in alive;
      var j :| 0 <= j < |ps| && ps[j] == w;
      UpdateOne(ps, j, Winner, Winner);
      UpdateOne(ps, j, Winner, Alive);
    }
  }

  /** The name a join records: the input trimmed and cut to ten characters, so a
      prefix of the trimmed input of at most ten characters, and not empty and not
      starting with whitespace when the trimmed input is not empty. */
  function PlayerName(raw: string): (r: string)
    ensures |r| <= 10 && r <= Trim(raw)
    ensures Trim(raw) != [] ==> r != [] && !IsWhitespace(r[0])
  {
    TrimEnds(raw);
    Truncate(Trim(raw), 10)
  }

  /** addLocalPlayer on the roster: a name that trims to nothing changes nothing;
      otherwise one ALIVE player is appended, host exactly when the roster was empty,
      whose name is a non-empty prefix of the trimmed input of at most ten characters
      that does not start with whitespace. */
  function Join(ps: seq<Player>, raw: string, avatar: string, id: string): (r: seq<Player>)
    ensures Trim(raw) == [] ==> r == ps
    ensures Trim(raw) != [] ==>
      && |r| == |ps| + 1 && r[..|ps|] == ps
      && r[|ps|].id == id && r[|ps|].status == Alive && r[|ps|].avatar == avatar
      && (r[|ps|].isHost <==> ps == [])
      && 1 <= |r[|ps|].name| <= 10 && |r[|ps|].name| == Min(10, |Trim(raw)|)
      && r[|ps|].name == Trim(raw)[..|r[|ps|].name|]
      && !IsWhitespace(r[|ps|].name[0])
  {
    if Trim(raw) == [] then ps
    else
      TrimEnds(raw);
      ps + [Player(id, PlayerName(raw), Alive, avatar, |ps| == 0)]
  }

  /** A join under a fresh id keeps ids distinct and everybody ALIVE, and adds no id
      but its own. */
  lemma JoinKeeps(ps: seq<Player>, raw: string, avatar: string, id: string, other: string)
    requires DistinctPlayerIds(ps) && !HasId(ps, id)
    ensures DistinctPlayerIds(Join(ps, raw, avatar, id))
    ensures AllAlive(ps) ==> AllAlive(Join(ps, raw, avatar, id))
    ensures other != id && !HasId(ps, other) ==> !HasId(Join(ps, raw, avatar, id), other)
  {
    var r := Join(ps, raw, avatar, id);
    if Trim(raw) != [] {
      forall i | 0 <= i < |ps| ensures r[i] == ps[i] {
        assert r[..|ps|][i] == r[i];
      }
    }
  }

  /** restartGame on the roster: the automatic opponent leaves, everyone else is ALIVE
      again, in the same order. */
  function RestartRoster(ps: seq<Player>): (r: seq<Player>)
    ensures |r| <= |ps|
    ensures AllAlive(r)
    ensures forall i :: 0 <= i < |r| ==> r[i].id != AiBotId
    ensures forall q :: q in r ==> exists p :: p in ps && p.id != AiBotId && q == p.(status := Alive)
  {
    if ps == [] then []
    else (if ps[0].id == AiBotId then [] else [ps[0].(status := Alive)]) + RestartRoster(ps[1..])
  }

  /** Restart works entry by entry: the cleaned roster of `a + b` is the cleaned `a`
      followed by the cleaned `b`, so the humans keep their join (and turn) order. */
  lemma {:induction false} RestartRosterAppend(a: seq<Player>, b: seq<Player>)
    ensures RestartRoster(a + b) == RestartRoster(a) + RestartRoster(b)
  {
    if a == [] {
      assert a + b == b;
    } else {
      var head := if a[0].id == AiBotId then [] else [a[0].(status := Alive)];
      assert (a + b)[0] == a[0] && (a + b)[1..] == a[1..] + b;
      RestartRosterAppend(a[1..], b);
      assert RestartRoster(a + b) == head + (RestartRoster(a[1..]) + RestartRoster(b));
    }
  }

  /** The automatic opponent joined last leaves on restart, and a roster without it
      comes back as it was, in order, with everybody ALIVE. */
  lemma {:induction false} RestartKeepsOrder(ps: seq<Player>)
    ensures RestartRoster(ps + [AiPlayer]) == RestartRoster(ps)
    ensures !HasId(ps, AiBotId) ==>
      RestartRoster(ps) == seq(|ps|, i requires 0 <= i < |ps| => ps[i].(status := Alive))
  {
    RestartRosterAppend(ps, [AiPlayer]);
    assert RestartRoster([AiPlayer]) == [] by {
      assert [AiPlayer][1..] == [];
    }
    if !HasId(ps, AiBotId) && ps != [] {
      assert !HasId(ps[1..], AiBotId) by {
        forall i | 0 <= i < |ps[1..]| ensures ps[1..][i].id != AiBotId {
          assert ps[1..][i] == ps[i + 1];
        }
      }
      RestartKeepsOrder(ps[1..]);
    }
  }

  /** No human is lost on restart. */
  lemma {:induction false} RestartKeepsHumans(ps: seq<Player>, p: Player)
    requires p in ps && p.id != AiBotId
    ensures p.(status := Alive) in RestartRoster(ps)
  {
    if ps[0] != p {
      RestartKeepsHumans(ps[1..], p);
    }
  }

  /** Restarting keeps the ids distinct. */
  lemma {:induction false} RestartDistinct(ps: seq<Player>)
    requires DistinctPlayerIds(ps)
    ensures DistinctPlayerIds(RestartRoster(ps))
  {
    if ps != [] {
      var rest := RestartRoster(ps[1..]);
      RestartDistinct(ps[1..]);
      if ps[0].id != AiBotId {
        var r := RestartRoster(ps);
        assert r == [ps[0].(status := Alive)] + rest;
        forall j | 0 < j < |r| ensures r[0].id != r[j].id {
          assert r[j] in rest;
          var p :| p in ps[1..] && p.id != AiBotId && r[j] == p.(status := Alive);
        }
      }
    }
  }
}
