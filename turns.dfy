/** The turn sequencer (moveToNextPlayer in App.tsx): step forward around the roster,
    skipping players who are not ALIVE, for at most one full lap. */
module Turns {
  import opened GameTypes

  /** The position after `i` around a roster of `n` players: `(i + 1) % n`. */
  function Succ(i: nat, n: nat): (r: nat)
    requires i < n
    ensures r < n
    ensures r == (i + 1) % n
  {
    if i + 1 < n then i + 1 else 0
  }

  /** The position `d` steps after `cur` around a roster of `n` players. */
  function Circ(cur: nat, d: nat, n: nat): (r: nat)
    requires cur < n
    ensures r < n
  {
    if d == 0 then cur else Succ(Circ(cur, d - 1, n), n)
  }

  /** Within one lap, `d` steps after `cur` is `cur + d` wrapped once. */
  lemma {:induction false} CircClosed(cur: nat, d: nat, n: nat)
    requires cur < n && d <= n
    ensures Circ(cur, d, n) == if cur + d < n then cur + d else cur + d - n
  {
    if d > 0 {
      CircClosed(cur, d - 1, n);
    }
  }

  /** One lap from `cur` visits every position. */
  lemma CircCovers(cur: nat, n: nat, i: nat)
    requires cur < n && i < n
    ensures exists k :: 1 <= k <= n && Circ(cur, k, n) == i
  {
    var k := if i > cur then i - cur else n - cur + i;
    CircClosed(cur, k, n);
  }

  /** `next` is the first ALIVE position strictly after `cur` in circular order,
      at most one lap away. */
  predicate FirstAliveAfter(ps: seq<Player>, cur: nat, next: nat)
    requires cur < |ps|
  {
    exists d :: 1 <= d <= |ps| && next == Circ(cur, d, |ps|)
      && ps[next].status == Alive
      && forall k :: 1 <= k < d ==> ps[Circ(cur, k, |ps|)].status != Alive
  }

  /** The next actor after `cur`. When someone is ALIVE it is the first ALIVE player
      strictly after `cur` in circular order (`cur` itself only after a full lap);
      when nobody is, it is the position right after `cur`. */
  method NextAliveIndex(ps: seq<Player>, cur: nat) returns (next: nat)
    requires cur < |ps|
    ensures next < |ps|
    ensures (exists i :: 0 <= i < |ps| && ps[i].status == Alive) ==>
      ps[next].status == Alive && FirstAliveAfter(ps, cur, next)
    ensures (forall i :: 0 <= i < |ps| ==> ps[i].status != Alive) ==> next == Circ(cur, 1, |ps|)
  {
    var n := |ps|;
    next := (cur + 1) % n;
    var loops := 0;
    while ps[next].status != Alive && loops < n
      invariant 0 <= loops <= n
      invariant next == Circ(cur, loops + 1, n)
      invariant forall k :: 1 <= k <= loops ==> ps[Circ(cur, k, n)].status != Alive
    {
      next := (next + 1) % n;
      loops := loops + 1;
    }
    if loops == n {
      // one full lap: position n + 1 is position 1 again
      CircClosed(cur, n, n);
      assert Circ(cur, n + 1, n) == Circ(cur, 1, n);
      if ps[next].status != Alive {
        forall i | 0 <= i < n ensures ps[i].status != Alive {
          CircCovers(cur, n, i);
        }
      } else {
        assert false;
      }
    }
  }
}
