// The peer round robin of a station with several peers.
module RoundRobin {
  import opened Wrappers

  datatype PeerState = PeerState(connected: bool, pendingCommand: bool)

  predicate Eligible(p: PeerState, pendingOnly: bool) {
    if pendingOnly then !p.connected && p.pendingCommand else p.connected || p.pendingCommand
  }

  // The list positions in the order in which they are looked at from `cur`,
  // which itself comes last.
  function Order(n: nat, cur: nat): (r: seq<nat>)
    requires cur < n
    ensures |r| == n && forall i :: 0 <= i < n ==> r[i] == Wrap(n, cur + 1 + i)
  {
    seq<nat>(n, i requires 0 <= i < n => Wrap(n, cur + 1 + i))
  }

  // A position counted on past the end of the list.
  function Wrap(n: nat, p: nat): (r: nat)
    requires p < 2 * n
    ensures r < n
  {
    if p < n then p else p - n
  }

  function Filter(ps: seq<PeerState>, pendingOnly: bool, order: seq<nat>): (r: seq<nat>)
    requires forall i :: 0 <= i < |order| ==> order[i] < |ps|
    ensures forall i :: 0 <= i < |r| ==> r[i] < |ps|
  {
    if order == [] then []
    else (if Eligible(ps[order[0]], pendingOnly) then [order[0]] else []) + Filter(ps, pendingOnly, order[1..])
  }

  // The eligible positions, in order from `cur`.
  function EligibleFrom(ps: seq<PeerState>, pendingOnly: bool, cur: nat): seq<nat>
    requires cur < |ps|
  {
    Filter(ps, pendingOnly, Order(|ps|, cur))
  }

  // The next peer served: the first eligible one, or again the current one.
  function Next(ps: seq<PeerState>, pendingOnly: bool, cur: nat): (r: nat)
    requires cur < |ps|
    ensures r < |ps|
  {
    var es := EligibleFrom(ps, pendingOnly, cur);
    if es == [] then cur else es[0]
  }

  class PeerList {
    var peers: seq<PeerState>
    var current: nat

    ghost predicate Valid()
      reads this
    {
      peers != [] ==> current < |peers|
    }

    // None is the empty list.
    method NextPeer(pendingOnly: bool) returns (r: Option<nat>)
      requires Valid()
      modifies this`current
      ensures Valid() && (r.None? <==> peers == [])
      ensures peers == [] ==> current == old(current)
      ensures peers != [] ==> current == Next(peers, pendingOnly, old(current)) && r == Some(current)
    {
      hide Eligible;
      hide Filter;
      hide Wrap;
      NothingToFilter(peers, pendingOnly);
      if peers == [] {
        return None;
      }
      var start := current;
      ghost var order := Order(|peers|, start);
      ghost var i := 0;
      while true
        invariant i < |peers| && current < |peers|
        invariant current == if i == 0 then start else order[i - 1]
        invariant Filter(peers, pendingOnly, order[..i]) == []
        decreases |peers| - i
      {
        current := current + 1;
        if current == |peers| {
          current := 0;
        }
        Successor(|peers|, start, i);
        FilterAppend(peers, pendingOnly, order, i);
        ComesLast(|peers|, start, i);
        i := i + 1;
        if Eligible(peers[current], pendingOnly) {
          FilterSplit(peers, pendingOnly, order, i);
          return Some(current);
        }
        if current == start {
          assert order[..i] == order;
          return Some(current);
        }
      }
    }
  }

  lemma NothingToFilter(ps: seq<PeerState>, pendingOnly: bool)
    ensures Filter(ps, pendingOnly, []) == []
  {
  }

  // The next position in the list, wrapping at its end.
  lemma Successor(n: nat, start: nat, i: nat)
    requires start < n && i < n
    ensures
      var before := if i == 0 then start else Order(n, start)[i - 1];
      Order(n, start)[i] == if before + 1 == n then 0 else before + 1
  {
  }

  lemma ComesLast(n: nat, start: nat, i: nat)
    requires start < n && i < n
    ensures Order(n, start)[i] == start <==> i == n - 1
  {
  }

  lemma {:induction false} FilterConcat(ps: seq<PeerState>, pendingOnly: bool, s: seq<nat>, t: seq<nat>)
    requires forall i :: 0 <= i < |s| ==> s[i] < |ps|
    requires forall i :: 0 <= i < |t| ==> t[i] < |ps|
    ensures Filter(ps, pendingOnly, s + t) == Filter(ps, pendingOnly, s) + Filter(ps, pendingOnly, t)
    decreases |s|
  {
    hide Eligible;
    if s == [] {
      assert s + t == t;
    } else {
      assert (s + t)[1..] == s[1..] + t;
      FilterConcat(ps, pendingOnly, s[1..], t);
    }
  }

  lemma FilterOne(ps: seq<PeerState>, pendingOnly: bool, x: nat)
    requires x < |ps|
    ensures Filter(ps, pendingOnly, [x]) == if Eligible(ps[x], pendingOnly) then [x] else []
  {
    assert [x][1..] == [];
  }

  lemma FilterAppend(ps: seq<PeerState>, pendingOnly: bool, order: seq<nat>, i: nat)
    requires i < |order| && forall k :: 0 <= k < |order| ==> order[k] < |ps|
    ensures Filter(ps, pendingOnly, order[..i + 1])
      == Filter(ps, pendingOnly, order[..i]) + (if Eligible(ps[order[i]], pendingOnly) then [order[i]] else [])
  {
    assert order[..i + 1] == order[..i] + [order[i]];
    FilterConcat(ps, pendingOnly, order[..i], [order[i]]);
    FilterOne(ps, pendingOnly, order[i]);
  }

  lemma FilterSplit(ps: seq<PeerState>, pendingOnly: bool, order: seq<nat>, i: nat)
    requires i <= |order| && forall k :: 0 <= k < |order| ==> order[k] < |ps|
    ensures Filter(ps, pendingOnly, order) == Filter(ps, pendingOnly, order[..i]) + Filter(ps, pendingOnly, order[i..])
  {
    assert order == order[..i] + order[i..];
    FilterConcat(ps, pendingOnly, order[..i], order[i..]);
  }

  // --- Fairness -------------------------------------------------------------------

  // Where in the order from `cur` the next served peer is.
  lemma {:induction false} FirstInFilter(ps: seq<PeerState>, pendingOnly: bool, order: seq<nat>) returns (j: nat)
    requires forall k :: 0 <= k < |order| ==> order[k] < |ps|
    requires Filter(ps, pendingOnly, order) != []
    ensures j < |order| && order[j] == Filter(ps, pendingOnly, order)[0]
    ensures Eligible(ps[order[j]], pendingOnly) && Filter(ps, pendingOnly, order[..j]) == []
    decreases |order|
  {
    hide Eligible;
    if Eligible(ps[order[0]], pendingOnly) {
      j := 0;
    } else {
      j := FirstInFilter(ps, pendingOnly, order[1..]);
      FilterCons(ps, pendingOnly, order, j);
      j := j + 1;
    }
  }

  lemma FilterCons(ps: seq<PeerState>, pendingOnly: bool, order: seq<nat>, j: nat)
    requires order != [] && j < |order[1..]| && forall k :: 0 <= k < |order| ==> order[k] < |ps|
    requires !Eligible(ps[order[0]], pendingOnly)
    ensures Filter(ps, pendingOnly, order[..j + 1]) == Filter(ps, pendingOnly, order[1..][..j])
  {
    assert order[..j + 1][1..] == order[1..][..j];
  }

  // Seen from the served peer, the order starts behind it and ends with it.
  lemma OrderRotates(n: nat, cur: nat, j: nat)
    requires cur < n && j < n
    ensures
      var order := Order(n, cur);
      Order(n, order[j]) == order[j + 1..] + order[..j] + [order[j]]
  {
    var order := Order(n, cur);
    var c := order[j];
    var rotated := order[j + 1..] + order[..j] + [order[j]];
    forall i | 0 <= i < n ensures Order(n, c)[i] == rotated[i] {
      if j + 1 + i < n {
        assert rotated[i] == order[j + 1 + i];
      } else if i < n - 1 {
        assert rotated[i] == order[j + 1 + i - n];
      }
    }
  }

  // Serving a peer moves it from the front of the eligible ones to their end.
  lemma ServedGoesLast(ps: seq<PeerState>, pendingOnly: bool, cur: nat)
    requires cur < |ps| && EligibleFrom(ps, pendingOnly, cur) != []
    ensures
      var es := EligibleFrom(ps, pendingOnly, cur);
      es[0] < |ps| && EligibleFrom(ps, pendingOnly, es[0]) == es[1..] + [es[0]]
  {
    hide Eligible;
    hide Filter;
    var n := |ps|;
    var order := Order(n, cur);
    var j := FirstInFilter(ps, pendingOnly, order);
    var before, behind := order[..j], order[j + 1..];
    FilterSplit(ps, pendingOnly, order, j + 1);
    FilterAppend(ps, pendingOnly, order, j);
    OrderRotates(n, cur, j);
    FilterConcat(ps, pendingOnly, behind + before, [order[j]]);
    FilterConcat(ps, pendingOnly, behind, before);
    FilterOne(ps, pendingOnly, order[j]);
  }

  // The peers served by `calls` calls in a row while nothing changes.
  function Served(ps: seq<PeerState>, pendingOnly: bool, cur: nat, calls: nat): seq<nat>
    requires cur < |ps|
    decreases calls
  {
    if calls == 0 then []
    else
      var c := Next(ps, pendingOnly, cur);
      [c] + Served(ps, pendingOnly, c, calls - 1)
  }

  lemma {:induction false} ServedFollowsOrder(ps: seq<PeerState>, pendingOnly: bool, cur: nat, calls: nat)
    requires cur < |ps| && calls <= |EligibleFrom(ps, pendingOnly, cur)|
    ensures Served(ps, pendingOnly, cur, calls) == EligibleFrom(ps, pendingOnly, cur)[..calls]
    decreases calls
  {
    hide EligibleFrom;
    if calls > 0 {
      var es := EligibleFrom(ps, pendingOnly, cur);
      ServedGoesLast(ps, pendingOnly, cur);
      ServedFollowsOrder(ps, pendingOnly, es[0], calls - 1);
      assert (es[1..] + [es[0]])[..calls - 1] == es[1..calls];
    }
  }

  // With k eligible peers, k calls serve each of them exactly once, and nobody
  // else.
  lemma EachServedOnce(ps: seq<PeerState>, pendingOnly: bool, cur: nat, p: nat)
    requires cur < |ps|
    ensures
      var k := |EligibleFrom(ps, pendingOnly, cur)|;
      multiset(Served(ps, pendingOnly, cur, k))[p] ==
        if p < |ps| && (ps[p].pendingCommand || ps[p].connected) && (pendingOnly ==> !ps[p].connected) then 1 else 0
  {
    hide Filter;
    var es := EligibleFrom(ps, pendingOnly, cur);
    ServedFollowsOrder(ps, pendingOnly, cur, |es|);
    assert es[..|es|] == es;
    FilterCounts(ps, pendingOnly, Order(|ps|, cur), p);
    OrderCounts(|ps|, cur, p);
  }

  lemma {:induction false} FilterCounts(ps: seq<PeerState>, pendingOnly: bool, order: seq<nat>, p: nat)
    requires forall i :: 0 <= i < |order| ==> order[i] < |ps|
    ensures multiset(Filter(ps, pendingOnly, order))[p]
      == if p < |ps| && Eligible(ps[p], pendingOnly) then multiset(order)[p] else 0
    decreases |order|
  {
    hide Eligible;
    if order != [] {
      FilterCounts(ps, pendingOnly, order[1..], p);
      assert order == [order[0]] + order[1..];
      assert multiset(order) == multiset{order[0]} + multiset(order[1..]);
    }
  }

  // Each position comes once.
  lemma OrderCounts(n: nat, cur: nat, p: nat)
    requires cur < n
    ensures multiset(Order(n, cur))[p] == if p < n then 1 else 0
  {
    var order := Order(n, cur);
    if p < n {
      var i := if p > cur then p - cur - 1 else p + n - cur - 1;
      forall k | 0 <= k < n && k != i ensures order[k] != p {
      }
      assert order[i] == p;
      CountsOnce(order, i);
    } else {
      assert p !in order;
    }
  }

  lemma CountsOnce(s: seq<nat>, i: nat)
    requires i < |s| && forall k :: 0 <= k < |s| && k != i ==> s[k] != s[i]
    ensures multiset(s)[s[i]] == 1
  {
    assert s == s[..i] + [s[i]] + s[i + 1..];
    assert s[i] !in s[..i] && s[i] !in s[i + 1..];
    assert multiset(s) == multiset(s[..i]) + multiset{s[i]} + multiset(s[i + 1..]);
  }
}
