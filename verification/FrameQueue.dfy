// The intrusive circular doubly linked queues.  A queue is its head node and
// the sequence of nodes linked behind it; every operation is tied to the
// operation on that sequence.
module FrameQueue {

  class QNode {
    var next: QNode
    var prev: QNode

    // An empty queue head, or a node linked to nothing else.
    constructor ()
      ensures next == this && prev == this
      ensures IsQueue(this, [])
    {
      next, prev := this, this;
    }
  }

  ghost predicate Distinct(s: seq<QNode>) {
    forall i, j :: 0 <= i < j < |s| ==> s[i] != s[j]
  }

  // Consecutive nodes point at each other.
  ghost predicate Linked(p: seq<QNode>)
    reads p
  {
    forall i :: 0 <= i < |p| - 1 ==> p[i].next == p[i + 1] && p[i + 1].prev == p[i]
  }

  function Ring(h: QNode, s: seq<QNode>): seq<QNode> { [h] + s + [h] }

  ghost predicate IsQueue(h: QNode, s: seq<QNode>)
    reads h, s
  {
    Distinct([h] + s) && Linked(Ring(h, s))
  }

  // --- Paths -----------------------------------------------------------------------

  lemma LinkAt(p: seq<QNode>, i: nat)
    requires Linked(p) && i + 1 < |p|
    ensures p[i].next == p[i + 1] && p[i + 1].prev == p[i]
  {
  }

  ghost predicate Joined(p: seq<QNode>, r: seq<QNode>)
    reads p, r
    requires p != [] && r != []
  {
    p[|p| - 1].next == r[0] && r[0].prev == p[|p| - 1]
  }

  lemma Join(p: seq<QNode>, r: seq<QNode>)
    requires p != [] && r != []
    ensures Linked(p + r) <==> Linked(p) && Linked(r) && Joined(p, r)
  {
    var t := p + r;
    if Linked(t) {
      forall i | 0 <= i < |p| - 1 ensures p[i].next == p[i + 1] && p[i + 1].prev == p[i] {
        assert t[i].next == t[i + 1] && t[i + 1].prev == t[i];
      }
      forall i | 0 <= i < |r| - 1 ensures r[i].next == r[i + 1] && r[i + 1].prev == r[i] {
        assert t[|p| + i].next == t[|p| + i + 1] && t[|p| + i + 1].prev == t[|p| + i];
      }
      assert t[|p| - 1].next == t[|p|] && t[|p|].prev == t[|p| - 1];
    }
  }

  // The ring around a queue with a distinguished stretch: what precedes it with
  // the head in front, the stretch, and what follows it with the head behind.
  lemma RingCut(h: QNode, a: seq<QNode>, m: seq<QNode>, b: seq<QNode>)
    requires m != []
    ensures Linked(Ring(h, a + m + b)) <==>
      Linked([h] + a) && Linked(m) && Linked(b + [h]) && Joined([h] + a, m) && Joined(m, b + [h])
  {
    assert Ring(h, a + m + b) == ([h] + a) + (m + (b + [h]));
    Join([h] + a, m + (b + [h]));
    Join(m, b + [h]);
  }

  lemma RingAround(h: QNode, a: seq<QNode>, b: seq<QNode>)
    ensures Linked(Ring(h, a + b)) <==> Linked([h] + a) && Linked(b + [h]) && Joined([h] + a, b + [h])
  {
    assert Ring(h, a + b) == ([h] + a) + (b + [h]);
    Join([h] + a, b + [h]);
  }

  // --- The operations -----------------------------------------------------------

  method IsEmpty(q: QNode, ghost s: seq<QNode>) returns (empty: bool)
    requires IsQueue(q, s)
    ensures empty <==> s == []
  {
    empty := q.next == q;
    assert Ring(q, s)[0].next == Ring(q, s)[1];
    assert s != [] ==> ([q] + s)[0] != ([q] + s)[1];
  }

  method Insert(q: QNode, f: QNode, ghost s: seq<QNode>)
    requires IsQueue(q, s) && f != q && f !in s
    modifies q, f, q.prev
    ensures IsQueue(q, s + [f])
  {
    RingAround(q, s, []);
    assert s + [] == s;
    f.next := q;
    f.prev := q.prev;
    f.prev.next := f;
    q.prev := f;
    assert s + [f] + [] == s + [f];
    assert Linked([q] + s);
    RingCut(q, s, [f], []);
    assert [q] + (s + [f]) == [q] + s + [f];
  }

  method InsertHead(q: QNode, f: QNode, ghost s: seq<QNode>)
    requires IsQueue(q, s) && f != q && f !in s
    modifies q, f, q.next
    ensures IsQueue(q, [f] + s)
  {
    RingAround(q, [], s);
    Rotate(q, s);
    assert [] + s == s;
    f.next := q.next;
    f.prev := q;
    f.next.prev := f;
    q.next := f;
    assert [] + [f] + s == [f] + s;
    assert Linked(s + [q]);
    RingCut(q, [], [f], s);
    DistinctHead(q, f, s);
  }

  lemma DistinctHead(q: QNode, f: QNode, s: seq<QNode>)
    requires Distinct([q] + s) && f != q && f !in s
    ensures Distinct([q] + ([f] + s))
  {
    var t, u := [q] + ([f] + s), [q] + s;
    forall i, j | 0 <= i < j < |t| ensures t[i] != t[j] {
      assert t[0] == u[0] && t[1] == f;
      assert j >= 2 ==> t[j] == u[j - 1] && t[j] in s;
      assert i >= 2 ==> t[i] == u[i - 1];
    }
  }

  lemma Rotate(q: QNode, s: seq<QNode>)
    requires Distinct([q] + s)
    ensures Distinct(s + [q])
  {
    var t, u := s + [q], [q] + s;
    forall i, j | 0 <= i < j < |t| ensures t[i] != t[j] {
      assert t[i] == u[i + 1];
      assert t[j] == u[if j == |s| then 0 else j + 1];
    }
  }

  // Closes the gap a stretch leaves in its queue.
  lemma DistinctGap(h: QNode, a: seq<QNode>, m: seq<QNode>, b: seq<QNode>)
    requires Distinct([h] + (a + m + b))
    ensures Distinct([h] + (a + b)) && Distinct([h] + m)
    ensures forall x :: x in m ==> x !in a && x !in b && x != h
  {
    var u := [h] + (a + m + b);
    var k := 1 + |a|;
    forall i, j | 0 <= i < j < 1 + |a + b| ensures ([h] + (a + b))[i] != ([h] + (a + b))[j] {
      assert ([h] + (a + b))[i] == u[if i < k then i else i + |m|];
      assert ([h] + (a + b))[j] == u[if j < k then j else j + |m|];
    }
    forall i, j | 0 <= i < j < 1 + |m| ensures ([h] + m)[i] != ([h] + m)[j] {
      assert ([h] + m)[i] == u[if i == 0 then 0 else i - 1 + k];
      assert ([h] + m)[j] == u[j - 1 + k];
    }
    forall x | x in m ensures x !in a && x !in b && x != h {
      var i :| 0 <= i < |m| && m[i] == x;
      assert u[i + k] == x;
      forall j | 0 <= j < |a| ensures a[j] != x {
        assert u[j + 1] == a[j];
      }
      forall j | 0 <= j < |b| ensures b[j] != x {
        assert u[j + k + |m|] == b[j];
      }
      assert u[0] == h;
    }
  }

  // Unlinks a stretch from its queue; inside it nothing changes.
  method Cut(from: QNode, to: QNode, ghost q: QNode, ghost a: seq<QNode>, ghost m: seq<QNode>, ghost b: seq<QNode>)
    requires IsQueue(q, a + m + b) && m != [] && from == m[0] && to == m[|m| - 1]
    modifies from.prev`next, to.next`prev
    ensures IsQueue(q, a + b) && Linked(m)
  {
    hide Distinct;
    RingCut(q, a, m, b);
    DistinctGap(q, a, m, b);
    EndsApart(q, a, b);
    var before, after := from.prev, to.next;
    before.next := after;
    after.prev := before;
    InMiddle(q, a, m, b);
    assert Linked([q] + a);
    assert Linked(b + [q]);
    assert Linked(m);
    RingAround(q, a, b);
  }

  // x is nowhere in p but, perhaps, at its end; y nowhere but at its start.
  ghost predicate NotBefore(p: seq<QNode>, x: QNode) { forall i :: 0 <= i < |p| - 1 ==> p[i] != x }

  ghost predicate NotAfter(p: seq<QNode>, y: QNode) { forall i :: 0 < i < |p| ==> p[i] != y }

  // The ends of the two rests of a cut queue are nowhere else in them.
  lemma EndsApart(q: QNode, a: seq<QNode>, b: seq<QNode>)
    requires Distinct([q] + (a + b))
    ensures
      var p, r := [q] + a, b + [q];
      NotBefore(p, p[|a|]) && NotAfter(p, r[0]) && NotBefore(r, p[|a|]) && NotAfter(r, r[0])
  {
    DistinctParts(q, a, b);
    assert ([q] + a)[0] == q;
    assert (b + [q])[0] == if b == [] then q else b[0];
  }

  lemma InMiddle(q: QNode, a: seq<QNode>, m: seq<QNode>, b: seq<QNode>)
    requires forall x :: x in m ==> x !in a && x !in b && x != q
    ensures forall i :: 0 <= i < |m| ==> m[i] != ([q] + a)[|a|] && m[i] != (b + [q])[0]
  {
    forall i | 0 <= i < |m| ensures m[i] != ([q] + a)[|a|] && m[i] != (b + [q])[0] {
      assert m[i] in m;
    }
  }

  // Unlinks one node, wherever it is; its own pointers stay.
  method Delete(f: QNode, ghost q: QNode, ghost a: seq<QNode>, ghost b: seq<QNode>)
    requires IsQueue(q, a + [f] + b)
    modifies f.prev`next, f.next`prev
    ensures IsQueue(q, a + b)
    ensures f.next == old(f.next) && f.prev == old(f.prev)
  {
    RingCut(q, a, [f], b);
    DistinctGap(q, a, [f], b);
    assert f in [f];
    Cut(f, f, q, a, [f], b);
  }

  lemma DistinctParts(q: QNode, a: seq<QNode>, b: seq<QNode>)
    requires Distinct([q] + (a + b))
    ensures Distinct([q] + a) && Distinct(b + [q])
    ensures forall i, j :: 0 <= i < |[q] + a| && 0 <= j < |b| ==> ([q] + a)[i] != b[j]
  {
    var u := [q] + (a + b);
    assert forall i :: 0 <= i < |[q] + a| ==> ([q] + a)[i] == u[i];
    assert forall j :: 0 <= j < |b| ==> b[j] == u[j + 1 + |a|];
    DistinctRest(q, a, b);
  }

  lemma DistinctRest(q: QNode, a: seq<QNode>, b: seq<QNode>)
    requires Distinct([q] + (a + b))
    ensures Distinct(b + [q])
  {
    var u, v := [q] + (a + b), [q] + b;
    forall i, j | 0 <= i < j < |v| ensures v[i] != v[j] {
      assert v[i] == u[if i == 0 then 0 else i + |a|];
      assert v[j] == u[j + |a|];
    }
    Rotate(q, b);
  }

  // The oldest node; with a look at the one behind it.
  method RemoveLookAhead(q: QNode, ghost s: seq<QNode>) returns (r: QNode, ahead: QNode?)
    requires IsQueue(q, s) && s != []
    modifies q, q.next.next
    ensures r == s[0] && IsQueue(q, s[1..])
    ensures ahead == if |s| > 1 then s[1] else null
  {
    r := Remove(q, s);
    var empty := IsEmpty(q, s[1..]);
    if empty {
      ahead := null;
    } else {
      assert Ring(q, s[1..])[0].next == Ring(q, s[1..])[1];
      ahead := q.next;
    }
  }

  method Remove(q: QNode, ghost s: seq<QNode>) returns (r: QNode)
    requires IsQueue(q, s) && s != []
    modifies q, q.next.next
    ensures r == s[0] && IsQueue(q, s[1..])
  {
    ghost var b := s[1..];
    assert s == [] + [s[0]] + b && [] + b == b;
    RingCut(q, [], [s[0]], b);
    DistinctGap(q, [], [s[0]], b);
    EndsApart(q, [], b);
    r := q.next;
    q.next := r.next;
    q.next.prev := q;
    assert Linked([q] + []);
    assert Linked(b + [q]);
    RingAround(q, [], b);
  }

  // The newest node.
  method LifoRemove(q: QNode, ghost s: seq<QNode>) returns (r: QNode)
    requires IsQueue(q, s) && s != []
    modifies q, q.prev.prev
    ensures r == s[|s| - 1] && IsQueue(q, s[..|s| - 1])
  {
    ghost var a := s[..|s| - 1];
    assert s == a + [s[|s| - 1]] + [] && a + [] == a;
    RingCut(q, a, [s[|s| - 1]], []);
    DistinctGap(q, a, [s[|s| - 1]], []);
    EndsApart(q, a, []);
    r := q.prev;
    q.prev := r.prev;
    q.prev.next := q;
    assert Linked([q] + a);
    assert Linked([] + [q]);
    RingAround(q, a, []);
  }

  ghost predicate Disjoint(s: seq<QNode>, t: seq<QNode>) {
    forall x :: x in s ==> x !in t
  }

  // Links an unattached stretch in front of a queue.
  method SpliceHead(dest: QNode, from: QNode, to: QNode, ghost d: seq<QNode>, ghost m: seq<QNode>)
    requires IsQueue(dest, d) && Linked(m) && m != [] && from == m[0] && to == m[|m| - 1]
    requires Distinct([dest] + (m + d))
    modifies to`next, dest.next`prev, dest`next, from`prev
    ensures IsQueue(dest, m + d)
  {
    hide Distinct;
    RingAround(dest, [], d);
    assert [] + d == d && [] + m + d == m + d;
    StretchApart(dest, m, d);
    to.next := dest.next;
    dest.next.prev := to;
    dest.next := from;
    from.prev := dest;
    assert Linked(m);
    assert Linked(d + [dest]);
    assert Linked([dest] + []);
    RingCut(dest, [], m, d);
  }

  // None of the links inside the stretch or inside the queue is rewritten.
  lemma StretchApart(dest: QNode, m: seq<QNode>, d: seq<QNode>)
    requires m != [] && Distinct([dest] + (m + d))
    ensures
      var r := d + [dest];
      && NotBefore(m, m[|m| - 1]) && NotBefore(m, dest) && NotAfter(m, m[0]) && NotAfter(m, r[0])
      && NotBefore(r, m[|m| - 1]) && NotBefore(r, dest) && NotAfter(r, m[0]) && NotAfter(r, r[0])
      && m[0] != r[0] && m[|m| - 1] != dest && m[0] != dest
  {
    var u := [dest] + (m + d);
    var r := d + [dest];
    assert forall i :: 0 <= i < |m| ==> m[i] == u[i + 1];
    assert forall i :: 0 <= i < |d| ==> r[i] == u[i + 1 + |m|];
    assert r[|d|] == u[0];
  }

  // Moves a stretch of one queue, in its order, in front of another queue: this
  // is what a rewind does with everything awaiting acknowledgment.
  method Move(dest: QNode, from: QNode, to: QNode,
              ghost d: seq<QNode>, ghost q: QNode, ghost a: seq<QNode>, ghost m: seq<QNode>, ghost b: seq<QNode>)
    requires IsQueue(q, a + m + b) && m != [] && from == m[0] && to == m[|m| - 1]
    requires IsQueue(dest, d) && Disjoint([q] + (a + m + b), [dest] + d)
    modifies from, to, from.prev, to.next, dest, dest.next
    ensures IsQueue(q, a + b) && IsQueue(dest, m + d)
  {
    hide Distinct;
    RingCut(q, a, m, b);
    RingAround(dest, [], d);
    assert [] + d == d;
    DistinctGap(q, a, m, b);
    Apart(q, a, m, b, dest, d);
    assert from.prev in [q] + a && to.next in b + [q] && dest in [dest] + d;
    assert dest.next in d + [dest] && dest.next in [dest] + d;
    assert from in m && to in m;
    Cut(from, to, q, a, m, b);
    assert IsQueue(dest, d);
    SpliceHead(dest, from, to, d, m);
  }

  lemma Apart(q: QNode, a: seq<QNode>, m: seq<QNode>, b: seq<QNode>, dest: QNode, d: seq<QNode>)
    requires Disjoint([q] + (a + m + b), [dest] + d) && Distinct([q] + m) && Distinct([dest] + d)
    requires forall x :: x in m ==> x !in a && x !in b && x != q
    ensures Disjoint([q] + a, [dest] + d) && Disjoint(b + [q], [dest] + d) && Disjoint(m, [dest] + d)
    ensures Disjoint(m, [q] + a) && Disjoint(m, b + [q])
    ensures Disjoint([q] + (a + b), [dest] + d) && Disjoint([q] + (a + b), m)
    ensures Distinct([dest] + (m + d))
  {
    var all := [q] + (a + m + b);
    assert forall x :: x in [q] + a || x in b + [q] || x in [q] + (a + b) || x in m ==> x in all;
    var t, u, v := [dest] + (m + d), [dest] + d, [q] + m;
    forall i, j | 0 <= i < j < |t| ensures t[i] != t[j] {
      assert 1 <= i <= |m| ==> t[i] in m && t[i] == v[i];
      assert 1 <= j <= |m| ==> t[j] in m && t[j] == v[j];
      assert t[0] == u[0];
      assert i > |m| ==> t[i] == u[i - |m|];
      assert j > |m| ==> t[j] == u[j - |m|] && t[j] in u;
    }
  }

  // Within one queue: the node goes to the tail.
  method MoveTail(q: QNode, f: QNode, ghost a: seq<QNode>, ghost b: seq<QNode>)
    requires IsQueue(q, a + [f] + b)
    modifies q, f, f.prev, f.next, q.prev
    ensures IsQueue(q, a + b + [f])
  {
    DistinctGap(q, a, [f], b);
    RingCut(q, a, [f], b);
    assert f in [f];
    if b != [] {
      LinkAt(b + [q], |b| - 1);
    }
    Delete(f, q, a, b);
    assert b != [] ==> ([q] + (a + b))[|a + b|] == b[|b| - 1];
    RingAround(q, a + b, []);
    assert a + b + [] == a + b && [] + [q] == [q];
    assert b == [] ==> [q] + (a + b) == [q] + a;
    Insert(q, f, a + b);
  }

  // Between two queues.
  method MoveTailAcross(dest: QNode, f: QNode, ghost d: seq<QNode>,
                        ghost q: QNode, ghost a: seq<QNode>, ghost b: seq<QNode>)
    requires IsQueue(q, a + [f] + b) && IsQueue(dest, d) && Disjoint([q] + (a + [f] + b), [dest] + d)
    modifies f, f.prev, f.next, dest, dest.prev
    ensures IsQueue(q, a + b) && IsQueue(dest, d + [f])
  {
    DistinctGap(q, a, [f], b);
    RingCut(q, a, [f], b);
    RingAround(dest, d, []);
    Apart(q, a, [f], b, dest, d);
    assert d + [] == d && f in [f];
    assert f.prev in [q] + a && f.next in b + [q] && dest in [dest] + d && dest.prev in [dest] + d;
    Delete(f, q, a, b);
    assert IsQueue(dest, d);
    Insert(dest, f, d);
  }
}
