/**
 * Merging a node into the sibling before it: the children of `from` are
 * appended, in order, to `to`, and `from` leaves the tree.
 */
module Merge {
  import opened Dom
  import opened Document

  /** Appending the first child of `from` to `to`: it moves from the front of one list to the end of the other. */
  lemma AppendFirst(s: Store, from: NodeId, to: NodeId)
    requires from in s.kids && to in s.kids && from != to && s.kids[from] != [] && Distinct(s.kids[from])
    requires s.kids[from][0] in s.parent && s.parent[s.kids[from][0]] == from
    requires s.kids[from][0] !in s.kids[to]
    ensures to in Detach(s, s.kids[from][0]).kids
    ensures var x := s.kids[from][0];
      var r := Move(s, to, x, |Detach(s, x).kids[to]|);
      && r.kids == s.kids[to := s.kids[to] + [x]][from := s.kids[from][1..]]
      && r.parent == s.parent[x := to]
  {
    var x, rest := s.kids[from][0], s.kids[from][1..];
    DetachFirst(s, from);
    var d := Detach(s, x);
    var r := Attach(d, to, x, |d.kids[to]|);
    assert InsertAt(d.kids[to], |d.kids[to]|, x) == s.kids[to] + [x] by {
      assert d.kids[to] == s.kids[to];
      assert d.kids[to][..|d.kids[to]|] == d.kids[to] && d.kids[to][|d.kids[to]|..] == [];
    }
    assert r.kids == s.kids[from := rest][to := s.kids[to] + [x]];
    assert r.parent == (s.parent - {x})[x := to];
  }

  /** Taking out the first child of `from` leaves the rest of its list, and nothing else moves. */
  lemma DetachFirst(s: Store, from: NodeId)
    requires from in s.kids && s.kids[from] != [] && Distinct(s.kids[from])
    requires s.kids[from][0] in s.parent && s.parent[s.kids[from][0]] == from
    ensures Detach(s, s.kids[from][0]).kids == s.kids[from := s.kids[from][1..]]
  {
    var x, rest := s.kids[from][0], s.kids[from][1..];
    assert s.kids[from] == [] + ([x] + rest);
    assert x !in rest;
    WithoutOnce([], x, rest);
    assert [] + rest == rest;
  }

  /** The child lists after one more child has moved from `from` to `to`. */
  lemma KidsStep(m: map<NodeId, seq<NodeId>>, from: NodeId, to: NodeId, base: seq<NodeId>, xs: seq<NodeId>, i: nat)
    requires from != to && i < |xs|
    ensures var k := m[to := base + xs[..i]][from := xs[i..]];
      k[to := k[to] + [xs[i]]][from := k[from][1..]] == m[to := base + xs[..i + 1]][from := xs[i + 1..]]
  {
    assert (base + xs[..i]) + [xs[i]] == base + xs[..i + 1] by {
      assert xs[..i + 1] == xs[..i] + [xs[i]];
    }
    assert xs[i..][1..] == xs[i + 1..];
  }

  /** The first `i` children of the snapshot `xs` of `from` have moved to the end of `to`. */
  ghost predicate Moved(s0: Store, t: Store, from: NodeId, to: NodeId, xs: seq<NodeId>, i: nat)
    requires i <= |xs| && to in s0.kids
  {
    && t.kids == s0.kids[to := s0.kids[to] + xs[..i]][from := xs[i..]]
    && t.parent == Adopted(s0.parent, xs[..i], to)
    && t.info == s0.info
  }

  /**
   * What the loop of `MergeNodes` needs to know of the store `s0` it starts
   * from: `xs` is the child list of `from`, and each of its nodes hangs
   * below `from`, is not a child of `to` and ranks below `to`.
   */
  ghost predicate Snapshot(s0: Store, from: NodeId, to: NodeId, xs: seq<NodeId>) {
    // Comparing the conjunction with `true` changes nothing in its meaning: it keeps
    // the body one fact where the predicate is assumed, so the verifier does not split
    // it into separate conjuncts in every caller (the other `== true` bodies are the same).
    (from in s0.kids && to in s0.kids && from != to && xs == s0.kids[from] && Distinct(xs)
    && s0.info.rank.Keys == s0.kids.Keys
    && forall j :: 0 <= j < |xs| ==>
         && xs[j] in s0.kids && xs[j] in s0.parent && s0.parent[xs[j]] == from
         && s0.info.rank[xs[j]] < s0.info.rank[to] && xs[j] !in s0.kids[to]) == true
  }

  lemma SnapshotHolds(s0: Store, from: NodeId, to: NodeId)
    requires WF(s0) && from in s0.kids && to in s0.kids && from != to
    requires s0.info.rank[from] <= s0.info.rank[to]
    ensures Snapshot(s0, from, to, s0.kids[from])
  {
    var xs := s0.kids[from];
    forall j | 0 <= j < |xs|
      ensures xs[j] in s0.kids && xs[j] in s0.parent && s0.parent[xs[j]] == from
      ensures s0.info.rank[xs[j]] < s0.info.rank[to] && xs[j] !in s0.kids[to]
    {
      ChildFacts(s0, from, xs[j]);
      if xs[j] in s0.kids[to] {
        ChildFacts(s0, to, xs[j]);
      }
    }
  }

  /** The next child of the snapshot can be appended to `to`. */
  lemma MovedNext(s0: Store, t: Store, from: NodeId, to: NodeId, xs: seq<NodeId>, i: nat)
    requires Snapshot(s0, from, to, xs) && i < |xs| && Moved(s0, t, from, to, xs, i)
    ensures to in t.kids && xs[i] in t.kids && t.info.rank[xs[i]] < t.info.rank[to]
  {
  }

  /** One turn of the loop of `MergeNodes`: child number `n - 1` of the snapshot moves to `to`. */
  lemma MergeStep(s0: Store, t: Store, r: Store, from: NodeId, to: NodeId, xs: seq<NodeId>, n: nat)
    requires Snapshot(s0, from, to, xs) && 0 < n <= |xs| && Moved(s0, t, from, to, xs, n - 1)
    requires to in Detach(t, xs[n - 1]).kids && r == Move(t, to, xs[n - 1], |Detach(t, xs[n - 1]).kids[to]|)
    ensures Moved(s0, r, from, to, xs, n)
  {
    var i := n - 1;
    var x := xs[i];
    assert t.kids[from] == xs[i..] && t.kids[from][0] == x;
    assert Distinct(xs[i..]);
    assert x !in xs[..i];
    assert t.parent[x] == from;
    assert x !in t.kids[to];
    AppendFirst(t, from, to);
    KidsStep(s0.kids, from, to, s0.kids[to], xs, i);
    AdoptedStep(s0.parent, xs, i, to);
  }

  /** Two siblings and their parent are three different nodes; the siblings rank below the parent. */
  lemma SiblingFacts(s: Store, a: NodeId, b: NodeId)
    requires WF(s) && a in s.parent && b in s.parent && s.parent[a] == s.parent[b]
    ensures var p := s.parent[a];
      && p in s.kids && a in s.kids && b in s.kids && p != a && p != b
      && s.info.rank[a] < s.info.rank[p] && s.info.rank[b] < s.info.rank[p]
  {
    var p := s.parent[a];
    ChildFacts(s, p, a);
    ChildFacts(s, p, b);
  }

  /** After the loop of `MergeNodes`, `from` is childless and leaves the child list of its parent `p`. */
  lemma MergeEnd(t: Store, r: Store, from: NodeId, p: NodeId)
    requires from in t.kids && t.kids[from] == [] && from in t.parent && t.parent[from] == p && p in t.kids
    requires r == Detach(t, from)
    ensures r.kids == t.kids[p := Without(t.kids[p], from)]
    ensures r.parent == t.parent - {from}
    ensures r.info == t.info
  {
  }

  /**
   * The loop of _mergeNodes: each child of `from`, in order, is appended to
   * `to`. The list of `from` is read once, before the loop.
   */
  method MoveChildren(doc: Doc, from: NodeId, to: NodeId)
    requires doc.Valid() && from in doc.kids && to in doc.kids && from != to
    requires doc.rank[from] <= doc.rank[to]
    modifies doc
    ensures doc.Valid()
    ensures doc.kids == old(doc.kids)[to := old(doc.kids[to]) + old(doc.kids[from])][from := []]
    ensures doc.parent == Adopted(old(doc.parent), old(doc.kids[from]), to)
    ensures doc.tag == old(doc.tag) && doc.ident == old(doc.ident) && doc.rank == old(doc.rank) && doc.size == old(doc.size)
  {
    ghost var s0 := doc.Model();
    SnapshotHolds(s0, from, to);
    var xs := doc.kids[from];
    var i := 0;
    assert xs[..0] == [] && xs[0..] == xs && s0.kids[to] + [] == s0.kids[to];
    assert s0.kids[to := s0.kids[to]][from := xs] == s0.kids;
    assert Adopted(s0.parent, [], to) == s0.parent;
    while i < |xs|
      invariant i <= |xs| && doc.Valid()
      invariant Moved(s0, doc.Model(), from, to, xs, i)
    {
      var x := xs[i];
      ghost var t := doc.Model();
      MovedNext(s0, t, from, to, xs, i);
      doc.AppendChild(to, x);
      i := i + 1;
      MergeStep(s0, t, doc.Model(), from, to, xs, i);
    }
    assert xs[..|xs|] == xs && xs[|xs|..] == [];
  }

  /**
   * _mergeNodes(from, to): each child of `from`, in order, is appended to
   * `to`, then `from` is removed. The caller passes the sibling just before
   * `from` as `to`.
   */
  method MergeNodes(doc: Doc, from: NodeId, to: NodeId)
    requires doc.Valid() && from in doc.parent && to in doc.parent
    requires doc.parent[to] == doc.parent[from] && from != to
    modifies doc
    ensures doc.Valid()
    ensures var p := old(doc.parent[from]);
      doc.kids == old(doc.kids)[to := old(doc.kids[to]) + old(doc.kids[from])][from := []][p := Without(old(doc.kids[p]), from)]
    ensures doc.parent == Adopted(old(doc.parent), old(doc.kids[from]), to) - {from}
    ensures doc.tag == old(doc.tag) && doc.ident == old(doc.ident) && doc.size == old(doc.size)
  {
    ghost var p := doc.parent[from];
    SiblingFacts(doc.Model(), from, to);
    ghost var ps := doc.kids[p];
    if doc.rank[to] < doc.rank[from] {
      doc.Raise(to, doc.rank[from]);
    }
    MoveChildren(doc, from, to);
    ghost var t := doc.Model();
    assert t.kids[p] == ps && t.kids[from] == [] && t.parent[from] == p;
    doc.Remove(from);
    MergeEnd(t, doc.Model(), from, p);
  }
}
