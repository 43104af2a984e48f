/**
 * _removeSingleNodesByName(container, name): every descendant of the
 * container whose nodeName is `name` is taken out of the tree together with
 * its subtree. The children of the container are copied into a snapshot
 * first; each child that has children is cleaned recursively before it is
 * itself compared with the name and, when it matches, removed.
 */
module Prune {
  import opened Dom
  import opened Document

  // ---------------------------------------------------------------------
  // The reference: pruning a tree value

  /** `t` with every descendant named `name` removed together with its subtree. */
  function PruneTree(t: Tree, name: string): (r: Tree)
    decreases t, 1
  {
    Tree(t.tag, t.ident, PruneForest(t.kids, name))
  }

  /** The trees of `ts` not named `name`, each pruned, in their order. */
  function PruneForest(ts: seq<Tree>, name: string): (rs: seq<Tree>)
    ensures |rs| <= |ts|
    decreases ts, 0
  {
    if ts == [] then []
    else
      var last := ts[|ts| - 1];
      PruneForest(ts[..|ts| - 1], name) + (if last.tag == name then [] else [PruneTree(last, name)])
  }

  /** No node below the root of `t` is named `name`. */
  ghost predicate Clean(t: Tree, name: string)
    decreases t
  {
    forall j :: 0 <= j < |t.kids| ==> t.kids[j].tag != name && Clean(t.kids[j], name)
  }

  ghost predicate CleanAll(ts: seq<Tree>, name: string) {
    forall j :: 0 <= j < |ts| ==> ts[j].tag != name && Clean(ts[j], name)
  }

  lemma PruneForestSnoc(ts: seq<Tree>, v: Tree, name: string)
    ensures PruneForest(ts + [v], name)
         == PruneForest(ts, name) + (if v.tag == name then [] else [PruneTree(v, name)])
  {
    assert (ts + [v])[..|ts|] == ts;
  }

  /** Pruning leaves no node named `name` below the root. */
  lemma {:induction false} PruneClean(t: Tree, name: string)
    ensures Clean(PruneTree(t, name), name)
    decreases t, 1
  {
    PruneForestClean(t.kids, name);
  }

  lemma {:induction false} PruneForestClean(ts: seq<Tree>, name: string)
    ensures CleanAll(PruneForest(ts, name), name)
    decreases ts, 0
  {
    if ts != [] {
      var last := ts[|ts| - 1];
      PruneForestClean(ts[..|ts| - 1], name);
      if last.tag != name {
        PruneClean(last, name);
      }
    }
  }

  /** Pruning changes a tree exactly when some node below its root is named `name`. */
  lemma {:induction false} PruneFixed(t: Tree, name: string)
    ensures PruneTree(t, name) == t <==> Clean(t, name)
    decreases t, 1
  {
    PruneForestFixed(t.kids, name);
  }

  lemma {:induction false} PruneForestFixed(ts: seq<Tree>, name: string)
    ensures PruneForest(ts, name) == ts <==> CleanAll(ts, name)
    decreases ts, 0
  {
    if ts != [] {
      var pre, last := ts[..|ts| - 1], ts[|ts| - 1];
      assert ts == pre + [last];
      PruneForestFixed(pre, name);
      PruneFixed(last, name);
      if PruneForest(ts, name) == ts {
        assert |PruneForest(pre, name)| <= |pre|;
        assert last.tag != name;
        assert PruneForest(ts, name) == PruneForest(pre, name) + [PruneTree(last, name)];
        assert PruneForest(pre, name) == pre && PruneTree(last, name) == last;
      }
    }
  }

  /** Pruning twice is pruning once. */
  lemma PruneTwice(t: Tree, name: string)
    ensures PruneTree(PruneTree(t, name), name) == PruneTree(t, name)
  {
    PruneClean(t, name);
    PruneFixed(PruneTree(t, name), name);
  }

  // ---------------------------------------------------------------------
  // The method

  /**
   * The effect of the removal on the store: the subtree of `c` in `r` is
   * that of `s` pruned, only child lists inside the old subtree of `c`
   * changed, and only parent links of nodes strictly below `c` (so `c`
   * itself stays where it was). Node by node, every node of the old subtree
   * keeps exactly its children not named `name`, in their order.
   */
  ghost predicate Pruned(s: Store, r: Store, c: NodeId, name: string)
    requires WF(s) && c in s.kids
  {
    && WF(r) && r.info == s.info
    && KidsFrame(s, r, Desc(s, c))
    && ParentFrame(s, r, Desc(s, c) - {c})
    && KidsPruned(s, r, Desc(s, c), name)
    && View(r, c) == PruneTree(View(s, c), name)
  }

  /** Every node of `d` has in `r` exactly its children in `s` not named `name`, in their order. */
  ghost predicate KidsPruned(s: Store, r: Store, d: set<NodeId>, name: string)
    requires Ranked(s)
  {
    forall y :: y in d && y in s.kids ==> y in r.kids && r.kids[y] == Unnamed(s, s.kids[y], name)
  }

  method RemoveSingleNodesByName(doc: Doc, c: NodeId, name: string)
    requires doc.Valid() && c in doc.kids
    modifies doc
    ensures Pruned(old(doc.Model()), doc.Model(), c, name)
    decreases doc.rank[c]
  {
    ghost var s0 := doc.Model();
    var xs := doc.kids[c];
    var i := 0;
    LoopStart(s0, c, name);
    while i < |xs|
      invariant i <= |xs| && xs == s0.kids[c]
      invariant LoopInv(s0, doc.Model(), c, name, i)
    {
      var k := xs[i];
      ghost var t := doc.Model();
      LoopUntouched(s0, t, c, name, i);
      if |doc.kids[k]| > 0 {
        RemoveSingleNodesByName(doc, k, name);
      } else {
        PruneLeaf(t, k, name);
      }
      ghost var u := doc.Model();
      if doc.tag[k] == name {
        doc.Remove(k);
      }
      i := i + 1;
      LoopStep(s0, t, u, doc.Model(), c, name, i);
    }
    LoopEnd(s0, doc.Model(), c, name);
  }

  // ---------------------------------------------------------------------
  // The loop invariant

  /** The nodes of `xs` not named `name`, in their order. */
  ghost function Unnamed(s: Store, xs: seq<NodeId>, name: string): (ys: seq<NodeId>)
    requires Ranked(s) && forall j :: 0 <= j < |xs| ==> xs[j] in s.kids
    ensures forall j :: 0 <= j < |ys| ==> ys[j] in s.kids
  {
    if xs == [] then []
    else
      var last := xs[|xs| - 1];
      Unnamed(s, xs[..|xs| - 1], name) + (if s.info.tag[last] == name then [] else [last])
  }

  /** The survivors are exactly the members of `xs` not named `name`. */
  lemma {:induction false} UnnamedMembers(s: Store, xs: seq<NodeId>, name: string, k: NodeId)
    requires Ranked(s) && forall j :: 0 <= j < |xs| ==> xs[j] in s.kids
    ensures k in Unnamed(s, xs, name) <==> k in xs && s.info.tag[k] != name
  {
    if xs != [] {
      var last := xs[|xs| - 1];
      UnnamedMembers(s, xs[..|xs| - 1], name, k);
      assert k in xs <==> k in xs[..|xs| - 1] || k == last by {
        assert xs == xs[..|xs| - 1] + [last];
      }
    }
  }

  /** Two survivors appear in `xs` in the order they have among the survivors. */
  lemma {:induction false} UnnamedOrder(s: Store, xs: seq<NodeId>, name: string, i: nat, j: nat)
    requires Ranked(s) && forall k :: 0 <= k < |xs| ==> xs[k] in s.kids
    requires i < j < |Unnamed(s, xs, name)|
    ensures var us := Unnamed(s, xs, name);
      exists a, b :: 0 <= a < b < |xs| && xs[a] == us[i] && xs[b] == us[j]
  {
    var us := Unnamed(s, xs, name);
    var pre := xs[..|xs| - 1];
    var ps := Unnamed(s, pre, name);
    assert us == ps + (if s.info.tag[xs[|xs| - 1]] == name then [] else [xs[|xs| - 1]]);
    if j < |ps| {
      UnnamedOrder(s, pre, name, i, j);
      var a, b :| 0 <= a < b < |pre| && pre[a] == ps[i] && pre[b] == ps[j];
      assert xs[a] == us[i] && xs[b] == us[j];
    } else {
      UnnamedMembers(s, pre, name, ps[i]);
      var a :| 0 <= a < |pre| && pre[a] == ps[i];
      assert xs[a] == us[i] && xs[|xs| - 1] == us[j];
    }
  }

  /**
   * Node by node, the removal keeps the relative order of the children
   * that stay: two children of a node of the subtree come, after the
   * removal, in the order they had before it.
   */
  lemma PrunedOrder(s: Store, r: Store, c: NodeId, name: string, y: NodeId, i: nat, j: nat)
    requires WF(s) && c in s.kids && Pruned(s, r, c, name) && y in Desc(s, c)
    requires y in r.kids && i < j < |r.kids[y]|
    ensures exists a, b :: 0 <= a < b < |s.kids[y]| && s.kids[y][a] == r.kids[y][i] && s.kids[y][b] == r.kids[y][j]
  {
    UnnamedOrder(s, s.kids[y], name, i, j);
  }

  /**
   * After the first `i` children of the snapshot `s0.kids[c]`: the changes
   * are confined to their subtrees and the child list of `c`, which holds
   * the survivors among them followed by the untouched rest, and the
   * survivors carry the pruned subtrees.
   */
  ghost predicate LoopInv(s0: Store, t: Store, c: NodeId, name: string, i: nat)
    requires WF(s0) && c in s0.kids && i <= |s0.kids[c]|
  {
    // Comparing the conjunction with `true` changes nothing in its meaning: it keeps
    // the body one fact where the predicate is assumed, so the verifier does not split
    // it into separate conjuncts in every caller (the other `== true` bodies are the same).
    (InvFrame(s0, t, c, i) && InvKids(s0, t, c, name, i) && InvViews(s0, t, c, name, i)
    && KidsPruned(s0, t, Upto(s0, c, i), name)) == true
  }

  ghost predicate InvFrame(s0: Store, t: Store, c: NodeId, i: nat)
    requires WF(s0) && c in s0.kids && i <= |s0.kids[c]|
  {
    && WF(t) && t.info == s0.info
    && KidsFrame(s0, t, {c} + Upto(s0, c, i))
    && ParentFrame(s0, t, Upto(s0, c, i))
  }

  ghost predicate InvKids(s0: Store, t: Store, c: NodeId, name: string, i: nat)
    requires WF(s0) && c in s0.kids && i <= |s0.kids[c]|
  {
    KidsBelow(s0, c);
    c in t.kids && t.kids[c] == Unnamed(s0, s0.kids[c][..i], name) + s0.kids[c][i..]
  }

  ghost predicate InvViews(s0: Store, t: Store, c: NodeId, name: string, i: nat)
    requires WF(s0) && c in s0.kids && i <= |s0.kids[c]|
  {
    KidsBelow(s0, c);
    && Ranked(t) && t.kids.Keys == s0.kids.Keys
    && Views(t, Unnamed(s0, s0.kids[c][..i], name)) == PruneForest(Views(s0, s0.kids[c][..i]), name)
  }

  lemma LoopStart(s0: Store, c: NodeId, name: string)
    requires WF(s0) && c in s0.kids
    ensures LoopInv(s0, s0, c, name, 0)
  {
    assert s0.kids[c][..0] == [];
  }

  /** After the whole snapshot, the container holds the pruned subtree. */
  lemma LoopEnd(s0: Store, t: Store, c: NodeId, name: string)
    requires WF(s0) && c in s0.kids && LoopInv(s0, t, c, name, |s0.kids[c]|)
    ensures Pruned(s0, t, c, name)
  {
    var xs := s0.kids[c];
    assert xs[..|xs|] == xs && xs[|xs|..] == [];
    UptoAll(s0, c);
    assert Upto(s0, c, |xs|) == Desc(s0, c) - {c};
    ViewKids(s0, c);
    ViewKids(t, c);
    assert t.kids[c] == Unnamed(s0, xs, name);
  }

  /** The next child of the snapshot is still where it was, with its subtree as it was. */
  lemma LoopUntouched(s0: Store, t: Store, c: NodeId, name: string, i: nat)
    requires WF(s0) && c in s0.kids && i < |s0.kids[c]| && LoopInv(s0, t, c, name, i)
    ensures var k := s0.kids[c][i];
      && k in s0.kids && k in t.kids && s0.info.rank[k] < s0.info.rank[c]
      && k in t.parent && t.parent[k] == c
      && KidsAgree(s0, t, Desc(s0, k))
      && Desc(t, k) == Desc(s0, k) && View(t, k) == View(s0, k)
  {
    var k := s0.kids[c][i];
    UptoStep(s0, c, i + 1);
    ChildFacts(s0, c, k);
    FrameUntouched(s0, t, c, k, Upto(s0, c, i), Desc(s0, k));
    DescFrame(s0, t, k);
    ViewFrame(s0, t, k);
  }

  /** A childless node is already pruned. */
  lemma PruneLeaf(t: Store, k: NodeId, name: string)
    requires WF(t) && k in t.kids && t.kids[k] == []
    ensures Pruned(t, t, k, name)
  {
    assert View(t, k).kids == [];
    assert Desc(t, k) == {k};
  }

  /** Handling child number `n - 1` of the snapshot keeps the invariant. */
  lemma LoopStep(s0: Store, t: Store, u: Store, r: Store, c: NodeId, name: string, n: nat)
    requires WF(s0) && c in s0.kids && 0 < n <= |s0.kids[c]| && LoopInv(s0, t, c, name, n - 1)
    requires s0.kids[c][n - 1] in t.kids && Pruned(t, u, s0.kids[c][n - 1], name)
    requires r == if u.info.tag[s0.kids[c][n - 1]] == name then Detach(u, s0.kids[c][n - 1]) else u
    ensures LoopInv(s0, r, c, name, n)
  {
    StepInvFrame(s0, t, u, r, c, name, n);
    StepInvKids(s0, t, u, r, c, name, n);
    StepInvViews(s0, t, u, r, c, name, n);
    StepInvPruned(s0, t, u, r, c, name, n);
  }

  lemma StepInvPruned(s0: Store, t: Store, u: Store, r: Store, c: NodeId, name: string, n: nat)
    requires WF(s0) && c in s0.kids && 0 < n <= |s0.kids[c]| && LoopInv(s0, t, c, name, n - 1)
    requires s0.kids[c][n - 1] in t.kids && Pruned(t, u, s0.kids[c][n - 1], name)
    requires r == if u.info.tag[s0.kids[c][n - 1]] == name then Detach(u, s0.kids[c][n - 1]) else u
    ensures KidsPruned(s0, r, Upto(s0, c, n), name)
  {
    var i := n - 1;
    var k := s0.kids[c][i];
    LoopUntouched(s0, t, c, name, i);
    StepFrame(s0, t, u, r, c, k, name);
    UptoStep(s0, c, n);
    DetachFrame(u, k, c);
    assert Desc(t, k) == Desc(s0, k);
    assert KidsPruned(t, u, Desc(s0, k), name);
    KidsPrunedStep(s0, t, u, r, c, Desc(s0, k), Upto(s0, c, i), name);
  }

  /** The subtree of `k` (here `d`) is pruned by the step, and the subtrees before it (`e`) are left alone. */
  lemma KidsPrunedStep(s0: Store, t: Store, u: Store, r: Store, c: NodeId, d: set<NodeId>, e: set<NodeId>, name: string)
    requires Ranked(s0) && Ranked(t) && t.info == s0.info && c !in d
    requires KidsAgree(s0, t, d) && KidsPruned(t, u, d, name) && KidsPruned(s0, t, e, name)
    requires KidsFrame(u, r, {c}) && KidsFrame(t, r, {c} + d) && c !in e
    ensures KidsPruned(s0, r, e + d, name)
  {
    forall y | y in e + d && y in s0.kids
      ensures y in r.kids && r.kids[y] == Unnamed(s0, s0.kids[y], name)
    {
      if y in d {
        KidsFrameAt(u, r, {c}, y);
        UnnamedLabels(t, s0, t.kids[y], name);
      } else {
        KidsFrameAt(t, r, {c} + d, y);
      }
    }
  }

  /** The survivors depend only on the names of the nodes. */
  lemma {:induction false} UnnamedLabels(s: Store, t: Store, xs: seq<NodeId>, name: string)
    requires Ranked(s) && Ranked(t) && s.info == t.info
    requires forall j :: 0 <= j < |xs| ==> xs[j] in s.kids && xs[j] in t.kids
    ensures Unnamed(s, xs, name) == Unnamed(t, xs, name)
  {
    if xs != [] {
      UnnamedLabels(s, t, xs[..|xs| - 1], name);
    }
  }

  lemma StepInvFrame(s0: Store, t: Store, u: Store, r: Store, c: NodeId, name: string, n: nat)
    requires WF(s0) && c in s0.kids && 0 < n <= |s0.kids[c]| && LoopInv(s0, t, c, name, n - 1)
    requires s0.kids[c][n - 1] in t.kids && Pruned(t, u, s0.kids[c][n - 1], name)
    requires r == if u.info.tag[s0.kids[c][n - 1]] == name then Detach(u, s0.kids[c][n - 1]) else u
    ensures InvFrame(s0, r, c, n)
  {
    var i := n - 1;
    var k := s0.kids[c][i];
    LoopUntouched(s0, t, c, name, i);
    StepFrame(s0, t, u, r, c, k, name);
    UptoStep(s0, c, n);
    FrameStep(s0, t, r, c, Upto(s0, c, i), Desc(s0, k), Upto(s0, c, n));
  }

  lemma StepInvKids(s0: Store, t: Store, u: Store, r: Store, c: NodeId, name: string, n: nat)
    requires WF(s0) && c in s0.kids && 0 < n <= |s0.kids[c]| && LoopInv(s0, t, c, name, n - 1)
    requires s0.kids[c][n - 1] in t.kids && Pruned(t, u, s0.kids[c][n - 1], name)
    requires r == if u.info.tag[s0.kids[c][n - 1]] == name then Detach(u, s0.kids[c][n - 1]) else u
    ensures InvKids(s0, r, c, name, n)
  {
    StepKidsInput(s0, t, u, r, c, name, n - 1);
  }

  /** Before the step on child `i`, the list of `c` is as the invariant says; the step leaves it alone until `k` goes. */
  ghost predicate KidsInput(s0: Store, t: Store, u: Store, c: NodeId, i: nat)
    requires c in s0.kids && i < |s0.kids[c]|
  {
    (u.info == s0.info && c in t.kids && c in u.kids && u.kids[c] == t.kids[c]
    && s0.kids[c][i] in u.parent && u.parent[s0.kids[c][i]] == c) == true
  }

  lemma StepKidsInput(s0: Store, t: Store, u: Store, r: Store, c: NodeId, name: string, i: nat)
    requires WF(s0) && c in s0.kids && i < |s0.kids[c]| && LoopInv(s0, t, c, name, i)
    requires s0.kids[c][i] in t.kids && Pruned(t, u, s0.kids[c][i], name)
    requires r == if u.info.tag[s0.kids[c][i]] == name then Detach(u, s0.kids[c][i]) else u
    ensures InvKids(s0, r, c, name, i + 1)
  {
    var k := s0.kids[c][i];
    LoopUntouched(s0, t, c, name, i);
    StepFrame(s0, t, u, r, c, k, name);
    assert InvKids(s0, t, c, name, i) && KidsInput(s0, t, u, c, i);
    StepKids(s0, t, u, r, c, name, i);
  }

  lemma StepInvViews(s0: Store, t: Store, u: Store, r: Store, c: NodeId, name: string, n: nat)
    requires WF(s0) && c in s0.kids && 0 < n <= |s0.kids[c]| && LoopInv(s0, t, c, name, n - 1)
    requires s0.kids[c][n - 1] in t.kids && Pruned(t, u, s0.kids[c][n - 1], name)
    requires r == if u.info.tag[s0.kids[c][n - 1]] == name then Detach(u, s0.kids[c][n - 1]) else u
    ensures InvViews(s0, r, c, name, n)
  {
    var i := n - 1;
    StepOutcomeHolds(s0, t, u, r, c, name, i);
    StepViews(s0, t, r, c, name, i);
  }

  /** A child that is not named stays, with its subtree pruned. */
  lemma KeptView(t: Store, u: Store, r: Store, k: NodeId, name: string)
    requires WF(t) && k in t.kids && Pruned(t, u, k, name)
    requires r == if u.info.tag[k] == name then Detach(u, k) else u
    ensures t.info.tag[k] != name ==> k in r.kids && View(r, k) == PruneTree(View(t, k), name)
  {
  }

  /** One step changes only the subtree of `k` and the child list of `c`. */
  lemma StepFrame(s0: Store, t: Store, u: Store, r: Store, c: NodeId, k: NodeId, name: string)
    requires WF(s0) && WF(t) && c in s0.kids && k in s0.kids && k in t.kids && c !in Desc(s0, k)
    requires k in t.parent && t.parent[k] == c && Desc(t, k) == Desc(s0, k)
    requires Pruned(t, u, k, name)
    requires r == if u.info.tag[k] == name then Detach(u, k) else u
    ensures WF(r) && r.info == t.info
    ensures KidsFrame(t, r, {c} + Desc(s0, k)) && ParentFrame(t, r, Desc(s0, k))
    ensures c in u.kids && u.kids[c] == t.kids[c]
    ensures k in u.parent && u.parent[k] == c
  {
    ParentFrameAt(t, u, Desc(s0, k) - {k}, k);
    KidsFrameAt(t, u, Desc(s0, k), c);
    DetachKeepsWF(u, k);
    DetachFrame(u, k, c);
    assert r == u || r == Detach(u, k);
    KidsFrameTrans(t, u, r, Desc(s0, k), {c}, {c} + Desc(s0, k));
    ParentFrameTrans(t, u, r, Desc(s0, k) - {k}, {k}, Desc(s0, k));
  }

  /** The child list of `c` after the step: `k` dropped when named, kept otherwise. */
  lemma StepKids(s0: Store, t: Store, u: Store, r: Store, c: NodeId, name: string, i: nat)
    requires WF(s0) && c in s0.kids && i < |s0.kids[c]| && InvKids(s0, t, c, name, i)
    requires KidsInput(s0, t, u, c, i)
    requires r == if u.info.tag[s0.kids[c][i]] == name then Detach(u, s0.kids[c][i]) else u
    ensures InvKids(s0, r, c, name, i + 1)
  {
    var xs, k := s0.kids[c], s0.kids[c][i];
    KidsBelow(s0, c);
    var us, rest := Unnamed(s0, xs[..i], name), xs[i + 1..];
    UnnamedStep(s0, xs, i, name);
    SliceCons(xs, i);
    assert Distinct(xs);
    if u.info.tag[k] == name {
      DistinctSplit(xs, i);
      UnnamedMembers(s0, xs[..i], name, k);
      WithoutOnce(us, k, rest);
    } else {
      AppendAssoc(us, [k], rest);
    }
  }

  lemma SliceCons(xs: seq<NodeId>, i: nat)
    requires i < |xs|
    ensures xs[i..] == [xs[i]] + xs[i + 1..]
  {
  }

  /** One more child of the snapshot: it joins the survivors unless it is named. */
  lemma UnnamedStep(s: Store, xs: seq<NodeId>, i: nat, name: string)
    requires Ranked(s) && i < |xs| && forall j :: 0 <= j < |xs| ==> xs[j] in s.kids
    ensures Unnamed(s, xs[..i + 1], name)
         == Unnamed(s, xs[..i], name) + (if s.info.tag[xs[i]] == name then [] else [xs[i]])
  {
    assert xs[..i + 1][..i] == xs[..i];
  }

  /** The subtrees of the survivors after the step. */
  /**
   * What one turn of the loop does to the store `t` it starts from, seen
   * from child `i` of the snapshot: only its subtree and the list of `c`
   * change, and if it stays its subtree is pruned.
   */
  ghost predicate StepOutcome(s0: Store, t: Store, r: Store, c: NodeId, name: string, i: nat)
    requires Ranked(s0) && Ranked(t) && c in s0.kids && i < |s0.kids[c]|
  {
    var k := s0.kids[c][i];
    (k in s0.kids && k in t.kids && View(t, k) == View(s0, k)
    && WF(r) && r.info == t.info && KidsFrame(t, r, {c} + Desc(t, k))
    && (s0.info.tag[k] != name ==> k in r.kids && View(r, k) == PruneTree(View(t, k), name))) == true
  }

  /** The outcome of one turn, from the frame of the step and the view of the kept child. */
  lemma StepOutcomeHolds(s0: Store, t: Store, u: Store, r: Store, c: NodeId, name: string, i: nat)
    requires WF(s0) && c in s0.kids && i < |s0.kids[c]| && LoopInv(s0, t, c, name, i)
    requires s0.kids[c][i] in t.kids && Pruned(t, u, s0.kids[c][i], name)
    requires r == if u.info.tag[s0.kids[c][i]] == name then Detach(u, s0.kids[c][i]) else u
    ensures Ranked(t) && StepOutcome(s0, t, r, c, name, i)
  {
    var k := s0.kids[c][i];
    LoopUntouched(s0, t, c, name, i);
    StepFrame(s0, t, u, r, c, k, name);
    KeptView(t, u, r, k, name);
  }

  lemma StepViews(s0: Store, t: Store, r: Store, c: NodeId, name: string, i: nat)
    requires WF(s0) && c in s0.kids && i < |s0.kids[c]| && LoopInv(s0, t, c, name, i)
    requires Ranked(t) && StepOutcome(s0, t, r, c, name, i)
    ensures InvViews(s0, r, c, name, i + 1)
  {
    var xs, k := s0.kids[c], s0.kids[c][i];
    KidsBelow(s0, c);
    var us := Unnamed(s0, xs[..i], name);
    SiblingViews(s0, t, r, c, k, us, i, name);
    if s0.info.tag[k] == name {
      NamedStep(s0, r, xs, i, name);
    } else {
      KeptStep(s0, r, xs, i, name);
    }
  }

  /** A named child adds nothing to the survivors, nor to the pruned forest. */
  lemma NamedStep(s0: Store, r: Store, xs: seq<NodeId>, i: nat, name: string)
    requires Ranked(s0) && Ranked(r) && i < |xs| && forall j :: 0 <= j < |xs| ==> xs[j] in s0.kids
    requires s0.info.tag[xs[i]] == name
    requires forall j :: 0 <= j < |Unnamed(s0, xs[..i], name)| ==> Unnamed(s0, xs[..i], name)[j] in r.kids
    requires Views(r, Unnamed(s0, xs[..i], name)) == PruneForest(Views(s0, xs[..i]), name)
    ensures Unnamed(s0, xs[..i + 1], name) == Unnamed(s0, xs[..i], name)
    ensures Views(r, Unnamed(s0, xs[..i + 1], name)) == PruneForest(Views(s0, xs[..i + 1]), name)
  {
    UnnamedStep(s0, xs, i, name);
    ViewsSnoc(s0, xs, i);
    PruneForestSnoc(Views(s0, xs[..i]), View(s0, xs[i]), name);
  }

  /** A kept child joins the survivors with its pruned subtree. */
  lemma KeptStep(s0: Store, r: Store, xs: seq<NodeId>, i: nat, name: string)
    requires Ranked(s0) && Ranked(r) && i < |xs| && forall j :: 0 <= j < |xs| ==> xs[j] in s0.kids
    requires s0.info.tag[xs[i]] != name
    requires forall j :: 0 <= j < |Unnamed(s0, xs[..i], name)| ==> Unnamed(s0, xs[..i], name)[j] in r.kids
    requires Views(r, Unnamed(s0, xs[..i], name)) == PruneForest(Views(s0, xs[..i]), name)
    requires xs[i] in r.kids && View(r, xs[i]) == PruneTree(View(s0, xs[i]), name)
    ensures var us := Unnamed(s0, xs[..i + 1], name); forall j :: 0 <= j < |us| ==> us[j] in r.kids
    ensures Views(r, Unnamed(s0, xs[..i + 1], name)) == PruneForest(Views(s0, xs[..i + 1]), name)
  {
    var us := Unnamed(s0, xs[..i], name);
    UnnamedStep(s0, xs, i, name);
    ViewsSnoc(s0, xs, i);
    PruneForestSnoc(Views(s0, xs[..i]), View(s0, xs[i]), name);
    ViewsAppend(r, us, [xs[i]]);
  }

  /** The subtrees of one more entry of a list. */
  lemma ViewsSnoc(s: Store, xs: seq<NodeId>, i: nat)
    requires Ranked(s) && i < |xs| && forall j :: 0 <= j < |xs| ==> xs[j] in s.kids
    ensures Views(s, xs[..i + 1]) == Views(s, xs[..i]) + [View(s, xs[i])]
  {
    TakeSnoc(xs, i);
    ViewsAppend(s, xs[..i], [xs[i]]);
  }

  lemma TakeSnoc(xs: seq<NodeId>, i: nat)
    requires i < |xs|
    ensures xs[..i + 1] == xs[..i] + [xs[i]]
  {
  }

  /** The survivors before `k` keep their subtrees through the step. */
  lemma SiblingViews(s0: Store, t: Store, r: Store, c: NodeId, k: NodeId, us: seq<NodeId>, i: nat, name: string)
    requires WF(s0) && c in s0.kids && i < |s0.kids[c]| && k == s0.kids[c][i]
    requires InvKids(s0, t, c, name, i) && WF(t) && t.info == s0.info
    requires us == Unnamed(s0, s0.kids[c][..i], name)
    requires k in t.kids && WF(r) && r.info == t.info && KidsFrame(t, r, {c} + Desc(t, k))
    ensures forall j :: 0 <= j < |us| ==> us[j] in r.kids
    ensures Views(r, us) == Views(t, us)
  {
    var xs := s0.kids[c];
    assert Distinct(xs);
    DistinctSplit(xs, i);
    SliceCons(xs, i);
    assert t.kids[c] == us + ([k] + xs[i + 1..]);
    ChildFacts(t, c, k) by {
      assert t.kids[c][|us|] == k;
    }
    forall j | 0 <= j < |us| ensures us[j] in r.kids && View(r, us[j]) == View(t, us[j]) {
      SiblingView(t, r, c, k, us[j]) by {
        assert t.kids[c][j] == us[j];
      }
    }
  }

  /** A sibling of `k` keeps its subtree when the changes stay in the subtree of `k` and the child list of `c`. */
  lemma SiblingView(t: Store, r: Store, c: NodeId, k: NodeId, x: NodeId)
    requires WF(t) && c in t.kids && k in t.kids[c] && x in t.kids[c] && x != k
    requires WF(r) && r.info == t.info && KidsFrame(t, r, {c} + Desc(t, k))
    ensures x in r.kids && View(r, x) == View(t, x)
  {
    ChildFacts(t, c, x);
    ChildFacts(t, c, k);
    DescDisjoint(t, x, k);
    forall y | y in Desc(t, x) ensures y in t.kids && y in r.kids && r.kids[y] == t.kids[y] {
      KidsFrameAt(t, r, {c} + Desc(t, k), y);
    }
    ViewFrame(t, r, x);
  }
}
