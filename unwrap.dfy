/**
 * _removeNodesByName(container, name): when the container is named `name`
 * (and is not the span rangy uses to mark the selection), each of its
 * children is moved just before it in its parent and the container is
 * removed; in any case every child that has children is first treated in
 * the same way, recursively. The children are copied into a snapshot first.
 */
module Unwrap {
  import opened Dom
  import opened Document

  // ---------------------------------------------------------------------
  // Which nodes are unwrapped

  /** The id prefix of the span rangy inserts to save the selection. */
  const BoundaryMark := "selectionBoundary_"

  /** s.indexOf(pat) > -1 */
  function Occurs(pat: string, s: string): (b: bool)
    decreases |s|
  {
    if |s| < |pat| then false else s[..|pat|] == pat || Occurs(pat, s[1..])
  }

  /** `pat` is the slice of `s` starting at `i`. */
  ghost predicate IsAt(pat: string, s: string, i: int) {
    0 <= i && i + |pat| <= |s| && s[i..i + |pat|] == pat
  }

  /** `pat` occurs in `s` exactly when some slice of `s` is `pat`. */
  lemma {:induction false} OccursAt(pat: string, s: string)
    ensures Occurs(pat, s) <==> exists i :: IsAt(pat, s, i)
    decreases |s|
  {
    if |s| >= |pat| {
      if s[..|pat|] == pat {
        assert IsAt(pat, s, 0);
      } else {
        assert !IsAt(pat, s, 0);
        OccursAt(pat, s[1..]);
        if Occurs(pat, s[1..]) {
          var i :| IsAt(pat, s[1..], i);
          assert s[1..][i..i + |pat|] == s[i + 1..i + 1 + |pat|];
          assert IsAt(pat, s, i + 1);
        }
        if exists i :: IsAt(pat, s, i) {
          var i :| IsAt(pat, s, i);
          assert i > 0;
          assert s[1..][i - 1..i - 1 + |pat|] == s[i..i + |pat|];
          assert IsAt(pat, s[1..], i - 1);
        }
      }
    }
  }

  /**
   * remove_node of _removeNodesByName: a node is unwrapped when its nodeName
   * is `name`, except the span whose id marks a selection boundary.
   */
  function Removable(tag: string, ident: string, name: string): (b: bool)
    ensures b ==> tag == name
    ensures tag == name && !(tag == "span" && Occurs(BoundaryMark, ident)) ==> b
  {
    var remove := tag == name;
    if tag == "span" && Occurs(BoundaryMark, ident) then false else remove
  }

  /** The selection marker is never unwrapped, whatever name is given. */
  lemma MarkerKept(ident: string, name: string, pre: string, post: string)
    requires ident == pre + BoundaryMark + post
    ensures !Removable("span", ident, name)
  {
    OccursAt(BoundaryMark, ident);
    assert ident[|pre|..|pre| + |BoundaryMark|] == BoundaryMark;
    assert IsAt(BoundaryMark, ident, |pre|);
  }

  ghost predicate RemovableAt(s: Store, n: NodeId, name: string)
    requires Ranked(s) && n in s.kids
  {
    Removable(s.info.tag[n], s.info.ident[n], name)
  }

  /** Nothing in the subtree of `c`, `c` included, is unwrapped. */
  ghost predicate Quiet(s: Store, c: NodeId, name: string)
    requires Ranked(s) && c in s.kids
  {
    forall x :: x in Desc(s, c) ==> !RemovableAt(s, x, name)
  }

  /** Nothing strictly below `c` is unwrapped. */
  ghost predicate QuietBelow(s: Store, c: NodeId, name: string)
    requires Ranked(s) && c in s.kids
  {
    forall x :: x in Desc(s, c) && x != c ==> !RemovableAt(s, x, name)
  }

  /** The parent of `c` when `c` is unwrapped: the one node outside its subtree whose list changes. */
  ghost function Outer(s: Store, c: NodeId, name: string): (o: set<NodeId>)
    requires Ranked(s) && c in s.kids
  {
    if RemovableAt(s, c, name) && c in s.parent then {s.parent[c]} else {}
  }

  /** Only unwrapped nodes lose their parent. */
  ghost predicate LostOnly(s: Store, r: Store, name: string)
    requires Ranked(s)
  {
    forall x :: x in s.parent && x !in r.parent ==> x in s.kids && RemovableAt(s, x, name)
  }

  /**
   * What _removeNodesByName(c, name) does to the store `s`, whatever the
   * input: the tree stays well formed and its labels unchanged; only the
   * child lists in the subtree of `c` and of the parent of an unwrapped `c`
   * change, and only parent links in the subtree of `c`; only unwrapped
   * nodes lose their parent; `c` keeps its parent unless it loses it; and
   * with nothing to unwrap nothing changes.
   */
  ghost predicate Unwrapped(s: Store, r: Store, c: NodeId, name: string)
    requires Ranked(s) && c in s.kids
  {
    // Comparing the conjunction with `true` changes nothing in its meaning: it keeps
    // the body one fact where the predicate is assumed, so the verifier does not split
    // it into separate conjuncts in every caller (the other `== true` bodies are the same).
    (&& WF(r) && r.info == s.info
     && KidsFrame(s, r, Desc(s, c) + Outer(s, c, name))
     && ParentFrame(s, r, Desc(s, c))
     && LostOnly(s, r, name)
     && (c in r.parent ==> c in s.parent && r.parent[c] == s.parent[c])
     && (Quiet(s, c, name) ==> r == s)) == true
  }

  /** The case the splice property is about: `c` is unwrapped, has a parent, and nothing below it is. */
  ghost predicate SpliceCase(s: Store, c: NodeId, name: string)
    requires WF(s) && c in s.kids
  {
    RemovableAt(s, c, name) && c in s.parent && QuietBelow(s, c, name)
  }

  /** `c` replaced in the list of its parent by its children, in order; they now hang below that parent. */
  ghost predicate Spliced(s: Store, r: Store, c: NodeId)
    requires WF(s) && c in s.parent
  {
    var p, xs := s.parent[c], s.kids[c];
    var j := IndexOf(s.kids[p], c);
    && r.kids == s.kids[p := s.kids[p][..j] + xs + s.kids[p][j + 1..]][c := []]
    && r.parent == Adopted(s.parent, xs, p) - {c}
    && r.info == s.info
  }

  /** A child that is not unwrapped, or has no children, is never recursed into or stays. */
  ghost predicate Stays(s: Store, y: NodeId, name: string)
    requires Ranked(s) && y in s.kids
  {
    !RemovableAt(s, y, name) || s.kids[y] == []
  }

  // ---------------------------------------------------------------------
  // The method

  method RemoveNodesByName(doc: Doc, c: NodeId, name: string) returns (ok: bool)
    requires doc.Valid() && c in doc.kids
    modifies doc
    ensures Unwrapped(old(doc.Model()), doc.Model(), c, name)
    ensures !ok <==> RemovableAt(old(doc.Model()), c, name) && c !in old(doc.parent) && old(doc.kids[c]) != []
    ensures ok && SpliceCase(old(doc.Model()), c, name) ==> Spliced(old(doc.Model()), doc.Model(), c)
    ensures !RemovableAt(old(doc.Model()), c, name) ==>
      forall y :: y in old(doc.kids[c]) && Stays(old(doc.Model()), y, name) ==> y in doc.kids[c]
    decreases doc.rank[c], 2
  {
    var remove := Removable(doc.tag[c], doc.ident[c], name);
    ghost var s0 := doc.Model();
    ok := UnwrapChildren(doc, c, name, remove, s0);
    if !ok {
      return;
    }
    ghost var t := doc.Model();
    assert doc.Valid();
    if remove {
      doc.Remove(c);
    }
    LoopEnd(s0, t, doc.Model(), c, name);
  }

  /** The loop of _removeNodesByName over the snapshot of the children of `c`. */
  method UnwrapChildren(doc: Doc, c: NodeId, name: string, remove: bool, ghost s0: Store) returns (ok: bool)
    requires doc.Valid() && doc.Model() == s0 && c in s0.kids && remove == RemovableAt(s0, c, name)
    modifies doc
    ensures ok ==> Inv(s0, doc.Model(), c, name, |s0.kids[c]|)
    ensures !ok ==> Failed(s0, doc.Model(), c, name)
    decreases s0.info.rank[c], 1
  {
    var xs := doc.kids[c];
    var i := 0;
    LoopStart(s0, c, name);
    assert Taken(s0, c, name, remove);
    while i < |xs|
      invariant i <= |xs| && xs == s0.kids[c]
      invariant Inv(s0, doc.Model(), c, name, i)
    {
      ok := UnwrapChild(doc, c, xs[i], name, remove, s0, i);
      if !ok {
        return;
      }
      i := i + 1;
    }
    ok := true;
  }

  /** The snapshot `s0` taken on entry, and whether `c` is to be unwrapped. */
  ghost predicate Taken(s0: Store, c: NodeId, name: string, remove: bool) {
    (WF(s0) && c in s0.kids && remove == RemovableAt(s0, c, name)) == true
  }

  /** The TypeError outcome: an unwrapped `c` without parent, with children, and the tree as the recursion left it. */
  ghost predicate Failed(s0: Store, r: Store, c: NodeId, name: string)
    requires WF(s0) && c in s0.kids
  {
    (&& Unwrapped(s0, r, c, name)
     && RemovableAt(s0, c, name) && c !in s0.parent && s0.kids[c] != []) == true
  }

  /** One turn of the loop: child `k`, number `i` of the snapshot, is treated and then moved before an unwrapped `c`. */
  method UnwrapChild(doc: Doc, c: NodeId, k: NodeId, name: string, remove: bool, ghost s0: Store, i: nat)
    returns (ok: bool)
    requires Taken(s0, c, name, remove) && i < |s0.kids[c]| && k == s0.kids[c][i]
    requires Inv(s0, doc.Model(), c, name, i)
    modifies doc
    ensures ok ==> Inv(s0, doc.Model(), c, name, i + 1)
    ensures !ok ==> Failed(s0, doc.Model(), c, name)
    decreases s0.info.rank[c], 0
  {
    ghost var t := doc.Model();
    NextChild(s0, t, c, name, i, k);
    if |doc.kids[k]| > 0 {
      var sub := RemoveNodesByName(doc, k, name);
    } else {
      UnwrappedLeaf(t, k, name);
    }
    ghost var u := doc.Model();
    assert After(s0, t, u, c, name, i);
    MidFacts(s0, t, u, c, name, i);
    if remove {
      var p := doc.ParentNode(c);
      if p.None? {
        // TypeError: container_node.parentNode is null
        ErrEnd(s0, t, u, c, name, i);
        return false;
      }
      var err := doc.InsertBefore(p.value, k, c);
    }
    ghost var r := doc.Model();
    assert Inserted(s0, u, r, c, name, i);
    ghost var n := i + 1;
    assert n - 1 == i;
    LoopStep(s0, t, u, r, c, name, n);
    ok := true;
  }

  /** A childless node is not recursed into: nothing changes. */
  lemma UnwrappedLeaf(t: Store, k: NodeId, name: string)
    requires WF(t) && k in t.kids
    ensures Unwrapped(t, t, k, name)
  {
  }

  // ---------------------------------------------------------------------
  // The loop invariant

  /** Changes so far confined to the subtrees of the first `i` children, the list of `c` and of its parent. */
  ghost predicate InvFrame(s0: Store, t: Store, c: NodeId, name: string, i: nat)
    requires WF(s0) && c in s0.kids && i <= |s0.kids[c]|
  {
    && WF(t) && t.info == s0.info
    && KidsFrame(s0, t, {c} + (Outer(s0, c, name) + Upto(s0, c, i)))
    && ParentFrame(s0, t, Upto(s0, c, i))
    && LostOnly(s0, t, name)
  }

  /** The first `i` children moved, in order, just before `c`. */
  ghost predicate SplicedUpto(s0: Store, t: Store, c: NodeId, i: nat)
    requires WF(s0) && c in s0.parent && i <= |s0.kids[c]|
  {
    var p, xs := s0.parent[c], s0.kids[c];
    var j := IndexOf(s0.kids[p], c);
    && t.kids == s0.kids[p := s0.kids[p][..j] + xs[..i] + [c] + s0.kids[p][j + 1..]][c := xs[i..]]
    && t.parent == Adopted(s0.parent, xs[..i], p)
  }

  /** Those of the first `i` children that stay are still children of `c`. */
  ghost predicate KeptUpto(s0: Store, t: Store, c: NodeId, name: string, i: nat)
    requires Ranked(s0) && c in s0.kids && i <= |s0.kids[c]|
  {
    KidsBelow(s0, c);
    forall j :: 0 <= j < i && Stays(s0, s0.kids[c][j], name) ==> s0.kids[c][j] in t.parent && t.parent[s0.kids[c][j]] == c
  }

  ghost predicate Inv(s0: Store, t: Store, c: NodeId, name: string, i: nat)
    requires WF(s0) && c in s0.kids && i <= |s0.kids[c]|
  {
    (&& InvFrame(s0, t, c, name, i)
     && (Quiet(s0, c, name) ==> t == s0)
     && (SpliceCase(s0, c, name) ==> SplicedUpto(s0, t, c, i))
     && (!RemovableAt(s0, c, name) ==> KeptUpto(s0, t, c, name, i))
     && (RemovableAt(s0, c, name) && c !in s0.parent ==> i == 0)) == true
  }

  lemma LoopStart(s0: Store, c: NodeId, name: string)
    requires WF(s0) && c in s0.kids
    ensures Inv(s0, s0, c, name, 0)
  {
    assert s0.kids[c][..0] == [] && s0.kids[c][0..] == s0.kids[c];
    assert Adopted(s0.parent, [], 0) == s0.parent;
    if c in s0.parent {
      var p := s0.parent[c];
      var j := IndexOf(s0.kids[p], c);
      assert s0.kids[p][..j] + [] + [c] + s0.kids[p][j + 1..] == s0.kids[p];
      assert Adopted(s0.parent, [], p) == s0.parent;
    }
  }

  /** The next child of the snapshot is still below `c`, with its subtree as it was. */
  lemma LoopUntouched(s0: Store, t: Store, c: NodeId, name: string, i: nat, k: NodeId)
    requires WF(s0) && c in s0.kids && i < |s0.kids[c]| && k == s0.kids[c][i] && Inv(s0, t, c, name, i)
    ensures && WF(t) && t.info == s0.info && k in s0.kids && k in t.kids && s0.info.rank[k] < s0.info.rank[c]
      && k in t.parent && t.parent[k] == c && c !in Desc(s0, k) && Outer(s0, c, name) !! Desc(s0, k)
      && KidsAgree(s0, t, Desc(s0, k)) && Desc(t, k) == Desc(s0, k)
  {
    if c in s0.parent {
      ChildFacts(s0, s0.parent[c], c);
    }
    SnapshotUntouched(s0, t, c, Outer(s0, c, name), i);
  }

  /** The next child of the snapshot is a node of lower rank than `c`. */
  lemma NextChild(s0: Store, t: Store, c: NodeId, name: string, i: nat, k: NodeId)
    requires WF(s0) && c in s0.kids && i < |s0.kids[c]| && k == s0.kids[c][i] && Inv(s0, t, c, name, i)
    ensures k in t.kids && t.info == s0.info && t.info.rank[k] < s0.info.rank[c]
  {
    LoopUntouched(s0, t, c, name, i, k);
  }

  /** Unwrapped-ness and losing parents compose along two steps with the same labels. */
  lemma LostTrans(s: Store, t: Store, u: Store, name: string)
    requires Ranked(s) && Ranked(t) && t.info == s.info && LostOnly(s, t, name) && LostOnly(t, u, name)
    ensures LostOnly(s, u, name)
  {
    forall x | x in s.parent && x !in u.parent ensures x in s.kids && RemovableAt(s, x, name) {
      if x in t.parent {
        assert x in t.kids && RemovableAt(t, x, name);
      }
    }
  }

  /** After the recursive call on child `i`: `c` keeps its parent, and the insertion before `c` can go ahead. */
  lemma MidFacts(s0: Store, t: Store, u: Store, c: NodeId, name: string, i: nat)
    requires WF(s0) && c in s0.kids && i < |s0.kids[c]| && After(s0, t, u, c, name, i)
    ensures WF(u) && u.info == s0.info && SameParent(s0, u, c)
    ensures c in s0.parent ==> var p := s0.parent[c];
      && p in u.kids && c in u.kids[p] && s0.kids[c][i] in u.kids
      && u.info.rank[s0.kids[c][i]] < u.info.rank[p] && s0.kids[c][i] != c
  {
    var k := s0.kids[c][i];
    LoopUntouched(s0, t, c, name, i, s0.kids[c][i]);
    ParentFrameAt(s0, t, Upto(s0, c, i), c);
    ParentFrameAt(t, u, Desc(t, k), c);
    if c in s0.parent {
      ChildFacts(s0, s0.parent[c], c);
    }
  }

  /**
   * The TypeError: an unwrapped `c` without parent fails on its first child,
   * after the recursive call on that child.
   */
  lemma ErrEnd(s0: Store, t: Store, u: Store, c: NodeId, name: string, i: nat)
    requires WF(s0) && c in s0.kids && i < |s0.kids[c]| && After(s0, t, u, c, name, i)
    requires RemovableAt(s0, c, name) && c !in s0.parent
    ensures Failed(s0, u, c, name)
  {
    assert i == 0;
    StepFrameChild(s0, t, u, c, name, 1);
    UptoAll(s0, c);
    UptoMono(s0, c, 1, |s0.kids[c]|);
    FrameWiden(s0, u, c, Upto(s0, c, 1), Upto(s0, c, |s0.kids[c]|));
    ParentFrameAt(s0, u, Upto(s0, c, 1), c);
    assert WF(u) && u.info == s0.info && LostOnly(s0, u, name);
    assert KidsFrame(s0, u, Desc(s0, c) + Outer(s0, c, name)) && ParentFrame(s0, u, Desc(s0, c));
  }

  /** A frame within the first `i` subtrees lies within the whole subtree of `c`. */
  lemma FrameWiden(s0: Store, u: Store, c: NodeId, d: set<NodeId>, all: set<NodeId>)
    requires KidsFrame(s0, u, {c} + ({} + d)) && ParentFrame(s0, u, d) && d <= all
    ensures KidsFrame(s0, u, ({c} + all) + {}) && ParentFrame(s0, u, {c} + all)
  {
    KidsFrameTrans(s0, u, u, {c} + ({} + d), {}, ({c} + all) + {});
    ParentFrameTrans(s0, u, u, d, {}, {c} + all);
  }

  /** `r` is the store after p.insertBefore(k, c). */
  ghost predicate InsertedBefore(u: Store, r: Store, p: NodeId, k: NodeId, c: NodeId) {
    p in u.kids && c in Detach(u, k).kids[p] && r == Move(u, p, k, IndexOf(Detach(u, k).kids[p], c))
  }

  /** The store `u` after the recursive call on child `i`, from the store `t` the turn started from. */
  ghost predicate After(s0: Store, t: Store, u: Store, c: NodeId, name: string, i: nat)
    requires WF(s0) && c in s0.kids && i < |s0.kids[c]|
  {
    (&& Inv(s0, t, c, name, i)
     && WF(t) && s0.kids[c][i] in t.kids && Unwrapped(t, u, s0.kids[c][i], name)
     && (t.kids[s0.kids[c][i]] == [] ==> u == t)) == true
  }

  /** The store `r` at the end of the turn on child `i`: the child went before an unwrapped `c`. */
  ghost predicate Inserted(s0: Store, u: Store, r: Store, c: NodeId, name: string, i: nat)
    requires WF(s0) && c in s0.kids && i < |s0.kids[c]|
  {
    (&& (RemovableAt(s0, c, name) ==> c in s0.parent && InsertedBefore(u, r, s0.parent[c], s0.kids[c][i], c))
     && (!RemovableAt(s0, c, name) ==> r == u)) == true
  }

  /** One turn of the loop, on child number `n - 1` of the snapshot, keeps the invariant. */
  lemma LoopStep(s0: Store, t: Store, u: Store, r: Store, c: NodeId, name: string, n: nat)
    requires WF(s0) && c in s0.kids && 0 < n <= |s0.kids[c]| && After(s0, t, u, c, name, n - 1)
    requires Inserted(s0, u, r, c, name, n - 1)
    ensures Inv(s0, r, c, name, n)
  {
    StepFrameChild(s0, t, u, c, name, n);
    StepFrameMove(s0, u, r, c, name, n);
    StepQuiet(s0, t, u, r, c, name, n);
    StepSplice(s0, t, u, r, c, name, n);
    StepKept(s0, t, u, r, c, name, n);
  }

  /** The recursive call on child `n - 1` stays within the frame of the first `n` children. */
  lemma StepFrameChild(s0: Store, t: Store, u: Store, c: NodeId, name: string, n: nat)
    requires WF(s0) && c in s0.kids && 0 < n <= |s0.kids[c]| && Inv(s0, t, c, name, n - 1)
    requires WF(t) && s0.kids[c][n - 1] in t.kids && Unwrapped(t, u, s0.kids[c][n - 1], name)
    ensures InvFrame(s0, u, c, name, n)
    ensures s0.kids[c][n - 1] in Upto(s0, c, n)
    ensures s0.kids[c][n - 1] in u.parent ==> u.parent[s0.kids[c][n - 1]] == c
  {
    var i, k := n - 1, s0.kids[c][n - 1];
    LoopUntouched(s0, t, c, name, i, k);
    UptoStep(s0, c, n);
    OuterBelow(t, k, c, name);
    ChildFrame(s0, t, u, c, Outer(s0, c, name), Upto(s0, c, i), Desc(t, k), Outer(t, k, name), Upto(s0, c, n));
    LostTrans(s0, t, u, name);
  }

  /** Moving child `n - 1` before an unwrapped `c` stays within the same frame. */
  lemma StepFrameMove(s0: Store, u: Store, r: Store, c: NodeId, name: string, n: nat)
    requires WF(s0) && c in s0.kids && 0 < n <= |s0.kids[c]| && InvFrame(s0, u, c, name, n)
    requires s0.kids[c][n - 1] in Upto(s0, c, n)
    requires s0.kids[c][n - 1] in u.parent ==> u.parent[s0.kids[c][n - 1]] == c
    requires RemovableAt(s0, c, name) ==> c in s0.parent && InsertedBefore(u, r, s0.parent[c], s0.kids[c][n - 1], c)
    requires !RemovableAt(s0, c, name) ==> r == u
    ensures InvFrame(s0, r, c, name, n)
  {
    if RemovableAt(s0, c, name) {
      var p, k := s0.parent[c], s0.kids[c][n - 1];
      ChildFacts(s0, p, c);
      KidsBelow(s0, c);
      assert k in s0.kids[c];
      var j := IndexOf(Detach(u, k).kids[p], c);
      MoveFrame(u, p, k, j);
      MoveKeepsWF(u, p, k, j);
      MoveStepFrame(s0, u, r, c, p, k, Outer(s0, c, name), Upto(s0, c, n));
    }
  }

  /** The parent of an unwrapped `k` below `c` is `c`. */
  lemma OuterBelow(t: Store, k: NodeId, c: NodeId, name: string)
    requires Ranked(t) && k in t.kids && k in t.parent && t.parent[k] == c
    ensures Outer(t, k, name) <= {c}
  {
  }

  /** The changes of the recursive call on a child compose with the changes so far. */
  lemma ChildFrame(s0: Store, t: Store, u: Store, c: NodeId, o: set<NodeId>,
                   before: set<NodeId>, d: set<NodeId>, e: set<NodeId>, after: set<NodeId>)
    requires KidsFrame(s0, t, {c} + (o + before)) && ParentFrame(s0, t, before)
    requires KidsFrame(t, u, d + e) && ParentFrame(t, u, d)
    requires after == before + d && e <= {c}
    ensures KidsFrame(s0, u, {c} + (o + after)) && ParentFrame(s0, u, after)
  {
    KidsFrameTrans(s0, t, u, {c} + (o + before), d + e, {c} + (o + after));
    ParentFrameTrans(s0, t, u, before, d, after);
  }

  /** Moving child `k` before `c` in the parent `p` of `c` stays within the frame. */
  lemma MoveStepFrame(s0: Store, u: Store, r: Store, c: NodeId, p: NodeId, k: NodeId, o: set<NodeId>, d: set<NodeId>)
    requires KidsFrame(s0, u, {c} + (o + d)) && ParentFrame(s0, u, d) && p in o && k in d
    requires KidsFrame(u, r, {p} + (if k in u.parent then {u.parent[k]} else {})) && ParentFrame(u, r, {k})
    requires k in u.parent ==> u.parent[k] == c
    ensures KidsFrame(s0, r, {c} + (o + d)) && ParentFrame(s0, r, d)
  {
    KidsFrameTrans(s0, u, r, {c} + (o + d), {p} + (if k in u.parent then {u.parent[k]} else {}), {c} + (o + d));
    ParentFrameTrans(s0, u, r, d, {k}, d);
  }

  lemma StepQuiet(s0: Store, t: Store, u: Store, r: Store, c: NodeId, name: string, n: nat)
    requires WF(s0) && c in s0.kids && 0 < n <= |s0.kids[c]| && Inv(s0, t, c, name, n - 1)
    requires WF(t) && s0.kids[c][n - 1] in t.kids && Unwrapped(t, u, s0.kids[c][n - 1], name)
    requires !RemovableAt(s0, c, name) ==> r == u
    ensures Quiet(s0, c, name) ==> r == s0
  {
    if Quiet(s0, c, name) {
      var k := s0.kids[c][n - 1];
      assert t == s0;
      ChildDesc(s0, c, k);
      assert Quiet(t, k, name);
    }
  }

  lemma StepSplice(s0: Store, t: Store, u: Store, r: Store, c: NodeId, name: string, n: nat)
    requires WF(s0) && c in s0.kids && 0 < n <= |s0.kids[c]| && Inv(s0, t, c, name, n - 1)
    requires WF(t) && s0.kids[c][n - 1] in t.kids && Unwrapped(t, u, s0.kids[c][n - 1], name)
    requires RemovableAt(s0, c, name) ==> c in s0.parent && InsertedBefore(u, r, s0.parent[c], s0.kids[c][n - 1], c)
    ensures SpliceCase(s0, c, name) ==> SplicedUpto(s0, r, c, n)
  {
    LoopUntouched(s0, t, c, name, n - 1, s0.kids[c][n - 1]);
    if SpliceCase(s0, c, name) {
      var i, k := n - 1, s0.kids[c][n - 1];
      ChildDesc(s0, c, k);
      SpliceQuiet(s0, t, c, k, name);
      assert u == t;
      SpliceStep(s0, t, r, c, i);
    }
  }

  /** Below an unwrapped `c` with nothing unwrapped under it, a child's subtree is quiet. */
  lemma SpliceQuiet(s0: Store, t: Store, c: NodeId, k: NodeId, name: string)
    requires Ranked(s0) && Ranked(t) && t.info == s0.info && c in s0.kids && k in s0.kids && k in t.kids
    requires Desc(t, k) == Desc(s0, k) && Desc(s0, k) <= Desc(s0, c) && c !in Desc(s0, k) && QuietBelow(s0, c, name)
    ensures Quiet(t, k, name)
  {
    forall x | x in Desc(t, k) ensures !RemovableAt(t, x, name) {
      assert x in Desc(s0, c) && x != c;
    }
  }

  /** The splice invariant carried across the move of child `i` before `c`. */
  lemma SpliceStep(s0: Store, t: Store, r: Store, c: NodeId, i: nat)
    requires WF(s0) && c in s0.parent && i < |s0.kids[c]| && SplicedUpto(s0, t, c, i)
    requires s0.parent[c] in t.kids && Distinct(t.kids[s0.parent[c]])
    requires s0.kids[c][i] in t.parent && t.parent[s0.kids[c][i]] == c
    requires InsertedBefore(t, r, s0.parent[c], s0.kids[c][i], c)
    ensures SplicedUpto(s0, r, c, i + 1)
  {
    var p, xs := s0.parent[c], s0.kids[c];
    var j := IndexOf(s0.kids[p], c);
    var pre, post := s0.kids[p][..j], s0.kids[p][j + 1..];
    assert t.kids[p] == pre + xs[..i] + [c] + post;
    DistinctMid(pre + xs[..i], c, post);
    DistinctSplit(xs, i);
    ChildFacts(s0, c, xs[i]);
    ChildFacts(s0, p, c);
    SpliceMove(s0.kids, s0.parent, t, r, p, c, pre, post, xs, i);
  }

  /** Child `i` of `c` moves to just before `c`: the spliced prefix grows by one. */
  lemma SpliceMove(m: map<NodeId, seq<NodeId>>, up: map<NodeId, NodeId>, t: Store, r: Store,
                   p: NodeId, c: NodeId, pre: seq<NodeId>, post: seq<NodeId>, xs: seq<NodeId>, i: nat)
    requires i < |xs| && p != c && xs[i] != c && c !in pre + xs[..i] && xs[i] !in xs[i + 1..]
    requires t.kids == m[p := pre + xs[..i] + [c] + post][c := xs[i..]]
    requires t.parent == Adopted(up, xs[..i], p) && xs[i] in t.parent && t.parent[xs[i]] == c
    requires InsertedBefore(t, r, p, xs[i], c)
    ensures r.kids == m[p := pre + xs[..i + 1] + [c] + post][c := xs[i + 1..]]
    ensures r.parent == Adopted(up, xs[..i + 1], p)
  {
    SpliceDetach(m, t, p, c, pre, post, xs, i);
    SpliceInsert(pre, post, xs, i, c);
    AdoptedStep(up, xs, i, p);
  }

  /** Detaching child `i` from `c` shortens the list of `c` by its head. */
  lemma SpliceDetach(m: map<NodeId, seq<NodeId>>, t: Store, p: NodeId, c: NodeId,
                     pre: seq<NodeId>, post: seq<NodeId>, xs: seq<NodeId>, i: nat)
    requires i < |xs| && p != c && xs[i] !in xs[i + 1..]
    requires t.kids == m[p := pre + xs[..i] + [c] + post][c := xs[i..]]
    requires xs[i] in t.parent && t.parent[xs[i]] == c
    ensures Detach(t, xs[i]).kids == m[p := pre + xs[..i] + [c] + post][c := xs[i + 1..]]
  {
    var k := xs[i];
    assert xs[i..] == [] + ([k] + xs[i + 1..]);
    WithoutOnce([], k, xs[i + 1..]);
    assert [] + xs[i + 1..] == xs[i + 1..];
  }

  /** Inserting child `i` just before `c` extends the spliced prefix. */
  lemma SpliceInsert(pre: seq<NodeId>, post: seq<NodeId>, xs: seq<NodeId>, i: nat, c: NodeId)
    requires i < |xs| && c !in pre + xs[..i]
    ensures var ys := pre + xs[..i] + [c] + post;
      InsertAt(ys, IndexOf(ys, c), xs[i]) == pre + xs[..i + 1] + [c] + post
  {
    var a := pre + xs[..i];
    IndexOfSplit(a, c, post);
    var ys := a + [c] + post;
    assert ys[..|a|] == a && ys[|a|..] == [c] + post;
    assert xs[..i + 1] == xs[..i] + [xs[i]];
  }

  lemma StepKept(s0: Store, t: Store, u: Store, r: Store, c: NodeId, name: string, n: nat)
    requires WF(s0) && c in s0.kids && 0 < n <= |s0.kids[c]| && Inv(s0, t, c, name, n - 1)
    requires WF(t) && s0.kids[c][n - 1] in t.kids && Unwrapped(t, u, s0.kids[c][n - 1], name)
    requires t.kids[s0.kids[c][n - 1]] == [] ==> u == t
    requires !RemovableAt(s0, c, name) ==> r == u
    ensures !RemovableAt(s0, c, name) ==> KeptUpto(s0, r, c, name, n)
  {
    var k := s0.kids[c][n - 1];
    LoopUntouched(s0, t, c, name, n - 1, k);
    UptoStep(s0, c, n);
    if !RemovableAt(s0, c, name) {
      assert KeptInput(s0, t, u, c, k, name, n);
      KeptCore(s0, t, u, c, k, name, n);
    }
  }

  /** What the turn on child `n - 1` of a `c` that stays needs to know. */
  ghost predicate KeptInput(s0: Store, t: Store, u: Store, c: NodeId, k: NodeId, name: string, n: nat)
    requires Ranked(s0) && c in s0.kids && 0 < n <= |s0.kids[c]|
  {
    (&& k == s0.kids[c][n - 1] && k in s0.kids
     && Ranked(t) && k in t.kids && t.info == s0.info && t.kids[k] == s0.kids[k] && k in t.parent && t.parent[k] == c
     && KeptUpto(s0, t, c, name, n - 1)
     && Upto(s0, c, n - 1) !! Desc(t, k) && Unwrapped(t, u, k, name)
     && (t.kids[k] == [] ==> u == t)) == true
  }

  lemma KeptCore(s0: Store, t: Store, u: Store, c: NodeId, k: NodeId, name: string, n: nat)
    requires Ranked(s0) && c in s0.kids && 0 < n <= |s0.kids[c]| && KeptInput(s0, t, u, c, k, name, n)
    ensures KeptUpto(s0, u, c, name, n)
  {
    StaysParent(s0, t, u, c, k, name);
    KeptStep(s0, t, u, c, name, Desc(t, k), n);
  }

  /** A child that stays keeps its parent through the recursive call on it. */
  lemma StaysParent(s0: Store, t: Store, u: Store, c: NodeId, k: NodeId, name: string)
    requires Ranked(s0) && k in s0.kids && Ranked(t) && k in t.kids && t.info == s0.info && t.kids[k] == s0.kids[k]
    requires k in t.parent && t.parent[k] == c
    requires LostOnly(t, u, name) && (k in u.parent ==> k in t.parent && u.parent[k] == t.parent[k])
    requires t.kids[k] == [] ==> u == t
    ensures Stays(s0, k, name) ==> k in u.parent && u.parent[k] == c
  {
  }

  /** The children that stay, among the first `n`, keep `c` as parent. */
  lemma KeptStep(s0: Store, t: Store, u: Store, c: NodeId, name: string, d: set<NodeId>, n: nat)
    requires Ranked(s0) && c in s0.kids && 0 < n <= |s0.kids[c]|
    requires KeptUpto(s0, t, c, name, n - 1)
    requires ParentFrame(t, u, d) && Upto(s0, c, n - 1) !! d
    requires Stays(s0, s0.kids[c][n - 1], name) ==> s0.kids[c][n - 1] in u.parent && u.parent[s0.kids[c][n - 1]] == c
    ensures KeptUpto(s0, u, c, name, n)
  {
    var xs := s0.kids[c];
    forall j | 0 <= j < n && Stays(s0, xs[j], name) ensures xs[j] in u.parent && u.parent[xs[j]] == c {
      if j < n - 1 {
        UptoHas(s0, c, n - 1, j);
        ParentFrameAt(t, u, d, xs[j]);
      }
    }
  }

  /** After the loop: `c` is removed when it is unwrapped, and the contract of the method holds. */
  lemma LoopEnd(s0: Store, t: Store, r: Store, c: NodeId, name: string)
    requires WF(s0) && c in s0.kids && Inv(s0, t, c, name, |s0.kids[c]|)
    requires r == if RemovableAt(s0, c, name) then Detach(t, c) else t
    ensures Unwrapped(s0, r, c, name)
    ensures RemovableAt(s0, c, name) && c !in s0.parent ==> s0.kids[c] == []
    ensures SpliceCase(s0, c, name) ==> Spliced(s0, r, c)
    ensures !RemovableAt(s0, c, name) ==> forall y :: y in s0.kids[c] && Stays(s0, y, name) ==> y in r.kids[c]
  {
    EndFrame(s0, t, r, c, name);
    EndSplice(s0, t, r, c, name);
    EndKept(s0, t, r, c, name);
  }

  /** The frame of the whole call: the subtree of `c` and the parent of an unwrapped `c`. */
  lemma EndFrame(s0: Store, t: Store, r: Store, c: NodeId, name: string)
    requires WF(s0) && c in s0.kids && InvFrame(s0, t, c, name, |s0.kids[c]|)
    requires Quiet(s0, c, name) ==> t == s0
    requires RemovableAt(s0, c, name) && c !in s0.parent ==> s0.kids[c] == []
    requires r == if RemovableAt(s0, c, name) then Detach(t, c) else t
    ensures Unwrapped(s0, r, c, name)
    ensures RemovableAt(s0, c, name) && c !in s0.parent ==> s0.kids[c] == []
  {
    var xs := s0.kids[c];
    var o := Outer(s0, c, name);
    UptoAll(s0, c);
    ParentFrameAt(s0, t, Upto(s0, c, |xs|), c);
    var q := if c in s0.parent then s0.parent[c] else c;
    DetachFrame(t, c, q);
    DetachKeepsWF(t, c);
    EndFrameSets(s0, t, r, c, o, Upto(s0, c, |xs|), Desc(s0, c),
                 if RemovableAt(s0, c, name) then {q} else {}, if RemovableAt(s0, c, name) then {c} else {});
    assert WF(r);
    assert r.info == s0.info;
    assert KidsFrame(s0, r, Desc(s0, c) + Outer(s0, c, name));
    assert ParentFrame(s0, r, Desc(s0, c));
    assert LostOnly(s0, r, name);
    assert (c in r.parent ==> c in s0.parent && r.parent[c] == s0.parent[c]);
    assert (Quiet(s0, c, name) ==> r == s0);
  }

  /** The changes of the loop and the removal of `c` compose into the frame of the call. */
  lemma EndFrameSets(s0: Store, t: Store, r: Store, c: NodeId, o: set<NodeId>, up: set<NodeId>,
                     d: set<NodeId>, e: set<NodeId>, f: set<NodeId>)
    requires KidsFrame(s0, t, {c} + (o + up)) && ParentFrame(s0, t, up)
    requires KidsFrame(t, r, e) && ParentFrame(t, r, f)
    requires d == {c} + up && e <= {c} + o && f <= {c}
    ensures KidsFrame(s0, r, d + o) && ParentFrame(s0, r, d)
  {
    KidsFrameTrans(s0, t, r, {c} + (o + up), e, d + o);
    ParentFrameTrans(s0, t, r, up, f, d);
  }

  lemma EndSplice(s0: Store, t: Store, r: Store, c: NodeId, name: string)
    requires WF(s0) && c in s0.kids && Inv(s0, t, c, name, |s0.kids[c]|)
    requires r == if RemovableAt(s0, c, name) then Detach(t, c) else t
    ensures SpliceCase(s0, c, name) ==> Spliced(s0, r, c)
  {
    if SpliceCase(s0, c, name) {
      assert SplicedUpto(s0, t, c, |s0.kids[c]|);
      SpliceFinish(s0, t, r, c);
    }
  }

  lemma EndKept(s0: Store, t: Store, r: Store, c: NodeId, name: string)
    requires WF(s0) && c in s0.kids && Inv(s0, t, c, name, |s0.kids[c]|)
    requires r == if RemovableAt(s0, c, name) then Detach(t, c) else t
    ensures !RemovableAt(s0, c, name) ==> forall y :: y in s0.kids[c] && Stays(s0, y, name) ==> y in r.kids[c]
  {
    var xs := s0.kids[c];
    if !RemovableAt(s0, c, name) {
      assert KeptUpto(s0, t, c, name, |xs|);
      forall y | y in xs && Stays(s0, y, name) ensures y in r.kids[c] {
        var j :| 0 <= j < |xs| && xs[j] == y;
      }
    }
  }

  /** Once every child is before `c`, removing `c` completes the splice. */
  lemma SpliceFinish(s0: Store, t: Store, r: Store, c: NodeId)
    requires WF(s0) && c in s0.parent && SplicedUpto(s0, t, c, |s0.kids[c]|)
    requires t.info == s0.info && Distinct(t.kids[s0.parent[c]]) && r == Detach(t, c)
    ensures Spliced(s0, r, c)
  {
    var p, xs := s0.parent[c], s0.kids[c];
    var j := IndexOf(s0.kids[p], c);
    var pre, post := s0.kids[p][..j], s0.kids[p][j + 1..];
    assert xs[..|xs|] == xs && xs[|xs|..] == [];
    ChildFacts(s0, p, c);
    DistinctMid(pre + xs, c, post);
    SpliceEnd(s0.kids, s0.parent, t, r, p, c, pre, post, xs);
  }

  /** Removing `c` once all its children are before it. */
  lemma SpliceEnd(m: map<NodeId, seq<NodeId>>, up: map<NodeId, NodeId>, t: Store, r: Store,
                  p: NodeId, c: NodeId, pre: seq<NodeId>, post: seq<NodeId>, xs: seq<NodeId>)
    requires p != c && c !in pre + xs && c !in post && c !in xs && c in up && up[c] == p
    requires t.kids == m[p := pre + xs + [c] + post][c := []]
    requires t.parent == Adopted(up, xs, p)
    requires r == Detach(t, c)
    ensures r.kids == m[p := pre + xs + post][c := []]
    ensures r.parent == Adopted(up, xs, p) - {c}
  {
    assert t.parent[c] == p && p in t.kids;
    assert pre + xs + [c] + post == (pre + xs) + ([c] + post);
    WithoutOnce(pre + xs, c, post);
  }
}
