/**
 * `_normaliseTagInTextarea` in its two published forms, and the
 * `_normaliseTextarea` pipeline that runs it. The nodes named `name` are
 * taken once, in tree order, by `querySelectorAll`; each is unwrapped, and
 * so, depending on the form, is its parent; then a fresh query is taken and
 * every node whose previous sibling is also called `name` is merged into
 * that sibling.
 */
module Normalise {
  import opened Dom
  import opened Document
  import Unwrap
  import Prune
  import Merge
  import Split
  import opened Order

  // ---------------------------------------------------------------------
  // querySelectorAll

  /**
   * `n.querySelectorAll(name)`: the nodes called `name` strictly below `n`,
   * in tree order (each node before its descendants, siblings in order).
   */
  function Query(doc: Doc, n: NodeId, name: string): (r: seq<NodeId>)
    requires doc.Valid() && n in doc.kids
    reads doc
    ensures forall x :: x in r <==> x in Desc(doc.Model(), n) && x != n && doc.tag[x] == name
    ensures r == OfName(doc.tag, Below(doc.Model(), n), name) && Distinct(r)
    decreases doc.rank[n], 1
  {
    KidsBelow(doc.Model(), n);
    BelowDistinct(doc.Model(), n);
    OfNameDistinct(doc.tag, Below(doc.Model(), n), name);
    QueryAll(doc, doc.kids[n], doc.rank[n], name)
  }

  /** The nodes called `name` in the subtrees of `ks`, in tree order. */
  function QueryAll(doc: Doc, ks: seq<NodeId>, ghost bound: nat, name: string): (r: seq<NodeId>)
    requires doc.Valid() && forall k :: k in ks ==> k in doc.kids && doc.rank[k] < bound
    reads doc
    ensures forall x :: x in r <==> x in DescAll(doc.Model(), ks, bound) && doc.tag[x] == name
    ensures r == OfName(doc.tag, BelowAll(doc.Model(), ks, bound), name)
    decreases bound, 0, |ks|
  {
    if ks == [] then []
    else
      var k := ks[|ks| - 1];
      var pre := BelowAll(doc.Model(), ks[..|ks| - 1], bound);
      OfNameAppend(doc.tag, pre + [k], Below(doc.Model(), k), name);
      OfNameSnoc(doc.tag, pre, k, name);
      QueryAll(doc, ks[..|ks| - 1], bound, name) + (if doc.tag[k] == name then [k] else []) + Query(doc, k, name)
  }

  // ---------------------------------------------------------------------
  // The de-nesting pass

  /** The two published forms of `_normaliseTagInTextarea` and `_normaliseTextarea`. */
  datatype Variant =
    | SplitParent      // the module source: a same-named parent is split around its children
    | FirstChildOnly   // the built plugin: only a first child takes its same-named parent along

  /** What a turn of the de-nesting pass does besides unwrapping the node itself. */
  datatype Plan = Plan(split: bool, removeParent: bool)

  /**
   * The decision of a turn, from whether the parent is called `name` and
   * whether the node is its first and its last child. In the split form the
   * parent is always unwrapped when it is called `name`, after being split
   * unless the node is its only child; in the first-child form the parent is
   * unwrapped only when the node is its first child, and never split.
   */
  function DenestPlan(variant: Variant, parentNamed: bool, isFirst: bool, isLast: bool): (plan: Plan)
    ensures plan.split ==> plan.removeParent && parentNamed
    ensures variant == SplitParent ==>
      && (plan.removeParent <==> parentNamed)
      && (plan.split <==> parentNamed && !(isFirst && isLast))
    ensures variant == FirstChildOnly ==> (plan.removeParent <==> parentNamed && isFirst) && !plan.split
  {
    match variant
    case SplitParent =>
      var removeParent := isFirst && isLast && parentNamed;
      if !removeParent && parentNamed then Plan(true, true) else Plan(false, removeParent)
    case FirstChildOnly =>
      Plan(false, isFirst && parentNamed)
  }

  /** Whatever the form, a node whose parent is not called `name` is unwrapped alone. */
  lemma PlanAlone(variant: Variant, isFirst: bool, isLast: bool)
    ensures DenestPlan(variant, false, isFirst, isLast) == Plan(false, false)
  {
  }

  /** The two forms differ only where the node is not the only child of a `name` parent. */
  lemma PlanAgree(parentNamed: bool, isFirst: bool, isLast: bool)
    ensures DenestPlan(SplitParent, parentNamed, isFirst, isLast) == DenestPlan(FirstChildOnly, parentNamed, isFirst, isLast)
      <==> !parentNamed || (isFirst && isLast)
  {
  }

  /** The plan of a turn for `node`, read off the store `s`. */
  ghost function PlanAt(s: Store, node: NodeId, name: string, variant: Variant): Plan
    requires WF(s) && node in s.parent
  {
    var p := s.parent[node];
    ChildFacts(s, p, node);
    var ks := s.kids[p];
    DenestPlan(variant, s.info.tag[p] == name, ks[0] == node, ks[|ks| - 1] == node)
  }

  /**
   * One turn of the de-nesting pass, for a node of the snapshot. A node that
   * has lost its parent makes the pass read `firstChild` of `null`: a
   * TypeError, reported as `!ok`. A node directly below the root is left
   * alone. A node whose plan leaves its parent alone is unwrapped by itself.
   */
  method DenestTurn(doc: Doc, root: NodeId, node: NodeId, name: string, variant: Variant) returns (ok: bool)
    requires doc.Valid() && root in doc.kids && node in doc.kids
    modifies doc
    ensures doc.Valid() && old(doc.kids.Keys) <= doc.kids.Keys
    ensures node !in old(doc.parent) ==> !ok && doc.Model() == old(doc.Model())
    ensures node in old(doc.parent) && old(doc.parent[node]) == root ==> ok && doc.Model() == old(doc.Model())
    ensures node in old(doc.parent) && old(doc.parent[node]) != root && !PlanAt(old(doc.Model()), node, name, variant).removeParent ==>
      ok && Unwrap.Unwrapped(old(doc.Model()), doc.Model(), node, name)
  {
    var p := doc.ParentNode(node);
    if p.None? {
      return false;
    }
    var parentNode := p.value;
    if parentNode == root {
      return true;
    }
    ghost var s0 := doc.Model();
    ChildFacts(s0, parentNode, node);
    var plan := DenestPlan(variant, doc.tag[parentNode] == name,
                           doc.FirstChild(parentNode) == Some(node), doc.LastChild(parentNode) == Some(node));
    if plan.split {
      ok := Split.SplitParentNode(doc, parentNode, name);
      if !ok {
        return;
      }
    }
    ghost var t := doc.Model();
    ok := Unwrap.RemoveNodesByName(doc, node, name);
    UnwrappedKeys(t, doc.Model(), node, name);
    if !ok {
      return;
    }
    if plan.removeParent {
      ghost var u := doc.Model();
      ok := Unwrap.RemoveNodesByName(doc, parentNode, name);
      UnwrappedKeys(u, doc.Model(), parentNode, name);
    }
  }

  /** `_removeNodesByName` keeps every node, with its name, id and rank. */
  lemma UnwrappedKeys(s: Store, r: Store, c: NodeId, name: string)
    requires Ranked(s) && c in s.kids && Unwrap.Unwrapped(s, r, c, name)
    ensures WF(r) && r.info == s.info && r.kids.Keys == s.kids.Keys
  {
  }

  /**
   * The de-nesting pass: the snapshot of the nodes called `name` below the
   * root, each handled by `DenestTurn` in tree order; a TypeError ends it.
   */
  method Denest(doc: Doc, root: NodeId, name: string, variant: Variant) returns (ok: bool)
    requires doc.Valid() && root in doc.kids
    modifies doc
    ensures doc.Valid() && old(doc.kids.Keys) <= doc.kids.Keys
  {
    var nodes := Query(doc, root, name);
    ghost var keys := doc.kids.Keys;
    assert forall x :: x in nodes ==> x in keys;
    var i := 0;
    while i < |nodes|
      invariant i <= |nodes| && doc.Valid() && keys <= doc.kids.Keys
    {
      ok := DenestTurn(doc, root, nodes[i], name, variant);
      if !ok {
        return;
      }
      i := i + 1;
    }
    return true;
  }

  // ---------------------------------------------------------------------
  // The merging pass

  /** The previous sibling of a node is another child of the same parent. */
  lemma SiblingOf(s: Store, n: NodeId, v: NodeId)
    requires WF(s) && n in s.parent
    requires exists i :: 0 < i < |s.kids[s.parent[n]]| && s.kids[s.parent[n]][i] == n && s.kids[s.parent[n]][i - 1] == v
    ensures v in s.parent && s.parent[v] == s.parent[n] && v != n && v in s.kids
  {
    var p := s.parent[n];
    var i :| 0 < i < |s.kids[p]| && s.kids[p][i] == n && s.kids[p][i - 1] == v;
    assert v in s.kids[p];
    ChildFacts(s, p, v);
  }

  /**
   * The merging pass over a fresh snapshot of the nodes called `name` below
   * the root: a node whose previous sibling is called `name` is merged into
   * it. Names, ids and the set of nodes stay, and the only nodes that lose
   * their parent are nodes of the snapshot, which are called `name`. After
   * the pass no node called `name` below the root has a previous sibling
   * called `name`: each run of adjacent `name` siblings has become one
   * element. Nothing else leaves the tree: the walk below the root is the
   * old one less some nodes called `name`, so every other node stays in
   * the same order, and a node that changes parent is adopted by a node
   * called `name`.
   *
   * The snapshot lists the nodes in tree order. A merged node is always the
   * next one of the snapshot still ahead, and the nodes whose previous
   * sibling a merge changes (the first child of the merged node and its next
   * sibling) come after it, so every node already passed keeps its previous
   * sibling: the ghost `done` holds the passed nodes still in the tree.
   */
  method MergeSiblings(doc: Doc, root: NodeId, name: string)
    requires doc.Valid() && root in doc.kids
    modifies doc
    ensures doc.Valid()
    ensures doc.kids.Keys == old(doc.kids.Keys) && doc.tag == old(doc.tag) && doc.ident == old(doc.ident)
    ensures forall x :: x in old(doc.parent) && x !in doc.parent ==>
      x in old(Desc(doc.Model(), root)) && x != root && doc.tag[x] == name
    ensures NoRuns(doc.Model(), root, name)
    ensures root in doc.kids && Thinned(doc.tag, name, old(Below(doc.Model(), root)), Below(doc.Model(), root))
    ensures Regrouped(old(doc.Model()), doc.Model(), name)
  {
    ghost var s0 := doc.Model();
    var nodes := Query(doc, root, name);
    ghost var done: seq<NodeId> := [];
    ghost var gone: set<NodeId> := {};
    assert done + nodes == nodes;
    DropNone(Below(s0, root), {});
    var i := 0;
    while i < |nodes|
      invariant doc.Valid() && Pass(s0, doc.Model(), root, name, nodes, i, done, gone)
    {
      done, gone := MergeNext(doc, root, name, nodes, i, s0, done, gone);
      i := i + 1;
    }
    RunsGone(doc.Model(), root, name, done);
    assert AllNamed(doc.tag, gone, name);
  }

  /**
   * The merging pass after `i` turns, from the document `s0` to `t`: names,
   * ids and the set of nodes are those of `s0`, only nodes of the snapshot
   * have left the tree, and the nodes passed `done` and those still ahead
   * are as `Passing` says. The walk below the root is that of `s0` less the
   * merged nodes `gone`, all called `name`, and only nodes adopted by a node
   * called `name` changed parent.
   */
  ghost predicate Pass(s0: Store, t: Store, root: NodeId, name: string, nodes: seq<NodeId>, i: nat,
                       done: seq<NodeId>, gone: set<NodeId>)
  {
    && i <= |nodes|
    && t.kids.Keys == s0.kids.Keys && t.info.tag == s0.info.tag && t.info.ident == s0.info.ident
    && (forall x :: x in s0.parent && x !in t.parent ==> x in nodes)
    && Passing(t, root, name, done, nodes[i..])
    && Ranked(s0) && root in s0.kids
    && Below(t, root) == Drop(Below(s0, root), gone) && AllNamed(s0.info.tag, gone, name)
    && Regrouped(s0, t, name)
  }

  /**
   * A turn of the merging pass on `nodes[i]`, the next node of the
   * snapshot still ahead: the passed nodes `done2` still in the tree keep
   * no previous sibling called `name`, and only `nodes[i]` may leave the
   * tree.
   */
  method MergeNext(doc: Doc, root: NodeId, name: string, nodes: seq<NodeId>, i: nat,
                   ghost s0: Store, ghost done: seq<NodeId>, ghost gone: set<NodeId>)
    returns (ghost done2: seq<NodeId>, ghost gone2: set<NodeId>)
    requires doc.Valid() && i < |nodes|
    requires Pass(s0, doc.Model(), root, name, nodes, i, done, gone)
    modifies doc
    ensures doc.Valid()
    ensures Pass(s0, doc.Model(), root, name, nodes, i + 1, done2, gone2)
  {
    ghost var t := doc.Model();
    MergeTurn(doc, nodes[i], name);
    done2, gone2 := PassOn(s0, t, doc.Model(), root, name, nodes, i, done, gone);
  }

  /** The state of the pass after a turn that merged `nodes[i]` or left the tree as it was. */
  lemma PassOn(s0: Store, t: Store, t2: Store, root: NodeId, name: string, nodes: seq<NodeId>, i: nat,
               done: seq<NodeId>, gone: set<NodeId>)
    returns (done2: seq<NodeId>, gone2: set<NodeId>)
    requires WF(t) && WF(t2) && i < |nodes| && Pass(s0, t, root, name, nodes, i, done, gone)
    requires t2.kids.Keys == t.kids.Keys && t2.info.tag == t.info.tag && t2.info.ident == t.info.ident
    requires forall x :: x in t.parent && x !in t2.parent ==> x == nodes[i]
    requires NamedPrev(t, nodes[i], name) ==> MergedInto(t, t2, nodes[i], Prev(t, nodes[i]).value)
    requires !NamedPrev(t, nodes[i], name) ==> t2 == t
    ensures Pass(s0, t2, root, name, nodes, i + 1, done2, gone2)
  {
    done2 := MergeKeeps(t, t2, root, name, done, nodes[i..]);
    assert nodes[i..][1..] == nodes[i + 1..];
    gone2 := WalkOn(s0, t, t2, root, name, nodes[i..], done, gone);
  }

  /** The walk after a turn: a merged node joins `gone`. */
  lemma WalkOn(s0: Store, t: Store, t2: Store, root: NodeId, name: string, rest: seq<NodeId>,
               done: seq<NodeId>, gone: set<NodeId>)
    returns (gone2: set<NodeId>)
    requires WF(t) && Ranked(t2) && t2.info.tag == t.info.tag && rest != []
    requires Passing(t, root, name, done, rest)
    requires Ranked(s0) && root in s0.kids && t.info.tag == s0.info.tag
    requires Below(t, root) == Drop(Below(s0, root), gone) && AllNamed(s0.info.tag, gone, name)
    requires Regrouped(s0, t, name)
    requires NamedPrev(t, rest[0], name) ==> MergedInto(t, t2, rest[0], Prev(t, rest[0]).value)
    requires !NamedPrev(t, rest[0], name) ==> t2 == t
    ensures root in t2.kids && Below(t2, root) == Drop(Below(s0, root), gone2) && AllNamed(s0.info.tag, gone2, name)
    ensures Regrouped(s0, t2, name)
  {
    var y := rest[0];
    gone2 := gone;
    if NamedPrev(t, y, name) {
      OfNameMembers(t.info.tag, Below(t, root), name);
      assert y in done + rest;
      MergeThins(t, t2, root, name, y, done + rest);
      DropTwice(Below(s0, root), gone, {y});
      RegroupedTrans(s0, t, t2, name);
      gone2 := gone + {y};
    }
  }

  /**
   * One turn of the merging pass: when the previous sibling of `node` is
   * called `name`, the children of `node` are appended to it in order and
   * `node` leaves its parent; otherwise nothing changes.
   */
  method MergeTurn(doc: Doc, node: NodeId, name: string)
    requires doc.Valid()
    modifies doc
    ensures doc.Valid()
    ensures doc.kids.Keys == old(doc.kids.Keys) && doc.tag == old(doc.tag) && doc.ident == old(doc.ident)
    ensures NamedPrev(old(doc.Model()), node, name) ==>
      MergedInto(old(doc.Model()), doc.Model(), node, Prev(old(doc.Model()), node).value)
    ensures !NamedPrev(old(doc.Model()), node, name) ==> doc.Model() == old(doc.Model())
    ensures forall x :: x in old(doc.parent) && x !in doc.parent ==> x == node
  {
    PrevIs(doc, node);
    var prev := doc.PreviousSibling(node);
    if prev.Some? && doc.tag[prev.value] == name {
      ghost var m := doc.parent;
      ghost var xs := doc.kids[node];
      SiblingOf(doc.Model(), node, prev.value);
      Merge.MergeNodes(doc, node, prev.value);
      AdoptedLost(m, xs, prev.value, node);
    }
  }

  /** `PreviousSibling` is the previous sibling of the tree-order model. */
  lemma PrevIs(doc: Doc, n: NodeId)
    requires doc.Valid()
    ensures doc.PreviousSibling(n) == Prev(doc.Model(), n)
    ensures doc.PreviousSibling(n).Some? ==> doc.PreviousSibling(n).value in doc.tag
  {
    if n in doc.parent {
      ChildFacts(doc.Model(), doc.parent[n], n);
      var v := doc.PreviousSibling(n);
      if v.Some? {
        SiblingOf(doc.Model(), n, v.value);
      }
    }
  }

  /** Adopting children and dropping `from` loses no parent link but that of `from`. */
  lemma AdoptedLost(m: map<NodeId, NodeId>, xs: seq<NodeId>, to: NodeId, from: NodeId)
    ensures forall x :: x in m && x !in Adopted(m, xs, to) - {from} ==> x == from
  {
  }

  /**
   * `_normaliseTagInTextarea(name)`: the de-nesting pass, then, unless it
   * threw, the merging pass.
   */
  method NormaliseTagInTextarea(doc: Doc, root: NodeId, name: string, variant: Variant)
    returns (ok: bool, ghost mid: Store)
    requires doc.Valid() && root in doc.kids
    modifies doc
    ensures doc.Valid() && old(doc.kids.Keys) <= doc.kids.Keys
    ensures ok ==> old(doc.kids.Keys) <= mid.kids.Keys && MergePassed(mid, doc.Model(), root, name)
  {
    ok := Denest(doc, root, name, variant);
    mid := doc.Model();
    if ok {
      MergeSiblings(doc, root, name);
    }
  }

  /**
   * `r` is `m` after the merging pass below `root`: no run of siblings
   * called `name` is left, the walk below the root is that of `m` less some
   * nodes called `name`, and only nodes adopted by a node called `name`
   * changed parent.
   */
  ghost predicate MergePassed(m: Store, r: Store, root: NodeId, name: string)
  {
    && Ranked(m) && Ranked(r) && root in m.kids && root in r.kids && r.info.tag == m.info.tag
    && NoRuns(r, root, name)
    && Thinned(r.info.tag, name, Below(m, root), Below(r, root))
    && Regrouped(m, r, name)
  }

  /**
   * The merging pass keeps the content of the merged runs: every node below
   * the root not called `name` is still below the root, and those nodes
   * keep their tree order.
   */
  lemma MergeKeepsContent(m: Store, r: Store, root: NodeId, name: string, x: NodeId)
    requires MergePassed(m, r, root, name)
    requires x in Desc(m, root) && x != root && m.info.tag[x] != name
    ensures x in Desc(r, root)
    ensures Others(r.info.tag, Below(r, root), name) == Others(m.info.tag, Below(m, root), name)
  {
    BelowMembers(m, root);
    BelowMembers(r, root);
    ThinnedStays(r.info.tag, name, Below(m, root), Below(r, root), x);
    ThinnedOthers(r.info.tag, name, Below(m, root), Below(r, root));
  }

  // ---------------------------------------------------------------------
  // The pipeline

  /** The tags unwrapped wholesale before `sup` and `sub` are normalised. */
  function TagsToRemove(variant: Variant): (tags: seq<string>)
    ensures "span" in tags <==> variant == FirstChildOnly
    ensures forall t :: t in ["p", "b", "i", "u", "ul", "ol", "li"] ==> t in tags
  {
    match variant
    case SplitParent => ["p", "b", "i", "u", "ul", "ol", "li"]
    case FirstChildOnly => ["p", "b", "i", "span", "u", "ul", "ol", "li"]
  }

  /** A step of the pipeline, and the name it works on. */
  datatype Step = PruneStep(name: string) | UnwrapStep(name: string) | TagStep(name: string)

  /**
   * The steps of the pipeline in order: remove every `br`, unwrap each tag
   * of `TagsToRemove`, normalise `sup` and then `sub`, and in the split form
   * unwrap `span` last.
   */
  function Steps(variant: Variant): (steps: seq<Step>)
    ensures |steps| == |TagsToRemove(variant)| + (if variant == SplitParent then 4 else 3)
    ensures steps[0] == PruneStep("br")
    ensures forall j :: 0 <= j < |TagsToRemove(variant)| ==> steps[j + 1] == UnwrapStep(TagsToRemove(variant)[j])
    ensures steps[|TagsToRemove(variant)| + 1] == TagStep("sup")
    ensures steps[|TagsToRemove(variant)| + 2] == TagStep("sub")
    ensures variant == SplitParent ==> steps[|TagsToRemove(variant)| + 3] == UnwrapStep("span")
  {
    var tags := TagsToRemove(variant);
    [PruneStep("br")] + seq(|tags|, j requires 0 <= j < |tags| => UnwrapStep(tags[j]))
      + [TagStep("sup"), TagStep("sub")]
      + (if variant == SplitParent then [UnwrapStep("span")] else [])
  }

  /**
   * What one step does to the document `s`, giving `r`, and whether it
   * reported success: removing `br` never fails; unwrapping fails exactly
   * when the root itself would be unwrapped while it has children but no
   * parent; normalising a tag keeps the nodes and, on success, ends with a
   * merging pass (`MergePassed`) from a document holding every node of `s`.
   */
  ghost predicate Effect(step: Step, s: Store, r: Store, root: NodeId, ok: bool)
  {
    && WF(s) && root in s.kids
    && match step
       case PruneStep(name) => ok && Prune.Pruned(s, r, root, name)
       case UnwrapStep(name) =>
         && Unwrap.Unwrapped(s, r, root, name)
         && (!ok <==> Unwrap.RemovableAt(s, root, name) && root !in s.parent && s.kids[root] != [])
       case TagStep(name) =>
         && WF(r) && s.kids.Keys <= r.kids.Keys
         && (ok ==> exists m: Store :: s.kids.Keys <= m.kids.Keys && MergePassed(m, r, root, name))
  }

  /** Step `k` of `steps` took `trace[k]` to `trace[k + 1]`; only the last recorded step may have failed. */
  ghost predicate StepRan(steps: seq<Step>, trace: seq<Store>, k: nat, root: NodeId, ok: bool)
    requires k + 1 < |trace| && k < |steps|
  {
    Effect(steps[k], trace[k], trace[k + 1], root, ok || k + 2 < |trace|)
  }

  /**
   * `trace` records the documents a run of the first `|trace| - 1` steps
   * passed through: each step took its document to the next one, every step
   * but the last succeeded, and the last reported `ok`.
   */
  ghost predicate Ran(steps: seq<Step>, trace: seq<Store>, root: NodeId, ok: bool)
  {
    && 1 <= |trace| <= |steps| + 1
    && forall k :: 0 <= k < |trace| - 1 ==> StepRan(steps, trace, k, root, ok)
  }

  /** `trace` goes from `s` to `r`. */
  ghost predicate Ends(trace: seq<Store>, s: Store, r: Store)
  {
    |trace| >= 1 && trace[0] == s && trace[|trace| - 1] == r
  }

  /** Recording one more step. */
  lemma RanSnoc(steps: seq<Step>, trace: seq<Store>, step: Step, r: Store, root: NodeId, ok: bool)
    requires Ran(steps, trace, root, true) && |trace| <= |steps| && steps[|trace| - 1] == step
    requires Effect(step, trace[|trace| - 1], r, root, ok)
    ensures Ran(steps, trace + [r], root, ok)
  {
    var t2 := trace + [r];
    forall k | 0 <= k < |t2| - 1
      ensures StepRan(steps, t2, k, root, ok)
    {
      if k + 1 < |trace| {
        assert StepRan(steps, trace, k, root, true);
        assert t2[k] == trace[k] && t2[k + 1] == trace[k + 1];
      }
    }
  }

  /** Removing every `br` below the root, recorded in the trace. */
  method RunPrune(doc: Doc, root: NodeId, ghost steps: seq<Step>, ghost trace: seq<Store>)
    returns (ghost trace2: seq<Store>)
    requires doc.Valid() && root in doc.kids
    requires Ran(steps, trace, root, true) && |trace| <= |steps| && Ends(trace, trace[0], doc.Model())
    requires steps[|trace| - 1] == PruneStep("br")
    modifies doc
    ensures doc.Valid() && old(doc.kids.Keys) <= doc.kids.Keys
    ensures Ran(steps, trace2, root, true) && |trace2| == |trace| + 1 && Ends(trace2, trace[0], doc.Model())
  {
    Prune.RemoveSingleNodesByName(doc, root, "br");
    RanSnoc(steps, trace, PruneStep("br"), doc.Model(), root, true);
    trace2 := trace + [doc.Model()];
  }

  /** Unwrapping `name` at the root, recorded in the trace. */
  method RunUnwrap(doc: Doc, root: NodeId, name: string, ghost steps: seq<Step>, ghost trace: seq<Store>)
    returns (ok: bool, ghost trace2: seq<Store>)
    requires doc.Valid() && root in doc.kids
    requires Ran(steps, trace, root, true) && |trace| <= |steps| && Ends(trace, trace[0], doc.Model())
    requires steps[|trace| - 1] == UnwrapStep(name)
    modifies doc
    ensures doc.Valid() && old(doc.kids.Keys) <= doc.kids.Keys
    ensures Ran(steps, trace2, root, ok) && |trace2| == |trace| + 1 && Ends(trace2, trace[0], doc.Model())
  {
    ghost var t := doc.Model();
    ok := Unwrap.RemoveNodesByName(doc, root, name);
    UnwrappedKeys(t, doc.Model(), root, name);
    RanSnoc(steps, trace, UnwrapStep(name), doc.Model(), root, ok);
    trace2 := trace + [doc.Model()];
  }

  /** Normalising `name`, recorded in the trace. */
  method RunTag(doc: Doc, root: NodeId, name: string, variant: Variant, ghost steps: seq<Step>, ghost trace: seq<Store>)
    returns (ok: bool, ghost trace2: seq<Store>)
    requires doc.Valid() && root in doc.kids
    requires Ran(steps, trace, root, true) && |trace| <= |steps| && Ends(trace, trace[0], doc.Model())
    requires steps[|trace| - 1] == TagStep(name)
    modifies doc
    ensures doc.Valid() && old(doc.kids.Keys) <= doc.kids.Keys
    ensures Ran(steps, trace2, root, ok) && |trace2| == |trace| + 1 && Ends(trace2, trace[0], doc.Model())
  {
    ghost var mid: Store;
    ok, mid := NormaliseTagInTextarea(doc, root, name, variant);
    RanSnoc(steps, trace, TagStep(name), doc.Model(), root, ok);
    trace2 := trace + [doc.Model()];
  }

  /**
   * `_normaliseTextarea` (the split form) and the tree part of
   * `_normaliseTextareaAndGetSelectedNodes` (the first-child form), after
   * the markup has been cleaned: the steps of `Steps` run in order, each on
   * the document the previous one left, and a TypeError in any step ends the
   * pipeline. The ghost `trace` holds the documents passed through.
   */
  method NormaliseTextarea(doc: Doc, root: NodeId, variant: Variant) returns (ok: bool, ghost trace: seq<Store>)
    requires doc.Valid() && root in doc.kids
    modifies doc
    ensures doc.Valid() && old(doc.kids.Keys) <= doc.kids.Keys
    ensures Ran(Steps(variant), trace, root, ok)
    ensures Ends(trace, old(doc.Model()), doc.Model())
    ensures ok ==> |trace| == |Steps(variant)| + 1
  {
    ghost var steps := Steps(variant);
    ghost var s0 := doc.Model();
    trace := RunPrune(doc, root, steps, [s0]);
    ok, trace := UnwrapTags(doc, root, variant, steps, trace);
    if ok {
      ok, trace := FinishTags(doc, root, variant, steps, trace);
    }
  }

  /** The unwrapping of each tag of `TagsToRemove`, after the removal of `br`. */
  method UnwrapTags(doc: Doc, root: NodeId, variant: Variant, ghost steps: seq<Step>, ghost trace: seq<Store>)
    returns (ok: bool, ghost trace2: seq<Store>)
    requires doc.Valid() && root in doc.kids && steps == Steps(variant)
    requires Ran(steps, trace, root, true) && |trace| == 2 && Ends(trace, trace[0], doc.Model())
    modifies doc
    ensures doc.Valid() && old(doc.kids.Keys) <= doc.kids.Keys
    ensures Ran(steps, trace2, root, ok) && Ends(trace2, trace[0], doc.Model())
    ensures ok ==> |trace2| == |TagsToRemove(variant)| + 2
  {
    var tags := TagsToRemove(variant);
    trace2 := trace;
    ok := true;
    var i := 0;
    while i < |tags|
      invariant i <= |tags| && doc.Valid() && old(doc.kids.Keys) <= doc.kids.Keys && root in doc.kids
      invariant |trace2| == i + 2 && Ends(trace2, trace[0], doc.Model())
      invariant Ran(steps, trace2, root, true) && ok
    {
      ok, trace2 := RunUnwrap(doc, root, tags[i], steps, trace2);
      if !ok {
        return;
      }
      i := i + 1;
    }
  }

  /** The normalisation of `sup` and `sub`, then in the split form the unwrapping of `span`. */
  method FinishTags(doc: Doc, root: NodeId, variant: Variant, ghost steps: seq<Step>, ghost trace: seq<Store>)
    returns (ok: bool, ghost trace2: seq<Store>)
    requires doc.Valid() && root in doc.kids && steps == Steps(variant)
    requires Ran(steps, trace, root, true) && |trace| == |TagsToRemove(variant)| + 2
    requires Ends(trace, trace[0], doc.Model())
    modifies doc
    ensures doc.Valid() && old(doc.kids.Keys) <= doc.kids.Keys
    ensures Ran(steps, trace2, root, ok) && Ends(trace2, trace[0], doc.Model())
    ensures ok ==> |trace2| == |steps| + 1
  {
    ok, trace2 := RunTag(doc, root, "sup", variant, steps, trace);
    if ok {
      ok, trace2 := RunTag(doc, root, "sub", variant, steps, trace2);
      if ok && variant == SplitParent {
        ok, trace2 := RunUnwrap(doc, root, "span", steps, trace2);
      }
    }
  }
}
