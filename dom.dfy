/**
 * The document tree of the editable area, as the WHATWG DOM Standard
 * (section 4.4, interface Node) describes it, stored as an arena of nodes
 * addressed by a stable id.
 *
 * A node is an element (its `tag` is the lower-cased nodeName, such as "sup")
 * or a text node (its `tag` is "#text"). Each node has an `id` attribute
 * (`ident`, "" when absent), an ordered list of children (`kids`) and, when it
 * is attached, a `parent`. The `rank` of a node is bookkeeping that the DOM
 * itself does not have: it strictly decreases from a parent to each child, so
 * the parent links can never form a cycle. Comparing ranks stands in for the
 * "HierarchyRequestError" check of the DOM, which refuses to insert a node
 * into its own subtree.
 */
module Dom {

  type NodeId = nat

  /** The nodeName of a text node. */
  const TextName := "#text"

  datatype Info = Info(
    tag: map<NodeId, string>,
    ident: map<NodeId, string>,
    rank: map<NodeId, nat>,
    size: nat)

  datatype Arena<K, P, I> = Arena(kids: K, parent: P, info: I)

  type Store = Arena<map<NodeId, seq<NodeId>>, map<NodeId, NodeId>, Info>

  /** The exceptions the rewrites can raise. */
  datatype Error = TypeError | NotFoundError

  datatype Option<T> = None | Some(value: T)

  /** No node occurs twice in one child list. */
  ghost predicate Distinct(xs: seq<NodeId>) {
    forall i, j :: 0 <= i < j < |xs| ==> xs[i] != xs[j]
  }

  /**
   * Every node has a name, an id, a child list and a rank, and every child is
   * a node of lower rank than its parent. This is all the rewrites need to be
   * defined and to terminate.
   */
  ghost predicate Ranked(s: Store) {
    && s.kids.Keys == s.info.rank.Keys
    && s.info.tag.Keys == s.kids.Keys
    && s.info.ident.Keys == s.kids.Keys
    && forall p, i :: p in s.kids && 0 <= i < |s.kids[p]| ==>
         s.kids[p][i] in s.kids && s.info.rank[s.kids[p][i]] < s.info.rank[p]
  }

  /** Every child names its parent, and every parent lists its child. */
  ghost predicate Linked(s: Store) {
    && (forall p, i :: p in s.kids && 0 <= i < |s.kids[p]| ==>
          s.kids[p][i] in s.parent && s.parent[s.kids[p][i]] == p)
    && (forall c :: c in s.parent ==> s.parent[c] in s.kids && c in s.kids[s.parent[c]])
  }

  /** Parent links are between nodes, and every node id is below `size`. */
  ghost predicate Keyed(s: Store) {
    && s.parent.Keys <= s.kids.Keys
    && (forall n :: n in s.kids ==> n < s.info.size)
  }

  /** No child list repeats a node. */
  ghost predicate DistinctKids(s: Store) {
    forall p :: p in s.kids ==> Distinct(s.kids[p])
  }

  /** A well-formed document tree (or forest of detached subtrees). */
  ghost predicate WF(s: Store) {
    Ranked(s) && Keyed(s) && Linked(s) && DistinctKids(s)
  }

  /** What the rewrites leave alone: names, ids, ranks and allocated ids. */
  ghost predicate Labels(s: Store, r: Store) {
    r.info == s.info
  }

  /** The parent link of `x` is the same in `s` and `r`. */
  ghost predicate SameParent(s: Store, r: Store, x: NodeId) {
    (x in r.parent <==> x in s.parent) && (x in s.parent ==> r.parent[x] == s.parent[x])
  }

  lemma ChildRank(s: Store, p: NodeId, k: NodeId)
    requires Ranked(s) && p in s.kids && k in s.kids[p]
    ensures k in s.kids && s.info.rank[k] < s.info.rank[p]
  {
    var i :| 0 <= i < |s.kids[p]| && s.kids[p][i] == k;
  }

  lemma ChildFacts(s: Store, p: NodeId, k: NodeId)
    requires WF(s) && p in s.kids && k in s.kids[p]
    ensures k in s.parent && s.parent[k] == p && k in s.kids && s.info.rank[k] < s.info.rank[p]
  {
    var i :| 0 <= i < |s.kids[p]| && s.kids[p][i] == k;
  }

  /** The children of `c` are nodes of lower rank. */
  lemma KidsBelow(s: Store, c: NodeId)
    requires Ranked(s) && c in s.kids
    ensures forall k :: k in s.kids[c] ==> k in s.kids && s.info.rank[k] < s.info.rank[c]
  {
    forall k | k in s.kids[c] ensures k in s.kids && s.info.rank[k] < s.info.rank[c] {
      ChildRank(s, c, k);
    }
  }

  /** Replacing the child list of `p` by nodes of lower rank keeps the ranks in order. */
  lemma RankedUpdate(s: Store, p: NodeId, ys: seq<NodeId>, r: Store)
    requires Ranked(s) && p in s.kids
    requires forall y :: y in ys ==> y in s.kids && s.info.rank[y] < s.info.rank[p]
    requires r.kids == s.kids[p := ys] && r.info == s.info
    ensures Ranked(r)
  {
    forall q, i | q in r.kids && 0 <= i < |r.kids[q]|
      ensures r.kids[q][i] in r.kids && r.info.rank[r.kids[q][i]] < r.info.rank[q]
    {
      if q == p {
        assert r.kids[q][i] in ys;
      }
    }
  }

  // ---------------------------------------------------------------------
  // Child lists

  /** `xs` without the node `n`, the rest in order. */
  function Without(xs: seq<NodeId>, n: NodeId): (ys: seq<NodeId>)
    ensures |ys| <= |xs|
  {
    if xs == [] then []
    else (if xs[0] == n then [] else [xs[0]]) + Without(xs[1..], n)
  }

  /** `Without(xs, n)` keeps exactly the members of `xs` other than `n`. */
  lemma {:induction false} WithoutMembers(xs: seq<NodeId>, n: NodeId, y: NodeId)
    ensures y in Without(xs, n) <==> y in xs && y != n
  {
    if xs != [] {
      WithoutMembers(xs[1..], n, y);
      assert xs == [xs[0]] + xs[1..];
    }
  }

  lemma {:induction false} WithoutAbsent(xs: seq<NodeId>, n: NodeId)
    requires n !in xs
    ensures Without(xs, n) == xs
  {
    if xs != [] {
      WithoutAbsent(xs[1..], n);
    }
  }

  lemma {:induction false} WithoutAppend(a: seq<NodeId>, b: seq<NodeId>, n: NodeId)
    ensures Without(a + b, n) == Without(a, n) + Without(b, n)
  {
    if a == [] {
      assert a + b == b;
    } else {
      assert (a + b)[1..] == a[1..] + b;
      WithoutAppend(a[1..], b, n);
    }
  }

  /** Taking out a node that occurs once closes the gap it leaves. */
  lemma {:induction false} WithoutOnce(a: seq<NodeId>, n: NodeId, b: seq<NodeId>)
    requires n !in a && n !in b
    ensures Without(a + ([n] + b), n) == a + b
  {
    var xs := a + ([n] + b);
    if a == [] {
      assert xs == [n] + b && xs[0] == n && xs[1..] == b;
      WithoutAbsent(b, n);
    } else {
      assert xs[0] == a[0] && xs[1..] == a[1..] + ([n] + b);
      WithoutOnce(a[1..], n, b);
      assert a + b == [a[0]] + (a[1..] + b);
    }
  }

  lemma AppendAssoc(a: seq<NodeId>, b: seq<NodeId>, c: seq<NodeId>)
    ensures a + (b + c) == (a + b) + c
  {
  }

  /** The position of `x` in `xs`. */
  function IndexOf(xs: seq<NodeId>, x: NodeId): (i: nat)
    requires x in xs
    ensures i < |xs| && xs[i] == x
    ensures forall k :: 0 <= k < i ==> xs[k] != x
  {
    if xs[0] == x then 0 else 1 + IndexOf(xs[1..], x)
  }

  lemma IndexOfSplit(a: seq<NodeId>, x: NodeId, b: seq<NodeId>)
    requires x !in a
    ensures IndexOf(a + [x] + b, x) == |a|
  {
    assert (a + [x] + b)[|a|] == x;
  }

  /** `xs` with `x` inserted at position `i`. */
  function InsertAt(xs: seq<NodeId>, i: nat, x: NodeId): (r: seq<NodeId>)
    requires i <= |xs|
    ensures |r| == |xs| + 1 && r[i] == x
  {
    xs[..i] + [x] + xs[i..]
  }

  lemma InsertAtMembers(xs: seq<NodeId>, i: nat, x: NodeId, y: NodeId)
    requires Distinct(xs) && i <= |xs| && x !in xs
    ensures Distinct(InsertAt(xs, i, x))
    ensures y in InsertAt(xs, i, x) <==> y in xs || y == x
  {
    var r := InsertAt(xs, i, x);
    assert forall j :: 0 <= j < i ==> r[j] == xs[j];
    assert forall j :: i < j < |r| ==> r[j] == xs[j - 1];
    forall a, b | 0 <= a < b < |r| ensures r[a] != r[b] {
      if b < i {
      } else if b == i {
      } else if a < i {
      } else if a == i {
        assert r[b] == xs[b - 1];
      } else {
      }
    }
    if y in xs {
      var j :| 0 <= j < |xs| && xs[j] == y;
      if j < i { assert r[j] == y; } else { assert r[j + 1] == y; }
    }
    if y in r {
      var j :| 0 <= j < |r| && r[j] == y;
      if j < i { assert xs[j] == y; } else if j > i { assert xs[j - 1] == y; }
    }
  }

  /** In a list without repetitions, the entry at `i` is neither before nor after `i`. */
  lemma DistinctSplit(xs: seq<NodeId>, i: nat)
    requires Distinct(xs) && i < |xs|
    ensures xs[i] !in xs[..i] && xs[i] !in xs[i + 1..]
  {
  }

  /** In a list without repetitions, an entry occurs neither before nor after itself. */
  lemma DistinctMid(a: seq<NodeId>, x: NodeId, b: seq<NodeId>)
    requires Distinct(a + [x] + b)
    ensures x !in a && x !in b
  {
    var xs := a + [x] + b;
    assert xs[|a|] == x;
    forall j | 0 <= j < |a| ensures a[j] != x {
      assert xs[j] == a[j];
    }
    forall j | 0 <= j < |b| ensures b[j] != x {
      assert xs[|a| + 1 + j] == b[j];
    }
  }

  lemma WithoutDistinct(xs: seq<NodeId>, n: NodeId)
    requires Distinct(xs)
    ensures Distinct(Without(xs, n))
    decreases |xs|
  {
    if xs != [] {
      WithoutDistinct(xs[1..], n);
      var ys := Without(xs, n);
      if xs[0] != n {
        assert ys == [xs[0]] + Without(xs[1..], n);
        assert xs[0] !in xs[1..];
        WithoutMembers(xs[1..], n, xs[0]);
      }
    }
  }

  // ---------------------------------------------------------------------
  // The DOM primitives: remove(), insertBefore(), appendChild(), createElement()

  /**
   * node.remove(): a node with a parent is taken out of its parent's child
   * list and loses its parent link; a node without one is left as it is.
   */
  function Detach(s: Store, n: NodeId): (r: Store)
    ensures Labels(s, r) && r.kids.Keys == s.kids.Keys
    ensures r.parent == s.parent - {n}
  {
    if n in s.parent && s.parent[n] in s.kids then
      s.(kids := s.kids[s.parent[n] := Without(s.kids[s.parent[n]], n)], parent := s.parent - {n})
    else
      s.(parent := s.parent - {n})
  }

  lemma DetachRanked(s: Store, n: NodeId)
    requires Ranked(s)
    ensures Ranked(Detach(s, n))
  {
    if n in s.parent && s.parent[n] in s.kids {
      var p := s.parent[n];
      KidsBelow(s, p);
      forall y | y in Without(s.kids[p], n) ensures y in s.kids && s.info.rank[y] < s.info.rank[p] {
        WithoutMembers(s.kids[p], n, y);
      }
      RankedUpdate(s, p, Without(s.kids[p], n), Detach(s, n));
    }
  }

  /** remove() keeps the tree well formed, and takes `n` out of every child list. */
  lemma DetachKeepsWF(s: Store, n: NodeId)
    requires WF(s)
    ensures WF(Detach(s, n))
    ensures forall p :: p in s.kids ==> n !in Detach(s, n).kids[p]
  {
    var r := Detach(s, n);
    DetachRanked(s, n);
    DetachLinked(s, n);
    forall q | q in r.kids ensures Distinct(r.kids[q]) && n !in r.kids[q] {
      if n in s.parent && q == s.parent[n] {
        WithoutDistinct(s.kids[q], n);
        WithoutMembers(s.kids[q], n, n);
      } else {
        if n in s.kids[q] { ChildFacts(s, q, n); }
      }
    }
  }

  lemma DetachLinked(s: Store, n: NodeId)
    requires WF(s)
    ensures Linked(Detach(s, n))
  {
    var r := Detach(s, n);
    forall q, j | q in r.kids && 0 <= j < |r.kids[q]|
      ensures r.kids[q][j] in r.parent && r.parent[r.kids[q][j]] == q
    {
      if n in s.parent && q == s.parent[n] {
        WithoutMembers(s.kids[q], n, r.kids[q][j]);
        assert r.kids[q][j] in s.kids[q];
        ChildFacts(s, q, r.kids[q][j]);
      } else {
        assert r.kids[q][j] != n by { if r.kids[q][j] == n { ChildFacts(s, q, n); } }
      }
    }
    forall c | c in r.parent ensures r.parent[c] in r.kids && c in r.kids[r.parent[c]] {
      if n in s.parent && s.parent[c] == s.parent[n] {
        WithoutMembers(s.kids[s.parent[n]], n, c);
      }
    }
  }

  /** remove() changes only the child list of the old parent and the link of `n`. */
  lemma DetachFrame(s: Store, n: NodeId, p: NodeId)
    requires n in s.parent ==> s.parent[n] == p
    ensures KidsFrame(s, Detach(s, n), {p}) && ParentFrame(s, Detach(s, n), {n})
  {
    var r := Detach(s, n);
    assert r.kids - {p} == s.kids - {p};
    assert r.parent - {n} == s.parent - {n};
  }

  /** A detached node `n` put into the child list of `p` at position `i`. */
  function Attach(d: Store, p: NodeId, n: NodeId, i: nat): (r: Store)
    requires p in d.kids && i <= |d.kids[p]|
    ensures Labels(d, r) && r.kids.Keys == d.kids.Keys
    ensures r.parent == d.parent[n := p]
    ensures r.kids == d.kids[p := InsertAt(d.kids[p], i, n)]
  {
    d.(kids := d.kids[p := InsertAt(d.kids[p], i, n)], parent := d.parent[n := p])
  }

  lemma AttachRanked(d: Store, p: NodeId, n: NodeId, i: nat)
    requires Ranked(d) && p in d.kids && n in d.kids && d.info.rank[n] < d.info.rank[p] && i <= |d.kids[p]|
    ensures Ranked(Attach(d, p, n, i))
  {
    KidsBelow(d, p);
    var ys := InsertAt(d.kids[p], i, n);
    forall y | y in ys ensures y in d.kids && d.info.rank[y] < d.info.rank[p] {
      var j :| 0 <= j < |ys| && ys[j] == y;
      if j < i { assert y == d.kids[p][j]; } else if j > i { assert y == d.kids[p][j - 1]; }
    }
    RankedUpdate(d, p, ys, Attach(d, p, n, i));
  }

  lemma AttachKeepsWF(d: Store, p: NodeId, n: NodeId, i: nat)
    requires WF(d) && p in d.kids && n in d.kids && n !in d.parent && d.info.rank[n] < d.info.rank[p]
    requires i <= |d.kids[p]|
    ensures WF(Attach(d, p, n, i))
  {
    var r := Attach(d, p, n, i);
    assert n !in d.kids[p] by {
      if n in d.kids[p] { ChildFacts(d, p, n); }
    }
    AttachRanked(d, p, n, i);
    AttachLinked(d, p, n, i);
    forall q | q in r.kids ensures Distinct(r.kids[q]) {
      if q == p {
        InsertAtMembers(d.kids[p], i, n, n);
      }
    }
  }

  lemma AttachLinked(d: Store, p: NodeId, n: NodeId, i: nat)
    requires WF(d) && p in d.kids && n in d.kids && n !in d.parent && n !in d.kids[p]
    requires i <= |d.kids[p]|
    ensures Linked(Attach(d, p, n, i))
  {
    var r := Attach(d, p, n, i);
    forall q, j | q in r.kids && 0 <= j < |r.kids[q]|
      ensures r.kids[q][j] in r.parent && r.parent[r.kids[q][j]] == q
    {
      var y := r.kids[q][j];
      if q == p {
        InsertAtMembers(d.kids[p], i, n, y);
        if y != n { ChildFacts(d, p, y); }
      } else {
        assert y != n by { if y == n { ChildFacts(d, q, n); } }
      }
    }
    forall c | c in r.parent ensures r.parent[c] in r.kids && c in r.kids[r.parent[c]] {
      if c != n && d.parent[c] == p {
        InsertAtMembers(d.kids[p], i, n, c);
      }
    }
  }

  /**
   * The common core of insertBefore() and appendChild(): `n` leaves its
   * current parent (if any) and is put into the child list of `p` at
   * position `i` of the list that remains once `n` has left it.
   */
  function Move(s: Store, p: NodeId, n: NodeId, i: nat): (r: Store)
    requires p in s.kids && i <= |Detach(s, n).kids[p]|
    ensures Labels(s, r) && r.kids.Keys == s.kids.Keys
    ensures r.parent == (s.parent - {n})[n := p]
  {
    Attach(Detach(s, n), p, n, i)
  }

  /** The parent links after all of `xs` have been moved under `to`. */
  ghost function Adopted(m: map<NodeId, NodeId>, xs: seq<NodeId>, to: NodeId): (r: map<NodeId, NodeId>)
    ensures r.Keys == m.Keys + set x | x in xs
  {
    m + map x | x in xs :: to
  }

  lemma AdoptedStep(m: map<NodeId, NodeId>, xs: seq<NodeId>, i: nat, to: NodeId)
    requires i < |xs|
    ensures Adopted(m, xs[..i], to)[xs[i] := to] == Adopted(m, xs[..i + 1], to)
  {
    assert xs[..i + 1] == xs[..i] + [xs[i]];
  }

  /** Moving a node below a node of higher rank keeps the tree well formed. */
  lemma MoveKeepsWF(s: Store, p: NodeId, n: NodeId, i: nat)
    requires WF(s) && p in s.kids && n in s.kids && s.info.rank[n] < s.info.rank[p]
    requires i <= |Detach(s, n).kids[p]|
    ensures WF(Move(s, p, n, i))
  {
    DetachKeepsWF(s, n);
    AttachKeepsWF(Detach(s, n), p, n, i);
  }

  /** Moving `n` changes the child lists of its old and new parents and its own parent link, nothing else. */
  lemma MoveFrame(s: Store, p: NodeId, n: NodeId, i: nat)
    requires p in s.kids && i <= |Detach(s, n).kids[p]|
    ensures KidsFrame(s, Move(s, p, n, i), {p} + (if n in s.parent then {s.parent[n]} else {}))
    ensures ParentFrame(s, Move(s, p, n, i), {n})
  {
    var d := {p} + (if n in s.parent then {s.parent[n]} else {});
    var r := Move(s, p, n, i);
    assert r.kids - d == s.kids - d;
    assert r.parent - {n} == s.parent - {n};
  }

  /**
   * document.createElement(name): a fresh, detached, childless element with
   * no id, of the rank the caller chooses.
   */
  function CreateElement(s: Store, name: string, rank: nat): (r: Store)
    ensures r.info.size == s.info.size + 1 && r.parent == s.parent
  {
    s.(kids := s.kids[s.info.size := []],
       info := Info(s.info.tag[s.info.size := name], s.info.ident[s.info.size := ""],
                    s.info.rank[s.info.size := rank], s.info.size + 1))
  }

  /** The new element is a fresh node, and the tree stays well formed. */
  lemma CreateKeepsWF(s: Store, name: string, rank: nat)
    requires WF(s)
    ensures var r := CreateElement(s, name, rank);
      s.info.size !in s.kids && WF(r) && r.kids[s.info.size] == []
  {
    assert s.info.size !in s.kids;
    CreateLinked(s, name, rank);
    CreateRanked(s, name, rank);
  }

  lemma CreateLinked(s: Store, name: string, rank: nat)
    requires WF(s)
    ensures Linked(CreateElement(s, name, rank))
  {
    var r := CreateElement(s, name, rank);
    assert s.info.size !in s.kids;
    forall p, i | p in r.kids && 0 <= i < |r.kids[p]|
      ensures r.kids[p][i] in r.parent && r.parent[r.kids[p][i]] == p
    {
      assert p != s.info.size;
    }
  }

  lemma CreateRanked(s: Store, name: string, rank: nat)
    requires WF(s)
    ensures Ranked(CreateElement(s, name, rank))
  {
    var r := CreateElement(s, name, rank);
    assert s.info.size !in s.kids;
    forall p, i | p in r.kids && 0 <= i < |r.kids[p]|
      ensures r.kids[p][i] in r.kids && r.info.rank[r.kids[p][i]] < r.info.rank[p]
    {
      assert p != s.info.size && s.kids[p][i] in s.kids;
    }
  }

  /**
   * A new rank for `n` that is still below the rank of its parent and not
   * below its old rank keeps the ranks in order.
   */
  lemma RaiseKeepsWF(s: Store, n: NodeId, r: nat)
    requires WF(s) && n in s.kids && s.info.rank[n] <= r
    requires n in s.parent ==> r < s.info.rank[s.parent[n]]
    ensures WF(s.(info := s.info.(rank := s.info.rank[n := r])))
  {
    var t := s.(info := s.info.(rank := s.info.rank[n := r]));
    forall p, i | p in t.kids && 0 <= i < |t.kids[p]|
      ensures t.kids[p][i] in t.kids && t.info.rank[t.kids[p][i]] < t.info.rank[p]
    {
      if t.kids[p][i] == n {
        ChildFacts(s, p, n);
      }
    }
  }

  // ---------------------------------------------------------------------
  // Subtrees

  /** The node `n` and all its descendants. */
  ghost function Desc(s: Store, n: NodeId): (d: set<NodeId>)
    requires Ranked(s) && n in s.kids
    ensures n in d
    ensures forall x :: x in d ==> x in s.kids && s.info.rank[x] <= s.info.rank[n]
    decreases s.info.rank[n], 1
  {
    {n} + DescAll(s, s.kids[n], s.info.rank[n])
  }

  /** The union of the subtrees of the nodes `ks`, all of rank below `bound`. */
  ghost function DescAll(s: Store, ks: seq<NodeId>, bound: nat): (d: set<NodeId>)
    requires Ranked(s) && forall k :: k in ks ==> k in s.kids && s.info.rank[k] < bound
    ensures forall k :: k in ks ==> k in d
    ensures forall x :: x in d ==> x in s.kids && s.info.rank[x] < bound
    decreases bound, 0, |ks|
  {
    if ks == [] then {}
    else DescAll(s, ks[..|ks| - 1], bound) + Desc(s, ks[|ks| - 1])
  }

  /** The subtree of a child lies inside the subtree of its parent. */
  lemma ChildDesc(s: Store, c: NodeId, k: NodeId)
    requires Ranked(s) && c in s.kids && k in s.kids[c]
    ensures k in s.kids && Desc(s, k) <= Desc(s, c)
  {
    KidsBelow(s, c);
    DescAllHas(s, s.kids[c], s.info.rank[c], k);
  }

  lemma DescAllPrefix(s: Store, ks: seq<NodeId>, bound: nat, j: nat)
    requires Ranked(s) && forall k :: k in ks ==> k in s.kids && s.info.rank[k] < bound
    requires j < |ks|
    ensures DescAll(s, ks[..j + 1], bound) == DescAll(s, ks[..j], bound) + Desc(s, ks[j])
  {
    assert ks[..j + 1][..j] == ks[..j];
  }

  /** Every node of a subtree other than its root hangs below a node of the subtree. */
  lemma {:induction false} DescUp(s: Store, n: NodeId, x: NodeId)
    requires WF(s) && n in s.kids && x in Desc(s, n) && x != n
    ensures x in s.parent && s.parent[x] in Desc(s, n) && s.info.rank[x] < s.info.rank[n]
    decreases s.info.rank[n], 1
  {
    if x in s.kids[n] {
      ChildFacts(s, n, x);
    } else {
      DescAllUp(s, s.kids[n], s.info.rank[n], x);
    }
  }

  lemma {:induction false} DescAllUp(s: Store, ks: seq<NodeId>, bound: nat, x: NodeId)
    requires WF(s) && forall k :: k in ks ==> k in s.kids && s.info.rank[k] < bound
    requires x in DescAll(s, ks, bound) && x !in ks
    ensures x in s.parent && s.parent[x] in DescAll(s, ks, bound)
    decreases bound, 0, |ks|
  {
    var pre, k := ks[..|ks| - 1], ks[|ks| - 1];
    if x in DescAll(s, pre, bound) {
      DescAllUp(s, pre, bound, x);
    } else {
      DescUp(s, k, x);
    }
  }

  /** The subtrees of two different children of one parent do not meet. */
  lemma DescDisjoint(s: Store, m: NodeId, n: NodeId)
    requires WF(s) && m in s.parent && n in s.parent && s.parent[m] == s.parent[n] && m != n
    ensures Desc(s, m) !! Desc(s, n)
  {
    forall x | x in Desc(s, m) ensures x !in Desc(s, n) {
      DescClimb(s, m, n, x);
    }
  }

  lemma {:induction false} DescClimb(s: Store, m: NodeId, n: NodeId, x: NodeId)
    requires WF(s) && m in s.parent && n in s.parent && s.parent[m] == s.parent[n] && m != n
    requires x in Desc(s, m)
    ensures x !in Desc(s, n)
    decreases s.info.rank[m] - s.info.rank[x]
  {
    if x in Desc(s, n) {
      var p := s.parent[m];
      ChildFacts(s, p, m);
      ChildFacts(s, p, n);
      if x == m {
        DescUp(s, n, m);
        assert false;
      } else if x == n {
        DescUp(s, m, n);
        assert false;
      } else {
        DescUp(s, m, x);
        DescUp(s, n, x);
        DescClimb(s, m, n, s.parent[x]);
        assert false;
      }
    }
  }

  /** No node of `ks` lies in the subtree of `n`, a sibling not among `ks`. */
  lemma DescAllDisjoint(s: Store, c: NodeId, ks: seq<NodeId>, n: NodeId)
    requires WF(s) && c in s.kids && n in s.kids[c] && n !in ks
    requires forall k :: k in ks ==> k in s.kids[c]
    ensures forall k :: k in ks ==> k in s.kids && s.info.rank[k] < s.info.rank[c]
    ensures DescAll(s, ks, s.info.rank[c]) !! Desc(s, n)
    decreases |ks|
  {
    forall k | k in ks ensures k in s.kids && s.info.rank[k] < s.info.rank[c] { ChildFacts(s, c, k); }
    ChildFacts(s, c, n);
    if ks != [] {
      DescAllDisjoint(s, c, ks[..|ks| - 1], n);
      var k := ks[|ks| - 1];
      ChildFacts(s, c, k);
      DescDisjoint(s, k, n);
    }
  }

  /** The subtrees of the first `i` children of `c`. */
  ghost function Upto(s: Store, c: NodeId, i: nat): (d: set<NodeId>)
    requires Ranked(s) && c in s.kids && i <= |s.kids[c]|
    ensures c !in d
    ensures forall x :: x in d ==> x in s.kids && s.info.rank[x] < s.info.rank[c]
  {
    KidsBelow(s, c);
    DescAll(s, s.kids[c][..i], s.info.rank[c])
  }

  /** Adding child number `i` of the snapshot adds its subtree, which is new. */
  lemma UptoStep(s: Store, c: NodeId, i: nat)
    requires WF(s) && c in s.kids && 0 < i <= |s.kids[c]|
    ensures s.kids[c][i - 1] in s.kids && s.info.rank[s.kids[c][i - 1]] < s.info.rank[c]
    ensures Upto(s, c, i) == Upto(s, c, i - 1) + Desc(s, s.kids[c][i - 1])
    ensures Upto(s, c, i - 1) !! Desc(s, s.kids[c][i - 1])
    ensures c !in Desc(s, s.kids[c][i - 1])
  {
    var xs := s.kids[c];
    KidsBelow(s, c);
    DescAllPrefix(s, xs, s.info.rank[c], i - 1);
    assert xs[..i] == xs[..i - 1 + 1];
    DescAllDisjoint(s, c, xs[..i - 1], xs[i - 1]);
  }

  /** The first `i` children of the snapshot lie in the first `i` subtrees. */
  lemma UptoHas(s: Store, c: NodeId, i: nat, j: nat)
    requires Ranked(s) && c in s.kids && j < i <= |s.kids[c]|
    ensures s.kids[c][j] in Upto(s, c, i)
  {
    var xs := s.kids[c];
    KidsBelow(s, c);
    assert xs[j] in xs[..i];
    DescAllHas(s, xs[..i], s.info.rank[c], xs[j]);
  }

  /** More children of the snapshot cover more of the subtree. */
  lemma {:induction false} UptoMono(s: Store, c: NodeId, i: nat, j: nat)
    requires Ranked(s) && c in s.kids && i <= j <= |s.kids[c]|
    ensures Upto(s, c, i) <= Upto(s, c, j)
    decreases j - i
  {
    if i < j {
      UptoMono(s, c, i, j - 1);
      var xs := s.kids[c];
      KidsBelow(s, c);
      DescAllPrefix(s, xs, s.info.rank[c], j - 1);
      assert xs[..j - 1 + 1] == xs[..j];
      assert Upto(s, c, j) == Upto(s, c, j - 1) + Desc(s, xs[j - 1]);
    }
  }

  /** All of the snapshot: the whole subtree below `c`. */
  lemma UptoAll(s: Store, c: NodeId)
    requires Ranked(s) && c in s.kids
    ensures Desc(s, c) == {c} + Upto(s, c, |s.kids[c]|)
  {
    assert s.kids[c][..|s.kids[c]|] == s.kids[c];
  }

  /** The children of every node of `d` are the same in `s` and `t`. */
  ghost predicate KidsAgree(s: Store, t: Store, d: set<NodeId>) {
    forall x :: x in d ==> x in s.kids && x in t.kids && t.kids[x] == s.kids[x]
  }

  /** A subtree depends only on the child lists of its own nodes. */
  lemma {:induction false} DescFrame(s: Store, t: Store, n: NodeId)
    requires Ranked(s) && Ranked(t) && t.info.rank == s.info.rank && n in s.kids
    requires KidsAgree(s, t, Desc(s, n))
    ensures n in t.kids && Desc(t, n) == Desc(s, n)
    decreases s.info.rank[n]
  {
    var ks := s.kids[n];
    forall k | k in ks ensures k in t.kids && s.info.rank[k] < s.info.rank[n] && Desc(t, k) == Desc(s, k) {
      DescAllHas(s, ks, s.info.rank[n], k);
      KidsAgreeSub(s, t, Desc(s, k), Desc(s, n));
      DescFrame(s, t, k);
    }
    DescAllSame(s, t, ks, s.info.rank[n]);
  }

  /** The subtree of a member of `ks` is part of their union. */
  lemma {:induction false} DescAllHas(s: Store, ks: seq<NodeId>, bound: nat, k: NodeId)
    requires Ranked(s) && forall j :: j in ks ==> j in s.kids && s.info.rank[j] < bound
    requires k in ks
    ensures Desc(s, k) <= DescAll(s, ks, bound)
    decreases |ks|
  {
    if k != ks[|ks| - 1] {
      assert k in ks[..|ks| - 1];
      DescAllHas(s, ks[..|ks| - 1], bound, k);
    }
  }

  /** Unions of equal subtrees are equal. */
  lemma {:induction false} DescAllSame(s: Store, t: Store, ks: seq<NodeId>, bound: nat)
    requires Ranked(s) && Ranked(t)
    requires forall k :: k in ks ==> k in s.kids && k in t.kids && s.info.rank[k] < bound && t.info.rank[k] < bound
    requires forall k :: k in ks ==> Desc(t, k) == Desc(s, k)
    ensures DescAll(t, ks, bound) == DescAll(s, ks, bound)
    decreases |ks|
  {
    if ks != [] {
      DescAllSame(s, t, ks[..|ks| - 1], bound);
    }
  }

  lemma KidsAgreeSub(s: Store, t: Store, a: set<NodeId>, b: set<NodeId>)
    requires a <= b && KidsAgree(s, t, b)
    ensures KidsAgree(s, t, a)
  {
  }

  // ---------------------------------------------------------------------
  // Subtrees as values

  /** A node with its subtree, as a value: its name, its id and its children in order. */
  datatype Tree = Tree(tag: string, ident: string, kids: seq<Tree>)

  /** The subtree below `n`, read off the store. */
  ghost function View(s: Store, n: NodeId): (t: Tree)
    requires Ranked(s) && n in s.kids
    ensures |t.kids| == |s.kids[n]|
    decreases s.info.rank[n]
  {
    Tree(s.info.tag[n], s.info.ident[n],
         seq(|s.kids[n]|, j requires 0 <= j < |s.kids[n]| => ChildRank(s, n, s.kids[n][j]); View(s, s.kids[n][j])))
  }

  /** The subtrees of the nodes `ks`, in order. */
  ghost function Views(s: Store, ks: seq<NodeId>): (ts: seq<Tree>)
    requires Ranked(s) && forall j :: 0 <= j < |ks| ==> ks[j] in s.kids
    ensures |ts| == |ks| && forall j :: 0 <= j < |ks| ==> ts[j] == View(s, ks[j])
  {
    seq(|ks|, j requires 0 <= j < |ks| => View(s, ks[j]))
  }

  /** The children of a subtree are the subtrees of the children. */
  lemma ViewKids(s: Store, n: NodeId)
    requires Ranked(s) && n in s.kids
    ensures View(s, n).kids == Views(s, s.kids[n])
  {
  }

  lemma ViewsAppend(s: Store, a: seq<NodeId>, b: seq<NodeId>)
    requires Ranked(s) && (forall j :: 0 <= j < |a| ==> a[j] in s.kids) && (forall j :: 0 <= j < |b| ==> b[j] in s.kids)
    ensures forall j :: 0 <= j < |a + b| ==> (a + b)[j] in s.kids
    ensures Views(s, a + b) == Views(s, a) + Views(s, b)
  {
  }

  /** A subtree value depends only on the child lists inside the subtree. */
  lemma {:induction false} ViewFrame(s: Store, t: Store, n: NodeId)
    requires Ranked(s) && Ranked(t) && t.info == s.info && n in s.kids
    requires KidsAgree(s, t, Desc(s, n))
    ensures n in t.kids && View(t, n) == View(s, n)
    decreases s.info.rank[n]
  {
    var ks := s.kids[n];
    forall k | k in ks ensures k in t.kids && View(t, k) == View(s, k) {
      DescAllHas(s, ks, s.info.rank[n], k);
      KidsAgreeSub(s, t, Desc(s, k), Desc(s, n));
      ViewFrame(s, t, k);
    }
    ViewKids(s, n);
    ViewKids(t, n);
  }

  /** Changes confined to `d`: the child lists outside `d` are unchanged. */
  ghost predicate KidsFrame(s: Store, r: Store, d: set<NodeId>) {
    r.kids - d == s.kids - d
  }

  /** Changes confined to `d`: the parent links outside `d` are unchanged. */
  ghost predicate ParentFrame(s: Store, r: Store, d: set<NodeId>) {
    r.parent - d == s.parent - d
  }

  lemma KidsFrameAt(s: Store, r: Store, d: set<NodeId>, x: NodeId)
    requires KidsFrame(s, r, d) && x !in d
    ensures x in r.kids <==> x in s.kids
    ensures x in s.kids ==> r.kids[x] == s.kids[x]
  {
    assert x in r.kids <==> x in r.kids - d;
    assert x in s.kids <==> x in s.kids - d;
    if x in s.kids {
      assert (s.kids - d)[x] == s.kids[x];
      assert (r.kids - d)[x] == r.kids[x];
    }
  }

  lemma ParentFrameAt(s: Store, r: Store, d: set<NodeId>, x: NodeId)
    requires ParentFrame(s, r, d) && x !in d
    ensures SameParent(s, r, x)
  {
    assert x in r.parent <==> x in r.parent - d;
    assert x in s.parent <==> x in s.parent - d;
    if x in s.parent {
      assert (s.parent - d)[x] == s.parent[x];
      assert (r.parent - d)[x] == r.parent[x];
    }
  }

  lemma KidsFrameTrans(s: Store, t: Store, u: Store, a: set<NodeId>, b: set<NodeId>, d: set<NodeId>)
    requires KidsFrame(s, t, a) && KidsFrame(t, u, b) && a + b <= d
    ensures KidsFrame(s, u, d)
  {
    forall x | x !in d ensures (x in u.kids <==> x in s.kids) && (x in s.kids ==> u.kids[x] == s.kids[x]) {
      KidsFrameAt(s, t, a, x);
      KidsFrameAt(t, u, b, x);
    }
    assert u.kids - d == s.kids - d;
  }

  lemma ParentFrameTrans(s: Store, t: Store, u: Store, a: set<NodeId>, b: set<NodeId>, d: set<NodeId>)
    requires ParentFrame(s, t, a) && ParentFrame(t, u, b) && a + b <= d
    ensures ParentFrame(s, u, d)
  {
    forall x | x !in d ensures SameParent(s, u, x) {
      ParentFrameAt(s, t, a, x);
      ParentFrameAt(t, u, b, x);
    }
    assert u.parent - d == s.parent - d;
  }

  /**
   * Changes so far confined to `{c} + u`; the next region `d` is untouched,
   * and so is the parent link of its root `k`.
   */
  lemma FrameUntouched(s: Store, t: Store, c: NodeId, k: NodeId, u: set<NodeId>, d: set<NodeId>)
    requires KidsFrame(s, t, {c} + u) && ParentFrame(s, t, u)
    requires u !! d && c !in d && k in d
    requires forall x :: x in d ==> x in s.kids
    ensures KidsAgree(s, t, d) && SameParent(s, t, k)
  {
    forall x | x in d ensures x in s.kids && x in t.kids && t.kids[x] == s.kids[x] {
      KidsFrameAt(s, t, {c} + u, x);
    }
    ParentFrameAt(s, t, u, k);
  }

  /**
   * Changes so far confined to the list of `c`, the nodes `o` above `c` and
   * the subtrees of the first `i` children of the snapshot: child `i` is
   * still below `c`, with its subtree as it was.
   */
  lemma SnapshotUntouched(s0: Store, t: Store, c: NodeId, o: set<NodeId>, i: nat)
    requires WF(s0) && WF(t) && t.info == s0.info && c in s0.kids && i < |s0.kids[c]|
    requires forall x :: x in o ==> x in s0.kids && s0.info.rank[c] < s0.info.rank[x]
    requires KidsFrame(s0, t, {c} + (o + Upto(s0, c, i))) && ParentFrame(s0, t, Upto(s0, c, i))
    ensures var k := s0.kids[c][i];
      && k in s0.kids && k in t.kids && s0.info.rank[k] < s0.info.rank[c]
      && k in t.parent && t.parent[k] == c && c !in Desc(s0, k) && o !! Desc(s0, k)
      && KidsAgree(s0, t, Desc(s0, k)) && Desc(t, k) == Desc(s0, k)
  {
    var k := s0.kids[c][i];
    UptoStep(s0, c, i + 1);
    ChildFacts(s0, c, k);
    ParentFrameAt(s0, t, o + Upto(s0, c, i), k) by {
      ParentFrameTrans(s0, t, t, Upto(s0, c, i), {}, o + Upto(s0, c, i));
    }
    FrameUntouched(s0, t, c, k, o + Upto(s0, c, i), Desc(s0, k)) by {
      ParentFrameTrans(s0, t, t, Upto(s0, c, i), {}, o + Upto(s0, c, i));
    }
    DescFrame(s0, t, k);
  }

  /** Confined changes compose: `{c} + u` then `{c} + d` gives `{c} + (u + d)`. */
  lemma FrameStep(s: Store, t: Store, r: Store, c: NodeId, u: set<NodeId>, d: set<NodeId>, u2: set<NodeId>)
    requires KidsFrame(s, t, {c} + u) && ParentFrame(s, t, u)
    requires KidsFrame(t, r, {c} + d) && ParentFrame(t, r, d)
    requires u2 == u + d
    ensures KidsFrame(s, r, {c} + u2) && ParentFrame(s, r, u2)
  {
    KidsFrameTrans(s, t, r, {c} + u, {c} + d, {c} + u2);
    ParentFrameTrans(s, t, r, u, d, u2);
  }
}
