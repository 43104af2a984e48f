/**
 * `_splitParentNode(container, name)`: every child of the container
 * contributes one piece, appended to the END of the container's parent (the
 * second argument of its `appendChild` call is ignored by the DOM). A child
 * named `name` contributes its first child; any other child is moved into a
 * fresh `name` element, which is the piece. The `name` children themselves
 * stay in the container.
 */
module Split {
  import opened Dom
  import opened Document
  import Merge

  /** `x` is an element called `name`. */
  ghost predicate Named(s: Store, name: string, x: NodeId) {
    x in s.info.tag && s.info.tag[x] == name
  }

  /** How many of `xs` are not called `name`: one wrapper is made for each of them. */
  ghost function Unnamed(s: Store, name: string, xs: seq<NodeId>): (m: nat)
    ensures m <= |xs|
    decreases |xs|
  {
    if xs == [] then 0
    else Unnamed(s, name, xs[..|xs| - 1]) + (if Named(s, name, xs[|xs| - 1]) then 0 else 1)
  }

  /** The members of `xs` called `name`, in order. */
  ghost function NamedOnly(s: Store, name: string, xs: seq<NodeId>): (ys: seq<NodeId>)
    ensures forall y :: y in ys ==> y in xs && Named(s, name, y)
    decreases |xs|
  {
    if xs == [] then []
    else NamedOnly(s, name, xs[..|xs| - 1]) + (if Named(s, name, xs[|xs| - 1]) then [xs[|xs| - 1]] else [])
  }

  /**
   * The piece child `x` contributes once `made` wrappers exist: its first
   * child when it is called `name` (it has one whenever the split goes
   * through), else the next fresh node.
   */
  ghost function Piece(s: Store, name: string, x: NodeId, made: nat): NodeId {
    if Named(s, name, x) then (if x in s.kids && s.kids[x] != [] then s.kids[x][0] else x)
    else s.info.size + made
  }

  /** The pieces the children `xs` contribute, in order. */
  ghost function Pieces(s: Store, name: string, xs: seq<NodeId>): (ps: seq<NodeId>)
    ensures |ps| == |xs|
    decreases |xs|
  {
    if xs == [] then []
    else
      var init := xs[..|xs| - 1];
      Pieces(s, name, init) + [Piece(s, name, xs[|xs| - 1], Unnamed(s, name, init))]
  }

  /** The names, ids and ranks after `m` elements called `name`, of rank `r`, have been created. */
  ghost function Grown(info: Info, name: string, r: nat, m: nat): (g: Info)
    ensures g.size == info.size + m
  {
    if m == 0 then info
    else
      var p := Grown(info, name, r, m - 1);
      Info(p.tag[p.size := name], p.ident[p.size := ""], p.rank[p.size := r], p.size + 1)
  }

  /** The ids `base`, ..., `base + m - 1`. */
  ghost function Fresh(base: nat, m: nat): (ns: set<NodeId>)
    ensures forall n :: n in ns <==> base <= n < base + m
  {
    if m == 0 then {} else Fresh(base, m - 1) + {base + m - 1}
  }

  /**
   * Every child called `name` has a first child: `appendChild` is never
   * handed `null`.
   */
  ghost predicate HasFirsts(s: Store, name: string, xs: seq<NodeId>) {
    // Comparing the conjunction with `true` changes nothing in its meaning: it keeps
    // the body one fact where the predicate is assumed, so the verifier does not split
    // it into separate conjuncts in every caller (the other `== true` bodies are the same).
    (forall j :: 0 <= j < |xs| && Named(s, name, xs[j]) ==> xs[j] in s.kids && s.kids[xs[j]] != []) == true
  }

  /**
   * The store once the first `i` children of the snapshot `xs` of `c` have
   * been split off: the parent `g` of `c` has their pieces at its end, `c`
   * keeps its `name` children of those `i` and the children not yet reached,
   * each `name` child has lost its first child, each wrapper holds exactly
   * the child it wraps, and every other child list is as it was.
   */
  ghost predicate SplitAt(s0: Store, t: Store, c: NodeId, g: NodeId, name: string, xs: seq<NodeId>, i: nat)
    requires i <= |xs|
  {
    (Shape(s0, t, c, g, name, xs, i) && FirstsGone(s0, t, name, xs, i)
     && Wrapped(s0, t, name, xs, i) && Untouched(s0, t, c, g, name, xs, i)) == true
  }

  /** The names, ids and ranks, the allocated nodes and the child lists of `g` and `c` after `i` turns. */
  ghost predicate Shape(s0: Store, t: Store, c: NodeId, g: NodeId, name: string, xs: seq<NodeId>, i: nat)
    requires i <= |xs|
  {
    (var done := xs[..i];
     var made := Unnamed(s0, name, done);
     && c in s0.kids && g in s0.kids && c in s0.info.rank
     && t.info == Grown(s0.info, name, s0.info.rank[c], made)
     && t.kids.Keys == s0.kids.Keys + Fresh(s0.info.size, made)
     && t.kids[g] == s0.kids[g] + Pieces(s0, name, done)
     && t.kids[c] == NamedOnly(s0, name, done) + xs[i..]) == true
  }

  /** Each of the first `i` children called `name` has lost its first child. */
  ghost predicate FirstsGone(s0: Store, t: Store, name: string, xs: seq<NodeId>, i: nat)
    requires i <= |xs|
  {
    forall j :: 0 <= j < i && Named(s0, name, xs[j]) ==>
      xs[j] in s0.kids && s0.kids[xs[j]] != [] && xs[j] in t.kids && t.kids[xs[j]] == s0.kids[xs[j]][1..]
  }

  /** The wrapper made for child number `j` of `xs`: the next fresh id after those made for the children before it. */
  ghost function WrapperOf(s0: Store, name: string, xs: seq<NodeId>, j: nat): NodeId
    requires j <= |xs|
  {
    s0.info.size + Unnamed(s0, name, xs[..j])
  }

  /** Each of the first `i` children not called `name` is the only child of its wrapper. */
  ghost predicate Wrapped(s0: Store, t: Store, name: string, xs: seq<NodeId>, i: nat)
    requires i <= |xs|
  {
    forall j :: 0 <= j < i && !Named(s0, name, xs[j]) ==>
      WrapperOf(s0, name, xs, j) in t.kids && t.kids[WrapperOf(s0, name, xs, j)] == [xs[j]]
  }

  /** Every other child list of `s0` is as it was. */
  ghost predicate Untouched(s0: Store, t: Store, c: NodeId, g: NodeId, name: string, xs: seq<NodeId>, i: nat)
    requires i <= |xs|
  {
    forall m :: m in s0.kids && m != g && m != c && !(m in xs[..i] && Named(s0, name, m)) ==>
      m in t.kids && t.kids[m] == s0.kids[m]
  }

  /** Creating elements leaves the names, ids and ranks of the nodes that already exist alone. */
  lemma {:induction false} GrownOld(info: Info, name: string, r: nat, m: nat, n: NodeId)
    requires n in info.tag && n in info.ident && n in info.rank && n < info.size
    ensures var g := Grown(info, name, r, m);
      n in g.tag && n in g.ident && n in g.rank
      && g.tag[n] == info.tag[n] && g.ident[n] == info.ident[n] && g.rank[n] == info.rank[n]
  {
    if m > 0 {
      GrownOld(info, name, r, m - 1, n);
    }
  }

  /** A child not called `name` before position `i` had its wrapper made before the `i`-th. */
  lemma {:induction false} UnnamedGrows(s: Store, name: string, xs: seq<NodeId>, j: nat, i: nat)
    requires j < i <= |xs| && !Named(s, name, xs[j])
    ensures Unnamed(s, name, xs[..j]) < Unnamed(s, name, xs[..i])
    decreases i
  {
    assert xs[..i][..i - 1] == xs[..i - 1];
    if i > j + 1 {
      UnnamedGrows(s, name, xs, j, i - 1);
    }
  }

  /** The `name` children among a prefix of `xs` all come from that prefix. */
  lemma NamedOnlyPrefix(s: Store, name: string, xs: seq<NodeId>, i: nat, x: NodeId)
    requires i <= |xs| && x in NamedOnly(s, name, xs[..i])
    ensures x in xs[..i]
  {
  }

  /**
   * What the loop of `SplitParentNode` needs to know of the store `s0` it
   * starts from: `xs` is the child list of `c`, a list of distinct nodes of
   * lower rank; the parent of `c`, if any, is another node of higher rank;
   * every node id is below the next fresh one.
   */
  ghost predicate Setup(s0: Store, c: NodeId, name: string, xs: seq<NodeId>) {
    (&& c in s0.kids && xs == s0.kids[c] && Distinct(xs) && c !in xs
     && s0.info.rank.Keys == s0.kids.Keys && s0.info.tag.Keys == s0.kids.Keys && s0.info.ident.Keys == s0.kids.Keys
     && (forall n :: n in s0.kids ==> n < s0.info.size)
     && (forall j :: 0 <= j < |xs| ==> xs[j] in s0.kids && s0.info.rank[xs[j]] < s0.info.rank[c])
     && (c in s0.parent ==>
           && s0.parent[c] in s0.kids && s0.parent[c] != c && s0.parent[c] !in xs && c in s0.kids[s0.parent[c]]
           && s0.info.rank[c] < s0.info.rank[s0.parent[c]])) == true
  }

  lemma SetupHolds(s0: Store, c: NodeId, name: string)
    requires WF(s0) && c in s0.kids
    ensures Setup(s0, c, name, s0.kids[c])
  {
    var xs := s0.kids[c];
    KidsBelow(s0, c);
    assert c !in xs by {
      if c in xs {
        ChildRank(s0, c, c);
      }
    }
    assert forall j :: 0 <= j < |xs| ==> xs[j] in s0.kids && s0.info.rank[xs[j]] < s0.info.rank[c];
    if c in s0.parent {
      var g := s0.parent[c];
      ChildFacts(s0, g, c);
      if g in xs {
        ChildRank(s0, c, g);
      }
    }
  }

  /** The loop only ever adds nodes. */
  lemma ProgressKeys(s0: Store, t: Store, c: NodeId, name: string, xs: seq<NodeId>, i: nat)
    requires i <= |xs| && Progress(s0, t, c, name, xs, i)
    ensures s0.kids.Keys <= t.kids.Keys
  {
    if c in s0.parent {
      assert Shape(s0, t, c, s0.parent[c], name, xs, i);
    }
  }

  /** Before the first turn, nothing has been split off yet. */
  lemma StartSplit(s0: Store, c: NodeId, name: string, xs: seq<NodeId>)
    requires Setup(s0, c, name, xs) && c in s0.parent
    ensures SplitAt(s0, s0, c, s0.parent[c], name, xs, 0)
  {
    var g := s0.parent[c];
    assert xs[..0] == [] && xs[0..] == xs;
    assert s0.kids.Keys + Fresh(s0.info.size, 0) == s0.kids.Keys;
    assert s0.kids[g] + [] == s0.kids[g];
  }

  /**
   * What a turn of the loop knows about child number `i` of `c` in the
   * current store `t`: the child is still as it was in `s0`, it names `c` as
   * its parent and ranks between its first child and `c`, the child lists of
   * `c` and of the child have no repetitions, the next fresh id is unused,
   * and `c` keeps the parent `g` it had in `s0`, which neither holds the next
   * fresh id nor the child's first child.
   */
  ghost predicate Reached(s0: Store, t: Store, c: NodeId, name: string, xs: seq<NodeId>, i: nat)
    requires i < |xs|
  {
    var x := xs[i];
    (&& x in t.kids && c in t.kids && x != c
     && x in s0.info.tag && x in t.info.tag && t.info.tag[x] == s0.info.tag[x]
     && x in s0.kids && t.kids[x] == s0.kids[x]
     && c in s0.info.rank && c in t.info.rank && x in t.info.rank
     && t.info.rank[c] == s0.info.rank[c] && t.info.rank[x] < t.info.rank[c]
     && x in t.parent && t.parent[x] == c
     && Distinct(t.kids[c]) && Distinct(t.kids[x])
     && (t.kids[x] != [] ==>
           && t.kids[x][0] in t.kids && t.kids[x][0] in t.info.rank && t.info.rank[t.kids[x][0]] < t.info.rank[x]
           && t.kids[x][0] in t.parent && t.parent[t.kids[x][0]] == x)
     && t.info.size !in t.kids && t.info.size !in t.parent
     && (c in t.parent <==> c in s0.parent)
     && (c in t.parent ==>
           && t.parent[c] == s0.parent[c] && t.parent[c] in t.kids && t.parent[c] != x && t.parent[c] != c
           && t.parent[c] in t.info.rank && t.info.rank[c] < t.info.rank[t.parent[c]]
           && t.info.size !in t.kids[t.parent[c]]
           && (t.kids[x] != [] ==> t.kids[x][0] !in t.kids[t.parent[c]]))) == true
  }

  /** Every turn of the loop reaches its child as `Reached` describes. */
  lemma NextChild(s0: Store, t: Store, c: NodeId, name: string, xs: seq<NodeId>, i: nat)
    requires Setup(s0, c, name, xs) && WF(t) && i < |xs| && Progress(s0, t, c, name, xs, i)
    ensures Reached(s0, t, c, name, xs, i)
  {
    var x := xs[i];
    if i > 0 {
      var g := s0.parent[c];
      var made := Unnamed(s0, name, xs[..i]);
      GrownOld(s0.info, name, s0.info.rank[c], made, x);
      GrownOld(s0.info, name, s0.info.rank[c], made, c);
      DistinctSplit(xs, i);
      assert x != g && x != c;
      assert t.kids[x] == s0.kids[x];
      assert c in s0.kids[g];
      assert c in t.kids[g];
      ChildFacts(t, g, c);
    } else if c in s0.parent {
      ChildFacts(t, s0.parent[c], c);
    }
    assert x in t.kids[c];
    ChildFacts(t, c, x);
    KidsBelow(t, x);
    if c in t.parent {
      TurnAtoms(t, c, x, t.parent[c]);
    } else {
      TurnAtoms(t, c, x, c);
    }
  }

  /** A `name` child without a first child makes the split throw. */
  lemma NoFirst(s0: Store, name: string, xs: seq<NodeId>, i: nat)
    requires i < |xs| && Named(s0, name, xs[i]) && xs[i] in s0.kids && s0.kids[xs[i]] == []
    ensures !HasFirsts(s0, name, xs)
  {
  }

  /**
   * What well-formedness says about a turn: the child `x` of `c` names `c`
   * as its parent, its first child names `x` and is not a child of `g`, the
   * two child lists have no repetitions, and the next fresh id is not in use.
   */
  lemma TurnAtoms(t: Store, c: NodeId, x: NodeId, g: NodeId)
    requires WF(t) && c in t.kids && x in t.kids[c] && g in t.kids && g != x
    ensures x in t.kids && x in t.parent && t.parent[x] == c
    ensures Distinct(t.kids[c]) && Distinct(t.kids[x])
    ensures t.kids[x] != [] ==> t.kids[x][0] in t.parent && t.parent[t.kids[x][0]] == x && t.kids[x][0] !in t.kids[g]
    ensures t.info.size !in t.kids && t.info.size !in t.parent && t.info.size !in t.kids[g]
  {
    ChildFacts(t, c, x);
    if t.kids[x] != [] {
      var f := t.kids[x][0];
      ChildFacts(t, x, f);
      if f in t.kids[g] {
        ChildFacts(t, g, f);
      }
    }
    if t.info.size in t.kids[g] {
      ChildFacts(t, g, t.info.size);
    }
  }

  /** A named turn keeps the first children of the earlier `name` children gone, and takes the next one's. */
  lemma NamedFirsts(s0: Store, t: Store, r: Store, name: string, xs: seq<NodeId>, i: nat, g: NodeId, a: seq<NodeId>, b: seq<NodeId>)
    requires i < |xs| && Distinct(xs) && g !in xs && FirstsGone(s0, t, name, xs, i)
    requires Named(s0, name, xs[i]) && xs[i] in s0.kids && s0.kids[xs[i]] != [] && b == s0.kids[xs[i]][1..]
    requires r.kids == t.kids[g := a][xs[i] := b]
    ensures FirstsGone(s0, r, name, xs, i + 1)
  {
    forall j | 0 <= j < i + 1 && Named(s0, name, xs[j])
      ensures xs[j] in s0.kids && s0.kids[xs[j]] != [] && xs[j] in r.kids && r.kids[xs[j]] == s0.kids[xs[j]][1..]
    {
      if j < i {
        assert xs[j] != xs[i] && xs[j] in xs;
      }
    }
  }

  /** A named turn makes no wrapper and leaves the earlier ones alone. */
  lemma NamedWrapped(s0: Store, t: Store, r: Store, name: string, xs: seq<NodeId>, i: nat, g: NodeId, a: seq<NodeId>, b: seq<NodeId>)
    requires i < |xs| && Named(s0, name, xs[i]) && g < s0.info.size && xs[i] < s0.info.size
    requires Wrapped(s0, t, name, xs, i) && r.kids == t.kids[g := a][xs[i] := b]
    ensures Wrapped(s0, r, name, xs, i + 1)
  {
  }

  /** A named turn touches no other child list. */
  lemma NamedUntouched(s0: Store, t: Store, r: Store, c: NodeId, g: NodeId, name: string, xs: seq<NodeId>, i: nat, a: seq<NodeId>, b: seq<NodeId>)
    requires i < |xs| && Named(s0, name, xs[i]) && Untouched(s0, t, c, g, name, xs, i)
    requires r.kids == t.kids[g := a][xs[i] := b]
    ensures Untouched(s0, r, c, g, name, xs, i + 1)
  {
    assert xs[..i + 1] == xs[..i] + [xs[i]];
  }

  /** A named turn appends the first child of the `name` child to `g` and keeps it in `c`. */
  lemma NamedShape(s0: Store, t: Store, r: Store, c: NodeId, g: NodeId, name: string, xs: seq<NodeId>, i: nat, b: seq<NodeId>)
    requires i < |xs| && Shape(s0, t, c, g, name, xs, i) && xs[i] != g && xs[i] != c && c != g
    requires Named(s0, name, xs[i]) && xs[i] in s0.kids && s0.kids[xs[i]] != []
    requires r.info == t.info && r.kids == t.kids[g := t.kids[g] + [s0.kids[xs[i]][0]]][xs[i] := b]
    ensures Shape(s0, r, c, g, name, xs, i + 1)
  {
    var x := xs[i];
    var done := xs[..i];
    assert xs[..i + 1][..i] == done && xs[..i + 1][i] == x;
    assert Unnamed(s0, name, xs[..i + 1]) == Unnamed(s0, name, done);
    assert Pieces(s0, name, xs[..i + 1]) == Pieces(s0, name, done) + [s0.kids[x][0]];
    assert NamedOnly(s0, name, xs[..i + 1]) == NamedOnly(s0, name, done) + [x];
    assert xs[i..] == [x] + xs[i + 1..];
  }

  /** The child lists after a turn for a child called `name`, given as a map update. */
  lemma NamedKids(s0: Store, t: Store, r: Store, c: NodeId, g: NodeId, name: string, xs: seq<NodeId>, i: nat)
    requires Setup(s0, c, name, xs) && c in s0.parent && g == s0.parent[c]
    requires i < |xs| && SplitAt(s0, t, c, g, name, xs, i)
    requires Named(s0, name, xs[i]) && xs[i] in t.kids && t.kids[xs[i]] != []
    requires r.info == t.info
    requires r.kids == t.kids[g := t.kids[g] + [t.kids[xs[i]][0]]][xs[i] := t.kids[xs[i]][1..]]
    ensures SplitAt(s0, r, c, g, name, xs, i + 1)
  {
    var x := xs[i];
    DistinctSplit(xs, i);
    assert x != g && x != c && x !in xs[..i];
    assert x in s0.kids && x < s0.info.size && g < s0.info.size;
    assert t.kids[x] == s0.kids[x];
    var a, b := t.kids[g] + [t.kids[x][0]], t.kids[x][1..];
    NamedFirsts(s0, t, r, name, xs, i, g, a, b);
    NamedWrapped(s0, t, r, name, xs, i, g, a, b);
    NamedUntouched(s0, t, r, c, g, name, xs, i, a, b);
    NamedShape(s0, t, r, c, g, name, xs, i, b);
  }

  /** A turn for a child called `name`: its first child moves to the end of `g`. */
  lemma NamedStep(s0: Store, t: Store, r: Store, c: NodeId, g: NodeId, name: string, xs: seq<NodeId>, i: nat)
    requires Setup(s0, c, name, xs) && c in s0.parent && g == s0.parent[c]
    requires i < |xs| && SplitAt(s0, t, c, g, name, xs, i)
    requires Named(s0, name, xs[i]) && xs[i] in t.kids && t.kids[xs[i]] != [] && Distinct(t.kids[xs[i]])
    requires t.kids[xs[i]][0] in t.parent && t.parent[t.kids[xs[i]][0]] == xs[i]
    requires g in t.kids && t.kids[xs[i]][0] !in t.kids[g]
    requires r == Move(t, g, t.kids[xs[i]][0], |Detach(t, t.kids[xs[i]][0]).kids[g]|)
    ensures SplitAt(s0, r, c, g, name, xs, i + 1)
  {
    DistinctSplit(xs, i);
    Merge.AppendFirst(t, xs[i], g);
    NamedKids(s0, t, r, c, g, name, xs, i);
  }

  /** A wrap turn leaves the first children of the earlier `name` children gone. */
  lemma WrapFirsts(s0: Store, t: Store, r: Store, c: NodeId, g: NodeId, name: string, xs: seq<NodeId>, i: nat, w: NodeId, a: seq<NodeId>, b: seq<NodeId>)
    requires i < |xs| && !Named(s0, name, xs[i]) && c !in xs && g !in xs && w !in t.kids
    requires FirstsGone(s0, t, name, xs, i)
    requires r.kids == t.kids[w := [xs[i]]][c := b][g := a]
    ensures FirstsGone(s0, r, name, xs, i + 1)
  {
    forall j | 0 <= j < i + 1 && Named(s0, name, xs[j])
      ensures xs[j] in s0.kids && s0.kids[xs[j]] != [] && xs[j] in r.kids && r.kids[xs[j]] == s0.kids[xs[j]][1..]
    {
      assert xs[j] in xs;
    }
  }

  /** A wrap turn adds the wrapper of the child it reaches and leaves the earlier ones alone. */
  lemma WrapWrapped(s0: Store, t: Store, r: Store, c: NodeId, g: NodeId, name: string, xs: seq<NodeId>, i: nat, a: seq<NodeId>, b: seq<NodeId>)
    requires i < |xs| && !Named(s0, name, xs[i]) && c < s0.info.size && g < s0.info.size
    requires Wrapped(s0, t, name, xs, i)
    requires r.kids == t.kids[WrapperOf(s0, name, xs, i) := [xs[i]]][c := b][g := a]
    ensures Wrapped(s0, r, name, xs, i + 1)
  {
    forall j | 0 <= j < i + 1 && !Named(s0, name, xs[j])
      ensures WrapperOf(s0, name, xs, j) in r.kids && r.kids[WrapperOf(s0, name, xs, j)] == [xs[j]]
    {
      var v := WrapperOf(s0, name, xs, j);
      if j < i {
        UnnamedGrows(s0, name, xs, j, i);
        assert r.kids[v] == t.kids[v];
      }
    }
  }

  /** A wrap turn touches no other child list of `s0`. */
  lemma WrapUntouched(s0: Store, t: Store, r: Store, c: NodeId, g: NodeId, name: string, xs: seq<NodeId>, i: nat, w: NodeId, a: seq<NodeId>, b: seq<NodeId>)
    requires i < |xs| && !Named(s0, name, xs[i]) && w !in s0.kids && Untouched(s0, t, c, g, name, xs, i)
    requires r.kids == t.kids[w := [xs[i]]][c := b][g := a]
    ensures Untouched(s0, r, c, g, name, xs, i + 1)
  {
    assert xs[..i + 1] == xs[..i] + [xs[i]];
  }

  /** A wrap turn allocates one `name` element, appends it to `g` and takes the child out of `c`. */
  lemma WrapShape(s0: Store, t: Store, r: Store, c: NodeId, g: NodeId, name: string, xs: seq<NodeId>, i: nat)
    requires i < |xs| && Shape(s0, t, c, g, name, xs, i) && !Named(s0, name, xs[i]) && c != g
    requires t.info.size !in t.kids
    requires r.info == Grown(t.info, name, s0.info.rank[c], 1)
    requires r.kids == t.kids[t.info.size := [xs[i]]][c := NamedOnly(s0, name, xs[..i]) + xs[i + 1..]]
                             [g := t.kids[g] + [t.info.size]]
    ensures Shape(s0, r, c, g, name, xs, i + 1)
  {
    var made := Unnamed(s0, name, xs[..i]);
    WrapCount(s0, name, xs, i);
    assert r.info == Grown(s0.info, name, s0.info.rank[c], made + 1);
    assert Fresh(s0.info.size, made + 1) == Fresh(s0.info.size, made) + {t.info.size};
    assert r.kids.Keys == t.kids.Keys + {t.info.size};
  }

  /** A child not called `name` adds one wrapper to the pieces and nothing to the `name` children kept. */
  lemma WrapCount(s0: Store, name: string, xs: seq<NodeId>, i: nat)
    requires i < |xs| && !Named(s0, name, xs[i])
    ensures var made := Unnamed(s0, name, xs[..i]);
      && Unnamed(s0, name, xs[..i + 1]) == made + 1
      && Pieces(s0, name, xs[..i + 1]) == Pieces(s0, name, xs[..i]) + [s0.info.size + made]
      && NamedOnly(s0, name, xs[..i + 1]) == NamedOnly(s0, name, xs[..i])
  {
    assert xs[..i + 1][..i] == xs[..i] && xs[..i + 1][i] == xs[i];
  }

  /** The child lists after a turn for a child not called `name`, given as a map update. */
  lemma WrapKids(s0: Store, t: Store, r: Store, c: NodeId, g: NodeId, name: string, xs: seq<NodeId>, i: nat)
    requires Setup(s0, c, name, xs) && c in s0.parent && g == s0.parent[c]
    requires i < |xs| && SplitAt(s0, t, c, g, name, xs, i) && !Named(s0, name, xs[i])
    requires t.info.size !in t.kids
    requires r.info == Grown(t.info, name, s0.info.rank[c], 1)
    requires r.kids == t.kids[t.info.size := [xs[i]]]
                             [c := NamedOnly(s0, name, xs[..i]) + xs[i + 1..]]
                             [g := t.kids[g] + [t.info.size]]
    ensures SplitAt(s0, r, c, g, name, xs, i + 1)
  {
    var w := t.info.size;
    var a, b := t.kids[g] + [w], NamedOnly(s0, name, xs[..i]) + xs[i + 1..];
    assert c < s0.info.size && g < s0.info.size && c != g;
    assert w == WrapperOf(s0, name, xs, i);
    assert w !in s0.kids;
    WrapFirsts(s0, t, r, c, g, name, xs, i, w, a, b);
    WrapWrapped(s0, t, r, c, g, name, xs, i, a, b);
    WrapUntouched(s0, t, r, c, g, name, xs, i, w, a, b);
    WrapShape(s0, t, r, c, g, name, xs, i);
  }

  /**
   * The three DOM calls of a wrap turn: a fresh element `w` is created, the
   * child `x` of `c` moves into it, and `w` goes to the end of `g`.
   */
  lemma WrapMoves(t: Store, t1: Store, t2: Store, r: Store, c: NodeId, g: NodeId, x: NodeId, name: string, rank: nat)
    requires c in t.kids && g in t.kids && c != g && x in t.parent && t.parent[x] == c
    requires t.info.size !in t.kids && t.info.size !in t.parent && t.info.size !in t.kids[g]
    requires t1 == Dom.CreateElement(t, name, rank)
    requires t2 == Move(t1, t.info.size, x, |Detach(t1, x).kids[t.info.size]|)
    requires r == Move(t2, g, t.info.size, |Detach(t2, t.info.size).kids[g]|)
    ensures r.info == Grown(t.info, name, rank, 1)
    ensures r.kids == t.kids[t.info.size := [x]][c := Without(t.kids[c], x)][g := t.kids[g] + [t.info.size]]
  {
    var w := t.info.size;
    var d1 := Detach(t1, x);
    assert d1.kids == t.kids[w := []][c := Without(t.kids[c], x)];
    assert InsertAt(d1.kids[w], 0, x) == [x];
    assert t2.kids == d1.kids[w := [x]];
    assert t2.parent == t.parent[x := w];
    assert Detach(t2, w).kids == t2.kids;
    assert t2.kids[g] == t.kids[g];
    assert InsertAt(t.kids[g], |t.kids[g]|, w) == t.kids[g] + [w];
  }

  /** The child a wrap turn reaches leaves the list of `c` and nothing else does. */
  lemma DropWrapped(s0: Store, name: string, xs: seq<NodeId>, i: nat)
    requires Distinct(xs) && i < |xs|
    ensures Without(NamedOnly(s0, name, xs[..i]) + xs[i..], xs[i]) == NamedOnly(s0, name, xs[..i]) + xs[i + 1..]
  {
    var x := xs[i];
    DistinctSplit(xs, i);
    assert x !in NamedOnly(s0, name, xs[..i]);
    assert xs[i..] == [x] + xs[i + 1..];
    WithoutOnce(NamedOnly(s0, name, xs[..i]), x, xs[i + 1..]);
  }

  /**
   * A turn for a child not called `name`: a fresh `name` element is
   * created, the child moves into it, and the element goes to the end of `g`.
   */
  lemma WrapStep(s0: Store, t: Store, t1: Store, t2: Store, r: Store, c: NodeId, g: NodeId, name: string, xs: seq<NodeId>, i: nat)
    requires Setup(s0, c, name, xs) && c in s0.parent && g == s0.parent[c]
    requires i < |xs| && SplitAt(s0, t, c, g, name, xs, i) && !Named(s0, name, xs[i])
    requires xs[i] in t.parent && t.parent[xs[i]] == c
    requires t.info.size !in t.kids && t.info.size !in t.parent && t.info.size !in t.kids[g]
    requires t1 == Dom.CreateElement(t, name, s0.info.rank[c])
    requires t2 == Move(t1, t.info.size, xs[i], |Detach(t1, xs[i]).kids[t.info.size]|)
    requires r == Move(t2, g, t.info.size, |Detach(t2, t.info.size).kids[g]|)
    ensures SplitAt(s0, r, c, g, name, xs, i + 1)
  {
    var x := xs[i];
    DropWrapped(s0, name, xs, i);
    WrapMoves(t, t1, t2, r, c, g, x, name, s0.info.rank[c]);
    WrapKids(s0, t, r, c, g, name, xs, i);
  }

  /** One more child of the snapshot keeps `appendChild` away from `null`. */
  lemma HasFirstsStep(s0: Store, name: string, xs: seq<NodeId>, i: nat)
    requires i < |xs| && HasFirsts(s0, name, xs[..i])
    requires Named(s0, name, xs[i]) ==> xs[i] in s0.kids && s0.kids[xs[i]] != []
    ensures HasFirsts(s0, name, xs[..i + 1])
  {
    var ys := xs[..i + 1];
    forall j | 0 <= j < |ys| && Named(s0, name, ys[j])
      ensures ys[j] in s0.kids && s0.kids[ys[j]] != []
    {
      if j < i {
        assert ys[j] == xs[..i][j];
      }
    }
  }

  /**
   * Where the loop of `SplitParentNode` stands after `i` turns: nothing has
   * changed yet, or `c` has a parent and the first `i` children have been
   * split off; and none of them was a `name` element without children.
   */
  ghost predicate Progress(s0: Store, t: Store, c: NodeId, name: string, xs: seq<NodeId>, i: nat)
    requires i <= |xs|
  {
    ((i == 0 ==> t == s0)
     && (i > 0 ==> c in s0.parent)
     && (c in s0.parent ==> SplitAt(s0, t, c, s0.parent[c], name, xs, i))
     && HasFirsts(s0, name, xs[..i])) == true
  }

  /** Before the first turn, the loop of `SplitParentNode` stands at the start. */
  lemma StartProgress(s0: Store, c: NodeId, name: string, xs: seq<NodeId>)
    requires Setup(s0, c, name, xs)
    ensures Progress(s0, s0, c, name, xs, 0)
  {
    if c in s0.parent {
      StartSplit(s0, c, name, xs);
    }
    assert xs[..0] == [];
  }

  /** Once every child has had its turn, the split is complete. */
  lemma SplitEnd(s0: Store, t: Store, c: NodeId, name: string, xs: seq<NodeId>)
    requires Progress(s0, t, c, name, xs, |xs|)
    ensures HasFirsts(s0, name, xs)
    ensures xs == [] ==> t == s0
    ensures xs != [] ==> c in s0.parent && SplitAt(s0, t, c, s0.parent[c], name, xs, |xs|)
  {
    assert xs[..|xs|] == xs;
  }

  /**
   * What a turn knows once the piece is taken: the piece is missing exactly
   * for a `name` child without children, `c` keeps its parent, and the piece
   * ranks below that parent.
   */
  lemma TurnReady(s0: Store, t: Store, t1: Store, t2: Store, c: NodeId, name: string, xs: seq<NodeId>, i: nat, piece: Option<NodeId>)
    requires i < |xs| && Reached(s0, t, c, name, xs, i)
    requires xs[i] in t.info.tag && t.info.tag[xs[i]] == name ==>
      && t2 == t && xs[i] in t.kids
      && (piece.None? <==> t.kids[xs[i]] == [])
      && (piece.Some? ==> piece.value == t.kids[xs[i]][0])
    requires !(xs[i] in t.info.tag && t.info.tag[xs[i]] == name) ==>
      && piece == Some(t.info.size) && c in t.info.rank
      && t1 == Dom.CreateElement(t, name, t.info.rank[c])
      && xs[i] in t1.kids && t.info.size in t1.kids
      && t2 == Move(t1, t.info.size, xs[i], |Detach(t1, xs[i]).kids[t.info.size]|)
    ensures piece.None? <==> Named(s0, name, xs[i]) && s0.kids[xs[i]] == []
    ensures c in t2.parent <==> c in s0.parent
    ensures c in t2.parent ==>
      && t2.parent[c] == s0.parent[c] && t2.parent[c] in t2.kids
      && (piece.Some? ==> piece.value in t2.kids && t2.info.rank[piece.value] < t2.info.rank[t2.parent[c]])
  {
  }

  /**
   * The ghost side of a successful turn: from the store `t` before the turn
   * and the stores the DOM calls of the turn produce, the loop has advanced
   * by one child.
   */
  lemma TurnDone(s0: Store, t: Store, t1: Store, t2: Store, r: Store, c: NodeId, g: NodeId, name: string, xs: seq<NodeId>, i: nat)
    requires Setup(s0, c, name, xs) && i < |xs| && Progress(s0, t, c, name, xs, i) && Reached(s0, t, c, name, xs, i)
    requires c in s0.parent && g == s0.parent[c] && g in t.kids
    requires xs[i] in t.info.tag && t.info.tag[xs[i]] == name ==>
      && t2 == t && xs[i] in t.kids && t.kids[xs[i]] != []
      && r == Move(t2, g, t.kids[xs[i]][0], |Detach(t2, t.kids[xs[i]][0]).kids[g]|)
    requires !(xs[i] in t.info.tag && t.info.tag[xs[i]] == name) ==>
      && c in t.info.rank
      && t1 == Dom.CreateElement(t, name, t.info.rank[c])
      && xs[i] in t1.kids && t.info.size in t1.kids
      && t2 == Move(t1, t.info.size, xs[i], |Detach(t1, xs[i]).kids[t.info.size]|)
      && g in t2.kids
      && r == Move(t2, g, t.info.size, |Detach(t2, t.info.size).kids[g]|)
    ensures Progress(s0, r, c, name, xs, i + 1)
  {
    var x := xs[i];
    if Named(s0, name, x) {
      NamedStep(s0, t, r, c, g, name, xs, i);
    } else {
      WrapStep(s0, t, t1, t2, r, c, g, name, xs, i);
    }
    HasFirstsStep(s0, name, xs, i);
  }

  /**
   * The piece a child of `c` contributes: a `name` child gives its first
   * child (`None` stands for `null`) and stays as it is; any other child is
   * moved into a fresh `name` element, which is the piece.
   */
  method TakePiece(doc: Doc, c: NodeId, node: NodeId, name: string) returns (piece: Option<NodeId>, ghost t1: Store)
    requires doc.Valid() && c in doc.kids && node in doc.kids && doc.rank[node] < doc.rank[c]
    modifies doc
    ensures doc.Valid() && old(doc.kids.Keys) <= doc.kids.Keys
    ensures old(doc.tag[node]) == name ==>
      && doc.Model() == old(doc.Model())
      && (piece.None? <==> old(doc.kids[node]) == [])
      && (piece.Some? ==> piece.value == old(doc.kids[node][0]))
    ensures old(doc.tag[node]) != name ==>
      && piece == Some(old(doc.size))
      && t1 == Dom.CreateElement(old(doc.Model()), name, old(doc.rank[c]))
      && node in t1.kids && old(doc.size) in t1.kids
      && doc.Model() == Move(t1, old(doc.size), node, |Detach(t1, node).kids[old(doc.size)]|)
  {
    t1 := doc.Model();
    if doc.tag[node] == name {
      piece := doc.FirstChild(node);
    } else {
      var w := doc.CreateElement(name, doc.rank[c]);
      t1 := doc.Model();
      doc.AppendChild(w, node);
      piece := Some(w);
    }
  }

  /**
   * One turn of the loop of `_splitParentNode` for child number `i` of the
   * snapshot `xs`: take the piece it contributes and append the piece to the
   * parent of `c`. The turn fails, with a TypeError, exactly when the child
   * is a `name` element without children or `c` has no parent.
   */
  method SplitTurn(doc: Doc, c: NodeId, name: string, ghost s0: Store, xs: seq<NodeId>, i: nat) returns (ok: bool)
    requires doc.Valid() && Setup(s0, c, name, xs) && i < |xs| && Progress(s0, doc.Model(), c, name, xs, i)
    modifies doc
    ensures doc.Valid() && old(doc.kids.Keys) <= doc.kids.Keys
    ensures ok <==> c in s0.parent && !(Named(s0, name, xs[i]) && s0.kids[xs[i]] == [])
    ensures ok ==> Progress(s0, doc.Model(), c, name, xs, i + 1)
    ensures !ok ==> c !in s0.parent || !HasFirsts(s0, name, xs)
  {
    ghost var t := doc.Model();
    NextChild(s0, t, c, name, xs, i);
    var piece, t1 := TakePiece(doc, c, xs[i], name);
    ghost var t2 := doc.Model();
    TurnReady(s0, t, t1, t2, c, name, xs, i, piece);
    if piece.None? {
      NoFirst(s0, name, xs, i);
      return false;
    }
    var p := doc.ParentNode(c);
    if p.None? {
      return false;
    }
    var g := p.value;
    doc.AppendChild(g, piece.value);
    TurnDone(s0, t, t1, t2, doc.Model(), c, g, name, xs, i);
    return true;
  }

  /**
   * `_splitParentNode(c, name)`. It raises a TypeError, reported as `!ok`,
   * when a `name` child has no first child or when `c` has children but no
   * parent; the changes made before the throw stay.
   */
  method SplitParentNode(doc: Doc, c: NodeId, name: string) returns (ok: bool)
    requires doc.Valid() && c in doc.kids
    modifies doc
    ensures doc.Valid() && old(doc.kids.Keys) <= doc.kids.Keys
    ensures ok <==> (old(doc.kids[c]) == [] || c in old(doc.parent)) && HasFirsts(old(doc.Model()), name, old(doc.kids[c]))
    ensures ok && old(doc.kids[c]) == [] ==> doc.Model() == old(doc.Model())
    ensures ok && old(doc.kids[c]) != [] ==>
      SplitAt(old(doc.Model()), doc.Model(), c, old(doc.parent[c]), name, old(doc.kids[c]), |old(doc.kids[c])|)
  {
    ghost var s0 := doc.Model();
    var xs := doc.kids[c];
    SetupHolds(s0, c, name);
    ok := SplitChildren(doc, c, name, s0, xs);
    if ok {
      SplitEnd(s0, doc.Model(), c, name, xs);
      ProgressKeys(s0, doc.Model(), c, name, xs, |xs|);
    }
  }

  /** The loop of `_splitParentNode` over the snapshot `xs` of the children of `c`. */
  method SplitChildren(doc: Doc, c: NodeId, name: string, ghost s0: Store, xs: seq<NodeId>) returns (ok: bool)
    requires doc.Valid() && doc.Model() == s0 && Setup(s0, c, name, xs)
    modifies doc
    ensures doc.Valid()
    ensures ok ==> Progress(s0, doc.Model(), c, name, xs, |xs|)
    ensures !ok ==> s0.kids.Keys <= doc.kids.Keys && xs != [] && (c !in s0.parent || !HasFirsts(s0, name, xs))
  {
    StartProgress(s0, c, name, xs);
    var i := 0;
    while i < |xs|
      invariant i <= |xs| && doc.Valid()
      invariant Progress(s0, doc.Model(), c, name, xs, i)
    {
      ProgressKeys(s0, doc.Model(), c, name, xs, i);
      var turned := SplitTurn(doc, c, name, s0, xs, i);
      if !turned {
        return false;
      }
      i := i + 1;
      assert Progress(s0, doc.Model(), c, name, xs, i);
    }
    return true;
  }
}
