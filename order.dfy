/**
 * Tree order (section 4.2 of the WHATWG DOM Standard): a node comes before
 * the nodes below it, and the subtree of a child comes before the subtrees
 * of the children after it. It is the order in which `querySelectorAll`
 * lists its matches, and so the order in which the editor's merging pass
 * meets the nodes it merges.
 */
module Order {
  import opened Dom

  // ---------------------------------------------------------------------
  // The nodes below a node, in tree order

  /** The nodes strictly below `n`, in tree order. */
  ghost function Below(s: Store, n: NodeId): (xs: seq<NodeId>)
    requires Ranked(s) && n in s.kids
    decreases s.info.rank[n], 1
  {
    KidsBelow(s, n);
    BelowAll(s, s.kids[n], s.info.rank[n])
  }

  /** Each node of `ks` followed by the nodes below it, in the order of `ks`. */
  ghost function BelowAll(s: Store, ks: seq<NodeId>, bound: nat): (xs: seq<NodeId>)
    requires Ranked(s) && forall k :: k in ks ==> k in s.kids && s.info.rank[k] < bound
    decreases bound, 0, |ks|
  {
    if ks == [] then []
    else
      var k := ks[|ks| - 1];
      BelowAll(s, ks[..|ks| - 1], bound) + [k] + Below(s, k)
  }

  /** The walk below `n` meets exactly the nodes of its subtree other than `n`. */
  lemma {:induction false} BelowMembers(s: Store, n: NodeId)
    requires Ranked(s) && n in s.kids
    ensures forall x :: x in Below(s, n) <==> x in Desc(s, n) && x != n
    decreases s.info.rank[n], 1
  {
    KidsBelow(s, n);
    BelowAllMembers(s, s.kids[n], s.info.rank[n]);
  }

  lemma {:induction false} BelowAllMembers(s: Store, ks: seq<NodeId>, bound: nat)
    requires Ranked(s) && forall k :: k in ks ==> k in s.kids && s.info.rank[k] < bound
    ensures forall x :: x in BelowAll(s, ks, bound) <==> x in DescAll(s, ks, bound)
    decreases bound, 0, |ks|
  {
    if ks != [] {
      BelowAllMembers(s, ks[..|ks| - 1], bound);
      BelowMembers(s, ks[|ks| - 1]);
    }
  }

  /** The walk of a list of subtrees is the walk of its parts, one after the other. */
  lemma {:induction false} BelowAllAppend(s: Store, a: seq<NodeId>, b: seq<NodeId>, bound: nat)
    requires Ranked(s) && forall k :: k in a + b ==> k in s.kids && s.info.rank[k] < bound
    ensures forall k :: k in a ==> k in s.kids && s.info.rank[k] < bound
    ensures forall k :: k in b ==> k in s.kids && s.info.rank[k] < bound
    ensures BelowAll(s, a + b, bound) == BelowAll(s, a, bound) + BelowAll(s, b, bound)
    decreases |b|
  {
    forall k | k in a ensures k in a + b { }
    forall k | k in b ensures k in a + b { }
    if b == [] {
      assert a + b == a;
    } else {
      var c := b[..|b| - 1];
      assert (a + b)[..|a + b| - 1] == a + c;
      assert (a + b)[|a + b| - 1] == b[|b| - 1];
      forall k | k in a + c ensures k in a + b { }
      BelowAllAppend(s, a, c, bound);
    }
  }

  /**
   * Tree order, child by child: below `n` come the subtrees of the children
   * before child `j`, then child `j`, then the nodes below it, then the
   * subtrees of the children after it.
   */
  lemma BelowSplit(s: Store, n: NodeId, j: nat)
    requires Ranked(s) && n in s.kids && j < |s.kids[n]|
    ensures var ks, r := s.kids[n], s.info.rank[n];
      && (forall k :: k in ks ==> k in s.kids && s.info.rank[k] < r)
      && Below(s, n) == BelowAll(s, ks[..j], r) + [ks[j]] + Below(s, ks[j]) + BelowAll(s, ks[j + 1..], r)
  {
    var ks, r := s.kids[n], s.info.rank[n];
    var pre, k, post := ks[..j], ks[j], ks[j + 1..];
    KidsBelow(s, n);
    assert ks == pre + [k] + post;
    BelowAllAppend(s, pre + [k], post, r);
    BelowAllSnoc(s, pre, k, r);
  }

  /** `a + b` repeats nothing when neither part does and they share nothing. */
  lemma DistinctJoin(a: seq<NodeId>, b: seq<NodeId>)
    requires Distinct(a) && Distinct(b) && forall x :: x in a ==> x !in b
    ensures Distinct(a + b)
  {
    forall i, j | 0 <= i < j < |a + b| ensures (a + b)[i] != (a + b)[j] {
      if j < |a| {
        assert (a + b)[i] == a[i] && (a + b)[j] == a[j];
      } else if i >= |a| {
        assert (a + b)[i] == b[i - |a|] && (a + b)[j] == b[j - |a|];
      } else {
        assert (a + b)[i] == a[i] && (a + b)[j] == b[j - |a|];
        assert a[i] in a;
      }
    }
  }

  /** In a well-formed tree the walk meets no node twice. */
  lemma {:induction false} BelowDistinct(s: Store, n: NodeId)
    requires WF(s) && n in s.kids
    ensures Distinct(Below(s, n))
    decreases s.info.rank[n], 1
  {
    var ks := s.kids[n];
    KidsBelow(s, n);
    BelowPrefixDistinct(s, n, |ks|);
    assert ks[..|ks|] == ks;
  }

  lemma {:induction false} BelowPrefixDistinct(s: Store, c: NodeId, j: nat)
    requires WF(s) && c in s.kids && j <= |s.kids[c]|
    ensures forall k :: k in s.kids[c][..j] ==> k in s.kids && s.info.rank[k] < s.info.rank[c]
    ensures Distinct(BelowAll(s, s.kids[c][..j], s.info.rank[c]))
    decreases s.info.rank[c], 0, j
  {
    KidsBelow(s, c);
    if j > 0 {
      var ks, r := s.kids[c], s.info.rank[c];
      var pre, k := ks[..j - 1], ks[j - 1];
      assert ks[..j][..j - 1] == pre && ks[..j][j - 1] == k;
      BelowPrefixDistinct(s, c, j - 1);
      BelowDistinct(s, k);
      PrefixApart(s, c, j);
      DistinctAround(BelowAll(s, pre, r), k, Below(s, k));
    }
  }

  /** The walk below the first `j - 1` children, the `j`-th child and the walk below it share nothing. */
  lemma PrefixApart(s: Store, c: NodeId, j: nat)
    requires WF(s) && c in s.kids && 0 < j <= |s.kids[c]|
    requires forall k :: k in s.kids[c][..j - 1] ==> k in s.kids && s.info.rank[k] < s.info.rank[c]
    requires s.kids[c][j - 1] in s.kids
    ensures var pre, k := s.kids[c][..j - 1], s.kids[c][j - 1];
      && k !in BelowAll(s, pre, s.info.rank[c]) && k !in Below(s, k)
      && forall x :: x in BelowAll(s, pre, s.info.rank[c]) ==> x !in Below(s, k)
  {
    var ks, r := s.kids[c], s.info.rank[c];
    var pre, k := ks[..j - 1], ks[j - 1];
    DistinctSplit(ks, j - 1);
    DescAllDisjoint(s, c, pre, k);
    BelowAllMembers(s, pre, r);
    BelowMembers(s, k);
  }

  /** `a + [k] + b` repeats nothing when its parts do not and share nothing. */
  lemma DistinctAround(a: seq<NodeId>, k: NodeId, b: seq<NodeId>)
    requires Distinct(a) && Distinct(b) && k !in a && k !in b
    requires forall x :: x in a ==> x !in b
    ensures Distinct(a + [k] + b)
  {
    DistinctJoin(a, [k]);
    DistinctJoin(a + [k], b);
  }

  /** The walk below `n` reads only the child lists of the subtree of `n`. */
  lemma {:induction false} BelowFrame(s: Store, t: Store, n: NodeId)
    requires Ranked(s) && Ranked(t) && n in s.kids
    requires KidsAgree(s, t, Desc(s, n))
    ensures n in t.kids && Below(t, n) == Below(s, n)
    decreases s.info.rank[n]
  {
    var ks := s.kids[n];
    KidsBelow(s, n);
    KidsBelow(t, n);
    forall k | k in ks ensures k in t.kids && Below(t, k) == Below(s, k) {
      DescAllHas(s, ks, s.info.rank[n], k);
      KidsAgreeSub(s, t, Desc(s, k), Desc(s, n));
      BelowFrame(s, t, k);
    }
    BelowAllSame(s, t, ks, s.info.rank[n], t.info.rank[n]);
  }

  lemma {:induction false} BelowAllSame(s: Store, t: Store, ks: seq<NodeId>, bs: nat, bt: nat)
    requires Ranked(s) && Ranked(t)
    requires forall k :: k in ks ==> k in s.kids && s.info.rank[k] < bs && k in t.kids && t.info.rank[k] < bt
    requires forall k :: k in ks ==> Below(t, k) == Below(s, k)
    ensures BelowAll(t, ks, bt) == BelowAll(s, ks, bs)
    decreases |ks|
  {
    if ks != [] {
      BelowAllSame(s, t, ks[..|ks| - 1], bs, bt);
    }
  }

  /** A node of a union of subtrees lies in the subtree of one of them. */
  lemma {:induction false} DescAllWhich(s: Store, ks: seq<NodeId>, bound: nat, x: NodeId) returns (i: nat)
    requires Ranked(s) && forall k :: k in ks ==> k in s.kids && s.info.rank[k] < bound
    requires x in DescAll(s, ks, bound)
    ensures i < |ks| && x in Desc(s, ks[i])
    decreases |ks|
  {
    var pre := ks[..|ks| - 1];
    if x in DescAll(s, pre, bound) {
      i := DescAllWhich(s, pre, bound, x);
      assert ks[i] == pre[i];
    } else {
      i := |ks| - 1;
    }
  }

  // ---------------------------------------------------------------------
  // Names

  /** The members of `xs` called `name`, in their order. */
  ghost function OfName(tag: map<NodeId, string>, xs: seq<NodeId>, name: string): (r: seq<NodeId>)
    decreases |xs|
  {
    if xs == [] then []
    else
      var x := xs[|xs| - 1];
      OfName(tag, xs[..|xs| - 1], name) + (if x in tag && tag[x] == name then [x] else [])
  }

  /** Picking the named members of `xs` keeps exactly those, in order. */
  lemma {:induction false} OfNameMembers(tag: map<NodeId, string>, xs: seq<NodeId>, name: string)
    ensures forall x :: x in OfName(tag, xs, name) <==> x in xs && x in tag && tag[x] == name
    decreases |xs|
  {
    if xs != [] {
      var pre := xs[..|xs| - 1];
      OfNameMembers(tag, pre, name);
      assert xs == pre + [xs[|xs| - 1]];
    }
  }

  lemma {:induction false} OfNameAppend(tag: map<NodeId, string>, a: seq<NodeId>, b: seq<NodeId>, name: string)
    ensures OfName(tag, a + b, name) == OfName(tag, a, name) + OfName(tag, b, name)
    decreases |b|
  {
    if b == [] {
      assert a + b == a;
    } else {
      var c := b[..|b| - 1];
      assert (a + b)[..|a + b| - 1] == a + c;
      assert (a + b)[|a + b| - 1] == b[|b| - 1];
      OfNameAppend(tag, a, c, name);
    }
  }

  /** Picking from `xs + [x]`: the pick from `xs`, then `x` when it is called `name`. */
  lemma OfNameSnoc(tag: map<NodeId, string>, xs: seq<NodeId>, x: NodeId, name: string)
    ensures OfName(tag, xs + [x], name) == OfName(tag, xs, name) + (if x in tag && tag[x] == name then [x] else [])
  {
    assert (xs + [x])[..|xs|] == xs;
  }

  /** A list without repetitions keeps none among its named members. */
  lemma {:induction false} OfNameDistinct(tag: map<NodeId, string>, xs: seq<NodeId>, name: string)
    requires Distinct(xs)
    ensures Distinct(OfName(tag, xs, name))
    decreases |xs|
  {
    if xs != [] {
      var pre, x := xs[..|xs| - 1], xs[|xs| - 1];
      DistinctSplit(xs, |xs| - 1);
      assert Distinct(pre) by {
        forall i, j | 0 <= i < j < |pre| ensures pre[i] != pre[j] {
          assert pre[i] == xs[i] && pre[j] == xs[j];
        }
      }
      OfNameDistinct(tag, pre, name);
      OfNameMembers(tag, pre, name);
      DistinctJoin(OfName(tag, pre, name), if x in tag && tag[x] == name then [x] else []);
    }
  }


  /** A member of `ks` is met by the walk of `ks`. */
  lemma {:induction false} BelowAllHas(s: Store, ks: seq<NodeId>, bound: nat, k: NodeId)
    requires Ranked(s) && forall j :: j in ks ==> j in s.kids && s.info.rank[j] < bound
    requires k in ks
    ensures k in BelowAll(s, ks, bound)
    decreases |ks|
  {
    if k != ks[|ks| - 1] {
      assert k in ks[..|ks| - 1];
      BelowAllHas(s, ks[..|ks| - 1], bound, k);
    }
  }

  /** The walk of `ks + [k]`: that of `ks`, then `k`, then the nodes below `k`. */
  lemma BelowAllSnoc(s: Store, ks: seq<NodeId>, k: NodeId, bound: nat)
    requires Ranked(s) && forall j :: j in ks + [k] ==> j in s.kids && s.info.rank[j] < bound
    ensures forall j :: j in ks ==> j in s.kids && s.info.rank[j] < bound
    ensures BelowAll(s, ks + [k], bound) == BelowAll(s, ks, bound) + [k] + Below(s, k)
  {
    forall j | j in ks ensures j in ks + [k] { }
    assert (ks + [k])[..|ks|] == ks && (ks + [k])[|ks|] == k;
  }

  // ---------------------------------------------------------------------
  // Previous siblings

  /** The entry just before `x` in `xs`, if any. */
  ghost function Before(xs: seq<NodeId>, x: NodeId): Option<NodeId>
    requires x in xs
  {
    var i := IndexOf(xs, x);
    if i == 0 then None else Some(xs[i - 1])
  }

  /** `node.previousSibling`, read off the store: none for a detached node. */
  ghost function Prev(s: Store, n: NodeId): Option<NodeId>
  {
    if n in s.parent && s.parent[n] in s.kids && n in s.kids[s.parent[n]] then Before(s.kids[s.parent[n]], n)
    else None
  }

  /** The previous sibling of `x` is called `name`. */
  ghost predicate NamedPrev(s: Store, x: NodeId, name: string)
  {
    match Prev(s, x)
    case None => false
    case Some(v) => v in s.info.tag && s.info.tag[v] == name
  }

  /**
   * No node called `name` strictly below `root` has a previous sibling
   * called `name`: every run of adjacent `name` siblings is a single element.
   */
  ghost predicate NoRuns(s: Store, root: NodeId, name: string)
    requires Ranked(s) && root in s.kids
  {
    forall x :: x in Desc(s, root) && x != root && s.info.tag[x] == name ==> !NamedPrev(s, x, name)
  }

  /** What comes before the first occurrence of `x`. */
  lemma BeforeSplit(a: seq<NodeId>, x: NodeId, b: seq<NodeId>)
    requires x !in a
    ensures x in a + [x] + b
    ensures Before(a + [x] + b, x) == if a == [] then None else Some(a[|a| - 1])
  {
    IndexOfSplit(a, x, b);
    assert (a + [x] + b)[|a|] == x;
    if a != [] {
      assert (a + [x] + b)[|a| - 1] == a[|a| - 1];
    }
  }

  /** A list cut around the first occurrence of `x`. */
  lemma CutAt(xs: seq<NodeId>, x: NodeId) returns (i: nat)
    requires x in xs
    ensures i == IndexOf(xs, x) && xs == xs[..i] + [x] + xs[i + 1..] && x !in xs[..i]
  {
    i := IndexOf(xs, x);
    assert xs == xs[..i] + [xs[i]] + xs[i + 1..];
  }

  /** An entry of `a` keeps its predecessor when `b` is appended. */
  lemma BeforeLeft(a: seq<NodeId>, b: seq<NodeId>, x: NodeId)
    requires x in a
    ensures x in a + b && Before(a + b, x) == Before(a, x)
  {
    var i := CutAt(a, x);
    assert a + b == a[..i] + [x] + (a[i + 1..] + b);
    BeforeSplit(a[..i], x, a[i + 1..] + b);
    BeforeSplit(a[..i], x, a[i + 1..]);
  }

  /** An entry of `b` other than its head, absent from `a`, keeps its predecessor when `a` is prepended. */
  lemma BeforeRight(a: seq<NodeId>, b: seq<NodeId>, x: NodeId)
    requires x !in a && x in b && b[0] != x
    ensures x in a + b && Before(a + b, x) == Before(b, x)
  {
    var m := CutAt(b, x);
    assert m > 0;
    var c := a + b[..m];
    assert a + b == c + [x] + b[m + 1..];
    assert c[|c| - 1] == b[..m][m - 1];
    BeforeSplit(c, x, b[m + 1..]);
    BeforeSplit(b[..m], x, b[m + 1..]);
  }

  /** Taking `y` out of `a + [y] + b` changes the predecessor of the head of `b` only. */
  lemma BeforeDrop(a: seq<NodeId>, y: NodeId, b: seq<NodeId>, x: NodeId)
    requires Distinct(a + [y] + b) && x != y && x in a + b && (b != [] ==> x != b[0])
    ensures x in a + [y] + b && Before(a + b, x) == Before(a + [y] + b, x)
  {
    DistinctMid(a, y, b);
    if x in a {
      BeforeLeft(a, b, x);
      assert a + [y] + b == a + ([y] + b);
      BeforeLeft(a, [y] + b, x);
    } else {
      BeforeRight(a, b, x);
      BeforeRight(a + [y], b, x);
    }
  }

  // ---------------------------------------------------------------------
  // One merge

  /**
   * `t2` is `t` after `_mergeNodes(y, p)`: the children of `y` are appended
   * to those of `p`, `y` leaves the list of its parent, and the children of
   * `y` name `p` as their parent.
   */
  ghost predicate MergedInto(t: Store, t2: Store, y: NodeId, p: NodeId)
  {
    && y in t.parent && t.parent[y] in t.kids && y in t.kids && p in t.kids
    && t2.kids == t.kids[p := t.kids[p] + t.kids[y]][y := []][t.parent[y] := Without(t.kids[t.parent[y]], y)]
    && t2.parent == Adopted(t.parent, t.kids[y], p) - {y}
  }

  /**
   * Where a merge happens: `p` and `y` are adjacent children of the parent
   * of `y`, whose children are `k0 + [p] + [y] + k2`.
   */
  ghost predicate Site(t: Store, y: NodeId, p: NodeId, k0: seq<NodeId>, k2: seq<NodeId>)
  {
    // Comparing the conjunction with `true` changes nothing in its meaning: it keeps
    // the body one fact where the predicate is assumed, so the verifier does not split
    // it into separate conjuncts in every caller (the other `== true` bodies are the same).
    (&& y in t.parent && t.parent[y] in t.kids && p in t.kids && y in t.kids
     && p in t.parent && t.parent[p] == t.parent[y]
     && p != y && t.parent[y] != p && t.parent[y] != y
     && t.kids[t.parent[y]] == k0 + [p] + [y] + k2 && Distinct(k0 + [p] + [y] + k2)
     && p in t.info.rank && y in t.info.rank && t.parent[y] in t.info.rank
     && t.info.rank[p] < t.info.rank[t.parent[y]] && t.info.rank[y] < t.info.rank[t.parent[y]]) == true
  }

  /** The merge at `Site(t, y, p, k0, k2)`, node by node. */
  ghost predicate Merged(t: Store, t2: Store, y: NodeId, p: NodeId, k0: seq<NodeId>, k2: seq<NodeId>)
    requires Site(t, y, p, k0, k2)
  {
    var g := t.parent[y];
    (&& t2.kids.Keys == t.kids.Keys
     && t2.kids[g] == k0 + [p] + k2
     && t2.kids[p] == t.kids[p] + t.kids[y]
     && t2.kids[y] == []
     && (forall x :: x in t.kids && x != p && x != y && x != g ==> t2.kids[x] == t.kids[x])
     && (forall x :: x in t.parent && x != y ==> x in t2.parent)
     && (forall x :: x in t2.parent ==>
           (x in t.kids[y] && t2.parent[x] == p) ||
           (x in t.parent && x != y && x !in t.kids[y] && t2.parent[x] == t.parent[x]))) == true
  }

  /** The nodes whose previous sibling the merge of `y` changes: its first child and its next sibling. */
  ghost function Shifted(t: Store, y: NodeId, k2: seq<NodeId>): set<NodeId>
  {
    (if y in t.kids && t.kids[y] != [] then {t.kids[y][0]} else {}) + (if k2 != [] then {k2[0]} else {})
  }

  /** A node whose previous sibling is `p` sits at a merge site. */
  lemma MergeSite(t: Store, y: NodeId, p: NodeId) returns (k0: seq<NodeId>, k2: seq<NodeId>)
    requires WF(t) && y in t.parent && Prev(t, y) == Some(p)
    ensures Site(t, y, p, k0, k2)
  {
    var g, ks := t.parent[y], t.kids[t.parent[y]];
    var j := IndexOf(ks, y);
    k0, k2 := ks[..j - 1], ks[j + 1..];
    assert ks == k0 + [p] + [y] + k2;
    ChildFacts(t, g, y);
    ChildFacts(t, g, p);
  }

  /** The merge, read node by node. */
  lemma MergeAtoms(t: Store, t2: Store, y: NodeId, p: NodeId, k0: seq<NodeId>, k2: seq<NodeId>)
    requires Site(t, y, p, k0, k2) && MergedInto(t, t2, y, p)
    ensures Merged(t, t2, y, p, k0, k2)
  {
    var g := t.parent[y];
    assert k0 + [p] + [y] + k2 == (k0 + [p]) + ([y] + k2);
    DistinctMid(k0 + [p], y, k2);
    WithoutOnce(k0 + [p], y, k2);
    assert t2.kids[g] == k0 + [p] + k2;
  }

  /** Neither `y`, nor `p`, nor their parent `g` lies in the subtree of `k`. */
  ghost predicate Clear(t: Store, k: NodeId, y: NodeId, p: NodeId, g: NodeId)
    requires Ranked(t)
  {
    k in t.kids && p !in Desc(t, k) && y !in Desc(t, k) && g !in Desc(t, k)
  }

  /** The subtrees around a merge site that the merge leaves alone. */
  ghost predicate Cleared(t: Store, y: NodeId, p: NodeId, k0: seq<NodeId>, k2: seq<NodeId>)
    requires Ranked(t) && Site(t, y, p, k0, k2)
  {
    var g := t.parent[y];
    (&& (forall k :: k in k0 + k2 ==> Clear(t, k, y, p, g))
     && (forall k :: k in t.kids[p] ==> Clear(t, k, y, p, g))
     && (forall k :: k in t.kids[y] ==> Clear(t, k, y, p, g))) == true
  }

  /** The other siblings of `p` and `y`, and the children of both, are clear of the merge site. */
  lemma SiteCleared(t: Store, y: NodeId, p: NodeId, k0: seq<NodeId>, k2: seq<NodeId>)
    requires WF(t) && Site(t, y, p, k0, k2)
    ensures Cleared(t, y, p, k0, k2)
  {
    var g := t.parent[y];
    assert k0 + [p] + [y] + k2 == k0 + [p] + ([y] + k2);
    DistinctMid(k0, p, [y] + k2);
    DistinctMid(k0 + [p], y, k2);
    forall k | k in k0 + k2 ensures Clear(t, k, y, p, g) {
      SiblingClear(t, y, p, k);
    }
    forall k | k in t.kids[p] ensures Clear(t, k, y, p, g) {
      ChildClear(t, y, p, p, k);
    }
    forall k | k in t.kids[y] ensures Clear(t, k, y, p, g) {
      ChildClear(t, y, p, y, k);
    }
  }

  /** A sibling of `y` and `p` other than them holds neither, nor their parent. */
  lemma SiblingClear(t: Store, y: NodeId, p: NodeId, k: NodeId)
    requires WF(t) && y in t.parent && p in t.parent && t.parent[p] == t.parent[y]
    requires k in t.kids[t.parent[y]] && k != y && k != p
    ensures Clear(t, k, y, p, t.parent[y])
  {
    var g := t.parent[y];
    ChildFacts(t, g, k);
    DescDisjoint(t, k, y);
    DescDisjoint(t, k, p);
  }

  /** A child of `c`, where `c` is `p` or `y`, holds neither, nor their parent. */
  lemma ChildClear(t: Store, y: NodeId, p: NodeId, c: NodeId, k: NodeId)
    requires WF(t) && y in t.parent && p in t.parent && t.parent[p] == t.parent[y] && p != y
    requires c == p || c == y
    requires c in t.kids && k in t.kids[c]
    ensures Clear(t, k, y, p, t.parent[y])
  {
    var g := t.parent[y];
    ChildFacts(t, c, k);
    ChildFacts(t, g, y);
    ChildFacts(t, g, p);
    ChildDesc(t, c, k);
    DescDisjoint(t, p, y);
  }

  /** A subtree clear of the merge site walks the same after the merge. */
  lemma MergeFrame(t: Store, t2: Store, y: NodeId, p: NodeId, k0: seq<NodeId>, k2: seq<NodeId>, k: NodeId)
    requires Ranked(t) && Ranked(t2) && Site(t, y, p, k0, k2) && Merged(t, t2, y, p, k0, k2)
    requires Clear(t, k, y, p, t.parent[y])
    ensures k in t2.kids && Below(t2, k) == Below(t, k)
  {
    assert KidsAgree(t, t2, Desc(t, k));
    BelowFrame(t, t2, k);
  }

  /** The same for every subtree of a list. */
  lemma MergeFrameAll(t: Store, t2: Store, y: NodeId, p: NodeId, k0: seq<NodeId>, k2: seq<NodeId>,
                      ks: seq<NodeId>, bs: nat, bt: nat)
    requires Ranked(t) && Ranked(t2) && Site(t, y, p, k0, k2) && Merged(t, t2, y, p, k0, k2)
    requires forall k :: k in ks ==> Clear(t, k, y, p, t.parent[y])
    requires forall k :: k in ks ==> k in t.kids && t.info.rank[k] < bs && k in t2.kids && t2.info.rank[k] < bt
    ensures BelowAll(t2, ks, bt) == BelowAll(t, ks, bs)
  {
    forall k | k in ks ensures Below(t2, k) == Below(t, k) {
      MergeFrame(t, t2, y, p, k0, k2, k);
    }
    BelowAllSame(t, t2, ks, bs, bt);
  }

  /** The walk below the parent of `y` before the merge. */
  lemma WalkBefore(t: Store, g: NodeId, k0: seq<NodeId>, p: NodeId, y: NodeId, k2: seq<NodeId>)
    requires Ranked(t) && g in t.kids && t.kids[g] == k0 + [p] + [y] + k2
    ensures forall k :: k in t.kids[g] ==> k in t.kids && t.info.rank[k] < t.info.rank[g]
    ensures var r := t.info.rank[g];
      Below(t, g) == BelowAll(t, k0, r) + [p] + Below(t, p) + [y] + Below(t, y) + BelowAll(t, k2, r)
  {
    var r := t.info.rank[g];
    KidsBelow(t, g);
    BelowAllAppend(t, k0 + [p] + [y], k2, r);
    BelowAllSnoc(t, k0 + [p], y, r);
    BelowAllSnoc(t, k0, p, r);
  }

  /** The walk below the parent of `y` after the merge. */
  lemma WalkAfter(t2: Store, g: NodeId, k0: seq<NodeId>, p: NodeId, k2: seq<NodeId>, ps: seq<NodeId>, ys: seq<NodeId>)
    requires Ranked(t2) && g in t2.kids && t2.kids[g] == k0 + [p] + k2 && p in t2.kids && t2.kids[p] == ps + ys
    ensures forall k :: k in t2.kids[g] ==> k in t2.kids && t2.info.rank[k] < t2.info.rank[g]
    ensures forall k :: k in t2.kids[p] ==> k in t2.kids && t2.info.rank[k] < t2.info.rank[p]
    ensures var r, rp := t2.info.rank[g], t2.info.rank[p];
      Below(t2, g) == BelowAll(t2, k0, r) + [p] + BelowAll(t2, ps, rp) + BelowAll(t2, ys, rp) + BelowAll(t2, k2, r)
  {
    var r, rp := t2.info.rank[g], t2.info.rank[p];
    KidsBelow(t2, g);
    KidsBelow(t2, p);
    BelowAllAppend(t2, k0 + [p], k2, r);
    BelowAllSnoc(t2, k0, p, r);
    BelowAllAppend(t2, ps, ys, rp);
  }

  /**
   * The merge at the parent `g` of `y`: the walk below `g` loses `y` and
   * nothing else, and the nodes whose previous sibling changes come after
   * `y` in the walk.
   */
  lemma MergeAtParent(t: Store, t2: Store, y: NodeId, p: NodeId, k0: seq<NodeId>, k2: seq<NodeId>)
    returns (a: seq<NodeId>, b: seq<NodeId>)
    requires Ranked(t) && Ranked(t2) && Site(t, y, p, k0, k2) && Merged(t, t2, y, p, k0, k2)
    requires Cleared(t, y, p, k0, k2)
    ensures t.parent[y] in t2.kids
    ensures Below(t, t.parent[y]) == a + [y] + b && Below(t2, t.parent[y]) == a + b
    ensures forall x :: x in Shifted(t, y, k2) ==> x in b
  {
    var g := t.parent[y];
    var ps, ys := t.kids[p], t.kids[y];
    WalkBefore(t, g, k0, p, y, k2);
    WalkAfter(t2, g, k0, p, k2, ps, ys);
    SiblingFrames(t, t2, y, p, k0, k2);
    ChildFrames(t, t2, y, p, k0, k2);
    var w0, w2 := BelowAll(t, k0, t.info.rank[g]), BelowAll(t, k2, t.info.rank[g]);
    a := w0 + [p] + Below(t, p);
    b := Below(t, y) + w2;
    Regroup(a, y, Below(t, y), w2);
    ShiftedLater(t, y, p, k0, k2);
  }

  /** Concatenation regrouped around `y`. */
  lemma Regroup(a: seq<NodeId>, y: NodeId, c: seq<NodeId>, d: seq<NodeId>)
    ensures a + [y] + c + d == a + [y] + (c + d) && a + c + d == a + (c + d)
  {
  }

  /** The other children of the parent of `y` walk the same after the merge. */
  lemma SiblingFrames(t: Store, t2: Store, y: NodeId, p: NodeId, k0: seq<NodeId>, k2: seq<NodeId>)
    requires Ranked(t) && Ranked(t2) && Site(t, y, p, k0, k2) && Merged(t, t2, y, p, k0, k2)
    requires Cleared(t, y, p, k0, k2)
    ensures var g := t.parent[y];
      && (forall k :: k in k0 + k2 ==> k in t.kids && t.info.rank[k] < t.info.rank[g])
      && (forall k :: k in k0 + k2 ==> k in t2.kids && t2.info.rank[k] < t2.info.rank[g])
      && BelowAll(t2, k0, t2.info.rank[g]) == BelowAll(t, k0, t.info.rank[g])
      && BelowAll(t2, k2, t2.info.rank[g]) == BelowAll(t, k2, t.info.rank[g])
  {
    var g := t.parent[y];
    KidsBelow(t, g);
    KidsBelow(t2, g);
    MergeFrameAll(t, t2, y, p, k0, k2, k0, t.info.rank[g], t2.info.rank[g]);
    MergeFrameAll(t, t2, y, p, k0, k2, k2, t.info.rank[g], t2.info.rank[g]);
  }

  /** The children of `p` and of `y` walk the same after they all hang below `p`. */
  lemma ChildFrames(t: Store, t2: Store, y: NodeId, p: NodeId, k0: seq<NodeId>, k2: seq<NodeId>)
    requires Ranked(t) && Ranked(t2) && Site(t, y, p, k0, k2) && Merged(t, t2, y, p, k0, k2)
    requires Cleared(t, y, p, k0, k2)
    ensures forall k :: k in t.kids[p] + t.kids[y] ==> k in t2.kids && t2.info.rank[k] < t2.info.rank[p]
    ensures BelowAll(t2, t.kids[p], t2.info.rank[p]) == Below(t, p)
    ensures BelowAll(t2, t.kids[y], t2.info.rank[p]) == Below(t, y)
  {
    KidsBelow(t, p);
    KidsBelow(t, y);
    KidsBelow(t2, p);
    MergeFrameAll(t, t2, y, p, k0, k2, t.kids[p], t.info.rank[p], t2.info.rank[p]);
    MergeFrameAll(t, t2, y, p, k0, k2, t.kids[y], t.info.rank[y], t2.info.rank[p]);
  }

  /** The first child of `y` and its next sibling come after `y` in the walk below its parent. */
  lemma ShiftedLater(t: Store, y: NodeId, p: NodeId, k0: seq<NodeId>, k2: seq<NodeId>)
    requires Ranked(t) && Site(t, y, p, k0, k2)
    ensures forall k :: k in k2 ==> k in t.kids && t.info.rank[k] < t.info.rank[t.parent[y]]
    ensures forall x :: x in Shifted(t, y, k2) ==> x in Below(t, y) + BelowAll(t, k2, t.info.rank[t.parent[y]])
  {
    var g, ys := t.parent[y], t.kids[y];
    KidsBelow(t, g);
    KidsBelow(t, y);
    if ys != [] {
      BelowAllHas(t, ys, t.info.rank[y], ys[0]);
    }
    if k2 != [] {
      BelowAllHas(t, k2, t.info.rank[g], k2[0]);
    }
  }

  /**
   * Above the parent of `y`: the child `k` of `n` whose subtree holds the
   * merge site, and the other children, whose subtrees are clear of it.
   */
  lemma UpChild(t: Store, y: NodeId, p: NodeId, k0: seq<NodeId>, k2: seq<NodeId>, n: NodeId) returns (i: nat)
    requires WF(t) && Site(t, y, p, k0, k2)
    requires n in t.kids && t.parent[y] in Desc(t, n) && n != t.parent[y]
    ensures n != p && n != y && i < |t.kids[n]|
    ensures var k := t.kids[n][i];
      k in t.kids && t.info.rank[k] < t.info.rank[n] && t.parent[y] in Desc(t, k)
    ensures forall k :: k in t.kids[n][..i] + t.kids[n][i + 1..] ==> Clear(t, k, y, p, t.parent[y])
  {
    var g, ks, rn := t.parent[y], t.kids[n], t.info.rank[n];
    KidsBelow(t, n);
    i := DescAllWhich(t, ks, rn, g);
    var k := ks[i];
    ChildFacts(t, n, k);
    DistinctSplit(ks, i);
    forall k' | k' in ks[..i] + ks[i + 1..] ensures Clear(t, k', y, p, g) {
      ChildFacts(t, n, k');
      DescDisjoint(t, k, k');
      if p in Desc(t, k') && p != k' {
        DescUp(t, k', p);
      }
      if y in Desc(t, k') && y != k' {
        DescUp(t, k', y);
      }
    }
  }

  /** One level up: the walk below `n` is the walk below its child `k`, with the walks of the other children around it. */
  lemma UpStep(t: Store, t2: Store, y: NodeId, p: NodeId, k0: seq<NodeId>, k2: seq<NodeId>, n: NodeId, i: nat,
               a1: seq<NodeId>, b1: seq<NodeId>) returns (a: seq<NodeId>, b: seq<NodeId>)
    requires Ranked(t) && Ranked(t2) && Site(t, y, p, k0, k2) && Merged(t, t2, y, p, k0, k2)
    requires n in t.kids && n != p && n != y && n != t.parent[y] && i < |t.kids[n]|
    requires var k := t.kids[n][i];
      k in t.kids && k in t2.kids && Below(t, k) == a1 + [y] + b1 && Below(t2, k) == a1 + b1
    requires forall k :: k in t.kids[n][..i] + t.kids[n][i + 1..] ==> Clear(t, k, y, p, t.parent[y])
    ensures n in t2.kids && Below(t, n) == a + [y] + b && Below(t2, n) == a + b
    ensures forall x :: x in b1 ==> x in b
  {
    var ks, rn := t.kids[n], t.info.rank[n];
    UpFrames(t, t2, y, p, k0, k2, n, i);
    var u, w := BelowAll(t, ks[..i], rn), BelowAll(t, ks[i + 1..], rn);
    a := u + [ks[i]] + a1;
    b := b1 + w;
    Regroup2(u, ks[i], a1, y, b1, w);
  }

  /** Concatenation regrouped around `y`, one level up. */
  lemma Regroup2(u: seq<NodeId>, k: NodeId, a: seq<NodeId>, y: NodeId, b: seq<NodeId>, w: seq<NodeId>)
    ensures u + [k] + (a + [y] + b) + w == (u + [k] + a) + [y] + (b + w)
    ensures u + [k] + (a + b) + w == (u + [k] + a) + (b + w)
  {
  }

  /** Above the parent of `y`, the walk below `n` splits at its child `i`, and the other children walk as before. */
  lemma UpFrames(t: Store, t2: Store, y: NodeId, p: NodeId, k0: seq<NodeId>, k2: seq<NodeId>, n: NodeId, i: nat)
    requires Ranked(t) && Ranked(t2) && Site(t, y, p, k0, k2) && Merged(t, t2, y, p, k0, k2)
    requires n in t.kids && n != p && n != y && n != t.parent[y] && i < |t.kids[n]|
    requires forall k :: k in t.kids[n][..i] + t.kids[n][i + 1..] ==> Clear(t, k, y, p, t.parent[y])
    ensures n in t2.kids && t2.kids[n] == t.kids[n]
    ensures var ks, rn := t.kids[n], t.info.rank[n];
      && (forall k :: k in ks ==> k in t.kids && t.info.rank[k] < rn && k in t2.kids)
      && Below(t, n) == BelowAll(t, ks[..i], rn) + [ks[i]] + Below(t, ks[i]) + BelowAll(t, ks[i + 1..], rn)
      && Below(t2, n) == BelowAll(t, ks[..i], rn) + [ks[i]] + Below(t2, ks[i]) + BelowAll(t, ks[i + 1..], rn)
  {
    var ks, rn, r2 := t.kids[n], t.info.rank[n], t2.info.rank[n];
    assert t2.kids[n] == ks;
    BelowSplit(t, n, i);
    BelowSplit(t2, n, i);
    MergeFrameAll(t, t2, y, p, k0, k2, ks[..i], rn, r2);
    MergeFrameAll(t, t2, y, p, k0, k2, ks[i + 1..], rn, r2);
  }

  /**
   * The merge seen from any node `n` whose subtree holds the parent of `y`:
   * the walk below `n` loses `y` and nothing else, and the nodes whose
   * previous sibling changes come after `y`.
   */
  lemma {:induction false} MergeUp(t: Store, t2: Store, y: NodeId, p: NodeId, k0: seq<NodeId>, k2: seq<NodeId>, n: NodeId)
    returns (a: seq<NodeId>, b: seq<NodeId>)
    requires WF(t) && Ranked(t2) && Site(t, y, p, k0, k2) && Merged(t, t2, y, p, k0, k2) && Cleared(t, y, p, k0, k2)
    requires n in t.kids && t.parent[y] in Desc(t, n)
    ensures n in t2.kids && Below(t, n) == a + [y] + b && Below(t2, n) == a + b
    ensures forall x :: x in Shifted(t, y, k2) ==> x in b
    decreases t.info.rank[n]
  {
    if n == t.parent[y] {
      a, b := MergeAtParent(t, t2, y, p, k0, k2);
    } else {
      var i := UpChild(t, y, p, k0, k2, n);
      var a1, b1 := MergeUp(t, t2, y, p, k0, k2, t.kids[n][i]);
      a, b := UpStep(t, t2, y, p, k0, k2, n, i, a1, b1);
    }
  }

  /** Where an attached node `x` hangs in `t`, as far as the merge of `y` into `p` is concerned. */
  ghost predicate Hangs(t: Store, y: NodeId, p: NodeId, x: NodeId)
  {
    (&& x in t.parent && t.parent[x] in t.kids && x in t.kids[t.parent[x]]
     && (y in t.kids && x in t.kids[y] ==> t.parent[x] == y)
     && (p in t.kids && x in t.kids[p] ==> t.parent[x] == p)) == true
  }

  lemma HangsFromWF(t: Store, y: NodeId, p: NodeId, x: NodeId)
    requires WF(t) && x in t.parent
    ensures Hangs(t, y, p, x)
  {
    if y in t.kids && x in t.kids[y] {
      ChildFacts(t, y, x);
    }
    if p in t.kids && x in t.kids[p] {
      ChildFacts(t, p, x);
    }
  }

  /** Outside the nodes whose previous sibling a merge changes, every attached node keeps its previous sibling. */
  lemma PrevKept(t: Store, t2: Store, y: NodeId, p: NodeId, k0: seq<NodeId>, k2: seq<NodeId>, x: NodeId)
    requires Site(t, y, p, k0, k2) && Merged(t, t2, y, p, k0, k2) && Hangs(t, y, p, x)
    requires x != y && x !in Shifted(t, y, k2)
    ensures Prev(t2, x) == Prev(t, x)
  {
    var g, ps, ys := t.parent[y], t.kids[p], t.kids[y];
    assert x in t2.parent;
    if x in ys {
      assert x !in ps;
      assert t2.parent[x] == p;
      BeforeRight(ps, ys, x);
    } else {
      var q := t.parent[x];
      assert t2.parent[x] == q && q != y;
      if q == p {
        BeforeLeft(ps, ys, x);
      } else if q == g {
        assert k0 + [p] + [y] + k2 == (k0 + [p]) + [y] + k2;
        BeforeDrop(k0 + [p], y, k2, x);
      } else {
        assert t2.kids[q] == t.kids[q];
      }
    }
  }

  /** `a + [y] + b` cut at its only `y`. */
  lemma CutUnique(a: seq<NodeId>, b: seq<NodeId>, c: seq<NodeId>, d: seq<NodeId>, y: NodeId)
    requires a + [y] + b == c + [y] + d && y !in a && y !in c
    ensures a == c && b == d
  {
    var xs := a + [y] + b;
    assert xs[|a|] == y && (c + [y] + d)[|c|] == y;
    assert |a| == |c|;
    assert a == xs[..|a|] && c == (c + [y] + d)[..|c|];
    assert b == xs[|a| + 1..] && d == (c + [y] + d)[|c| + 1..];
  }

  /** Two entries of a list without repetitions, one before `y` and one after. */
  lemma Apart(a: seq<NodeId>, y: NodeId, b: seq<NodeId>, x: NodeId)
    requires Distinct(a + [y] + b) && x in a
    ensures x != y && x !in b
  {
    var xs := a + [y] + b;
    var u :| 0 <= u < |a| && a[u] == x;
    assert xs[u] == x && xs[|a|] == y;
    forall v | 0 <= v < |b| ensures b[v] != x {
      assert xs[|a| + 1 + v] == b[v];
    }
  }

  /**
   * The named nodes of a walk that loses `y`: they were `done + rest` with
   * `y` at the head of `rest`, and they are `done + rest[1..]`; every node
   * of `done` lies before `y`.
   */
  lemma NamedCut(tag: map<NodeId, string>, name: string, a: seq<NodeId>, y: NodeId, b: seq<NodeId>,
                 done: seq<NodeId>, rest: seq<NodeId>)
    requires Distinct(a + [y] + b) && rest != [] && rest[0] == y
    requires OfName(tag, a + [y] + b, name) == done + rest
    ensures OfName(tag, a + b, name) == done + rest[1..]
    ensures forall x :: x in done ==> x in a
  {
    assert done + rest == done + [y] + rest[1..];
    OfNameMembers(tag, a + [y] + b, name);
    assert y in tag && tag[y] == name;
    OfNameAppend(tag, a + [y], b, name);
    OfNameAppend(tag, a, [y], name);
    OfNameAppend(tag, a, b, name);
    assert OfName(tag, [y], name) == [y] by {
      assert [y][..0] == [];
    }
    DistinctMid(a, y, b);
    OfNameMembers(tag, a, name);
    OfNameDistinct(tag, a + [y] + b, name);
    DistinctMid(done, y, rest[1..]);
    CutUnique(OfName(tag, a, name), OfName(tag, b, name), done, rest[1..], y);
  }

  /**
   * One turn of the merging pass, in tree order. The named nodes below the
   * root are `done + rest`, and no node of `done` has a named previous
   * sibling. The turn for `rest[0]` either merges it into its named previous
   * sibling or leaves the tree alone; after it, the named nodes below the
   * root are `done2 + rest[1..]`, and no node of `done2` has a named
   * previous sibling.
   */
  lemma MergeKeeps(t: Store, t2: Store, root: NodeId, name: string, done: seq<NodeId>, rest: seq<NodeId>)
    returns (done2: seq<NodeId>)
    requires WF(t) && Ranked(t2) && t2.info.tag == t.info.tag && rest != []
    requires Passing(t, root, name, done, rest)
    requires NamedPrev(t, rest[0], name) ==> MergedInto(t, t2, rest[0], Prev(t, rest[0]).value)
    requires !NamedPrev(t, rest[0], name) ==> t2 == t
    ensures Passing(t2, root, name, done2, rest[1..])
  {
    var y := rest[0];
    if !NamedPrev(t, y, name) {
      done2 := done + [y];
      assert done + rest == done2 + rest[1..];
      return;
    }
    var p := Prev(t, y).value;
    var k0, k2 := MergeSite(t, y, p);
    MergeAtoms(t, t2, y, p, k0, k2);
    SiteCleared(t, y, p, k0, k2);
    var a, b := UnderRoot(t, t2, root, name, y, p, k0, k2, done + rest);
    done2 := done;
    NamedCut(t.info.tag, name, a, y, b, done, rest);
    forall x | x in done ensures !NamedPrev(t2, x, name) {
      Apart(a, y, b, x);
      AttachedBelow(t, root, a + [y] + b, x);
      HangsFromWF(t, y, p, x);
      PrevKept(t, t2, y, p, k0, k2, x);
    }
  }

  /** The merge seen from the root: the walk loses `y`, which it held once. */
  lemma UnderRoot(t: Store, t2: Store, root: NodeId, name: string, y: NodeId, p: NodeId,
                  k0: seq<NodeId>, k2: seq<NodeId>, named: seq<NodeId>) returns (a: seq<NodeId>, b: seq<NodeId>)
    requires WF(t) && Ranked(t2) && root in t.kids && y in named
    requires Site(t, y, p, k0, k2) && Merged(t, t2, y, p, k0, k2) && Cleared(t, y, p, k0, k2)
    requires OfName(t.info.tag, Below(t, root), name) == named
    ensures root in t2.kids && Below(t, root) == a + [y] + b && Below(t2, root) == a + b
    ensures Distinct(a + [y] + b)
    ensures forall x :: x in Shifted(t, y, k2) ==> x in b
  {
    OfNameMembers(t.info.tag, Below(t, root), name);
    BelowMembers(t, root);
    DescUp(t, root, y);
    a, b := MergeUp(t, t2, y, p, k0, k2, root);
    BelowDistinct(t, root);
  }

  /** A node met by the walk below `root` is attached. */
  lemma AttachedBelow(t: Store, root: NodeId, walk: seq<NodeId>, x: NodeId)
    requires WF(t) && root in t.kids && Below(t, root) == walk && x in walk
    ensures x in t.parent
  {
    BelowMembers(t, root);
    DescUp(t, root, x);
  }

  /**
   * The state of the merging pass: the named nodes below the root, in tree
   * order, are the passed ones `done` followed by the ones still ahead, and
   * no passed node has a named previous sibling.
   */
  ghost predicate Passing(t: Store, root: NodeId, name: string, done: seq<NodeId>, rest: seq<NodeId>)
  {
    && Ranked(t) && root in t.kids
    && OfName(t.info.tag, Below(t, root), name) == done + rest
    && forall x :: x in done ==> !NamedPrev(t, x, name)
  }

  /** When the pass has met every named node below the root, no run of named siblings is left. */
  lemma RunsGone(t: Store, root: NodeId, name: string, done: seq<NodeId>)
    requires Passing(t, root, name, done, [])
    ensures NoRuns(t, root, name)
  {
    assert done + [] == done;
    BelowMembers(t, root);
    OfNameMembers(t.info.tag, Below(t, root), name);
  }

  // ---------------------------------------------------------------------
  // What the merging pass keeps

  /** The entries of `xs` outside `g`, in their order. */
  ghost function Drop(xs: seq<NodeId>, g: set<NodeId>): seq<NodeId>
    decreases |xs|
  {
    if xs == [] then []
    else
      var x := xs[|xs| - 1];
      Drop(xs[..|xs| - 1], g) + (if x in g then [] else [x])
  }

  lemma DropSnoc(xs: seq<NodeId>, x: NodeId, g: set<NodeId>)
    ensures Drop(xs + [x], g) == Drop(xs, g) + (if x in g then [] else [x])
  {
    assert (xs + [x])[..|xs|] == xs;
  }

  lemma {:induction false} DropAppend(a: seq<NodeId>, b: seq<NodeId>, g: set<NodeId>)
    ensures Drop(a + b, g) == Drop(a, g) + Drop(b, g)
    decreases |b|
  {
    if b == [] {
      assert a + b == a;
    } else {
      var c, x := b[..|b| - 1], b[|b| - 1];
      assert a + b == (a + c) + [x] && b == c + [x];
      DropAppend(a, c, g);
      DropSnoc(a + c, x, g);
      DropSnoc(c, x, g);
    }
  }

  /** Dropping nodes a list does not hold leaves it as it is. */
  lemma {:induction false} DropNone(xs: seq<NodeId>, g: set<NodeId>)
    requires forall x :: x in xs ==> x !in g
    ensures Drop(xs, g) == xs
    decreases |xs|
  {
    if xs != [] {
      DropNone(xs[..|xs| - 1], g);
      assert xs == xs[..|xs| - 1] + [xs[|xs| - 1]];
    }
  }

  /** Dropping `g`, then `h`, is dropping both. */
  lemma {:induction false} DropTwice(xs: seq<NodeId>, g: set<NodeId>, h: set<NodeId>)
    ensures Drop(Drop(xs, g), h) == Drop(xs, g + h)
    decreases |xs|
  {
    if xs != [] {
      var pre, x := xs[..|xs| - 1], xs[|xs| - 1];
      assert xs == pre + [x];
      DropTwice(pre, g, h);
      DropSnoc(pre, x, g);
      DropSnoc(pre, x, g + h);
      if x !in g {
        DropSnoc(Drop(pre, g), x, h);
        assert Drop(Drop(xs, g), h) == Drop(Drop(pre, g), h) + (if x in h then [] else [x]);
      } else {
        assert Drop(pre, g) + [] == Drop(pre, g);
      }
    }
  }

  /** Dropping the one `y` of a list without repetitions. */
  lemma DropOne(a: seq<NodeId>, y: NodeId, b: seq<NodeId>)
    requires y !in a && y !in b
    ensures Drop(a + [y] + b, {y}) == a + b
  {
    DropAppend(a + [y], b, {y});
    DropSnoc(a, y, {y});
    DropNone(a, {y});
    DropNone(b, {y});
    assert Drop(a + [y], {y}) == a;
  }

  /** The members of `xs` not called `name`, in their order. */
  ghost function Others(tag: map<NodeId, string>, xs: seq<NodeId>, name: string): seq<NodeId>
    decreases |xs|
  {
    if xs == [] then []
    else
      var x := xs[|xs| - 1];
      Others(tag, xs[..|xs| - 1], name) + (if x in tag && tag[x] == name then [] else [x])
  }

  lemma OthersSnoc(tag: map<NodeId, string>, xs: seq<NodeId>, x: NodeId, name: string)
    ensures Others(tag, xs + [x], name) == Others(tag, xs, name) + (if x in tag && tag[x] == name then [] else [x])
  {
    assert (xs + [x])[..|xs|] == xs;
  }

  /** Dropping only nodes called `name` keeps every other node, in order. */
  lemma {:induction false} OthersDrop(tag: map<NodeId, string>, name: string, xs: seq<NodeId>, g: set<NodeId>)
    requires forall x :: x in g ==> x in tag && tag[x] == name
    ensures Others(tag, Drop(xs, g), name) == Others(tag, xs, name)
    decreases |xs|
  {
    if xs != [] {
      var pre, x := xs[..|xs| - 1], xs[|xs| - 1];
      assert xs == pre + [x];
      OthersDrop(tag, name, pre, g);
      DropSnoc(pre, x, g);
      OthersSnoc(tag, pre, x, name);
      if x !in g {
        OthersSnoc(tag, Drop(pre, g), x, name);
        assert Others(tag, Drop(xs, g), name) == Others(tag, Drop(pre, g), name) + (if x in tag && tag[x] == name then [] else [x]);
      } else {
        assert Drop(pre, g) + [] == Drop(pre, g);
      }
    }
  }

  /**
   * `ys` is `xs` with some nodes called `name` left out: every other node
   * stays, and the nodes that stay keep their order.
   */
  ghost predicate Thinned(tag: map<NodeId, string>, name: string, xs: seq<NodeId>, ys: seq<NodeId>)
  {
    exists g :: AllNamed(tag, g, name) && ys == Drop(xs, g)
  }

  /** Every node of `g` is called `name`. */
  ghost predicate AllNamed(tag: map<NodeId, string>, g: set<NodeId>, name: string)
  {
    forall x :: x in g ==> x in tag && tag[x] == name
  }

  /** Dropping keeps exactly the entries outside the dropped set. */
  lemma {:induction false} DropMembers(xs: seq<NodeId>, g: set<NodeId>, x: NodeId)
    ensures x in Drop(xs, g) <==> x in xs && x !in g
    decreases |xs|
  {
    if xs != [] {
      var pre := xs[..|xs| - 1];
      DropMembers(pre, g, x);
      assert xs == pre + [xs[|xs| - 1]];
    }
  }

  /** A node not called `name` stays in a thinned list. */
  lemma ThinnedStays(tag: map<NodeId, string>, name: string, xs: seq<NodeId>, ys: seq<NodeId>, x: NodeId)
    requires Thinned(tag, name, xs, ys) && x in xs && !(x in tag && tag[x] == name)
    ensures x in ys
  {
    var g :| AllNamed(tag, g, name) && ys == Drop(xs, g);
    DropMembers(xs, g, x);
  }

  /** A thinned list holds the nodes not called `name` of the original, in the same order. */
  lemma ThinnedOthers(tag: map<NodeId, string>, name: string, xs: seq<NodeId>, ys: seq<NodeId>)
    requires Thinned(tag, name, xs, ys)
    ensures Others(tag, ys, name) == Others(tag, xs, name)
  {
    var g :| AllNamed(tag, g, name) && ys == Drop(xs, g);
    OthersDrop(tag, name, xs, g);
  }

  /**
   * Every node with a parent in `t` had one in `s`, and a node whose parent
   * changed now hangs from a node called `name`.
   */
  ghost predicate Regrouped(s: Store, t: Store, name: string)
  {
    forall x :: x in t.parent ==>
      && x in s.parent
      && (t.parent[x] == s.parent[x] || (t.parent[x] in t.info.tag && t.info.tag[t.parent[x]] == name))
  }

  lemma RegroupedTrans(s: Store, t: Store, t2: Store, name: string)
    requires Regrouped(s, t, name) && Regrouped(t, t2, name) && t2.info.tag == t.info.tag
    ensures Regrouped(s, t2, name)
  {
  }

  /**
   * A merge of `y` into its previous sibling, called `name`, seen from the
   * root above it: the walk loses `y` and nothing else, and the nodes that
   * change parent are the children of `y`, which now hang from that sibling.
   */
  lemma MergeThins(t: Store, t2: Store, root: NodeId, name: string, y: NodeId, named: seq<NodeId>)
    requires WF(t) && Ranked(t2) && t2.info.tag == t.info.tag && root in t.kids && y in named && y in t.parent
    requires OfName(t.info.tag, Below(t, root), name) == named
    requires NamedPrev(t, y, name) && MergedInto(t, t2, y, Prev(t, y).value)
    ensures root in t2.kids && Below(t2, root) == Drop(Below(t, root), {y})
    ensures Regrouped(t, t2, name)
  {
    var p := Prev(t, y).value;
    MergeWalk(t, t2, root, name, y, p, named);
    MergeRegroups(t, t2, name, y, p);
  }

  lemma MergeWalk(t: Store, t2: Store, root: NodeId, name: string, y: NodeId, p: NodeId, named: seq<NodeId>)
    requires WF(t) && Ranked(t2) && root in t.kids && y in named && y in t.parent
    requires OfName(t.info.tag, Below(t, root), name) == named
    requires Prev(t, y) == Some(p) && MergedInto(t, t2, y, p)
    ensures root in t2.kids && Below(t2, root) == Drop(Below(t, root), {y})
  {
    var k0, k2 := MergeSite(t, y, p);
    MergeAtoms(t, t2, y, p, k0, k2);
    SiteCleared(t, y, p, k0, k2);
    var a, b := UnderRoot(t, t2, root, name, y, p, k0, k2, named);
    DistinctMid(a, y, b);
    DropOne(a, y, b);
  }

  /** The children of `y` move to `p`, called `name`; no other node changes parent. */
  lemma MergeRegroups(t: Store, t2: Store, name: string, y: NodeId, p: NodeId)
    requires WF(t) && MergedInto(t, t2, y, p) && t2.info.tag == t.info.tag
    requires p in t.info.tag && t.info.tag[p] == name
    ensures Regrouped(t, t2, name)
  {
    forall x | x in t.kids[y] ensures x in t.parent {
      ChildFacts(t, y, x);
    }
  }
}
