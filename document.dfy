/**
 * The live document: the store of `Dom` held in the fields of an object and
 * changed in place by the DOM calls the editor makes. Each call is proved to
 * move the object from `old(Model())` to the store a function of `Dom`
 * computes (`Remove` to `Detach`, `InsertBefore` and `AppendChild` to
 * `Move`, `CreateElement` to `CreateElement`), and to keep the tree well
 * formed.
 */
module Document {
  import opened Dom

  class Doc {
    var kids: map<NodeId, seq<NodeId>>
    var parent: map<NodeId, NodeId>
    var tag: map<NodeId, string>
    var ident: map<NodeId, string>
    ghost var rank: map<NodeId, nat>
    var size: nat

    /** The fields, read as a store. */
    ghost function Model(): Store
      reads this
    {
      Arena(kids, parent, Info(tag, ident, rank, size))
    }

    ghost predicate Valid()
      reads this
    {
      WF(Model())
    }

    /** A document holding only the editable area: an element named `rootTag`, without parent. */
    constructor (rootTag: string, ghost height: nat)
      ensures Valid() && 0 in kids && kids[0] == [] && 0 !in parent && tag[0] == rootTag
    {
      kids := map[0 := []];
      parent := map[];
      tag := map[0 := rootTag];
      ident := map[0 := ""];
      rank := map[0 := height];
      size := 1;
    }

    /** node.parentNode */
    function ParentNode(n: NodeId): (r: Option<NodeId>)
      reads this
      ensures r.Some? <==> n in parent
      ensures r.Some? ==> r.value == parent[n]
    {
      if n in parent then Some(parent[n]) else None
    }

    /** node.firstChild */
    function FirstChild(n: NodeId): (r: Option<NodeId>)
      requires n in kids
      reads this
      ensures r.None? <==> kids[n] == []
      ensures r.Some? ==> r.value == kids[n][0]
    {
      if kids[n] == [] then None else Some(kids[n][0])
    }

    /** node.lastChild */
    function LastChild(n: NodeId): (r: Option<NodeId>)
      requires n in kids
      reads this
      ensures r.None? <==> kids[n] == []
      ensures r.Some? ==> r.value == kids[n][|kids[n]| - 1]
    {
      if kids[n] == [] then None else Some(kids[n][|kids[n]| - 1])
    }

    /** node.previousSibling: the child just before `n` in the list of its parent. */
    function PreviousSibling(n: NodeId): (r: Option<NodeId>)
      requires Valid()
      reads this
      ensures r.Some? ==> n in parent
      ensures r.Some? ==> exists i :: 0 < i < |kids[parent[n]]| && kids[parent[n]][i] == n && kids[parent[n]][i - 1] == r.value
      ensures n in parent && kids[parent[n]][0] != n ==> r.Some?
    {
      if n !in parent then None
      else
        var p := parent[n];
        var i := IndexOf(kids[p], n);
        if i == 0 then None else Some(kids[p][i - 1])
    }

    /** node.remove(): a node with a parent leaves it; a node without one stays as it is. */
    method Remove(n: NodeId)
      requires Valid()
      modifies this
      ensures Model() == Detach(old(Model()), n) && Valid()
    {
      DetachKeepsWF(Model(), n);
      if n in parent && parent[n] in kids {
        kids := kids[parent[n] := Without(kids[parent[n]], n)];
      }
      parent := parent - {n};
    }

    /**
     * p.insertBefore(n, ref): `n` leaves its parent and goes just before
     * `ref`; a NotFoundError, with nothing changed, when `ref` is not a
     * child of `p`.
     */
    method InsertBefore(p: NodeId, n: NodeId, ref: NodeId) returns (err: Option<Error>)
      requires Valid() && p in kids && n in kids && rank[n] < rank[p] && n != ref
      modifies this
      ensures err.None? <==> ref in old(kids[p])
      ensures err.Some? ==> err.value == NotFoundError && Model() == old(Model())
      ensures err.None? ==> ref in Detach(old(Model()), n).kids[p]
      ensures err.None? ==> Model() == Move(old(Model()), p, n, IndexOf(Detach(old(Model()), n).kids[p], ref))
      ensures Valid()
    {
      if ref !in kids[p] {
        return Some(NotFoundError);
      }
      ghost var s := Model();
      WithoutMembers(kids[p], n, ref);
      Remove(n);
      assert ref in kids[p];
      var i := IndexOf(kids[p], ref);
      MoveKeepsWF(s, p, n, i);
      Put(p, n, i);
      err := None;
    }

    /** p.appendChild(n): `n` leaves its parent and becomes the last child of `p`. */
    method AppendChild(p: NodeId, n: NodeId)
      requires Valid() && p in kids && n in kids && rank[n] < rank[p]
      modifies this
      ensures Model() == Move(old(Model()), p, n, |Detach(old(Model()), n).kids[p]|) && Valid()
    {
      ghost var s := Model();
      Remove(n);
      MoveKeepsWF(s, p, n, |kids[p]|);
      Put(p, n, |kids[p]|);
    }

    /** Puts the detached node `n` at position `i` of the child list of `p`. */
    method Put(p: NodeId, n: NodeId, i: nat)
      requires p in kids && i <= |kids[p]|
      modifies this
      ensures Model() == Attach(old(Model()), p, n, i)
    {
      kids := kids[p := InsertAt(kids[p], i, n)];
      parent := parent[n := p];
    }

    /**
     * document.createElement(name): a new element without parent, children
     * or id. Its rank is bookkeeping chosen by the caller.
     */
    method CreateElement(name: string, ghost r: nat) returns (n: NodeId)
      requires Valid()
      modifies this
      ensures n == old(size) && n !in old(kids)
      ensures Model() == Dom.CreateElement(old(Model()), name, r) && Valid()
    {
      CreateKeepsWF(Model(), name, r);
      n := size;
      tag := tag[n := name];
      ident := ident[n := ""];
      kids := kids[n := []];
      rank := rank[n := r];
      size := size + 1;
    }

    /** Raises the bookkeeping rank of `n`; the document itself does not change. */
    ghost method Raise(n: NodeId, r: nat)
      requires Valid() && n in kids && rank[n] <= r
      requires n in parent ==> r < rank[parent[n]]
      modifies this
      ensures Model() == old(Model()).(info := old(Model()).info.(rank := old(rank)[n := r])) && Valid()
    {
      RaiseKeepsWF(Model(), n, r);
      rank := rank[n := r];
    }
  }
}
