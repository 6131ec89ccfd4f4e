/** Which element has an id: the first one in document order. */
module CfiIds {
  import opened Wrappers
  import opened CfiSyntax
  import opened CfiDom
  import opened CfiResolve
  import opened CfiOrder

  ghost predicate HasId(root: Node, path: seq<nat>, id: string) {
    IsPath(root, path) && NodeAt(root, path).Elem? && NodeAt(root, path).id == id
  }

  /** An element comes before its descendants, and before the later children of its ancestors. */
  ghost predicate IsFirstWithId(root: Node, path: seq<nat>, id: string) {
    HasId(root, path, id) && forall q :: HasId(root, q, id) ==> !LexLess(q, path)
  }

  lemma ChildHasId(root: Node, path: seq<nat>, id: string)
    ensures path != [] ==>
              (HasId(root, path, id) <==> root.Elem? && path[0] < |root.children| && HasId(root.children[path[0]], path[1..], id))
    ensures path == [] ==> (HasId(root, path, id) <==> root.Elem? && root.id == id)
  {
  }

  /** Among the children from `k` on: none has the id, or the first that has it, with the first path below it. */
  ghost predicate FoundBelow(children: seq<Node>, id: string, k: nat, found: Option<seq<nat>>) {
    match found
    case None => forall j, q :: k <= j < |children| ==> !HasId(children[j], q, id)
    case Some(path) =>
      && path != [] && k <= path[0] < |children| && IsFirstWithId(children[path[0]], path[1..], id)
      && forall j, q :: k <= j < path[0] ==> !HasId(children[j], q, id)
  }

  lemma {:induction false} FindIdInIs(children: seq<Node>, id: string, k: nat)
    requires k <= |children|
    ensures FoundBelow(children, id, k, FindIdIn(children, id, k))
    decreases children, |children| - k
  {
    hide HasId, IsFirstWithId, FindId;
    if k < |children| {
      FindIdIs(children[k], id);
      FindIdInIs(children, id, k + 1);
      var here := FindId(children[k], id);
      if here.Some? {
        assert ([k] + here.value)[1..] == here.value;
      }
    }
  }

  lemma {:induction false} FindIdIs(n: Node, id: string)
    ensures match FindId(n, id) case None => (forall q :: !HasId(n, q, id)) case Some(path) => IsFirstWithId(n, path, id)
    decreases n
  {
    hide HasId, LexLess;
    if n.Elem? && n.id != id {
      FindIdInIs(n.children, id, 0);
      FoundInChildren(n, id, FindId(n, id));
    } else {
      forall q
        ensures HasId(n, q, id) ==> n.Elem? && !LexLess(q, [])
      {
        ChildHasId(n, q, id);
        NothingIsLess(q);
      }
      ChildHasId(n, [], id);
    }
  }

  lemma NothingIsLess(q: seq<nat>)
    ensures !LexLess(q, [])
  {
  }

  lemma FoundInChildren(n: Node, id: string, found: Option<seq<nat>>)
    requires n.Elem? && n.id != id && FoundBelow(n.children, id, 0, found)
    ensures match found case None => (forall q :: !HasId(n, q, id)) case Some(path) => IsFirstWithId(n, path, id)
  {
    hide HasId, LexLess;
    forall q | HasId(n, q, id)
      ensures found.Some? && !LexLess(q, found.value)
    {
      ChildHasId(n, q, id);
      assert HasId(n.children[q[0]], q[1..], id);
      var path := found.value;
      LexLessFirst(q, path);
    }
    if found.Some? {
      ChildHasId(n, found.value, id);
    }
  }

  lemma LexLessFirst(q: seq<nat>, path: seq<nat>)
    requires q != [] && path != []
    ensures LexLess(q, path) <==> q[0] < path[0] || (q[0] == path[0] && LexLess(q[1..], path[1..]))
  {
  }

  /** An id is found exactly when some element has it, and then at the one place that none with it comes before. */
  lemma FindIdIff(root: Node, id: string)
    ensures FindId(root, id) == None <==> forall q :: !HasId(root, q, id)
    ensures forall path :: FindId(root, id) == Some(path) <==> IsFirstWithId(root, path, id)
  {
    hide HasId, LexLess, FindId;
    FindIdIs(root, id);
    forall path | IsFirstWithId(root, path, id)
      ensures FindId(root, id) == Some(path)
    {
      LexLessTotal(FindId(root, id).value, path);
    }
  }

  /** The id of the last part wins over all steps, if an element has it; otherwise the steps decide alone. */
  lemma IdWins(root: Node, parts: Path, path: seq<nat>)
    requires parts != [] && var id := parts[|parts| - 1].id; id != "" && IsFirstWithId(root, path, id)
    ensures Resolve(root, parts) == Success(Found(Some(path), Some(Num(0))))
  {
    hide FindId, WalkFrom, IsFirstWithId;
    FindIdIff(root, parts[|parts| - 1].id);
  }
}
