/** A document whose nodes are rewritten in place when it is bound, and whose
    lookup caches are built on first use. */
module DocumentStore {
  import opened Text
  import opened DocumentIr
  import opened Wrappers

  const VERSION := "document-ir/v1"

  class Document {
    const h: Naming
    var version: string
    var documentId: string
    var nodes: seq<Node>
    var links: seq<Relationship>
    var index: Option<map<string, nat>>

    constructor (naming: Naming, v: string, parsed: seq<Node>, related: seq<Relationship>)
      ensures h == naming && version == v && documentId == "" && nodes == parsed && links == related && index == None
    {
      h, version, documentId, nodes, links, index := naming, v, "", parsed, related, None;
    }

    /** The cache, when there is one, finds the last node of each id that has text. */
    predicate Valid()
      reads this
    {
      index.Some? ==> index.value == IndexOf(nodes, |nodes|)
    }

    /** Binds to a document, or reports an error: a blank id or a foreign version leaves
        the nodes alone. */
    method BindDocument(doc: string) returns (ok: bool)
      requires Valid()
      modifies this
      ensures Valid()
      ensures var refused := TrimSpace(doc) == "" || (old(version) != "" && old(version) != VERSION);
        if refused then !ok && nodes == old(nodes) && links == old(links) && documentId == old(documentId)
        else
          && nodes == Bound(h, doc, old(nodes)) && links == BoundLinks(h, doc, old(nodes), old(links))
          && documentId == doc && version == VERSION && (ok <==> Validates(nodes))
    {
      hide Rename, LastWith, Validates, TrimSpace;
      if TrimSpace(doc) == "" {
        return false;
      }
      index := None;
      if version == "" {
        version := VERSION;
      }
      if version != VERSION {
        return false;
      }
      ghost var was := nodes;
      var renamed := RenameAll(h, doc, nodes);
      links := RenameLinks(h, doc, nodes, links);
      nodes := AdoptAll(renamed);
      documentId := doc;
      ok := IsValid(nodes);
    }

    /** A node by its id, through the cache. */
    method NodeByID(id: string) returns (found: Option<Node>)
      requires Valid()
      modifies this`index
      ensures Valid()
      ensures found.Some? ==> found.value in nodes && found.value.id == id && TrimSpace(found.value.text) != ""
      ensures found.None? <==> forall i :: 0 <= i < |nodes| && nodes[i].id == id ==> TrimSpace(nodes[i].text) == ""
    {
      hide TrimSpace;
      if index.None? {
        var ids: map<string, nat> := map[];
        for i := 0 to |nodes|
          invariant ids == IndexOf(nodes, i)
        {
          if TrimSpace(nodes[i].text) != "" {
            ids := ids[nodes[i].id := i];
          }
        }
        index := Some(ids);
      }
      IndexFinds(nodes, |nodes|, id);
      if id !in index.value {
        return None;
      }
      return Some(nodes[index.value[id]]);
    }
  }

  /** The id lookup of the first n nodes; nodes without text are not in it. */
  function IndexOf(nodes: seq<Node>, n: nat): (ids: map<string, nat>)
    requires n <= |nodes|
    ensures forall id <- ids :: ids[id] < n
  {
    if n == 0 then map[]
    else if TrimSpace(nodes[n - 1].text) == "" then IndexOf(nodes, n - 1)
    else IndexOf(nodes, n - 1)[nodes[n - 1].id := n - 1]
  }

  /** The lookup misses exactly the ids that only nodes without text carry. */
  lemma {:induction false} IndexFinds(nodes: seq<Node>, n: nat, id: string)
    requires n <= |nodes|
    ensures id in IndexOf(nodes, n) <==> exists i :: 0 <= i < n && nodes[i].id == id && TrimSpace(nodes[i].text) != ""
    ensures id in IndexOf(nodes, n) ==>
      nodes[IndexOf(nodes, n)[id]].id == id && TrimSpace(nodes[IndexOf(nodes, n)[id]].text) != ""
  {
    hide TrimSpace;
    if n > 0 {
      IndexFinds(nodes, n - 1, id);
    }
  }

  lemma BindingKeepsText(h: Naming, doc: string, nodes: seq<Node>, i: nat)
    requires i < |nodes|
    ensures Bound(h, doc, nodes)[i].text == nodes[i].text
  {
    hide NewId, Rename, ChildrenOf, LastWith;
  }

  lemma BlankIsNotFound(nodes: seq<Node>, i: nat)
    requires UniqueIds(nodes) && i < |nodes| && TrimSpace(nodes[i].text) == ""
    ensures nodes[i].id !in IndexOf(nodes, |nodes|)
  {
    hide TrimSpace, IndexOf;
    forall j | 0 <= j < |nodes| && nodes[j].id == nodes[i].id
      ensures j == i
    {
    }
    IndexFinds(nodes, |nodes|, nodes[i].id);
  }

  /** In a document that validates after binding, a node without text is not found by its id. */
  lemma BlankNodesAreNotFound(h: Naming, doc: string, nodes: seq<Node>, i: nat)
    requires Validates(Bound(h, doc, nodes)) && i < |nodes| && TrimSpace(nodes[i].text) == ""
    ensures var bound := Bound(h, doc, nodes); bound[i].id !in IndexOf(bound, |bound|)
  {
    assert UniqueIds(Bound(h, doc, nodes));
    hide *;
    BindingKeepsText(h, doc, nodes, i);
    BlankIsNotFound(Bound(h, doc, nodes), i);
  }

  const PICTURE := Node("n", "image", "", "", [], 0, " ", [], "p", "a")

  /** A picture without a caption binds and validates, and its id finds nothing. */
  lemma BlankNodeIsNotFound(h: Naming, doc: string)
    requires Injective(h)
    ensures var bound := Bound(h, doc, [PICTURE]);
      Validates(bound) && |bound| == 1 && bound[0].id !in IndexOf(bound, 1)
  {
    assert TrimSpace([PICTURE][0].text) == "";
    assert DistinctKeys(h, [PICTURE]);
    hide *;
    assert |[PICTURE]| == 1;
    PictureHasKind();
    ValidIff(h, doc, [PICTURE]);
    BlankNodesAreNotFound(h, doc, [PICTURE], 0);
  }

  lemma PictureHasKind()
    ensures PICTURE.kind != ""
  {
  }

  /** What the ids of the nodes become; a later node takes over a repeated id. */
  method NewNames(h: Naming, doc: string, nodes: seq<Node>) returns (oldToNew: map<string, string>)
    ensures forall id :: id in oldToNew <==> LastWith(nodes, id, |nodes|) >= 0
    ensures forall id <- oldToNew :: oldToNew[id] == Rename(h, doc, nodes, id)
  {
    hide NewId;
    oldToNew := map[];
    for i := 0 to |nodes|
      invariant forall id :: id in oldToNew <==> LastWith(nodes, id, i) >= 0
      invariant forall id <- oldToNew ::
        oldToNew[id] == NewId(h, doc, nodes[LastWith(nodes, id, i)], LastWith(nodes, id, i))
    {
      oldToNew := oldToNew[nodes[i].id := NewId(h, doc, nodes[i], i)];
    }
  }

  method RenameAll(h: Naming, doc: string, nodes: seq<Node>) returns (renamed: seq<Node>)
    ensures renamed == Renamed(h, doc, nodes)
  {
    hide NewId, LastWith;
    var oldToNew := NewNames(h, doc, nodes);
    renamed := [];
    for i := 0 to |nodes|
      invariant |renamed| == i
      invariant forall k :: 0 <= k < i ==> renamed[k] == Renamed(h, doc, nodes)[k]
    {
      var parent := if nodes[i].parent in oldToNew then oldToNew[nodes[i].parent] else "";
      assert parent == Rename(h, doc, nodes, nodes[i].parent);
      renamed := renamed + [nodes[i].(id := NewId(h, doc, nodes[i], i), documentId := doc, parent := parent,
        children := [])];
    }
  }

  method RenameLinks(h: Naming, doc: string, nodes: seq<Node>, links: seq<Relationship>)
    returns (renamed: seq<Relationship>)
    ensures renamed == BoundLinks(h, doc, nodes, links)
  {
    hide Rename;
    renamed := [];
    for k := 0 to |links|
      invariant |renamed| == k
      invariant forall j :: 0 <= j < k ==> renamed[j] == BoundLinks(h, doc, nodes, links)[j]
    {
      var from, to := Rename(h, doc, nodes, links[k].from), Rename(h, doc, nodes, links[k].to);
      renamed := renamed + [Relationship(h.link(from, to, links[k].kind), from, to, links[k].kind)];
    }
  }

  /** What one more node adds to the children of node k. */
  lemma AdoptOne(nodes: seq<Node>, j: nat, k: nat)
    requires j < |nodes| && k < |nodes|
    ensures var before, parent := WithChildren(nodes, j)[k], nodes[j].parent;
      WithChildren(nodes, j + 1)[k] ==
        if parent != "" && LastWith(nodes, parent, |nodes|) == k
          then before.(children := before.children + [nodes[j].id]) else before
  {
    hide LastWith, ChildrenOf;
    OneMoreChild(nodes, nodes[k].id, j);
    if LastWith(nodes, nodes[j].parent, |nodes|) == k {
      assert nodes[k].id == nodes[j].parent;
    }
  }

  lemma OneMoreChild(nodes: seq<Node>, parent: string, j: nat)
    requires j < |nodes|
    ensures ChildrenOf(nodes, parent, j + 1) ==
      ChildrenOf(nodes, parent, j) + if nodes[j].parent == parent && parent != "" then [nodes[j].id] else []
  {
  }

  lemma NoneAdopted(nodes: seq<Node>)
    requires forall i :: 0 <= i < |nodes| ==> nodes[i].children == []
    ensures WithChildren(nodes, 0) == nodes
  {
    hide LastWith;
  }

  /** Appending every node to its parent's children, one after the other. */
  method AdoptAll(nodes: seq<Node>) returns (adopted: seq<Node>)
    requires forall i :: 0 <= i < |nodes| ==> nodes[i].children == []
    ensures adopted == WithChildren(nodes, |nodes|)
  {
    hide LastWith, WithChildren;
    adopted := nodes;
    NoneAdopted(nodes);
    for j := 0 to |nodes|
      invariant adopted == WithChildren(nodes, j)
    {
      var parent := nodes[j].parent;
      var i := LastWith(nodes, parent, |nodes|);
      if parent != "" && i >= 0 {
        adopted := adopted[i := adopted[i].(children := adopted[i].children + [nodes[j].id])];
      }
      forall k | 0 <= k < |nodes|
        ensures adopted[k] == WithChildren(nodes, j + 1)[k]
      {
        AdoptOne(nodes, j, k);
      }
    }
  }

  method IsValid(nodes: seq<Node>) returns (ok: bool)
    ensures ok <==> Validates(nodes)
  {
    var seen: set<string> := {};
    for i := 0 to |nodes|
      invariant forall id :: id in seen <==> exists k :: 0 <= k < i && nodes[k].id == id
      invariant forall k :: 0 <= k < i ==> nodes[k].id != "" && nodes[k].kind != ""
      invariant forall j, k :: 0 <= j < k < i ==> nodes[j].id != nodes[k].id
    {
      if nodes[i].id == "" || nodes[i].kind == "" {
        return false;
      }
      if nodes[i].id in seen {
        return false;
      }
      seen := seen + {nodes[i].id};
    }
    for i := 0 to |nodes|
      invariant forall k :: 0 <= k < i && nodes[k].parent != "" ==> nodes[k].parent in seen
    {
      if nodes[i].parent != "" && nodes[i].parent !in seen {
        assert !HasId(nodes, nodes[i].parent);
        return false;
      }
    }
    assert forall k :: 0 <= k < |nodes| && nodes[k].parent != "" ==> HasId(nodes, nodes[k].parent);
    return true;
  }
}
