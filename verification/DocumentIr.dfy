/** Binding a parsed document: new identities for all nodes, references repaired,
    children rebuilt from parents. */
module DocumentIr {
  import opened Text

  /** path is the logical path of the source anchor, anchor the anchor as a whole. */
  datatype Node = Node(id: string, kind: string, documentId: string, parent: string, children: seq<string>,
                       order: nat, text: string, headings: seq<string>, path: string, anchor: string)

  datatype Relationship = Relationship(id: string, from: string, to: string, kind: string)

  /** How identities are made: node ids from document, kind, position and anchor;
      relationship ids from both ends and the kind; and decimal numbers. */
  datatype Naming = Naming(node: (string, string, string, string) -> string, link: (string, string, string) -> string,
                           number: nat -> string)

  /** Different inputs never share an id, and ids are not empty. */
  ghost predicate Injective(h: Naming) {
    && (forall a, b, c, d :: h.node(a, b, c, d) != "")
    && (forall a, b, c, d, a', b', c', d' :: h.node(a, b, c, d) == h.node(a', b', c', d') ==>
         a == a' && b == b' && c == c' && d == d')
    && (forall m: nat, n: nat :: h.number(m) == h.number(n) ==> m == n)
  }

  function Logical(h: Naming, n: Node, i: nat): string { if n.path != "" then n.path else h.number(i) }

  function NewId(h: Naming, doc: string, n: Node, i: nat): string { h.node(doc, n.kind, Logical(h, n, i), n.anchor) }

  /** The last of the first n nodes with an id, or -1. */
  function LastWith(nodes: seq<Node>, id: string, n: nat): (i: int)
    requires n <= |nodes|
    ensures -1 <= i < n && (i >= 0 ==> nodes[i].id == id) && forall k :: i < k < n ==> nodes[k].id != id
  {
    if n == 0 then -1 else if nodes[n - 1].id == id then n - 1 else LastWith(nodes, id, n - 1)
  }

  /** What an old reference becomes: nothing when it names no node. */
  function Rename(h: Naming, doc: string, nodes: seq<Node>, reference: string): string {
    var i := LastWith(nodes, reference, |nodes|);
    if i < 0 then "" else NewId(h, doc, nodes[i], i)
  }

  /** The nodes with their new identities and parents, before children are rebuilt. */
  function Renamed(h: Naming, doc: string, nodes: seq<Node>): (r: seq<Node>)
    ensures |r| == |nodes|
  {
    seq(|nodes|, i requires 0 <= i < |nodes| =>
      nodes[i].(id := NewId(h, doc, nodes[i], i), documentId := doc,
        parent := Rename(h, doc, nodes, nodes[i].parent), children := []))
  }

  /** The ids of the first n nodes that name a parent, in node order. */
  function ChildrenOf(nodes: seq<Node>, parent: string, n: nat): seq<string>
    requires n <= |nodes|
  {
    if n == 0 then []
    else
      ChildrenOf(nodes, parent, n - 1) +
      if nodes[n - 1].parent == parent && parent != "" then [nodes[n - 1].id] else []
  }

  /** Children rebuilt from the first n nodes, each list on the last node with the id. */
  function WithChildren(nodes: seq<Node>, n: nat): (r: seq<Node>)
    requires n <= |nodes|
    ensures |r| == |nodes|
  {
    seq(|nodes|, i requires 0 <= i < |nodes| =>
      nodes[i].(children :=
        if LastWith(nodes, nodes[i].id, |nodes|) == i then ChildrenOf(nodes, nodes[i].id, n) else []))
  }

  function Bound(h: Naming, doc: string, nodes: seq<Node>): (r: seq<Node>)
    ensures |r| == |nodes|
  {
    WithChildren(Renamed(h, doc, nodes), |nodes|)
  }

  function BoundLinks(h: Naming, doc: string, nodes: seq<Node>, links: seq<Relationship>): (r: seq<Relationship>)
    ensures |r| == |links|
  {
    seq(|links|, k requires 0 <= k < |links| =>
      var from, to := Rename(h, doc, nodes, links[k].from), Rename(h, doc, nodes, links[k].to);
      Relationship(h.link(from, to, links[k].kind), from, to, links[k].kind))
  }

  predicate HasId(nodes: seq<Node>, id: string) { exists i :: 0 <= i < |nodes| && nodes[i].id == id }

  predicate UniqueIds(nodes: seq<Node>) { forall i, j :: 0 <= i < j < |nodes| ==> nodes[i].id != nodes[j].id }

  predicate Validates(nodes: seq<Node>) {
    && (forall i :: 0 <= i < |nodes| ==> nodes[i].id != "" && nodes[i].kind != "")
    && UniqueIds(nodes)
    && (forall i :: 0 <= i < |nodes| && nodes[i].parent != "" ==> HasId(nodes, nodes[i].parent))
  }

  // ------------------------------------------------------------------ when it is valid

  /** The same kind, anchor and position, which is the path or, without one, the place in the list. */
  predicate SameKey(h: Naming, nodes: seq<Node>, i: nat, j: nat)
    requires i < |nodes| && j < |nodes|
  {
    && nodes[i].kind == nodes[j].kind && nodes[i].anchor == nodes[j].anchor
    && (if nodes[i].path == "" then h.number(i) else nodes[i].path) ==
       (if nodes[j].path == "" then h.number(j) else nodes[j].path)
  }

  predicate DistinctKeys(h: Naming, nodes: seq<Node>) {
    forall i, j :: 0 <= i < j < |nodes| ==> !SameKey(h, nodes, i, j)
  }

  lemma SameIdIffSameKey(h: Naming, doc: string, nodes: seq<Node>, i: nat, j: nat)
    requires Injective(h) && i < |nodes| && j < |nodes|
    ensures Bound(h, doc, nodes)[i].id == Bound(h, doc, nodes)[j].id <==> SameKey(h, nodes, i, j)
  {
    hide LastWith, ChildrenOf;
  }

  lemma BoundFields(h: Naming, doc: string, nodes: seq<Node>)
    requires Injective(h)
    ensures var bound := Bound(h, doc, nodes);
      && (forall i :: 0 <= i < |nodes| ==> bound[i].kind == nodes[i].kind && bound[i].id != "")
      && (forall i :: 0 <= i < |nodes| && bound[i].parent != "" ==> HasId(bound, bound[i].parent))
  {
    hide ChildrenOf;
    var bound := Bound(h, doc, nodes);
    forall i | 0 <= i < |nodes| && bound[i].parent != ""
      ensures HasId(bound, bound[i].parent)
    {
      var p := LastWith(nodes, nodes[i].parent, |nodes|);
      assert bound[p].id == bound[i].parent;
    }
  }

  /** Binding succeeds if and only if every node has a kind and no two nodes share kind,
      position and anchor. No parent can be missing: binding drops unknown ones. */
  lemma ValidIff(h: Naming, doc: string, nodes: seq<Node>)
    requires Injective(h)
    ensures Validates(Bound(h, doc, nodes)) <==>
      (forall i :: 0 <= i < |nodes| ==> nodes[i].kind != "") && DistinctKeys(h, nodes)
  {
    hide Bound, SameKey, Injective;
    var bound := Bound(h, doc, nodes);
    BoundFields(h, doc, nodes);
    forall i, j | 0 <= i < j < |nodes|
      ensures bound[i].id == bound[j].id <==> SameKey(h, nodes, i, j)
    {
      SameIdIffSameKey(h, doc, nodes, i, j);
    }
    if Validates(bound) {
      forall i, j | 0 <= i < j < |nodes|
        ensures !SameKey(h, nodes, i, j)
      {
        assert bound[i].id != bound[j].id;
      }
      forall i | 0 <= i < |nodes|
        ensures nodes[i].kind != ""
      {
        assert bound[i].kind != "";
      }
    }
  }

  /** What the new identities are made of: of a node its document, kind, position and anchor, of a
      relationship its new ends and its kind. */
  lemma IdentitiesAreMadeOf(h: Naming, doc: string, nodes: seq<Node>, links: seq<Relationship>, i: nat, k: nat)
    requires i < |nodes| && k < |links|
    ensures Bound(h, doc, nodes)[i].id ==
      h.node(doc, nodes[i].kind, if nodes[i].path == "" then h.number(i) else nodes[i].path, nodes[i].anchor)
    ensures var link := BoundLinks(h, doc, nodes, links)[k]; link.id == h.link(link.from, link.to, links[k].kind)
  {
    hide LastWith, ChildrenOf;
  }

  // -------------------------------------------------------------- the tree is kept

  lemma OneWithId(nodes: seq<Node>, reference: string, p: nat)
    requires UniqueIds(nodes) && p < |nodes|
    ensures LastWith(nodes, reference, |nodes|) == p <==> nodes[p].id == reference
    ensures LastWith(nodes, reference, |nodes|) < 0 <==> !HasId(nodes, reference)
  {
  }

  lemma BoundId(h: Naming, doc: string, nodes: seq<Node>, q: nat)
    requires q < |nodes|
    ensures Bound(h, doc, nodes)[q].id == NewId(h, doc, nodes[q], q)
    ensures Injective(h) ==> NewId(h, doc, nodes[q], q) != ""
  {
    hide Logical;
  }

  lemma SameIdIsSameNode(h: Naming, doc: string, nodes: seq<Node>, q: nat, p: nat)
    requires Injective(h) && DistinctKeys(h, nodes) && q < |nodes| && p < |nodes|
    ensures Bound(h, doc, nodes)[q].id == Bound(h, doc, nodes)[p].id <==> q == p
  {
    SameIdIffSameKey(h, doc, nodes, q, p);
    hide Injective, Bound, Logical;
    assert q < p ==> !SameKey(h, nodes, q, p);
    assert p < q ==> !SameKey(h, nodes, p, q);
  }

  /** A renamed reference names the node that the old one named, and nothing when that
      named nothing. */
  lemma RenamedNames(h: Naming, doc: string, nodes: seq<Node>, reference: string, p: nat)
    requires Injective(h) && UniqueIds(nodes) && DistinctKeys(h, nodes) && p < |nodes|
    ensures Rename(h, doc, nodes, reference) == Bound(h, doc, nodes)[p].id <==> reference == nodes[p].id
    ensures Rename(h, doc, nodes, reference) == "" <==> !HasId(nodes, reference)
  {
    hide Injective, UniqueIds, DistinctKeys, HasId, Bound, NewId, LastWith;
    var q := LastWith(nodes, reference, |nodes|);
    OneWithId(nodes, reference, p);
    BoundId(h, doc, nodes, p);
    if q >= 0 {
      BoundId(h, doc, nodes, q);
      SameIdIsSameNode(h, doc, nodes, q, p);
    }
  }

  /** Binding keeps the tree: a node's parent is the same node as before, a node without a
      known parent has none, and nothing but the identities and the children lists changes. */
  lemma BindingKeepsParents(h: Naming, doc: string, nodes: seq<Node>, i: nat, p: nat)
    requires Injective(h) && UniqueIds(nodes) && DistinctKeys(h, nodes) && i < |nodes| && p < |nodes|
    ensures var bound := Bound(h, doc, nodes);
      && (bound[i].parent == bound[p].id <==> nodes[i].parent == nodes[p].id)
      && (bound[i].parent == "" <==> !HasId(nodes, nodes[i].parent))
      && bound[i] == nodes[i].(id := bound[i].id, documentId := doc, parent := bound[i].parent,
                               children := bound[i].children)
  {
    assert Bound(h, doc, nodes)[i].parent == Rename(h, doc, nodes, nodes[i].parent);
    hide Rename, HasId, Injective, DistinctKeys, UniqueIds, NewId, LastWith, ChildrenOf;
    RenamedNames(h, doc, nodes, nodes[i].parent, p);
  }

  /** And both ends of every relationship. */
  lemma BindingKeepsEnds(h: Naming, doc: string, nodes: seq<Node>, links: seq<Relationship>, k: nat, p: nat)
    requires Injective(h) && UniqueIds(nodes) && DistinctKeys(h, nodes) && k < |links| && p < |nodes|
    ensures var bound, link := Bound(h, doc, nodes), BoundLinks(h, doc, nodes, links)[k];
      && (link.from == bound[p].id <==> links[k].from == nodes[p].id)
      && (link.to == bound[p].id <==> links[k].to == nodes[p].id)
      && (link.from == "" <==> !HasId(nodes, links[k].from)) && (link.to == "" <==> !HasId(nodes, links[k].to))
      && link.kind == links[k].kind
  {
    hide Rename, HasId, Injective, DistinctKeys, UniqueIds, Bound;
    RenamedNames(h, doc, nodes, links[k].from, p);
    RenamedNames(h, doc, nodes, links[k].to, p);
  }

  // --------------------------------------------------------- children invert parents

  lemma {:induction false} ChildrenListed(nodes: seq<Node>, parent: string, n: nat, id: string)
    requires n <= |nodes| && parent != ""
    ensures id in ChildrenOf(nodes, parent, n) <==>
      exists j :: 0 <= j < n && nodes[j].parent == parent && nodes[j].id == id
  {
    if n > 0 {
      ChildrenListed(nodes, parent, n - 1, id);
    }
  }

  /** A node's children are exactly the nodes that name it as their parent. */
  lemma ChildrenInvertParents(h: Naming, doc: string, nodes: seq<Node>, i: nat, j: nat)
    requires Injective(h) && i < |nodes| && j < |nodes| && Validates(Bound(h, doc, nodes))
    ensures var bound := Bound(h, doc, nodes);
      bound[j].id in bound[i].children <==> bound[j].parent == bound[i].id
  {
    hide Injective;
    var renamed, bound := Renamed(h, doc, nodes), Bound(h, doc, nodes);
    assert forall k :: 0 <= k < |nodes| ==> renamed[k].id == bound[k].id && renamed[k].parent == bound[k].parent;
    var last := LastWith(renamed, renamed[i].id, |nodes|);
    assert last == i by {
      assert bound[last].id == bound[i].id;
    }
    ChildrenListed(renamed, renamed[i].id, |nodes|, renamed[j].id);
  }

  /** Children come in node order. */
  predicate InNodeOrder(nodes: seq<Node>, ids: seq<string>) {
    forall a, b, i, j ::
      0 <= a < b < |ids| && 0 <= i < |nodes| && 0 <= j < |nodes| && nodes[i].id == ids[a] && nodes[j].id == ids[b] ==>
        i < j
  }

  lemma ListedIsBefore(nodes: seq<Node>, parent: string, n: nat, id: string, i: nat)
    requires n <= |nodes| && UniqueIds(nodes) && parent != ""
    requires id in ChildrenOf(nodes, parent, n) && i < |nodes| && nodes[i].id == id
    ensures i < n
  {
    ChildrenListed(nodes, parent, n, id);
    hide ChildrenOf;
    var j :| 0 <= j < n && nodes[j].parent == parent && nodes[j].id == id;
    assert !(j < i);
  }

  lemma {:induction false} ListedInOrder(nodes: seq<Node>, parent: string, n: nat)
    requires n <= |nodes| && UniqueIds(nodes) && parent != ""
    ensures InNodeOrder(nodes, ChildrenOf(nodes, parent, n))
  {
    if n > 0 {
      var front, all := ChildrenOf(nodes, parent, n - 1), ChildrenOf(nodes, parent, n);
      ListedInOrder(nodes, parent, n - 1);
      assert all == front || all == front + [nodes[n - 1].id];
      hide ChildrenOf;
      forall a, b, i, j |
        0 <= a < b < |all| && 0 <= i < |nodes| && 0 <= j < |nodes| && nodes[i].id == all[a] && nodes[j].id == all[b]
        ensures i < j
      {
        assert all[a] == front[a];
        if b < |front| {
          assert all[b] == front[b];
        } else {
          ListedIsBefore(nodes, parent, n - 1, front[a], i);
          assert !(j < n - 1);
        }
      }
    }
  }

  /** After binding, every node's children come in node order, each once. */
  lemma ChildrenOrdered(h: Naming, doc: string, nodes: seq<Node>, i: nat)
    requires Injective(h) && i < |nodes| && Validates(Bound(h, doc, nodes))
    ensures InNodeOrder(Bound(h, doc, nodes), Bound(h, doc, nodes)[i].children)
  {
    var renamed, bound := Renamed(h, doc, nodes), Bound(h, doc, nodes);
    assert forall k :: 0 <= k < |nodes| ==> renamed[k].id == bound[k].id;
    assert bound[i].children == [] || bound[i].children == ChildrenOf(renamed, renamed[i].id, |nodes|);
    assert bound[i].id != "" && UniqueIds(renamed);
    hide Bound, Renamed, Validates, Injective, ChildrenOf, UniqueIds;
    ListedInOrder(renamed, renamed[i].id, |nodes|);
  }

  // ------------------------------------------------------------------- rebinding

  lemma RenamedTwice(h: Naming, a: string, b: string, nodes: seq<Node>, reference: string)
    requires Injective(h)
    ensures Rename(h, a, Renamed(h, b, nodes), Rename(h, b, nodes, reference)) == Rename(h, a, nodes, reference)
  {
    var renamed := Renamed(h, b, nodes);
    var i := LastWith(nodes, reference, |nodes|);
    var k := LastWith(renamed, Rename(h, b, nodes, reference), |nodes|);
    if i >= 0 {
      assert renamed[i].id == Rename(h, b, nodes, reference);
      assert k >= i && renamed[k].id == renamed[i].id;
    }
  }

  /** The same but for the children lists. */
  predicate SameButChildren(x: Node, y: Node) {
    && x.id == y.id && x.kind == y.kind && x.documentId == y.documentId && x.parent == y.parent && x.order == y.order
    && x.text == y.text && x.headings == y.headings && x.path == y.path && x.anchor == y.anchor
  }

  predicate AllSameButChildren(x: seq<Node>, y: seq<Node>) {
    |x| == |y| && forall i :: 0 <= i < |x| ==> SameButChildren(x[i], y[i])
  }

  lemma {:induction false} SameLast(x: seq<Node>, y: seq<Node>, id: string, n: nat)
    requires AllSameButChildren(x, y) && n <= |x|
    ensures LastWith(x, id, n) == LastWith(y, id, n)
  {
    if n > 0 {
      SameLast(x, y, id, n - 1);
    }
  }

  /** Identities do not depend on children lists. */
  lemma SameIdentities(h: Naming, a: string, x: seq<Node>, y: seq<Node>, reference: string)
    requires AllSameButChildren(x, y)
    ensures Rename(h, a, x, reference) == Rename(h, a, y, reference)
  {
    SameLast(x, y, reference, |x|);
  }

  lemma RenamedNode(h: Naming, a: string, b: string, nodes: seq<Node>, i: nat)
    requires Injective(h) && i < |nodes|
    ensures Renamed(h, a, Bound(h, b, nodes))[i] == Renamed(h, a, nodes)[i]
  {
    hide Injective, LastWith, Rename;
    var renamed, bound := Renamed(h, b, nodes), Bound(h, b, nodes);
    SameIdentities(h, a, bound, renamed, bound[i].parent);
    RenamedTwice(h, a, b, nodes, nodes[i].parent);
  }

  lemma ReboundReference(h: Naming, a: string, b: string, nodes: seq<Node>, reference: string)
    requires Injective(h)
    ensures Rename(h, a, Bound(h, b, nodes), Rename(h, b, nodes, reference)) == Rename(h, a, nodes, reference)
  {
    hide LastWith, Injective, Rename;
    var renamed, bound := Renamed(h, b, nodes), Bound(h, b, nodes);
    assert AllSameButChildren(bound, renamed);
    SameIdentities(h, a, bound, renamed, Rename(h, b, nodes, reference));
    RenamedTwice(h, a, b, nodes, reference);
  }

  /** Binding to another document first makes no difference, whatever the document. */
  lemma RebindingIsDirect(h: Naming, a: string, b: string, nodes: seq<Node>)
    requires Injective(h)
    ensures Bound(h, a, Bound(h, b, nodes)) == Bound(h, a, nodes)
  {
    hide LastWith, Injective, Rename;
    var bound := Bound(h, b, nodes);
    forall i | 0 <= i < |nodes|
      ensures Renamed(h, a, bound)[i] == Renamed(h, a, nodes)[i]
    {
      RenamedNode(h, a, b, nodes, i);
    }
    assert Renamed(h, a, bound) == Renamed(h, a, nodes);
  }

  /** Nor does it to the relationships. */
  lemma RebindingLinksIsDirect(h: Naming, a: string, b: string, nodes: seq<Node>, links: seq<Relationship>)
    requires Injective(h)
    ensures BoundLinks(h, a, Bound(h, b, nodes), BoundLinks(h, b, nodes, links)) == BoundLinks(h, a, nodes, links)
  {
    hide Bound, Injective, Rename;
    var once, direct := BoundLinks(h, b, nodes, links), BoundLinks(h, a, nodes, links);
    forall k | 0 <= k < |links|
      ensures BoundLinks(h, a, Bound(h, b, nodes), once)[k] == direct[k]
    {
      ReboundReference(h, a, b, nodes, links[k].from);
      ReboundReference(h, a, b, nodes, links[k].to);
    }
  }

  // ----------------------------------------------------------------- plain text

  /** A part of a plain text, already split at blank lines: its level is the number of
      marks it starts with, and its label what follows them. */
  datatype Part = Part(level: nat, text: string)

  function Leaf(h: Naming, kind: string, parent: string, order: nat, text: string, headings: seq<string>): Node {
    var path := (if kind == "heading" then "heading/" else "paragraph/") + h.number(order);
    Node("tmp:" + path, kind, "", parent, [], order, text, headings, path, path)
  }

  function Root(text: string): Node {
    Node("tmp:document", "document", "", "", [], 0, TrimSpace(text), [], "document", "document")
  }

  /** The nodes so far, the index of the latest heading (or of the root), the heading
      path and the next position. */
  datatype Outline = Outline(nodes: seq<Node>, parent: nat, headings: seq<string>, order: nat)

  function Deepen(headings: seq<string>, level: nat, text: string): (r: seq<string>)
    requires level >= 1
    ensures r != [] && |r| <= level && |r| <= |headings| + 1
  {
    headings[..Min(level - 1, |headings|)] + [text]
  }

  function AddPart(h: Naming, o: Outline, part: Part): Outline
    requires o.parent < |o.nodes|
  {
    if part.text == "" then o
    else if part.level > 0 then
      var headings := Deepen(o.headings, part.level, part.text);
      Outline(o.nodes + [Leaf(h, "heading", o.nodes[o.parent].id, o.order, part.text, headings)], |o.nodes|,
        headings, o.order + 1)
    else
      o.(nodes := o.nodes + [Leaf(h, "paragraph", o.nodes[o.parent].id, o.order, part.text, o.headings)],
        order := o.order + 1)
  }

  /** Positions count up, and every node but the root names an earlier heading, or the
      root, as its parent. */
  predicate SoundOutline(h: Naming, o: Outline) {
    && |o.nodes| == o.order + 1 && o.parent < |o.nodes|
    && o.nodes[0].parent == "" && o.nodes[0].id == "tmp:document" && o.nodes[0].path == "document"
       && o.nodes[0].kind == "document"
    && (o.parent == 0 || o.nodes[o.parent].kind == "heading")
    && forall i :: 0 < i < |o.nodes| ==> SoundLeaf(h, o, i)
  }

  predicate SoundLeaf(h: Naming, o: Outline, i: nat)
    requires 0 < i < |o.nodes|
  {
    && (o.nodes[i].kind == "heading" || o.nodes[i].kind == "paragraph")
    && o.nodes[i].path == (if o.nodes[i].kind == "heading" then "heading/" else "paragraph/") + h.number(i - 1)
    && o.nodes[i].id == "tmp:" + o.nodes[i].path
    && exists p :: 0 <= p < i && o.nodes[i].parent == o.nodes[p].id && (p == 0 || o.nodes[p].kind == "heading")
  }

  function Outlined(h: Naming, text: string, parts: seq<Part>): (o: Outline)
    ensures SoundOutline(h, o)
  {
    if parts == [] then Outline([Root(text)], 0, [], 0)
    else
      var before := Outlined(h, text, parts[..|parts| - 1]);
      AddPartIsSound(h, before, parts[|parts| - 1]);
      AddPart(h, before, parts[|parts| - 1])
  }

  lemma AddPartIsSound(h: Naming, o: Outline, part: Part)
    requires SoundOutline(h, o)
    ensures SoundOutline(h, AddPart(h, o, part))
  {
    var next := AddPart(h, o, part);
    forall i | 0 < i < |next.nodes|
      ensures SoundLeaf(h, next, i)
    {
      if i < |o.nodes| {
        assert SoundLeaf(h, o, i);
        assert next.nodes[i] == o.nodes[i];
        var p :| 0 <= p < i && o.nodes[i].parent == o.nodes[p].id && (p == 0 || o.nodes[p].kind == "heading");
        assert next.nodes[p] == o.nodes[p];
      } else {
        assert next.nodes[o.parent] == o.nodes[o.parent];
      }
    }
  }

  /** The loop over the parts. */
  method FromText(h: Naming, text: string, parts: seq<Part>) returns (nodes: seq<Node>)
    ensures nodes == Outlined(h, text, parts).nodes
  {
    hide SoundOutline, Leaf, Root;
    nodes := [Root(text)];
    var parent: nat, headings: seq<string>, order: nat := 0, [], 0;
    for i := 0 to |parts|
      invariant Outline(nodes, parent, headings, order) == Outlined(h, text, parts[..i])
    {
      assert parts[..i + 1][..i] == parts[..i];
      var part := parts[i];
      assert parent < |nodes| by { ParentInRange(h, text, parts[..i]); }
      if part.text != "" {
        if part.level > 0 {
          var level := part.level;
          if level > |headings| + 1 {
            level := |headings| + 1;
          }
          headings := headings[..Min(level - 1, |headings|)] + [part.text];
          nodes := nodes + [Leaf(h, "heading", nodes[parent].id, order, part.text, headings)];
          parent := |nodes| - 1;
        } else {
          nodes := nodes + [Leaf(h, "paragraph", nodes[parent].id, order, part.text, headings)];
        }
        order := order + 1;
      }
    }
    assert parts[..|parts|] == parts;
  }

  lemma ParentInRange(h: Naming, text: string, parts: seq<Part>)
    ensures var o := Outlined(h, text, parts); o.parent < |o.nodes|
  {
  }

  lemma PathsDiffer(h: Naming, o: Outline, i: nat, j: nat)
    requires Injective(h) && SoundOutline(h, o) && i < j < |o.nodes|
    ensures o.nodes[i].path != o.nodes[j].path && o.nodes[i].path != "" && o.nodes[j].path != ""
  {
    assert SoundLeaf(h, o, j);
    var b := o.nodes[j].path;
    if i == 0 {
      assert "document"[0] == 'd' && (b[0] == 'h' || b[0] == 'p');
    } else {
      assert SoundLeaf(h, o, i);
      var a := o.nodes[i].path;
      if o.nodes[i].kind != o.nodes[j].kind {
        assert a[0] != b[0];
      } else {
        var prefix := if o.nodes[i].kind == "heading" then "heading/" else "paragraph/";
        assert a[|prefix|..] == h.number(i - 1);
        assert b[|prefix|..] == h.number(j - 1);
      }
    }
  }

  /** What a plain text becomes always binds, and its parents, before and after binding,
      come earlier: it has no cycle. */
  lemma FromTextBinds(h: Naming, doc: string, text: string, parts: seq<Part>)
    requires Injective(h)
    ensures var nodes := Outlined(h, text, parts).nodes; Validates(Bound(h, doc, nodes))
  {
    hide Injective, Outlined, Bound;
    var o := Outlined(h, text, parts);
    forall i, j | 0 <= i < j < |o.nodes|
      ensures !SameKey(h, o.nodes, i, j)
    {
      PathsDiffer(h, o, i, j);
    }
    forall i | 0 <= i < |o.nodes|
      ensures o.nodes[i].kind != ""
    {
      assert i > 0 ==> SoundLeaf(h, o, i);
    }
    ValidIff(h, doc, o.nodes);
  }

  lemma FromTextIsAcyclic(h: Naming, doc: string, text: string, parts: seq<Part>, i: nat)
    requires Injective(h) && i < |Outlined(h, text, parts).nodes|
    ensures var bound := Bound(h, doc, Outlined(h, text, parts).nodes);
      if i == 0 then bound[i].parent == ""
      else exists p :: 0 <= p < i && bound[i].parent == bound[p].id && (p == 0 || bound[p].kind == "heading")
  {
    hide Injective, Outlined, LastWith, ChildrenOf;
    var o := Outlined(h, text, parts);
    if i == 0 {
      NoEmptyIds(h, o);
    } else {
      assert SoundLeaf(h, o, i);
      var p :| 0 <= p < i && o.nodes[i].parent == o.nodes[p].id && (p == 0 || o.nodes[p].kind == "heading");
      OnlyWithId(h, o, p);
      BoundParent(h, doc, o.nodes, i, p);
    }
  }

  lemma OnlyWithId(h: Naming, o: Outline, p: nat)
    requires Injective(h) && SoundOutline(h, o) && p < |o.nodes|
    ensures LastWith(o.nodes, o.nodes[p].id, |o.nodes|) == p
  {
    hide Injective, SoundOutline, LastWith;
    var last := LastWith(o.nodes, o.nodes[p].id, |o.nodes|);
    if last > p {
      IdsDiffer(h, o, p, last);
    }
  }

  lemma BoundParent(h: Naming, doc: string, nodes: seq<Node>, i: nat, p: nat)
    requires i < |nodes| && p < |nodes| && nodes[i].parent == nodes[p].id && LastWith(nodes, nodes[p].id, |nodes|) == p
    ensures Bound(h, doc, nodes)[i].parent == Bound(h, doc, nodes)[p].id
      && Bound(h, doc, nodes)[p].kind == nodes[p].kind
  {
    hide LastWith, ChildrenOf;
  }

  lemma NoEmptyIds(h: Naming, o: Outline)
    requires SoundOutline(h, o)
    ensures LastWith(o.nodes, "", |o.nodes|) == -1
  {
    forall i | 0 <= i < |o.nodes|
      ensures o.nodes[i].id != ""
    {
      assert i > 0 ==> SoundLeaf(h, o, i);
    }
  }

  lemma IdsDiffer(h: Naming, o: Outline, i: nat, j: nat)
    requires Injective(h) && SoundOutline(h, o) && i < j < |o.nodes|
    ensures o.nodes[i].id != o.nodes[j].id
  {
    hide Injective;
    PathsDiffer(h, o, i, j);
    assert SoundLeaf(h, o, j);
    assert i > 0 ==> SoundLeaf(h, o, i);
    assert o.nodes[j].id[4..] == o.nodes[j].path;
    assert i > 0 ==> o.nodes[i].id[4..] == o.nodes[i].path;
    assert i == 0 ==> o.nodes[i].id[4..] == "document";
  }
}
