/** What the outline of a plain text is, said of its parts: which nodes it has, which earlier heading is
    the parent of each, and which headings its path names. */
module OutlineLaws {
  import opened Text
  import opened DocumentIr

  predicate IsHeadingPart(part: Part) { part.text != "" && part.level > 0 }

  /** How deep the outline is after the first n parts: a heading goes one deeper at most. */
  function Depth(parts: seq<Part>, n: nat): nat
    requires n <= |parts|
  {
    if n == 0 then 0
    else if IsHeadingPart(parts[n - 1]) then Min(parts[n - 1].level, Depth(parts, n - 1) + 1)
    else Depth(parts, n - 1)
  }

  /** Part j is the last heading at that depth, and no heading after it, among the first n parts, is as high. */
  predicate HoldsAt(parts: seq<Part>, n: nat, j: nat, depth: nat) {
    && j < n <= |parts| && IsHeadingPart(parts[j]) && Depth(parts, j + 1) == depth
    && forall k :: j < k < n && IsHeadingPart(parts[k]) ==> Depth(parts, k + 1) > depth
  }

  /** The heading in force at a depth after the first n parts has that title. */
  predicate IsNamed(parts: seq<Part>, n: nat, depth: nat, title: string)
    requires n <= |parts|
  {
    exists j | 0 <= j < n :: HoldsAt(parts, n, j, depth) && parts[j].text == title
  }

  /** The headings in force after the first n parts, from the highest down. */
  predicate IsPathAfter(parts: seq<Part>, n: nat, path: seq<string>) {
    && n <= |parts| && |path| == Depth(parts, n)
    && forall l :: 0 <= l < |path| ==> IsNamed(parts, n, l + 1, path[l])
  }

  lemma StaysNamed(parts: seq<Part>, n: nat, depth: nat, title: string)
    requires n < |parts| && IsNamed(parts, n, depth, title)
    requires IsHeadingPart(parts[n]) ==> Depth(parts, n + 1) > depth
    ensures IsNamed(parts, n + 1, depth, title)
  {
    var j :| 0 <= j < n && HoldsAt(parts, n, j, depth) && parts[j].text == title;
    assert HoldsAt(parts, n + 1, j, depth);
  }

  lemma NewlyNamed(parts: seq<Part>, n: nat)
    requires n < |parts| && IsHeadingPart(parts[n])
    ensures IsNamed(parts, n + 1, Depth(parts, n + 1), parts[n].text)
  {
    assert HoldsAt(parts, n + 1, n, Depth(parts, n + 1));
  }

  lemma PathGoesOn(parts: seq<Part>, n: nat, path: seq<string>)
    requires n < |parts| && IsPathAfter(parts, n, path)
    ensures IsPathAfter(parts, n + 1,
      if IsHeadingPart(parts[n]) then path[..Min(parts[n].level - 1, |path|)] + [parts[n].text] else path)
  {
    var part := parts[n];
    var keep := if IsHeadingPart(part) then Min(part.level - 1, |path|) else |path|;
    forall l | 0 <= l < keep
      ensures IsNamed(parts, n + 1, l + 1, path[l])
    {
      StaysNamed(parts, n, l + 1, path[l]);
    }
    if IsHeadingPart(part) {
      NewlyNamed(parts, n);
    }
    hide IsNamed;
  }

  // ------------------------------------------------------------------- the nodes

  /** The parts with a text, among the first n, in order. */
  predicate AreSolid(parts: seq<Part>, n: nat, at: seq<nat>) {
    && n <= |parts|
    && (forall k :: 0 <= k < |at| ==> at[k] < n && parts[at[k]].text != "")
    && (forall j, k :: 0 <= j < k < |at| ==> at[j] < at[k])
    && (forall i :: 0 <= i < n && parts[i].text != "" ==> i in at)
  }

  /** Node p is the parent of what comes after the first k parts with a text: the last heading among
      them, or the root when there is none. */
  predicate IsParent(parts: seq<Part>, at: seq<nat>, k: nat, p: nat)
    requires k <= |at| && forall i :: 0 <= i < |at| ==> at[i] < |parts|
  {
    && p <= k
    && (p > 0 ==> parts[at[p - 1]].level > 0)
    && forall q :: p <= q < k ==> parts[at[q]].level == 0
  }

  /** Node i + 1 is the i-th part with a text. */
  predicate IsPartNode(h: Naming, parts: seq<Part>, at: seq<nat>, nodes: seq<Node>, i: nat)
    requires forall k :: 0 <= k < |at| ==> at[k] < |parts|
  {
    i < |at| && |nodes| > i + 1 &&
    var node, part := nodes[i + 1], parts[at[i]];
    && node.text == part.text && node.order == i && node.documentId == "" && node.children == []
    && node.kind == (if part.level > 0 then "heading" else "paragraph")
    && node.path == (if part.level > 0 then "heading/" else "paragraph/") + h.number(i)
    && node.anchor == node.path && node.id == "tmp:" + node.path
    && IsPathAfter(parts, at[i] + 1, node.headings)
    && exists p | 0 <= p <= i :: IsParent(parts, at, i, p) && node.parent == nodes[p].id
  }

  /** What the outline is after the first n parts. */
  predicate IsOutline(h: Naming, text: string, parts: seq<Part>, n: nat, at: seq<nat>, o: Outline) {
    && AreSolid(parts, n, at) && |o.nodes| == |at| + 1 && o.order == |at|
    && o.nodes[0] == Root(text)
    && (forall i :: 0 <= i < |at| ==> IsPartNode(h, parts, at, o.nodes, i))
    && o.parent <= |at| && IsParent(parts, at, |at|, o.parent)
    && IsPathAfter(parts, n, o.headings)
  }

  lemma SolidGoesOn(parts: seq<Part>, n: nat, at: seq<nat>)
    requires n < |parts| && AreSolid(parts, n, at)
    ensures AreSolid(parts, n + 1, if parts[n].text == "" then at else at + [n])
  {
    if parts[n].text != "" {
      var more := at + [n];
      forall i | 0 <= i < n + 1 && parts[i].text != ""
        ensures i in more
      {
        assert i < n ==> i in at;
      }
    }
  }

  lemma NodeStays(h: Naming, parts: seq<Part>, at: seq<nat>, nodes: seq<Node>, n: nat, node: Node, i: nat)
    requires n < |parts| && (forall k :: 0 <= k < |at| ==> at[k] < |parts|) && |nodes| == |at| + 1
    requires i < |at| && IsPartNode(h, parts, at, nodes, i)
    ensures IsPartNode(h, parts, at + [n], nodes + [node], i)
  {
    hide IsPathAfter;
    var p :| 0 <= p <= i && IsParent(parts, at, i, p) && nodes[i + 1].parent == nodes[p].id;
    assert IsParent(parts, at + [n], i, p);
    assert (nodes + [node])[i + 1] == nodes[i + 1] && (nodes + [node])[p] == nodes[p];
  }

  lemma NewNode(h: Naming, text: string, parts: seq<Part>, n: nat, at: seq<nat>, o: Outline)
    requires n < |parts| && IsOutline(h, text, parts, n, at, o) && parts[n].text != ""
    ensures var o' := AddPart(h, o, parts[n]);
      |o'.nodes| == |o.nodes| + 1 && o'.nodes[..|o.nodes|] == o.nodes
      && IsPartNode(h, parts, at + [n], o'.nodes, |at|)
  {
    var part, o' := parts[n], AddPart(h, o, parts[n]);
    var headings := if part.level > 0 then Deepen(o.headings, part.level, part.text) else o.headings;
    var node := Leaf(h, if part.level > 0 then "heading" else "paragraph", o.nodes[o.parent].id, |at|, part.text,
      headings);
    assert o'.nodes == o.nodes + [node];
    PathGoesOn(parts, n, o.headings);
    assert forall i :: 0 <= i < |at| ==> at[i] < |parts|;
    ParentStays(parts, n, at, |at|, o.parent);
    hide IsPathAfter, IsParent, AreSolid, IsPartNode, IsOutline, AddPart;
    LeafIsPartNode(h, parts, n, at, o.nodes, o.parent, headings);
  }

  lemma LeafIsPartNode(h: Naming, parts: seq<Part>, n: nat, at: seq<nat>, nodes: seq<Node>, p: nat,
                       headings: seq<string>)
    requires n < |parts| && (forall i :: 0 <= i < |at| ==> at[i] < |parts|) && |nodes| == |at| + 1 && p <= |at|
    requires IsParent(parts, at + [n], |at|, p) && IsPathAfter(parts, n + 1, headings)
    ensures var part := parts[n];
      var node := Leaf(h, if part.level > 0 then "heading" else "paragraph", nodes[p].id, |at|, part.text, headings);
      IsPartNode(h, parts, at + [n], nodes + [node], |at|)
  {
    hide IsPathAfter, IsParent;
  }

  lemma ParentStays(parts: seq<Part>, n: nat, at: seq<nat>, k: nat, p: nat)
    requires n < |parts| && (forall i :: 0 <= i < |at| ==> at[i] < |parts|) && k <= |at| && IsParent(parts, at, k, p)
    ensures IsParent(parts, at + [n], k, p)
  {
  }

  lemma NextParent(parts: seq<Part>, n: nat, at: seq<nat>, p: nat)
    requires n < |parts| && (forall i :: 0 <= i < |at| ==> at[i] < |parts|) && IsParent(parts, at, |at|, p)
    ensures IsParent(parts, at + [n], |at| + 1, if parts[n].level > 0 then |at| + 1 else p)
  {
  }

  lemma AddPartFields(h: Naming, text: string, parts: seq<Part>, n: nat, at: seq<nat>, o: Outline)
    requires n < |parts| && IsOutline(h, text, parts, n, at, o)
    ensures var part, o' := parts[n], AddPart(h, o, parts[n]);
      var at' := if part.text == "" then at else at + [n];
      && |o'.nodes| == |at'| + 1 && o'.order == |at'| && o'.nodes[0] == Root(text)
      && AreSolid(parts, n + 1, at') && o'.parent <= |at'| && IsParent(parts, at', |at'|, o'.parent)
      && IsPathAfter(parts, n + 1, o'.headings)
  {
    PathGoesOn(parts, n, o.headings);
    SolidGoesOn(parts, n, at);
    assert forall i :: 0 <= i < |at| ==> at[i] < |parts|;
    NextParent(parts, n, at, o.parent);
    hide IsPathAfter, IsParent, AreSolid, IsPartNode, Leaf, Root;
  }

  lemma AllNodes(h: Naming, parts: seq<Part>, n: nat, at: seq<nat>, nodes: seq<Node>, node: Node)
    requires n < |parts| && (forall k :: 0 <= k < |at| ==> at[k] < |parts|) && |nodes| == |at| + 1
    requires forall i :: 0 <= i < |at| ==> IsPartNode(h, parts, at, nodes, i)
    requires IsPartNode(h, parts, at + [n], nodes + [node], |at|)
    ensures forall i :: 0 <= i < |at| + 1 ==> IsPartNode(h, parts, at + [n], nodes + [node], i)
  {
    hide IsPartNode;
    forall i | 0 <= i < |at| + 1
      ensures IsPartNode(h, parts, at + [n], nodes + [node], i)
    {
      if i < |at| {
        NodeStays(h, parts, at, nodes, n, node, i);
      }
    }
  }

  lemma OutlineStep(h: Naming, text: string, parts: seq<Part>, n: nat, at: seq<nat>, o: Outline)
    requires n < |parts| && IsOutline(h, text, parts, n, at, o)
    ensures IsOutline(h, text, parts, n + 1, if parts[n].text == "" then at else at + [n], AddPart(h, o, parts[n]))
  {
    var part, o' := parts[n], AddPart(h, o, parts[n]);
    AddPartFields(h, text, parts, n, at, o);
    if part.text != "" {
      NewNode(h, text, parts, n, at, o);
      var node := o'.nodes[|o.nodes|];
      assert o'.nodes == o.nodes + [node];
      assert forall k :: 0 <= k < |at| ==> at[k] < |parts|;
      hide IsPathAfter, IsPartNode, AreSolid, AddPart, IsParent, Root;
      AllNodes(h, parts, n, at, o.nodes, node);
    }
  }

  /** The outline of a plain text: its root, then a node for each part with a text, which says what the
      part is, in its place, under the last heading before it, with the path of the headings in force. */
  lemma {:induction false} OutlineIs(h: Naming, text: string, parts: seq<Part>) returns (at: seq<nat>)
    ensures IsOutline(h, text, parts, |parts|, at, Outlined(h, text, parts))
    ensures Outlined(h, text, parts).nodes[0] ==
      Node("tmp:document", "document", "", "", [], 0, TrimSpace(text), [], "document", "document")
  {
    hide IsOutline, AddPart, Root;
    RootIs(text);
    if parts == [] {
      at := [];
      EmptyOutline(h, text);
    } else {
      var n := |parts| - 1;
      at := OutlineIs(h, text, parts[..n]);
      MorePartsSameOutline(h, text, parts, n, at, Outlined(h, text, parts[..n]));
      OutlineStep(h, text, parts, n, at, Outlined(h, text, parts[..n]));
      at := if parts[n].text == "" then at else at + [n];
    }
    OutlineHasRoot(h, text, parts, at, Outlined(h, text, parts));
  }

  lemma RootIs(text: string)
    ensures Root(text) == Node("tmp:document", "document", "", "", [], 0, TrimSpace(text), [], "document", "document")
  {
  }

  lemma OutlineHasRoot(h: Naming, text: string, parts: seq<Part>, at: seq<nat>, o: Outline)
    requires IsOutline(h, text, parts, |parts|, at, o)
    ensures o.nodes != [] && o.nodes[0] == Root(text)
  {
  }

  lemma EmptyOutline(h: Naming, text: string)
    ensures IsOutline(h, text, [], 0, [], Outlined(h, text, []))
  {
  }

  lemma {:induction false} SameDepth(parts: seq<Part>, n: nat, k: nat)
    requires k <= n <= |parts|
    ensures Depth(parts[..n], k) == Depth(parts, k)
  {
    if k > 0 {
      SameDepth(parts, n, k - 1);
    }
  }

  lemma SameNames(parts: seq<Part>, n: nat, k: nat, depth: nat, title: string)
    requires k <= n <= |parts| && IsNamed(parts[..n], k, depth, title)
    ensures IsNamed(parts, k, depth, title)
  {
    var j :| 0 <= j < k && HoldsAt(parts[..n], k, j, depth) && parts[..n][j].text == title;
    forall i: nat | i <= n
      ensures Depth(parts[..n], i) == Depth(parts, i)
    {
      SameDepth(parts, n, i);
    }
    assert HoldsAt(parts, k, j, depth);
  }

  lemma SamePath(parts: seq<Part>, n: nat, k: nat, path: seq<string>)
    requires k <= n <= |parts| && IsPathAfter(parts[..n], k, path)
    ensures IsPathAfter(parts, k, path)
  {
    SameDepth(parts, n, k);
    forall l | 0 <= l < |path|
      ensures IsNamed(parts, k, l + 1, path[l])
    {
      SameNames(parts, n, k, l + 1, path[l]);
    }
  }

  lemma MorePartsSameOutline(h: Naming, text: string, parts: seq<Part>, n: nat, at: seq<nat>, o: Outline)
    requires n <= |parts| && IsOutline(h, text, parts[..n], n, at, o)
    ensures IsOutline(h, text, parts, n, at, o)
  {
    SamePath(parts, n, n, o.headings);
    forall i | 0 <= i < |at|
      ensures IsPartNode(h, parts, at, o.nodes, i)
    {
      MorePartsSameNode(h, parts, n, at, o.nodes, i);
    }
    hide IsPathAfter, IsPartNode;
  }

  lemma MorePartsSameNode(h: Naming, parts: seq<Part>, n: nat, at: seq<nat>, nodes: seq<Node>, i: nat)
    requires n <= |parts| && (forall k :: 0 <= k < |at| ==> at[k] < n)
    requires i < |at| && IsPartNode(h, parts[..n], at, nodes, i)
    ensures IsPartNode(h, parts, at, nodes, i)
  {
    SamePath(parts, n, at[i] + 1, nodes[i + 1].headings);
    hide IsPathAfter;
    var p :| 0 <= p <= i && IsParent(parts[..n], at, i, p) && nodes[i + 1].parent == nodes[p].id;
    assert IsParent(parts, at, i, p);
  }
}
