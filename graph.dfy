/** The browser view's tree helpers: the node and link lists of the force graph, the
    flat table rows, the hierarchy of the tree layout, node classes, the search
    dimming and the detail labels. */
module Graph {
  import opened Wrappers
  import opened Records
  import opened Types
  import opened Sizes

  /** A node of the force graph: the dependency node with its `name@version` id. */
  datatype NodeData = NodeData(id: string, node: DependencyNode)

  datatype LinkData = LinkData(source: string, target: string)

  function WithIds(nodes: seq<DependencyNode>): (r: seq<NodeData>)
    ensures |r| == |nodes|
    ensures forall i :: 0 <= i < |nodes| ==> r[i] == NodeData(Key(nodes[i].name, nodes[i].version), nodes[i])
  {
    seq(|nodes|, i requires 0 <= i < |nodes| => NodeData(Key(nodes[i].name, nodes[i].version), nodes[i]))
  }

  lemma WithIdsAppend(a: seq<DependencyNode>, b: seq<DependencyNode>)
    ensures WithIds(a + b) == WithIds(a) + WithIds(b)
  {
  }

  /** `hierarchyToNodes`: appends the node, with its id, then the nodes of each
      dependency's subtree, to the shared list. */
  method HierarchyToNodes(root: DependencyNode, nodes: seq<NodeData>) returns (result: seq<NodeData>)
    ensures result == nodes + WithIds(Preorder(root))
    decreases root
  {
    var node := NodeData(Key(root.name, root.version), root);
    result := nodes + [node];
    assert WithIds(Preorder(root)) == [node] + WithIds(PreorderFrom(root, 0)) by {
      WithIdsAppend([root], PreorderFrom(root, 0));
    }
    Regroup(nodes, [node], WithIds(PreorderFrom(root, 0)));
    var deps := root.dependencies;
    var i := 0;
    while i < |deps|
      invariant 0 <= i <= |deps|
      invariant result + WithIds(PreorderFrom(root, i)) == nodes + WithIds(Preorder(root))
    {
      var before := result;
      result := HierarchyToNodes(deps[i].1, result);
      WithIdsAppend(Preorder(deps[i].1), PreorderFrom(root, i + 1));
      Regroup(before, WithIds(Preorder(deps[i].1)), WithIds(PreorderFrom(root, i + 1)));
      i := i + 1;
    }
    assert result + [] == result;
  }

  /** `flattenDependencies`: the table rows, the same pre-order without ids. */
  method FlattenDependencies(node: DependencyNode, result: seq<DependencyNode>) returns (rows: seq<DependencyNode>)
    ensures rows == result + Preorder(node)
    decreases node
  {
    rows := result + [node];
    Regroup(result, [node], PreorderFrom(node, 0));
    var deps := node.dependencies;
    var i := 0;
    while i < |deps|
      invariant 0 <= i <= |deps|
      invariant rows + PreorderFrom(node, i) == result + Preorder(node)
    {
      var before := rows;
      rows := FlattenDependencies(deps[i].1, rows);
      Regroup(before, Preorder(deps[i].1), PreorderFrom(node, i + 1));
      i := i + 1;
    }
    assert rows + [] == rows;
  }

  /** The table rows and the graph nodes list the same nodes in the same order. */
  lemma RowsMatchNodes(root: DependencyNode)
    ensures forall i :: 0 <= i < |Preorder(root)| ==> WithIds(Preorder(root))[i].node == Preorder(root)[i]
    ensures |WithIds(Preorder(root))| == NodeCount(root)
  {
    PreorderCount(root);
  }

  /** The links of one node: one per dependency, from the node's id to the
      dependency's `name@version`. */
  function NodeLinks(n: NodeData): (r: seq<LinkData>)
    ensures |r| == |n.node.dependencies|
    ensures forall k :: 0 <= k < |r| ==>
              r[k] == LinkData(n.id, Key(n.node.dependencies[k].1.name, n.node.dependencies[k].1.version))
  {
    seq(|n.node.dependencies|, k requires 0 <= k < |n.node.dependencies| =>
          LinkData(n.id, Key(n.node.dependencies[k].1.name, n.node.dependencies[k].1.version)))
  }

  /** The links of a node list, node by node. */
  function LinksOf(nodes: seq<NodeData>): seq<LinkData> {
    if nodes == [] then [] else LinksOf(nodes[..|nodes| - 1]) + NodeLinks(nodes[|nodes| - 1])
  }

  /** `hierarchyToLinks`: the nested loops over nodes and their dependencies. */
  method HierarchyToLinks(nodes: seq<NodeData>) returns (links: seq<LinkData>)
    ensures links == LinksOf(nodes)
  {
    links := [];
    var i := 0;
    while i < |nodes|
      invariant 0 <= i <= |nodes|
      invariant links == LinksOf(nodes[..i])
    {
      var node := nodes[i];
      var deps := node.node.dependencies;
      var j := 0;
      while j < |deps|
        invariant 0 <= j <= |deps|
        invariant links == LinksOf(nodes[..i]) + NodeLinks(node)[..j]
      {
        links := links + [LinkData(node.id, Key(deps[j].1.name, deps[j].1.version))];
        assert NodeLinks(node)[..j + 1] == NodeLinks(node)[..j] + [NodeLinks(node)[j]];
        j := j + 1;
      }
      assert nodes[..i + 1][..i] == nodes[..i];
      assert NodeLinks(node)[..j] == NodeLinks(node);
      i := i + 1;
    }
    assert nodes[..i] == nodes;
  }

  /** The number of parent-child edges among a list of nodes. */
  function Edges(nodes: seq<DependencyNode>): nat {
    if nodes == [] then 0 else Edges(nodes[..|nodes| - 1]) + |nodes[|nodes| - 1].dependencies|
  }

  lemma {:induction false} EdgesAppend(a: seq<DependencyNode>, b: seq<DependencyNode>)
    ensures Edges(a + b) == Edges(a) + Edges(b)
    decreases |b|
  {
    if b != [] {
      assert (a + b)[..|a + b| - 1] == a + b[..|b| - 1];
      EdgesAppend(a, b[..|b| - 1]);
    } else {
      assert a + b == a;
    }
  }

  lemma {:induction false} LinksCount(nodes: seq<NodeData>)
    ensures |LinksOf(nodes)| == Edges(seq(|nodes|, i requires 0 <= i < |nodes| => nodes[i].node))
    decreases |nodes|
  {
    var plain := seq(|nodes|, i requires 0 <= i < |nodes| => nodes[i].node);
    if nodes != [] {
      var front := nodes[..|nodes| - 1];
      LinksCount(front);
      assert plain[..|plain| - 1] == seq(|front|, i requires 0 <= i < |front| => front[i].node);
    }
  }

  /** A tree has one edge fewer than it has nodes. */
  lemma {:induction false} PreorderEdges(node: DependencyNode)
    ensures Edges(Preorder(node)) + 1 == NodeCount(node)
    decreases node, 1
  {
    PreorderFromEdges(node, 0);
    EdgesAppend([node], PreorderFrom(node, 0));
    assert [node][..0] == [];
  }

  lemma {:induction false} PreorderFromEdges(node: DependencyNode, i: nat)
    requires i <= |node.dependencies|
    ensures Edges(PreorderFrom(node, i)) + (|node.dependencies| - i) == CountFrom(node, i)
    decreases node, 0, |node.dependencies| - i
  {
    if i < |node.dependencies| {
      PreorderEdges(node.dependencies[i].1);
      PreorderFromEdges(node, i + 1);
      EdgesAppend(Preorder(node.dependencies[i].1), PreorderFrom(node, i + 1));
    }
  }

  /** The force graph of a tree has exactly one link fewer than nodes. */
  lemma LinkCountIsNodeCountMinusOne(root: DependencyNode)
    ensures |LinksOf(WithIds(Preorder(root)))| == |WithIds(Preorder(root))| - 1
  {
    var nodes := WithIds(Preorder(root));
    LinksCount(nodes);
    assert seq(|nodes|, i requires 0 <= i < |nodes| => nodes[i].node) == Preorder(root);
    PreorderEdges(root);
    PreorderCount(root);
  }

  /** A node of the tree lies in the pre-order of its root. */
  lemma {:induction false} SubtreeInPreorder(node: DependencyNode, i: nat, x: DependencyNode)
    requires i < |node.dependencies|
    requires x in Preorder(node.dependencies[i].1)
    ensures x in Preorder(node)
  {
    SubtreeInPreorderFrom(node, 0, i, x);
  }

  lemma {:induction false} SubtreeInPreorderFrom(node: DependencyNode, j: nat, i: nat, x: DependencyNode)
    requires j <= i < |node.dependencies|
    requires x in Preorder(node.dependencies[i].1)
    ensures x in PreorderFrom(node, j)
    decreases i - j
  {
    if j < i {
      SubtreeInPreorderFrom(node, j + 1, i, x);
    }
  }

  /** Whoever is in the pre-order is the root or lies in one dependency's subtree. */
  lemma {:induction false} PreorderFromMember(node: DependencyNode, j: nat, x: DependencyNode)
    requires j <= |node.dependencies|
    requires x in PreorderFrom(node, j)
    ensures exists i :: j <= i < |node.dependencies| && x in Preorder(node.dependencies[i].1)
    decreases |node.dependencies| - j
  {
    if x !in Preorder(node.dependencies[j].1) {
      PreorderFromMember(node, j + 1, x);
    }
  }

  /** The dependencies of any node of a tree are nodes of that tree too. */
  lemma {:induction false} ChildInPreorder(root: DependencyNode, n: DependencyNode, k: nat)
    requires n in Preorder(root)
    requires k < |n.dependencies|
    ensures n.dependencies[k].1 in Preorder(root)
    decreases root
  {
    if n == root {
      SubtreeInPreorder(root, k, n.dependencies[k].1);
    } else {
      assert n in PreorderFrom(root, 0);
      PreorderFromMember(root, 0, n);
      var i :| 0 <= i < |root.dependencies| && n in Preorder(root.dependencies[i].1);
      ChildInPreorder(root.dependencies[i].1, n, k);
      SubtreeInPreorder(root, i, n.dependencies[k].1);
    }
  }

  /** Every link of a node list comes from one of the listed nodes. */
  lemma {:induction false} LinkOrigin(nodes: seq<NodeData>, l: LinkData)
    requires l in LinksOf(nodes)
    ensures exists m, k :: 0 <= m < |nodes| && 0 <= k < |nodes[m].node.dependencies| && l == NodeLinks(nodes[m])[k]
    decreases |nodes|
  {
    var front := nodes[..|nodes| - 1];
    if l in LinksOf(front) {
      LinkOrigin(front, l);
      var m, k :| 0 <= m < |front| && 0 <= k < |front[m].node.dependencies| && l == NodeLinks(front[m])[k];
      assert nodes[m] == front[m];
    } else {
      var last := NodeLinks(nodes[|nodes| - 1]);
      var k :| 0 <= k < |last| && last[k] == l;
    }
  }

  /** In the force graph of a tree, every link starts at a listed node and ends at
      a listed node, so the layout finds both ends. */
  lemma LinksConnectListedNodes(root: DependencyNode, l: LinkData)
    requires l in LinksOf(WithIds(Preorder(root)))
    ensures exists j :: 0 <= j < |WithIds(Preorder(root))| && WithIds(Preorder(root))[j].id == l.source
    ensures exists j :: 0 <= j < |WithIds(Preorder(root))| && WithIds(Preorder(root))[j].id == l.target
  {
    var nodes := WithIds(Preorder(root));
    LinkOrigin(nodes, l);
    var m, k :| 0 <= m < |nodes| && 0 <= k < |nodes[m].node.dependencies| && l == NodeLinks(nodes[m])[k];
    var parent := Preorder(root)[m];
    var child := parent.dependencies[k].1;
    ChildInPreorder(root, parent, k);
    var j :| 0 <= j < |Preorder(root)| && Preorder(root)[j] == child;
    assert nodes[j].id == l.target;
    assert nodes[m].id == l.source;
  }

  /** `getNodeClass`: the first of duplicate, large (over 500000 bytes), outdated
      that applies, otherwise direct. It reads only these three fields. */
  function NodeClass(duplicateOf: Option<string>, size: Option<nat>, outdated: Option<bool>): (c: string)
    ensures c == "duplicate" <==> HasText(duplicateOf)
    ensures c == "large" <==> !HasText(duplicateOf) && size.Some? && size.value > 500000
    ensures c == "outdated" <==> !HasText(duplicateOf) && !(size.Some? && size.value > 500000) && IsTrue(outdated)
    ensures c == "direct" <==> !HasText(duplicateOf) && !(size.Some? && size.value > 500000) && !IsTrue(outdated)
  {
    if HasText(duplicateOf) then "duplicate"
    else if HasSize(size) && size.value > 500000 then "large"
    else if IsTrue(outdated) then "outdated"
    else "direct"
  }

  /** The status label of the table and the detail panel. */
  function StatusLabel(duplicateOf: Option<string>, outdated: Option<bool>): (s: string)
    ensures s == "Duplicate" || s == "Outdated" || s == "Up to date"
    ensures s == "Duplicate" <==> HasText(duplicateOf)
    ensures s == "Outdated" <==> !HasText(duplicateOf) && IsTrue(outdated)
    ensures s == "Up to date" <==> !HasText(duplicateOf) && !IsTrue(outdated)
  {
    if HasText(duplicateOf) then "Duplicate"
    else if IsTrue(outdated) then "Outdated"
    else "Up to date"
  }

  /** The status label and the node class agree on duplicates, and on outdated
      packages unless the class reports the size instead. */
  lemma StatusAgreesWithClass(duplicateOf: Option<string>, size: Option<nat>, outdated: Option<bool>)
    ensures StatusLabel(duplicateOf, outdated) == "Duplicate" <==> NodeClass(duplicateOf, size, outdated) == "duplicate"
    ensures NodeClass(duplicateOf, size, outdated) != "large" ==>
              (StatusLabel(duplicateOf, outdated) == "Outdated" <==> NodeClass(duplicateOf, size, outdated) == "outdated")
    ensures NodeClass(duplicateOf, size, outdated) == "direct" ==> StatusLabel(duplicateOf, outdated) == "Up to date"
  {
  }

  /** The license cell: the license, or `Not specified` when it is missing or empty. */
  function LicenseLabel(license: Option<string>): (s: string)
    ensures HasText(license) ==> s == license.value
    ensures !HasText(license) ==> s == "Not specified"
  {
    if HasText(license) then license.value else "Not specified"
  }

  /** The graph view's `formatSize`: as the renderer's, with a space before the unit. */
  method FormatSize(bytes: nat) returns (s: string)
    ensures s == SizeText(bytes, " ")
  {
    var size, unitIndex := ScaleSize(bytes);
    s := ToFixed1(size) + " " + Units[unitIndex];
  }

  /** The size cell: the formatted size, or `Unknown` for a missing or zero size. */
  method SizeLabel(size: Option<nat>) returns (s: string)
    ensures HasSize(size) ==> s == SizeText(size.value, " ")
    ensures !HasSize(size) ==> s == "Unknown"
  {
    if HasSize(size) {
      s := FormatSize(size.value);
    } else {
      s := "Unknown";
    }
  }

  /** The dependency count of the detail panel: the number of keys of the record. */
  function DependencyCountLabel(node: DependencyNode): (s: string)
    ensures s == Decimal(|Keys(node.dependencies)|) + " direct dependencies"
  {
    Decimal(|node.dependencies|) + " direct dependencies"
  }

  /** The cells of a table row: package, version, license, size and status. */
  method TableRow(node: DependencyNode) returns (cells: seq<string>)
    ensures |cells| == 5
    ensures cells[0] == node.name && cells[1] == node.version
    ensures cells[2] == LicenseLabel(node.license)
    ensures HasSize(node.size) ==> cells[3] == SizeText(node.size.value, " ")
    ensures !HasSize(node.size) ==> cells[3] == "Unknown"
    ensures cells[4] == StatusLabel(node.duplicateOf, node.outdated)
  {
    var size := SizeLabel(node.size);
    cells := [node.name, node.version, LicenseLabel(node.license), size,
              StatusLabel(node.duplicateOf, node.outdated)];
  }

  /** ASCII lower-casing, as `toLowerCase` acts on ASCII letters. */
  function Lower(s: string): (r: string)
    ensures |r| == |s|
    ensures forall i :: 0 <= i < |s| ==> r[i] == LowerChar(s[i])
  {
    seq(|s|, i requires 0 <= i < |s| => LowerChar(s[i]))
  }

  function LowerChar(c: char): char {
    if 'A' <= c <= 'Z' then (c as int + 32) as char else c
  }

  lemma LowerIdempotent(s: string)
    ensures Lower(Lower(s)) == Lower(s)
  {
  }

  /** Whether `t` occurs in `s`, as `includes` tests it. */
  predicate Contains(s: string, t: string) {
    exists i: nat | i <= |s| :: OccursAt(s, t, i)
  }

  predicate OccursAt(s: string, t: string, i: nat) {
    i + |t| <= |s| && s[i..i + |t|] == t
  }

  /** The opacity of a node while searching: full for an empty query, otherwise full
      exactly when the lower-cased name contains the lower-cased query, else 0.1. */
  function Opacity(name: string, query: string): (o: real)
    ensures o == 1.0 || o == 0.1
    ensures query == "" ==> o == 1.0
    ensures query != "" ==> (o == 1.0 <==> Contains(Lower(name), Lower(query)))
  {
    if query == "" then 1.0
    else if Contains(Lower(name), Lower(query)) then 1.0
    else 0.1
  }

  /** The search ignores the case of ASCII letters in the query. */
  lemma SearchIgnoresQueryCase(name: string, query: string)
    ensures Opacity(name, Lower(query)) == Opacity(name, query)
  {
    LowerIdempotent(query);
  }

  /** Searching for a node's own name, in any case, keeps it opaque; a query longer
      than the name dims it. */
  lemma SearchForOwnName(name: string, query: string)
    ensures Lower(query) == Lower(name) ==> Opacity(name, query) == 1.0
    ensures |query| > |name| ==> Opacity(name, query) == 0.1
  {
    if Lower(query) == Lower(name) && query != "" {
      assert OccursAt(Lower(name), Lower(query), 0);
    }
  }

  /** The data of the tree layout: a node with its kept fields and ordered children. */
  datatype Hierarchy = Hierarchy(
    name: string,
    version: string,
    license: Option<string>,
    size: Option<nat>,
    duplicateOf: Option<string>,
    outdated: Option<bool>,
    children: seq<Hierarchy>)

  /** `dependencyToHierarchy`: keeps name, version, license, size, duplicate marker and
      outdated flag, drops the dev flag, and turns the dependency record into the
      ordered list of converted children. */
  function ToHierarchy(dep: DependencyNode): (h: Hierarchy)
    ensures h.name == dep.name && h.version == dep.version
    ensures h.license == dep.license && h.size == dep.size
    ensures h.duplicateOf == dep.duplicateOf && h.outdated == dep.outdated
    ensures |h.children| == |dep.dependencies|
    ensures forall i :: 0 <= i < |dep.dependencies| ==> h.children[i] == ToHierarchy(dep.dependencies[i].1)
    decreases dep
  {
    Hierarchy(dep.name, dep.version, dep.license, dep.size, dep.duplicateOf, dep.outdated,
              seq(|dep.dependencies|, i requires 0 <= i < |dep.dependencies| => ToHierarchy(dep.dependencies[i].1)))
  }

  /** The root of the tree view: only name, version and the converted children. */
  function TreeViewRoot(data: DependencyNode): (h: Hierarchy)
    ensures h.name == data.name && h.version == data.version
    ensures h.license == None && h.size == None && h.duplicateOf == None && h.outdated == None
    ensures |h.children| == |data.dependencies|
    ensures forall i :: 0 <= i < |data.dependencies| ==> h.children[i] == ToHierarchy(data.dependencies[i].1)
  {
    Hierarchy(data.name, data.version, None, None, None, None,
              seq(|data.dependencies|, i requires 0 <= i < |data.dependencies| => ToHierarchy(data.dependencies[i].1)))
  }

  /** The number of nodes the layout draws for a hierarchy. */
  function Descendants(h: Hierarchy): (n: nat)
    decreases h, 1
  {
    1 + DescendantsFrom(h, 0)
  }

  function DescendantsFrom(h: Hierarchy, i: nat): nat
    requires i <= |h.children|
    decreases h, 0, |h.children| - i
  {
    if i == |h.children| then 0 else Descendants(h.children[i]) + DescendantsFrom(h, i + 1)
  }

  lemma {:induction false} HierarchyCount(dep: DependencyNode)
    ensures Descendants(ToHierarchy(dep)) == NodeCount(dep)
    decreases dep, 1
  {
    HierarchyCountFrom(dep, 0);
  }

  lemma {:induction false} HierarchyCountFrom(dep: DependencyNode, i: nat)
    requires i <= |dep.dependencies|
    ensures DescendantsFrom(ToHierarchy(dep), i) == CountFrom(dep, i)
    decreases dep, 0, |dep.dependencies| - i
  {
    if i < |dep.dependencies| {
      HierarchyCount(dep.dependencies[i].1);
      HierarchyCountFrom(dep, i + 1);
    }
  }

  /** The tree view draws every node of the tree once, and its root is always of
      class `direct`, whatever the root's own fields. */
  lemma TreeViewShowsEveryNode(data: DependencyNode)
    ensures Descendants(TreeViewRoot(data)) == NodeCount(data)
    ensures NodeClass(TreeViewRoot(data).duplicateOf, TreeViewRoot(data).size, TreeViewRoot(data).outdated) == "direct"
  {
    var h := TreeViewRoot(data);
    TreeViewCountFrom(data, 0);
  }

  lemma {:induction false} TreeViewCountFrom(data: DependencyNode, i: nat)
    requires i <= |data.dependencies|
    ensures DescendantsFrom(TreeViewRoot(data), i) == CountFrom(data, i)
    decreases |data.dependencies| - i
  {
    if i < |data.dependencies| {
      HierarchyCount(data.dependencies[i].1);
      TreeViewCountFrom(data, i + 1);
    }
  }
}
