/** The data shared by the analyzer, the renderer and the presentation layer
    (src/core/types.ts). Optional properties are `Option`s; JavaScript objects used
    as dictionaries are `Record`s. */
module Types {
  import opened Wrappers
  import opened Records

  /** One package occurrence in the dependency tree. `dependencies` is always
      present; every other annotation may be absent. */
  datatype DependencyNode = DependencyNode(
    name: string,
    version: string,
    dependencies: Record<DependencyNode>,
    size: Option<nat>,
    license: Option<string>,
    isDevDependency: Option<bool>,
    duplicateOf: Option<string>,
    outdated: Option<bool>)

  /** The options gathered by the command-line prompt. */
  datatype AnalysisOptions = AnalysisOptions(
    showDuplicates: Option<bool>,
    showSize: Option<bool>,
    showLicenses: Option<bool>,
    showOutdated: Option<bool>,
    webView: Option<bool>)

  /** The fields of a parsed package.json that the analyzer uses. */
  datatype PackageInfo = PackageInfo(
    name: string,
    version: string,
    dependencies: Option<Record<string>>,
    devDependencies: Option<Record<string>>,
    license: Option<string>)

  /** JavaScript truthiness of an optional string: present and non-empty. */
  predicate HasText(s: Option<string>) {
    s.Some? && s.value != ""
  }

  /** JavaScript truthiness of an optional boolean. */
  predicate IsTrue(b: Option<bool>) {
    b == Some(true)
  }

  /** JavaScript truthiness of an optional size: present and non-zero. */
  predicate HasSize(n: Option<nat>) {
    n.Some? && n.value != 0
  }

  /** The `name@version` identifier the tree builder and the graph view use. */
  function Key(name: string, version: string): string {
    name + "@" + version
  }

  /** The number of nodes in a tree. */
  function NodeCount(node: DependencyNode): (n: nat)
    ensures n >= 1
    decreases node, 1
  {
    1 + CountFrom(node, 0)
  }

  /** The number of nodes in the subtrees of `node`'s dependencies from position `i` on. */
  function CountFrom(node: DependencyNode, i: nat): nat
    requires i <= |node.dependencies|
    decreases node, 0, |node.dependencies| - i
  {
    if i == |node.dependencies| then 0
    else NodeCount(node.dependencies[i].1) + CountFrom(node, i + 1)
  }

  /** Every dependency record in the tree has pairwise distinct keys. */
  predicate WellKeyed(node: DependencyNode)
    decreases node
  {
    && UniqueKeys(node.dependencies)
    && forall i :: 0 <= i < |node.dependencies| ==> WellKeyed(node.dependencies[i].1)
  }

  /** The nodes of a tree in pre-order: a node, then the subtrees of its dependencies
      in record order. */
  function Preorder(node: DependencyNode): (s: seq<DependencyNode>)
    decreases node, 1
  {
    [node] + PreorderFrom(node, 0)
  }

  function PreorderFrom(node: DependencyNode, i: nat): seq<DependencyNode>
    requires i <= |node.dependencies|
    decreases node, 0, |node.dependencies| - i
  {
    if i == |node.dependencies| then []
    else Preorder(node.dependencies[i].1) + PreorderFrom(node, i + 1)
  }

  /** The pre-order lists every node of the tree exactly once. */
  lemma {:induction false} PreorderCount(node: DependencyNode)
    ensures |Preorder(node)| == NodeCount(node)
    decreases node, 1
  {
    PreorderFromCount(node, 0);
  }

  lemma {:induction false} PreorderFromCount(node: DependencyNode, i: nat)
    requires i <= |node.dependencies|
    ensures |PreorderFrom(node, i)| == CountFrom(node, i)
    decreases node, 0, |node.dependencies| - i
  {
    if i < |node.dependencies| {
      PreorderCount(node.dependencies[i].1);
      PreorderFromCount(node, i + 1);
    }
  }
}
