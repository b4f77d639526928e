/** The text renderer: every node of a dependency tree becomes one line made of a
    gutter of box-drawing indents, a branch connector and the node's label. */
module Renderer {
  import opened Wrappers
  import opened Records
  import opened Types
  import opened Sizes

  const Branch := "├── "
  const LastBranch := "└── "
  const Indent := "│   "
  const LastIndent := "    "

  /** The `maxDepth` argument: unlimited by default, or a depth beyond which nodes are
      not rendered. */
  datatype DepthLimit = Infinity | AtMost(n: int)

  predicate Beyond(depth: nat, limit: DepthLimit) {
    limit.AtMost? && depth > limit.n
  }

  function Connector(isLast: bool): string {
    if isLast then LastBranch else Branch
  }

  function Gap(isLast: bool): string {
    if isLast then LastIndent else Indent
  }

  function Join(parts: seq<string>): (s: string)
    ensures |parts| == 1 ==> s == parts[0]
  {
    if parts == [] then "" else Join(parts[..|parts| - 1]) + parts[|parts| - 1]
  }

  /** The label of a node: `name@version`, then the duplicate, dev, license and size
      annotations, each present exactly when its field is truthy, in that order. */
  function Label(node: DependencyNode): string {
    node.name + "@" + node.version
    + DuplicateNote(node) + DevNote(node) + LicenseNote(node) + SizeNote(node)
  }

  function DuplicateNote(node: DependencyNode): string {
    if HasText(node.duplicateOf) then " (duplicate)" else ""
  }

  function DevNote(node: DependencyNode): string {
    if IsTrue(node.isDevDependency) then " (dev)" else ""
  }

  function LicenseNote(node: DependencyNode): string {
    if HasText(node.license) then " [" + node.license.value + "]" else ""
  }

  function SizeNote(node: DependencyNode): string {
    if HasSize(node.size) then " (" + SizeText(node.size.value, "") + ")" else ""
  }

  /** `formatSize`: the scaled value and the unit, without a space. */
  method FormatSize(bytes: nat) returns (s: string)
    ensures s == SizeText(bytes, "")
  {
    var size, unitIndex := ScaleSize(bytes);
    s := ToFixed1(size) + Units[unitIndex];
  }

  /** `formatNode`: collects the parts and joins them. */
  method FormatNode(node: DependencyNode) returns (s: string)
    ensures s == Label(node)
  {
    var parts := [node.name, "@" + node.version];
    assert Join(parts) == node.name + "@" + node.version by {
      assert parts[..1] == [node.name];
    }
    if HasText(node.duplicateOf) {
      JoinAppend(parts, [" (duplicate)"]);
      parts := parts + [" (duplicate)"];
    }
    assert Join(parts) == node.name + "@" + node.version + DuplicateNote(node);
    if IsTrue(node.isDevDependency) {
      JoinAppend(parts, [" (dev)"]);
      parts := parts + [" (dev)"];
    }
    assert Join(parts) == node.name + "@" + node.version + DuplicateNote(node) + DevNote(node);
    if HasText(node.license) {
      JoinAppend(parts, [" [" + node.license.value + "]"]);
      parts := parts + [" [" + node.license.value + "]"];
    }
    assert Join(parts) == node.name + "@" + node.version + DuplicateNote(node) + DevNote(node) + LicenseNote(node);
    if HasSize(node.size) {
      var size := FormatSize(node.size.value);
      JoinAppend(parts, [" (" + size + ")"]);
      parts := parts + [" (" + size + ")"];
    }
    assert Join(parts) == Label(node);
    s := Join(parts);
  }

  lemma JoinAppend(p: seq<string>, q: seq<string>)
    requires |q| <= 1
    ensures Join(p + q) == Join(p) + (if q == [] then "" else q[0])
  {
    if q != [] {
      assert (p + q)[..|p + q| - 1] == p;
    } else {
      assert p + q == p;
    }
  }

  /** One rendered line, with the node it shows and that node's depth. */
  datatype Line = Line(gutter: string, connector: string, node: DependencyNode, depth: nat)

  function Text(line: Line): string {
    line.gutter + line.connector + Label(line.node)
  }

  /** The lines `renderTreeNode` emits for a node at `depth`: none beyond the limit,
      otherwise the node's own line followed by the lines of its dependencies, each
      drawn with the last-branch connector exactly when it is the last one. */
  function Lines(node: DependencyNode, prefix: string, isLast: bool, depth: nat, limit: DepthLimit): seq<Line>
    decreases node, 1
  {
    if Beyond(depth, limit) then []
    else [Line(prefix, Connector(isLast), node, depth)]
         + ChildLines(node, 0, prefix + Gap(isLast), depth + 1, limit)
  }

  function ChildLines(node: DependencyNode, i: nat, prefix: string, depth: nat, limit: DepthLimit): seq<Line>
    requires i <= |node.dependencies|
    decreases node, 0, |node.dependencies| - i
  {
    if i == |node.dependencies| then []
    else Lines(node.dependencies[i].1, prefix, i == |node.dependencies| - 1, depth, limit)
         + ChildLines(node, i + 1, prefix, depth, limit)
  }

  /** The text of a sequence of lines, each ended by a newline. */
  function Output(lines: seq<Line>): string {
    Unlines(Texts(lines))
  }

  function Texts(lines: seq<Line>): (t: seq<string>)
    ensures |t| == |lines|
    ensures forall i :: 0 <= i < |lines| ==> t[i] == Text(lines[i])
  {
    seq(|lines|, i requires 0 <= i < |lines| => Text(lines[i]))
  }

  function Unlines(texts: seq<string>): string {
    if texts == [] then "" else Unlines(texts[..|texts| - 1]) + texts[|texts| - 1] + "\n"
  }

  lemma {:induction false} UnlinesAppend(a: seq<string>, b: seq<string>)
    ensures Unlines(a + b) == Unlines(a) + Unlines(b)
    decreases |b|
  {
    if b == [] {
      assert a + b == a;
    } else {
      var b' := b[..|b| - 1];
      assert (a + b)[..|a + b| - 1] == a + b';
      UnlinesAppend(a, b');
    }
  }

  lemma NoLines()
    ensures Output([]) == ""
  {
    assert Texts([]) == [];
  }

  lemma UnlinesOne(t: string)
    ensures Unlines([t]) == t + "\n"
  {
    assert [t][..0] == [];
    assert "" + t == t;
  }

  lemma OutputAppend(a: seq<Line>, b: seq<Line>)
    ensures Output(a + b) == Output(a) + Output(b)
  {
    assert Texts(a + b) == Texts(a) + Texts(b);
    UnlinesAppend(Texts(a), Texts(b));
  }

  /** The string `renderTreeNode` builds, in the shape the source builds it. */
  function Rendered(node: DependencyNode, prefix: string, isLast: bool, depth: nat, limit: DepthLimit): string
    decreases node, 1
  {
    if Beyond(depth, limit) then ""
    else prefix + Connector(isLast) + Label(node) + "\n"
         + RenderedFrom(node, 0, prefix + Gap(isLast), depth + 1, limit)
  }

  function RenderedFrom(node: DependencyNode, i: nat, prefix: string, depth: nat, limit: DepthLimit): string
    requires i <= |node.dependencies|
    decreases node, 0, |node.dependencies| - i
  {
    if i == |node.dependencies| then ""
    else Rendered(node.dependencies[i].1, prefix, i == |node.dependencies| - 1, depth, limit)
         + RenderedFrom(node, i + 1, prefix, depth, limit)
  }

  /** The rendered string is exactly the lines of the tree, each ended by a newline. */
  lemma {:induction false} RenderedIsLines(node: DependencyNode, prefix: string, isLast: bool, depth: nat, limit: DepthLimit)
    ensures Rendered(node, prefix, isLast, depth, limit) == Output(Lines(node, prefix, isLast, depth, limit))
    decreases node, 1
  {
    if Beyond(depth, limit) {
      NoLines();
    } else {
      OwnLine(node, prefix, isLast, depth, limit);
      RenderedFromIsLines(node, 0, prefix + Gap(isLast), depth + 1, limit);
    }
  }

  lemma {:induction false} RenderedFromIsLines(node: DependencyNode, i: nat, prefix: string, depth: nat, limit: DepthLimit)
    requires i <= |node.dependencies|
    ensures RenderedFrom(node, i, prefix, depth, limit) == Output(ChildLines(node, i, prefix, depth, limit))
    decreases node, 0, |node.dependencies| - i
  {
    if i == |node.dependencies| {
      NoLines();
    } else {
      ChildLinesStep(node, i, prefix, depth, limit);
      RenderedIsLines(node.dependencies[i].1, prefix, i == |node.dependencies| - 1, depth, limit);
      RenderedFromIsLines(node, i + 1, prefix, depth, limit);
    }
  }

  /** `renderTreeNode`: the node's line, then each dependency rendered in turn. */
  method RenderTreeNode(node: DependencyNode, prefix: string, isLast: bool, depth: nat, limit: DepthLimit)
    returns (output: string)
    ensures output == Rendered(node, prefix, isLast, depth, limit)
    decreases node
  {
    if Beyond(depth, limit) {
      return "";
    }
    var nodePrefix := prefix + Connector(isLast);
    var childPrefix := prefix + Gap(isLast);
    var text := FormatNode(node);
    output := nodePrefix + text + "\n";
    var deps := node.dependencies;
    if |deps| == 0 {
      assert output + "" == output;
      return;
    }
    var index := 0;
    while index < |deps|
      invariant 0 <= index <= |deps|
      invariant output + RenderedFrom(node, index, childPrefix, depth + 1, limit)
                == Rendered(node, prefix, isLast, depth, limit)
    {
      var isLastChild := index == |deps| - 1;
      var rendered := RenderTreeNode(deps[index].1, childPrefix, isLastChild, depth + 1, limit);
      Regroup(output, rendered, RenderedFrom(node, index + 1, childPrefix, depth + 1, limit));
      output := output + rendered;
      index := index + 1;
    }
    assert output + "" == output;
  }

  /** The output of a node within the limit is its own line, then its children's. */
  lemma OwnLine(node: DependencyNode, prefix: string, isLast: bool, depth: nat, limit: DepthLimit)
    requires !Beyond(depth, limit)
    ensures Output(Lines(node, prefix, isLast, depth, limit))
            == prefix + Connector(isLast) + Label(node) + "\n"
               + Output(ChildLines(node, 0, prefix + Gap(isLast), depth + 1, limit))
  {
    var first := [Line(prefix, Connector(isLast), node, depth)];
    OutputAppend(first, ChildLines(node, 0, prefix + Gap(isLast), depth + 1, limit));
    assert Texts(first) == [Text(first[0])];
    UnlinesOne(Text(first[0]));
  }

  lemma ChildLinesStep(node: DependencyNode, i: nat, prefix: string, depth: nat, limit: DepthLimit)
    requires i < |node.dependencies|
    ensures Output(ChildLines(node, i, prefix, depth, limit))
            == Output(Lines(node.dependencies[i].1, prefix, i == |node.dependencies| - 1, depth, limit))
               + Output(ChildLines(node, i + 1, prefix, depth, limit))
  {
    OutputAppend(Lines(node.dependencies[i].1, prefix, i == |node.dependencies| - 1, depth, limit),
                 ChildLines(node, i + 1, prefix, depth, limit));
  }

  /** `renderTree`: the root is drawn as a last child with an empty prefix. */
  method RenderTree(root: DependencyNode, limit: DepthLimit) returns (output: string)
    ensures output == Output(Lines(root, "", true, 0, limit))
  {
    output := RenderTreeNode(root, "", true, 0, limit);
    RenderedIsLines(root, "", true, 0, limit);
  }

  /** The nodes shown by a sequence of lines, in order. */
  function LineNodes(lines: seq<Line>): (s: seq<DependencyNode>)
    ensures |s| == |lines|
    ensures forall i :: 0 <= i < |lines| ==> s[i] == lines[i].node
  {
    seq(|lines|, i requires 0 <= i < |lines| => lines[i].node)
  }

  /** Without a depth limit, the renderer shows every node once, in pre-order. */
  lemma {:induction false} LinesArePreorder(node: DependencyNode, prefix: string, isLast: bool, depth: nat)
    ensures LineNodes(Lines(node, prefix, isLast, depth, Infinity)) == Preorder(node)
    ensures |Lines(node, prefix, isLast, depth, Infinity)| == NodeCount(node)
    decreases node, 1
  {
    var rest := ChildLines(node, 0, prefix + Gap(isLast), depth + 1, Infinity);
    ChildLinesArePreorder(node, 0, prefix + Gap(isLast), depth + 1);
    assert LineNodes([Line(prefix, Connector(isLast), node, depth)] + rest)
           == [node] + LineNodes(rest);
    PreorderCount(node);
  }

  lemma {:induction false} ChildLinesArePreorder(node: DependencyNode, i: nat, prefix: string, depth: nat)
    requires i <= |node.dependencies|
    ensures LineNodes(ChildLines(node, i, prefix, depth, Infinity)) == PreorderFrom(node, i)
    decreases node, 0, |node.dependencies| - i
  {
    if i < |node.dependencies| {
      var here := Lines(node.dependencies[i].1, prefix, i == |node.dependencies| - 1, depth, Infinity);
      var rest := ChildLines(node, i + 1, prefix, depth, Infinity);
      LinesArePreorder(node.dependencies[i].1, prefix, i == |node.dependencies| - 1, depth);
      ChildLinesArePreorder(node, i + 1, prefix, depth);
      assert LineNodes(here + rest) == LineNodes(here) + LineNodes(rest);
    } else {
      assert LineNodes([]) == [];
    }
  }

  /** A gutter of `n` four-character indent blocks, each a vertical bar or blank. */
  predicate IsGutter(g: string, n: nat) {
    if n == 0 then g == ""
    else |g| >= 4 && (g[..4] == Indent || g[..4] == LastIndent) && IsGutter(g[4..], n - 1)
  }

  /** The shape of every line: the caller's prefix, then one indent block per level
      below the starting depth, then a branch connector; no line lies beyond the limit. */
  predicate Shaped(line: Line, prefix: string, depth: nat, limit: DepthLimit) {
    && depth <= line.depth
    && !Beyond(line.depth, limit)
    && |prefix| <= |line.gutter|
    && line.gutter[..|prefix|] == prefix
    && IsGutter(line.gutter[|prefix|..], line.depth - depth)
    && (line.connector == Branch || line.connector == LastBranch)
  }

  lemma ShapedUnder(line: Line, prefix: string, gap: string, depth: nat, limit: DepthLimit)
    requires gap == Indent || gap == LastIndent
    requires Shaped(line, prefix + gap, depth + 1, limit)
    ensures Shaped(line, prefix, depth, limit)
  {
    var g := line.gutter;
    assert g[..|prefix|] == (prefix + gap)[..|prefix|] == prefix;
    var rest := g[|prefix|..];
    assert rest[..4] == gap;
    assert rest[4..] == g[|prefix + gap|..];
  }

  lemma {:induction false} LinesShaped(node: DependencyNode, prefix: string, isLast: bool, depth: nat, limit: DepthLimit)
    ensures forall i :: 0 <= i < |Lines(node, prefix, isLast, depth, limit)| ==>
              Shaped(Lines(node, prefix, isLast, depth, limit)[i], prefix, depth, limit)
    decreases node, 1
  {
    if !Beyond(depth, limit) {
      var first := Line(prefix, Connector(isLast), node, depth);
      var rest := ChildLines(node, 0, prefix + Gap(isLast), depth + 1, limit);
      ChildLinesShaped(node, 0, prefix + Gap(isLast), depth + 1, limit);
      assert prefix[..|prefix|] == prefix && prefix[|prefix|..] == "";
      assert Shaped(first, prefix, depth, limit);
      forall i | 0 <= i < |rest|
        ensures Shaped(rest[i], prefix, depth, limit)
      {
        ShapedUnder(rest[i], prefix, Gap(isLast), depth, limit);
      }
    }
  }

  lemma {:induction false} ChildLinesShaped(node: DependencyNode, i: nat, prefix: string, depth: nat, limit: DepthLimit)
    requires i <= |node.dependencies|
    ensures forall k :: 0 <= k < |ChildLines(node, i, prefix, depth, limit)| ==>
              Shaped(ChildLines(node, i, prefix, depth, limit)[k], prefix, depth, limit)
    decreases node, 0, |node.dependencies| - i
  {
    if i < |node.dependencies| {
      LinesShaped(node.dependencies[i].1, prefix, i == |node.dependencies| - 1, depth, limit);
      ChildLinesShaped(node, i + 1, prefix, depth, limit);
    }
  }

  /** The lines kept at a depth limit: the unlimited lines that are not beyond it. */
  function Within(lines: seq<Line>, limit: DepthLimit): (r: seq<Line>)
  {
    if lines == [] then []
    else (if Beyond(lines[0].depth, limit) then [] else [lines[0]]) + Within(lines[1..], limit)
  }

  lemma {:induction false} WithinAppend(a: seq<Line>, b: seq<Line>, limit: DepthLimit)
    ensures Within(a + b, limit) == Within(a, limit) + Within(b, limit)
    decreases |a|
  {
    if a == [] {
      assert a + b == b;
    } else {
      var head := if Beyond(a[0].depth, limit) then [] else [a[0]];
      assert (a + b)[0] == a[0] && (a + b)[1..] == a[1..] + b;
      assert Within(a + b, limit) == head + Within(a[1..] + b, limit);
      WithinAppend(a[1..], b, limit);
      assert head + (Within(a[1..], limit) + Within(b, limit))
          == (head + Within(a[1..], limit)) + Within(b, limit);
    }
  }

  /** Every line of a subtree lies at or below the subtree's depth. */
  lemma BeyondBelow(lines: seq<Line>, depth: nat, limit: DepthLimit)
    requires forall i :: 0 <= i < |lines| ==> depth <= lines[i].depth
    requires Beyond(depth, limit)
    ensures Within(lines, limit) == []
    decreases |lines|
  {
    if lines != [] {
      BeyondBelow(lines[1..], depth, limit);
    }
  }

  /** A depth limit only drops the lines of nodes beyond it; the lines it keeps are
      exactly those of the unlimited rendering, gutters and connectors included. */
  lemma {:induction false} LimitDropsDeepLines(node: DependencyNode, prefix: string, isLast: bool, depth: nat, limit: DepthLimit)
    ensures Lines(node, prefix, isLast, depth, limit) == Within(Lines(node, prefix, isLast, depth, Infinity), limit)
    decreases node, 1
  {
    var all := Lines(node, prefix, isLast, depth, Infinity);
    var first := Line(prefix, Connector(isLast), node, depth);
    var rest := ChildLines(node, 0, prefix + Gap(isLast), depth + 1, Infinity);
    assert all == [first] + rest;
    WithinAppend([first], rest, limit);
    assert [first][1..] == [];
    if Beyond(depth, limit) {
      ChildLinesShaped(node, 0, prefix + Gap(isLast), depth + 1, Infinity);
      assert forall i :: 0 <= i < |rest| ==> Shaped(rest[i], prefix + Gap(isLast), depth + 1, Infinity);
      BeyondBelow(rest, depth, limit);
    } else {
      ChildLinesLimit(node, 0, prefix + Gap(isLast), depth + 1, limit);
    }
  }

  lemma {:induction false} ChildLinesLimit(node: DependencyNode, i: nat, prefix: string, depth: nat, limit: DepthLimit)
    requires i <= |node.dependencies|
    ensures ChildLines(node, i, prefix, depth, limit) == Within(ChildLines(node, i, prefix, depth, Infinity), limit)
    decreases node, 0, |node.dependencies| - i
  {
    if i < |node.dependencies| {
      var isLast := i == |node.dependencies| - 1;
      LimitDropsDeepLines(node.dependencies[i].1, prefix, isLast, depth, limit);
      ChildLinesLimit(node, i + 1, prefix, depth, limit);
      WithinAppend(Lines(node.dependencies[i].1, prefix, isLast, depth, Infinity),
                   ChildLines(node, i + 1, prefix, depth, Infinity), limit);
    }
  }

  /** A negative depth limit renders nothing at all. */
  lemma NegativeLimitRendersNothing(root: DependencyNode, n: int)
    requires n < 0
    ensures Output(Lines(root, "", true, 0, AtMost(n))) == ""
  {
    NoLines();
  }

  /** At depth limit 0 only the root is rendered, as a last branch. */
  lemma RootOnlyAtDepthZero(root: DependencyNode)
    ensures Lines(root, "", true, 0, AtMost(0)) == [Line("", LastBranch, root, 0)]
    ensures Output(Lines(root, "", true, 0, AtMost(0))) == LastBranch + Label(root) + "\n"
  {
    assert "" + Gap(true) == LastIndent;
    var rest := ChildLines(root, 0, LastIndent, 1, AtMost(0));
    NoChildLinesBeyond(root, 0, LastIndent, 1, AtMost(0));
    assert [Line("", LastBranch, root, 0)] + rest == [Line("", LastBranch, root, 0)];
    OwnLine(root, "", true, 0, AtMost(0));
    NoLines();
    assert "" + LastBranch == LastBranch;
    assert LastBranch + Label(root) + "\n" + "" == LastBranch + Label(root) + "\n";
  }

  lemma {:induction false} NoChildLinesBeyond(node: DependencyNode, i: nat, prefix: string, depth: nat, limit: DepthLimit)
    requires i <= |node.dependencies|
    requires Beyond(depth, limit)
    ensures ChildLines(node, i, prefix, depth, limit) == []
    decreases |node.dependencies| - i
  {
    if i < |node.dependencies| {
      NoChildLinesBeyond(node, i + 1, prefix, depth, limit);
    }
  }

  /** At depth limit 1 the root is followed by one line per direct dependency, in
      record order, the last drawn with the last-branch connector. */
  lemma DirectDependenciesAtDepthOne(root: DependencyNode)
    ensures Lines(root, "", true, 0, AtMost(1))
            == [Line("", LastBranch, root, 0)]
               + seq(|root.dependencies|, i requires 0 <= i < |root.dependencies| =>
                       Line(LastIndent, Connector(i == |root.dependencies| - 1), root.dependencies[i].1, 1))
  {
    assert "" + LastIndent == LastIndent;
    DirectLines(root, 0);
  }

  lemma {:induction false} DirectLines(root: DependencyNode, i: nat)
    requires i <= |root.dependencies|
    ensures ChildLines(root, i, LastIndent, 1, AtMost(1))
            == seq(|root.dependencies| - i, k requires 0 <= k < |root.dependencies| - i =>
                     Line(LastIndent, Connector(i + k == |root.dependencies| - 1), root.dependencies[i + k].1, 1))
    decreases |root.dependencies| - i
  {
    if i < |root.dependencies| {
      var child := root.dependencies[i].1;
      var isLast := i == |root.dependencies| - 1;
      NoChildLinesBeyond(child, 0, LastIndent + Gap(isLast), 2, AtMost(1));
      assert Lines(child, LastIndent, isLast, 1, AtMost(1)) == [Line(LastIndent, Connector(isLast), child, 1)];
      DirectLines(root, i + 1);
      DirectStep(root, i);
    }
  }

  lemma DirectStep(root: DependencyNode, i: nat)
    requires i < |root.dependencies|
    ensures seq(|root.dependencies| - i, k requires 0 <= k < |root.dependencies| - i =>
                  Line(LastIndent, Connector(i + k == |root.dependencies| - 1), root.dependencies[i + k].1, 1))
            == [Line(LastIndent, Connector(i == |root.dependencies| - 1), root.dependencies[i].1, 1)]
               + seq(|root.dependencies| - (i + 1), k requires 0 <= k < |root.dependencies| - (i + 1) =>
                  Line(LastIndent, Connector(i + 1 + k == |root.dependencies| - 1), root.dependencies[i + 1 + k].1, 1))
  {
  }

  /** The number of newline characters in a string. */
  function Newlines(s: string): nat {
    if s == [] then 0 else Newlines(s[..|s| - 1]) + (if s[|s| - 1] == '\n' then 1 else 0)
  }

  lemma {:induction false} NewlinesAppend(a: string, b: string)
    ensures Newlines(a + b) == Newlines(a) + Newlines(b)
    decreases |b|
  {
    if b == [] {
      assert a + b == a;
    } else {
      assert (a + b)[..|a + b| - 1] == a + b[..|b| - 1];
      NewlinesAppend(a, b[..|b| - 1]);
    }
  }

  lemma {:induction false} NoNewlines(s: string)
    requires '\n' !in s
    ensures Newlines(s) == 0
    decreases |s|
  {
    if s != [] {
      assert forall c :: c in s[..|s| - 1] ==> c in s;
      NoNewlines(s[..|s| - 1]);
    }
  }

  /** Each line contributes exactly one newline when no text on it holds one. */
  lemma {:induction false} OneNewlinePerLine(texts: seq<string>)
    requires forall i :: 0 <= i < |texts| ==> '\n' !in texts[i]
    ensures Newlines(Unlines(texts)) == |texts|
    decreases |texts|
  {
    if texts != [] {
      var last := texts[|texts| - 1];
      OneNewlinePerLine(texts[..|texts| - 1]);
      NewlinesAppend(Unlines(texts[..|texts| - 1]) + last, "\n");
      NewlinesAppend(Unlines(texts[..|texts| - 1]), last);
      NoNewlines(last);
      assert "\n"[..0] == [];
    }
  }

  /** The text fields a label shows hold no newline. */
  predicate SingleLineFields(node: DependencyNode) {
    && '\n' !in node.name
    && '\n' !in node.version
    && (node.license.Some? ==> '\n' !in node.license.value)
  }

  lemma LabelIsOneLine(node: DependencyNode)
    requires SingleLineFields(node)
    ensures '\n' !in Label(node)
  {
    if HasSize(node.size) {
      SizeTextIsOneLine(node.size.value);
    }
    assert '\n' !in SizeNote(node);
    assert '\n' !in LicenseNote(node);
    assert '\n' !in DevNote(node) && '\n' !in DuplicateNote(node);
  }

  lemma SizeTextIsOneLine(bytes: nat)
    ensures '\n' !in SizeText(bytes, "")
  {
    var k := UnitIndex(bytes);
    FixedIsOneLine(bytes as real / Pow1024(k) as real);
    assert '\n' !in Units[k];
  }

  lemma FixedIsOneLine(x: real)
    requires x >= 0.0
    ensures '\n' !in ToFixed1(x)
  {
    var n := (x * 10.0 + 0.5).Floor;
    assert '\n' !in Decimal(n / 10);
  }

  lemma GutterIsOneLine(g: string, n: nat)
    requires IsGutter(g, n)
    ensures '\n' !in g
  {
    if n > 0 {
      GutterIsOneLine(g[4..], n - 1);
      assert g == g[..4] + g[4..];
    }
  }

  /** The full rendering of a tree whose labels are single lines has exactly one line
      per node. */
  lemma OneLinePerNode(root: DependencyNode)
    requires forall n :: n in Preorder(root) ==> SingleLineFields(n)
    ensures Newlines(Output(Lines(root, "", true, 0, Infinity))) == NodeCount(root)
  {
    var lines := Lines(root, "", true, 0, Infinity);
    LinesArePreorder(root, "", true, 0);
    LinesShaped(root, "", true, 0, Infinity);
    forall i | 0 <= i < |lines|
      ensures '\n' !in Texts(lines)[i]
    {
      var line := lines[i];
      assert line.node == Preorder(root)[i];
      LabelIsOneLine(line.node);
      assert line.gutter[0..] == line.gutter;
      GutterIsOneLine(line.gutter, line.depth);
    }
    OneNewlinePerLine(Texts(lines));
  }
}
