/** The web view's data preparation: the tree is reduced to the fields the page shows
    and embedded into the HTML template in place of a placeholder. */
module WebUI {
  import opened Wrappers
  import opened Records
  import opened Types
  import Graph

  /** `convertToD3Format`: name, version, license, dev flag and duplicate marker are
      kept, size and outdated are dropped, and every dependency is converted under its
      own key, in the same order. */
  function ToD3(node: DependencyNode): (r: DependencyNode)
    ensures r.name == node.name && r.version == node.version
    ensures r.license == node.license
    ensures r.isDevDependency == node.isDevDependency
    ensures r.duplicateOf == node.duplicateOf
    ensures r.size == None && r.outdated == None
    ensures Keys(r.dependencies) == Keys(node.dependencies)
    ensures forall i :: 0 <= i < |node.dependencies| ==>
              r.dependencies[i].1 == ToD3(node.dependencies[i].1)
    decreases node
  {
    var deps := seq(|node.dependencies|, i requires 0 <= i < |node.dependencies| =>
                      (node.dependencies[i].0, ToD3(node.dependencies[i].1)));
    DependencyNode(node.name, node.version, deps, None, node.license,
                   node.isDevDependency, node.duplicateOf, None)
  }

  /** The conversion keeps the shape of the tree: the same number of nodes. */
  lemma {:induction false} ToD3Count(node: DependencyNode)
    ensures NodeCount(ToD3(node)) == NodeCount(node)
    decreases node, 1
  {
    ToD3CountFrom(node, 0);
  }

  lemma {:induction false} ToD3CountFrom(node: DependencyNode, i: nat)
    requires i <= |node.dependencies|
    ensures CountFrom(ToD3(node), i) == CountFrom(node, i)
    decreases node, 0, |node.dependencies| - i
  {
    if i < |node.dependencies| {
      ToD3Count(node.dependencies[i].1);
      ToD3CountFrom(node, i + 1);
    }
  }

  /** Converting an already converted tree changes nothing. */
  lemma {:induction false} ToD3Idempotent(node: DependencyNode)
    ensures ToD3(ToD3(node)) == ToD3(node)
    decreases node
  {
    var once := ToD3(node);
    forall i | 0 <= i < |node.dependencies|
      ensures ToD3(once.dependencies[i].1) == once.dependencies[i].1
    {
      ToD3Idempotent(node.dependencies[i].1);
    }
    var twice := ToD3(once);
    assert |twice.dependencies| == |once.dependencies|;
    forall i | 0 <= i < |once.dependencies|
      ensures twice.dependencies[i] == once.dependencies[i]
    {
      assert twice.dependencies[i].0 == Keys(twice.dependencies)[i] == Keys(once.dependencies)[i] == once.dependencies[i].0;
    }
    assert twice.dependencies == once.dependencies;
  }

  /** No node of the converted tree carries a size or an outdated flag. */
  lemma {:induction false} ToD3HasNoSizes(node: DependencyNode)
    ensures forall n :: n in Preorder(ToD3(node)) ==> n.size == None && n.outdated == None
    decreases node, 1
  {
    ToD3HasNoSizesFrom(node, 0);
  }

  lemma {:induction false} ToD3HasNoSizesFrom(node: DependencyNode, i: nat)
    requires i <= |node.dependencies|
    ensures forall n :: n in PreorderFrom(ToD3(node), i) ==> n.size == None && n.outdated == None
    decreases node, 0, |node.dependencies| - i
  {
    if i < |node.dependencies| {
      ToD3HasNoSizes(node.dependencies[i].1);
      ToD3HasNoSizesFrom(node, i + 1);
    }
  }

  /** What the browser view receives: since the conversion drops sizes and outdated
      flags, every size cell reads `Unknown` (the label of an absent size), no node is
      drawn as large or outdated, and no status reads `Outdated`. */
  lemma BrowserSeesNoSizes(root: DependencyNode)
    ensures forall n :: n in Preorder(ToD3(root)) ==>
              && !HasSize(n.size)
              && Graph.NodeClass(n.duplicateOf, n.size, n.outdated) != "large"
              && Graph.NodeClass(n.duplicateOf, n.size, n.outdated) != "outdated"
              && Graph.StatusLabel(n.duplicateOf, n.outdated) != "Outdated"
  {
    ToD3HasNoSizes(root);
  }

  /** A package the analyzer measured at 600000 bytes is large in the tree, but the
      browser view draws it as a direct dependency. */
  lemma LargePackageDrawnAsDirect()
    ensures var node := DependencyNode("big", "1.0.0", [], Some(600000), None, None, None, None);
            var sent := ToD3(node);
            && Graph.NodeClass(node.duplicateOf, node.size, node.outdated) == "large"
            && Graph.NodeClass(sent.duplicateOf, sent.size, sent.outdated) == "direct"
  {
  }

  /** The conversion with the two fields the browser view reads kept as well. */
  function ToD3Sized(node: DependencyNode): (r: DependencyNode)
    ensures r.size == node.size && r.outdated == node.outdated
    ensures Keys(r.dependencies) == Keys(node.dependencies)
    ensures forall i :: 0 <= i < |node.dependencies| ==>
              r.dependencies[i].1 == ToD3Sized(node.dependencies[i].1)
    decreases node
  {
    var deps := seq(|node.dependencies|, i requires 0 <= i < |node.dependencies| =>
                      (node.dependencies[i].0, ToD3Sized(node.dependencies[i].1)));
    DependencyNode(node.name, node.version, deps, node.size, node.license,
                   node.isDevDependency, node.duplicateOf, node.outdated)
  }

  /** With sizes and outdated flags kept, the browser view receives the analysed tree
      itself, so each node's class, size cell and status are those of the tree. */
  lemma {:induction false} ToD3SizedKeepsTree(node: DependencyNode)
    ensures ToD3Sized(node) == node
    decreases node
  {
    var sent := ToD3Sized(node);
    forall i | 0 <= i < |node.dependencies|
      ensures sent.dependencies[i] == node.dependencies[i]
    {
      ToD3SizedKeepsTree(node.dependencies[i].1);
      assert sent.dependencies[i].0 == Keys(sent.dependencies)[i] == Keys(node.dependencies)[i] == node.dependencies[i].0;
    }
    assert sent.dependencies == node.dependencies;
  }

  const Placeholder := "GRAPH_DATA_PLACEHOLDER"

  /** Whether `p` occurs in `s` starting at index `i`. */
  predicate MatchAt(s: string, p: string, i: nat) {
    i + |p| <= |s| && s[i..i + |p|] == p
  }

  /** `s.replace(/p/g, r)` with `r` taken literally: every occurrence of `p`, found
      left to right without overlap, is replaced by `r`. */
  function ReplaceAll(s: string, p: string, r: string): string
    requires |p| > 0
    decreases |s|
  {
    if |s| < |p| then s
    else if s[..|p|] == p then r + ReplaceAll(s[|p|..], p, r)
    else [s[0]] + ReplaceAll(s[1..], p, r)
  }

  /** A string in which `p` does not occur is left unchanged. */
  lemma {:induction false} ReplaceAllNoMatch(s: string, p: string, r: string)
    requires |p| > 0
    requires forall i :: 0 <= i <= |s| - |p| ==> !MatchAt(s, p, i)
    ensures ReplaceAll(s, p, r) == s
    decreases |s|
  {
    if |s| >= |p| {
      assert !MatchAt(s, p, 0);
      forall i | 0 <= i <= |s[1..]| - |p|
        ensures !MatchAt(s[1..], p, i)
      {
        assert !MatchAt(s, p, i + 1);
        assert s[1..][i..i + |p|] == s[i + 1..i + 1 + |p|];
      }
      ReplaceAllNoMatch(s[1..], p, r);
      assert [s[0]] + s[1..] == s;
    }
  }

  /** The first occurrence is replaced and the search resumes right after it. */
  lemma {:induction false} ReplaceAllFirst(a: string, p: string, b: string, r: string)
    requires |p| > 0
    requires forall i :: 0 <= i < |a| ==> !MatchAt(a + p + b, p, i)
    ensures ReplaceAll(a + p + b, p, r) == a + r + ReplaceAll(b, p, r)
    decreases |a|
  {
    var s := a + p + b;
    if a == [] {
      assert s == p + b;
      assert s[..|p|] == p;
      assert s[|p|..] == b;
    } else {
      assert !MatchAt(s, p, 0);
      assert s[1..] == a[1..] + p + b;
      forall i | 0 <= i < |a[1..]|
        ensures !MatchAt(a[1..] + p + b, p, i)
      {
        assert !MatchAt(s, p, i + 1);
        assert s[1..][i..] == s[i + 1..];
      }
      ReplaceAllFirst(a[1..], p, b, r);
      assert [a[0]] + (a[1..] + r + ReplaceAll(b, p, r)) == a + r + ReplaceAll(b, p, r);
    }
  }

  /** A template with two placeholders has both replaced. */
  lemma ReplaceAllTwice(a: string, b: string, c: string, r: string)
    requires forall i :: 0 <= i < |a| ==> !MatchAt(a + Placeholder + (b + Placeholder + c), Placeholder, i)
    requires forall i :: 0 <= i < |b| ==> !MatchAt(b + Placeholder + c, Placeholder, i)
    requires forall i :: 0 <= i <= |c| - |Placeholder| ==> !MatchAt(c, Placeholder, i)
    ensures ReplaceAll(a + Placeholder + (b + Placeholder + c), Placeholder, r) == a + r + (b + r + c)
  {
    ReplaceAllFirst(a, Placeholder, b + Placeholder + c, r);
    ReplaceAllFirst(b, Placeholder, c, r);
    ReplaceAllNoMatch(c, Placeholder, r);
  }

  /** The page served at `/`, as intended: the template with every placeholder replaced
      by the JSON text of the tree, taken literally. */
  function Page(template: string, json: string): string {
    ReplaceAll(template, Placeholder, json)
  }

  /** A template holding the placeholder once embeds the JSON text there verbatim. */
  lemma PageEmbedsJson(a: string, b: string, json: string)
    requires forall i :: 0 <= i < |a| ==> !MatchAt(a + Placeholder + b, Placeholder, i)
    requires forall i :: 0 <= i <= |b| - |Placeholder| ==> !MatchAt(b, Placeholder, i)
    ensures Page(a + Placeholder + b, json) == a + json + b
  {
    ReplaceAllFirst(a, Placeholder, b, json);
    ReplaceAllNoMatch(b, Placeholder, json);
  }

  /** The page as the route builds it: `html.replace(/GRAPH_DATA_PLACEHOLDER/g, json)`,
      where the JSON text is read as a replacement pattern. */
  function PageAsWritten(template: string, json: string): string {
    ReplaceAsWritten(template, Placeholder, json)
  }

  /** The two agree on every template whenever the JSON text holds no dollar sign. */
  lemma PagesAgreeWithoutDollar(template: string, json: string)
    requires '$' !in json
    ensures PageAsWritten(template, json) == Page(template, json)
  {
    AsWrittenIsLiteralWithoutDollar(template, 0, Placeholder, json);
    assert template[0..] == template;
  }

  /** The replacement text a string replacement pattern stands for at a match of `p`
      at `start` in `s`: `$$` is a dollar sign, `$&` the match, `` $` `` the text before
      it, `$'` the text after it; with no capture groups any other `$` is literal. */
  function Expand(r: string, s: string, start: nat, p: string): string
    requires start + |p| <= |s|
  {
    if r == [] then ""
    else if r[0] == '$' && |r| >= 2 && r[1] == '$' then "$" + Expand(r[2..], s, start, p)
    else if r[0] == '$' && |r| >= 2 && r[1] == '&' then p + Expand(r[2..], s, start, p)
    else if r[0] == '$' && |r| >= 2 && r[1] == '`' then s[..start] + Expand(r[2..], s, start, p)
    else if r[0] == '$' && |r| >= 2 && r[1] == '\'' then s[start + |p|..] + Expand(r[2..], s, start, p)
    else [r[0]] + Expand(r[1..], s, start, p)
  }

  /** `s.replace(/p/g, r)` as the template substitution calls it, with the JSON text as
      a string replacement pattern: each match is replaced by `Expand(r, ...)`. */
  function ReplaceAsWritten(s: string, p: string, r: string): string
    requires |p| > 0
  {
    ReplaceFrom(s, 0, p, r)
  }

  function ReplaceFrom(s: string, i: nat, p: string, r: string): string
    requires |p| > 0 && i <= |s|
    decreases |s| - i
  {
    if i + |p| > |s| then s[i..]
    else if s[i..i + |p|] == p then Expand(r, s, i, p) + ReplaceFrom(s, i + |p|, p, r)
    else [s[i]] + ReplaceFrom(s, i + 1, p, r)
  }

  /** Without a dollar sign the pattern is the text itself. */
  lemma {:induction false} ExpandLiteral(r: string, s: string, start: nat, p: string)
    requires start + |p| <= |s|
    requires '$' !in r
    ensures Expand(r, s, start, p) == r
    decreases |r|
  {
    if r != [] {
      assert '$' !in r[1..] by {
        assert forall c :: c in r[1..] ==> c in r;
      }
      ExpandLiteral(r[1..], s, start, p);
      assert [r[0]] + r[1..] == r;
    }
  }

  /** When the JSON text holds no dollar sign, the substitution is the literal one. */
  lemma {:induction false} AsWrittenIsLiteralWithoutDollar(s: string, i: nat, p: string, r: string)
    requires |p| > 0 && i <= |s|
    requires '$' !in r
    ensures ReplaceFrom(s, i, p, r) == ReplaceAll(s[i..], p, r)
    decreases |s| - i
  {
    if i + |p| <= |s| {
      AsWrittenIsLiteralWithoutDollar(s, Next(s, p, i), p, r);
      LiteralStep(s, i, p, r);
    } else {
      assert ReplaceFrom(s, i, p, r) == s[i..];
      assert |s[i..]| < |p|;
    }
  }

  /** Where both scans resume after position `i`: past the match, or one further. */
  function Next(s: string, p: string, i: nat): (j: nat)
    requires |p| > 0 && i + |p| <= |s|
    ensures i < j <= |s|
  {
    if MatchAt(s, p, i) then i + |p| else i + 1
  }

  /** One step of both scans: they emit the same text at `i` and resume at `Next`. */
  lemma LiteralStep(s: string, i: nat, p: string, r: string)
    requires |p| > 0 && i + |p| <= |s|
    requires '$' !in r
    requires ReplaceFrom(s, Next(s, p, i), p, r) == ReplaceAll(s[Next(s, p, i)..], p, r)
    ensures ReplaceFrom(s, i, p, r) == ReplaceAll(s[i..], p, r)
  {
    if MatchAt(s, p, i) {
      LiteralAtMatch(s, i, p, r);
    } else {
      LiteralAtOther(s, i, p, r);
    }
  }

  lemma LiteralAtMatch(s: string, i: nat, p: string, r: string)
    requires |p| > 0 && MatchAt(s, p, i)
    requires '$' !in r
    ensures ReplaceFrom(s, i, p, r) == r + ReplaceFrom(s, i + |p|, p, r)
    ensures ReplaceAll(s[i..], p, r) == r + ReplaceAll(s[i + |p|..], p, r)
  {
    ExpandLiteral(r, s, i, p);
    var t := s[i..];
    assert t[..|p|] == p && t[|p|..] == s[i + |p|..];
  }

  lemma LiteralAtOther(s: string, i: nat, p: string, r: string)
    requires |p| > 0 && i + |p| <= |s| && !MatchAt(s, p, i)
    ensures ReplaceFrom(s, i, p, r) == [s[i]] + ReplaceFrom(s, i + 1, p, r)
    ensures ReplaceAll(s[i..], p, r) == [s[i]] + ReplaceAll(s[i + 1..], p, r)
  {
    var t := s[i..];
    assert t[..|p|] == s[i..i + |p|] && t[0] == s[i] && t[1..] == s[i + 1..];
  }

  /** A tree whose JSON text contains `$&` puts the placeholder itself back into the
      page instead of that text. */
  lemma DollarPatternCounterexample()
    ensures PageAsWritten(Placeholder, "\"$&\"") == "\"" + Placeholder + "\""
    ensures Page(Placeholder, "\"$&\"") == "\"$&\""
  {
    var s := Placeholder;
    var r := "\"$&\"";
    assert s[0..|s|] == s;
    assert r[1..][2..] == "\"";
    assert Expand(r, s, 0, s) == "\"" + Expand(r[1..], s, 0, s);
    assert Expand(r[1..], s, 0, s) == s + Expand("\"", s, 0, s);
    assert Expand("\"", s, 0, s) == "\"" by {
      assert "\""[1..] == "";
    }
    assert ReplaceFrom(s, |s|, s, r) == "";
    assert s[..|s|] == s && s[|s|..] == "";
    assert ReplaceAll("", s, r) == "";
  }
}
