/** A minimal stand-in for the green tree, whose implementation is not part of
    this model: immutable, position-free nodes and tokens. A token owns its
    text; a node owns an ordered sequence of children, and its length is the
    sum of its children's lengths. Shared subtrees are plain values here, so
    "the same allocation" reads as "the same value". */
module Green {
  import opened Prelude
  import opened NodeOrTokens

  /** The grammar production or token type of a node or token. */
  datatype SyntaxKind = SyntaxKind(raw: u16)

  datatype GreenToken = GreenToken(kind: SyntaxKind, text: string)

  datatype GreenNode = GreenNode(kind: SyntaxKind, children: seq<NodeOrToken<GreenNode, GreenToken>>)

  type GreenElement = NodeOrToken<GreenNode, GreenToken>

  function ElementKind(e: GreenElement): SyntaxKind
  {
    match e
    case Node(n) => n.kind
    case Token(t) => t.kind
  }

  // ----- Lengths ------------------------------------------------------------

  function NodeLen(n: GreenNode): nat
    decreases n, 1
  {
    SumLen(n.children)
  }

  function ElementLen(e: GreenElement): nat
    decreases e, 0
  {
    match e
    case Node(n) => NodeLen(n)
    case Token(t) => |t.text|
  }

  /** The total length of a run of siblings. */
  function SumLen(es: seq<GreenElement>): nat
    decreases es, 0
  {
    if es == [] then 0 else SumLen(es[..|es| - 1]) + ElementLen(es[|es| - 1])
  }

  lemma {:induction false} SumLenAppend(es: seq<GreenElement>, fs: seq<GreenElement>)
    ensures SumLen(es + fs) == SumLen(es) + SumLen(fs)
    decreases |fs|
  {
    if fs == [] {
      assert es + fs == es;
    } else {
      var k := |fs| - 1;
      assert (es + fs)[..|es + fs| - 1] == es + fs[..k];
      SumLenAppend(es, fs[..k]);
    }
  }

  /** A run of siblings is at least as long as any of its prefixes plus the
      element that follows that prefix. */
  lemma PrefixWithin(es: seq<GreenElement>, i: nat)
    requires i < |es|
    ensures SumLen(es[..i]) + ElementLen(es[i]) <= SumLen(es)
  {
    assert es == es[..i] + [es[i]] + es[i + 1..];
    SumLenAppend(es[..i] + [es[i]], es[i + 1..]);
    assert (es[..i] + [es[i]])[..i] == es[..i];
  }

  /** Extending a prefix by one sibling adds that sibling's length. */
  lemma PrefixStep(es: seq<GreenElement>, i: nat)
    requires i < |es|
    ensures SumLen(es[..i + 1]) == SumLen(es[..i]) + ElementLen(es[i])
  {
    assert es[..i + 1][..i] == es[..i];
  }

  /** Substituting one sibling changes the total by the difference of the
      two lengths and nothing else. */
  lemma {:induction false} SumLenUpdate(es: seq<GreenElement>, i: nat, c: GreenElement)
    requires i < |es|
    ensures SumLen(es[i := c]) + ElementLen(es[i]) == SumLen(es) + ElementLen(c)
  {
    assert es == es[..i] + [es[i]] + es[i + 1..];
    assert es[i := c] == es[..i] + [c] + es[i + 1..];
    SumLenAppend(es[..i] + [es[i]], es[i + 1..]);
    SumLenAppend(es[..i] + [c], es[i + 1..]);
    SumLenAppend(es[..i], [es[i]]);
    SumLenAppend(es[..i], [c]);
  }

  // ----- Text ---------------------------------------------------------------

  /** Rendering: the in-order concatenation of the texts of all leaves. */
  function NodeText(n: GreenNode): string
    decreases n, 1
  {
    SeqText(n.children)
  }

  function ElementText(e: GreenElement): string
    decreases e, 0
  {
    match e
    case Node(n) => NodeText(n)
    case Token(t) => t.text
  }

  function SeqText(es: seq<GreenElement>): string
    decreases es, 0
  {
    if es == [] then "" else SeqText(es[..|es| - 1]) + ElementText(es[|es| - 1])
  }

  /** Rendering a run of siblings one element longer appends that element's
      text. */
  lemma RenderSnoc(es: seq<GreenElement>, e: GreenElement)
    ensures SeqText(es + [e]) == SeqText(es) + ElementText(e)
  {
  }

  /** The length a node reports is the length of the text it renders. */
  lemma {:induction false} NodeLenIsTextLength(n: GreenNode)
    ensures |NodeText(n)| == NodeLen(n)
    decreases n, 1
  {
    SeqLenIsTextLength(n.children);
  }

  lemma {:induction false} ElementLenIsTextLength(e: GreenElement)
    ensures |ElementText(e)| == ElementLen(e)
    decreases e, 0
  {
    match e
    case Node(n) => NodeLenIsTextLength(n);
    case Token(_) =>
  }

  lemma {:induction false} SeqLenIsTextLength(es: seq<GreenElement>)
    ensures |SeqText(es)| == SumLen(es)
    decreases es, 0
  {
    if es != [] {
      SeqLenIsTextLength(es[..|es| - 1]);
      ElementLenIsTextLength(es[|es| - 1]);
    }
  }

  // ----- Replacing a child ----------------------------------------------------

  /** `replace_child`: a new node of the same kind whose child at `idx` is
      `c`, every other child being the old one in its old place; its length
      is recomputed from the new children. The original node is a value and
      stays as it was. The source fails fast on an index out of range. */
  function ReplaceChild(n: GreenNode, idx: nat, c: GreenElement): (r: GreenNode)
    requires idx < |n.children|
    ensures r.kind == n.kind && |r.children| == |n.children| && r.children[idx] == c
    ensures forall j :: 0 <= j < |n.children| && j != idx ==> r.children[j] == n.children[j]
    ensures NodeLen(r) + ElementLen(n.children[idx]) == NodeLen(n) + ElementLen(c)
  {
    SumLenUpdate(n.children, idx, c);
    GreenNode(n.kind, n.children[idx := c])
  }

  // ----- Paths ----------------------------------------------------------------

  /** The element reached from `g` by following the child indices of `path`;
      the empty path reaches `g` itself. */
  function Descend(g: GreenNode, path: seq<nat>): Option<GreenElement>
    decreases |path|
  {
    if path == [] then Some(Node(g))
    else if path[0] >= |g.children| then None
    else if |path| == 1 then Some(g.children[path[0]])
    else match g.children[path[0]]
      case Node(m) => Descend(m, path[1..])
      case Token(_) => None
  }

  /** One more step down from a node reached by `path`. */
  lemma {:induction false} DescendStep(g: GreenNode, path: seq<nat>, m: GreenNode, i: nat)
    requires Descend(g, path) == Some(Node(m))
    ensures Descend(g, path + [i]) == if i < |m.children| then Some(m.children[i]) else None
    decreases |path|
  {
    if path != [] {
      assert (path + [i])[1..] == path[1..] + [i];
      match g.children[path[0]]
      case Node(c) => if |path| > 1 { DescendStep(c, path[1..], m, i); }
      case Token(_) =>
    }
  }

  /** The edit as a reference definition, top-down: rebuild every node on
      `path`, substituting `c` at its end. */
  function ReplaceAtPath(g: GreenNode, path: seq<nat>, c: GreenElement): (r: GreenNode)
    requires path != [] && Descend(g, path).Some?
    ensures r.kind == g.kind && |r.children| == |g.children|
    ensures Descend(r, path) == Some(c)
    ensures NodeLen(r) + ElementLen(Descend(g, path).value) == NodeLen(g) + ElementLen(c)
    decreases |path|
  {
    if |path| == 1 then ReplaceChild(g, path[0], c)
    else
      var m := g.children[path[0]].node;
      var m' := ReplaceAtPath(m, path[1..], c);
      ReplaceChild(g, path[0], Node(m'))
  }

  /** Structural sharing: at every level of the edited path, every sibling
      of the path (and so its whole subtree) is the old one. */
  lemma {:induction false} ReplaceAtPathSharesSiblings(g: GreenNode, path: seq<nat>, c: GreenElement, k: nat, j: nat)
    requires path != [] && Descend(g, path).Some?
    requires k < |path| && j != path[k]
    ensures Descend(ReplaceAtPath(g, path, c), path[..k] + [j]) == Descend(g, path[..k] + [j])
    decreases |path|
  {
    var r := ReplaceAtPath(g, path, c);
    var m := g.children[path[0]];
    if k == 0 {
      assert path[..k] + [j] == [j];
    } else {
      assert |path| > 1;
      var m' := ReplaceAtPath(m.node, path[1..], c);
      assert r.children[path[0]] == Node(m');
      var q := path[..k] + [j];
      assert q[0] == path[0] && q[1..] == path[1..][..k - 1] + [j];
      ReplaceAtPathSharesSiblings(m.node, path[1..], c, k - 1, j);
    }
  }

  /** `a` and `b` both reach nodes, of the same kind and with as many
      children. */
  ghost predicate SameShape(a: Option<GreenElement>, b: Option<GreenElement>)
  {
    && a.Some? && a.value.Node? && b.Some? && b.value.Node?
    && a.value.node.kind == b.value.node.kind
    && |a.value.node.children| == |b.value.node.children|
  }

  /** Every node the edit rebuilds, at every proper prefix of the path,
      keeps its kind and its number of children. */
  lemma {:induction false} ReplaceAtPathKeepsSpine(g: GreenNode, path: seq<nat>, c: GreenElement, k: nat)
    requires path != [] && Descend(g, path).Some? && k < |path|
    ensures SameShape(Descend(ReplaceAtPath(g, path, c), path[..k]), Descend(g, path[..k]))
    decreases |path|
  {
    var r := ReplaceAtPath(g, path, c);
    if k == 0 {
      assert path[..k] == [];
    } else {
      var m := g.children[path[0]].node;
      var m' := ReplaceAtPath(m, path[1..], c);
      assert r.children[path[0]] == Node(m');
      var q := path[..k];
      assert q[0] == path[0] && q[1..] == path[1..][..k - 1];
      if k == 1 {
        assert Descend(r, q) == Some(Node(m'));
      } else {
        ReplaceAtPathKeepsSpine(m, path[1..], c, k - 1);
      }
    }
  }

  /** The edit done bottom-up, as the red tree does it: replace the child in
      the deepest node, then put that node in place along the shorter path. */
  lemma {:induction false} ReplaceAtPathBottomUp(g: GreenNode, path: seq<nat>, m: GreenNode, idx: nat, c: GreenElement)
    requires Descend(g, path) == Some(Node(m)) && idx < |m.children|
    ensures Descend(g, path + [idx]).Some?
    ensures ReplaceAtPath(g, path + [idx], c)
         == if path == [] then ReplaceChild(m, idx, c)
            else ReplaceAtPath(g, path, Node(ReplaceChild(m, idx, c)))
    decreases |path|
  {
    DescendStep(g, path, m, idx);
    if path != [] {
      var n := g.children[path[0]].node;
      assert (path + [idx])[1..] == path[1..] + [idx];
      if |path| > 1 {
        ReplaceAtPathBottomUp(n, path[1..], m, idx, c);
      }
    }
  }
}
