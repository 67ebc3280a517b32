/** The red tree (src/red.rs): a position-aware view over a green tree. A red
    node or token wraps a green one and adds its parent, its index among the
    parent's children and its absolute text offset. Red values are rebuilt on
    every traversal and never change; an edit builds a new green path and
    returns a new red root. */
module Red {
  import opened Prelude
  import opened NodeOrTokens
  import opened Green

  datatype RedNode = RedNode(parent: Option<RedNode>, indexInParent: nat, textOffset: nat, green: GreenNode)
  {
    /** `new_root`: the root of a red tree over `root`. */
    static function NewRoot(root: GreenNode): (r: RedNode)
      ensures IsRoot(r) && r.green == root && Wf(r)
    {
      RedNode(None, 0, 0, root)
    }

    /** `kind`: the kind of the green node, which a parent holds at this
        node's index. */
    function Kind(): (k: SyntaxKind)
      ensures Wf(this) && parent.Some? ==>
                && indexInParent < |parent.value.green.children|
                && k == ElementKind(parent.value.green.children[indexInParent])
    {
      ParentIsPlaced(this);
      green.kind
    }

    /** `text_offset`: where this node's text starts; in a well-placed node,
        where its earlier siblings end. */
    function TextOffset(): (o: nat)
      ensures Wf(this) && parent.None? ==> o == 0
      ensures Wf(this) && parent.Some? ==>
                && indexInParent < |parent.value.green.children|
                && o == parent.value.textOffset + SumLen(parent.value.green.children[..indexInParent])
    {
      ParentIsPlaced(this);
      textOffset
    }

    /** `text_len`: the length of the text this node renders. */
    function TextLen(): (len: nat)
      ensures len == |NodeText(green)|
    {
      NodeLenIsTextLength(green);
      NodeLen(green)
    }

    /** `parent`: a well-placed node's parent is itself well placed and holds
        this node's green node at this node's index. */
    function Parent(): (p: Option<RedNode>)
      ensures Wf(this) && p.Some? ==>
                && Wf(p.value)
                && indexInParent < |p.value.green.children|
                && p.value.green.children[indexInParent] == Node(green)
    {
      ParentIsPlaced(this);
      parent
    }

    /** `children`: one red element per green child, in order and of the same
        variant, each knowing this node as its parent and its own index; the
        running offset starts at this node's offset and grows by each green
        child's length. */
    method Children() returns (cs: seq<RedElement>)
      ensures |cs| == |green.children|
      ensures forall i :: 0 <= i < |cs| ==> IsChild(this, i, cs[i])
    {
      var gs := green.children;
      var offsetInParent := 0;
      cs := [];
      for idx := 0 to |gs|
        invariant |cs| == idx
        invariant offsetInParent == SumLen(gs[..idx])
        invariant forall i :: 0 <= i < idx ==> IsChild(this, i, cs[i])
      {
        var greenChild := gs[idx];
        var offset := textOffset + offsetInParent;
        PrefixStep(gs, idx);
        offsetInParent := offsetInParent + ElementLen(greenChild);
        var child: RedElement;
        match greenChild {
          case Node(node) =>
            child := Node(RedNode(Some(this), idx, offset, node));
          case Token(token) =>
            child := Token(RedToken(Some(this), idx, offset, token));
        }
        assert IsChild(this, idx, child);
        cs := cs + [child];
      }
    }

    /** `replace_child`: rebuild this node's green node with `newChild` at
        `idx`, then have the ancestors put it in place; the result is always a
        fresh root. The old red tree is a value and is left as it was. */
    function ReplaceChild(idx: nat, newChild: GreenElement): (r: RedNode)
      requires Wf(this) && idx < |green.children|
      ensures IsRoot(r) && Wf(r)
      decreases this, 1
    {
      var newGreen := Green.ReplaceChild(green, idx, newChild);
      ReplaceOurselves(newGreen)
    }

    /** `replace_ourselves`: ask the parent to replace the slot at this node's
        index, one level per ancestor; at the root, wrap the new green node as
        a new root. */
    function ReplaceOurselves(newGreen: GreenNode): (r: RedNode)
      requires Wf(this)
      ensures IsRoot(r) && Wf(r)
      ensures parent.None? ==> r.green == newGreen
      decreases this, 0
    {
      match parent
      case Some(p) =>
        ParentIsPlaced(this);
        p.ReplaceChild(indexInParent, Node(newGreen))
      case None => NewRoot(newGreen)
    }
  }

  datatype RedToken = RedToken(parent: Option<RedNode>, indexInParent: nat, textOffset: nat, green: GreenToken)
  {
    /** `kind`: the kind of the green token, which the parent holds at this
        token's index. */
    function Kind(): (k: SyntaxKind)
      ensures WfToken(this) ==> k == ElementKind(parent.value.green.children[indexInParent])
    {
      green.kind
    }

    /** `text_offset`: in a well-placed token, where its earlier siblings
        end. */
    function TextOffset(): (o: nat)
      ensures WfToken(this) ==>
                o == parent.value.textOffset + SumLen(parent.value.green.children[..indexInParent])
    {
      textOffset
    }

    /** `text_len`: the length of the token's text, the length its parent
        counts for it. */
    function TextLen(): (len: nat)
      ensures len == ElementLen(Token(green)) == |ElementText(Token(green))|
    {
      |green.text|
    }

    /** `parent`: a well-placed token has a well-placed parent that holds
        this token's green token at this token's index. */
    function Parent(): (p: Option<RedNode>)
      ensures WfToken(this) ==>
                && p.Some? && Wf(p.value)
                && indexInParent < |p.value.green.children|
                && p.value.green.children[indexInParent] == Token(green)
    {
      parent
    }
  }

  type RedElement = NodeOrToken<RedNode, RedToken>

  // ----- Well-placed red values ---------------------------------------------

  predicate IsRoot(n: RedNode)
  {
    n.parent == None && n.indexInParent == 0 && n.textOffset == 0
  }

  /** A red value with these position fields and this green value sits where
      the fields say: a root at offset 0, or the child at `index` of a
      well-placed parent, starting where the earlier siblings end. */
  ghost predicate Placed(parent: Option<RedNode>, index: nat, offset: nat, g: GreenElement)
    decreases parent, 0
  {
    match parent
    case None => index == 0 && offset == 0 && g.Node?
    case Some(p) =>
      && Wf(p)
      && index < |p.green.children|
      && p.green.children[index] == g
      && offset == p.textOffset + SumLen(p.green.children[..index])
  }

  /** Every red node built by `NewRoot` and `Children` is well placed. */
  ghost predicate Wf(n: RedNode)
    decreases n, 1
  {
    Placed(n.parent, n.indexInParent, n.textOffset, Node(n.green))
  }

  /** `e` is the red element `children` yields at index `i` of `p`. */
  ghost predicate IsChild(p: RedNode, i: nat, e: RedElement)
  {
    && i < |p.green.children|
    && GreenOf(e) == p.green.children[i]
    && RedParent(e) == Some(p)
    && IndexInParent(e) == i
    && RedTextOffset(e) == p.textOffset + SumLen(p.green.children[..i])
  }

  /** The parent of a well-placed node is well placed and holds the node's
      green node at the node's index. */
  lemma ParentIsPlaced(n: RedNode)
    ensures Wf(n) && n.parent.None? ==> n.indexInParent == 0 && n.textOffset == 0
    ensures Wf(n) && n.parent.Some? ==>
              && Wf(n.parent.value)
              && n.indexInParent < |n.parent.value.green.children|
              && n.parent.value.green.children[n.indexInParent] == Node(n.green)
              && n.textOffset == n.parent.value.textOffset
                                 + SumLen(n.parent.value.green.children[..n.indexInParent])
  {
    if Wf(n) {
      assert Placed(n.parent, n.indexInParent, n.textOffset, Node(n.green));
    }
  }

  /** A well-placed token is the child at its index of a well-placed
      parent. */
  ghost predicate WfToken(t: RedToken)
  {
    t.parent.Some? && Placed(t.parent, t.indexInParent, t.textOffset, Token(t.green))
  }

  ghost predicate WfElement(e: RedElement)
  {
    match e
    case Node(n) => Wf(n)
    case Token(t) => WfToken(t)
  }

  // ----- RedElement dispatch ------------------------------------------------

  /** The green element a red element wraps, with its variant. */
  function GreenOf(e: RedElement): (g: GreenElement)
    ensures g.Node? <==> e.Node?
  {
    match e
    case Node(n) => Node(n.green)
    case Token(t) => Token(t.green)
  }

  function IndexInParent(e: RedElement): nat
  {
    match e
    case Node(n) => n.indexInParent
    case Token(t) => t.indexInParent
  }

  /** `kind`: the kind of the wrapped green element. */
  function RedKind(e: RedElement): (k: SyntaxKind)
    ensures k == ElementKind(GreenOf(e))
  {
    match e
    case Node(n) => n.Kind()
    case Token(t) => t.Kind()
  }

  /** `text_len`: the length of the wrapped green element. */
  function RedTextLen(e: RedElement): (len: nat)
    ensures len == ElementLen(GreenOf(e))
  {
    match e
    case Node(n) => n.TextLen()
    case Token(t) => t.TextLen()
  }

  /** `text_offset`: the active variant's offset; for a well-placed element
      with a parent, where the element's earlier siblings end. */
  function RedTextOffset(e: RedElement): (o: nat)
    ensures WfElement(e) && RedParent(e).Some? ==>
              o == RedParent(e).value.textOffset
                   + SumLen(RedParent(e).value.green.children[..IndexInParent(e)])
  {
    match e
    case Node(n) => n.TextOffset()
    case Token(t) => t.TextOffset()
  }

  /** `parent`: the active variant's parent. Only a node can lack one; a
      parent is well placed and holds the element's green value at the
      element's index. */
  function RedParent(e: RedElement): (p: Option<RedNode>)
    ensures WfElement(e) && p.None? ==> e.Node?
    ensures WfElement(e) && p.Some? ==>
              && Wf(p.value)
              && IndexInParent(e) < |p.value.green.children|
              && p.value.green.children[IndexInParent(e)] == GreenOf(e)
  {
    match e
    case Node(n) => n.Parent()
    case Token(t) => t.Parent()
  }

  // ----- Properties ---------------------------------------------------------

  /** Kind and length come from the green node alone: two red nodes over the
      same green node agree on them wherever they sit. */
  lemma NodeMeasuresArePositionFree(a: RedNode, b: RedNode)
    requires a.green == b.green
    ensures a.Kind() == b.Kind() && a.TextLen() == b.TextLen()
  {
  }

  lemma TokenMeasuresArePositionFree(a: RedToken, b: RedToken)
    requires a.green == b.green
    ensures a.Kind() == b.Kind() && a.TextLen() == b.TextLen()
  {
  }

  /** Every element `children` yields from a well-placed node is itself well
      placed, so it may be navigated and edited in turn. */
  lemma ChildrenArePlaced(p: RedNode, i: nat, e: RedElement)
    requires Wf(p) && IsChild(p, i, e)
    ensures WfElement(e)
    ensures RedParent(e).Some? && RedParent(e).value.TextOffset() <= RedTextOffset(e)
  {
  }

  /** A well-placed element lies inside its parent's text, or is a root at
      offset 0. */
  lemma ElementWithinParent(e: RedElement)
    requires WfElement(e)
    ensures RedParent(e).None? ==> e.Node? && RedTextOffset(e) == 0
    ensures RedParent(e).Some? ==>
              var p := RedParent(e).value;
              && p.TextOffset() <= RedTextOffset(e)
              && RedTextOffset(e) + RedTextLen(e) <= p.TextOffset() + p.TextLen()
  {
    match e
    case Node(n) =>
      if n.parent.Some? {
        ParentIsPlaced(n);
        PrefixWithin(n.parent.value.green.children, n.indexInParent);
      } else {
        assert Placed(n.parent, n.indexInParent, n.textOffset, Node(n.green));
      }
    case Token(t) =>
      PrefixWithin(t.parent.value.green.children, t.indexInParent);
  }

  /** The root of the red tree a node belongs to. */
  ghost function Root(n: RedNode): RedNode
    decreases n
  {
    match n.parent
    case None => n
    case Some(p) => Root(p)
  }

  /** The child indices leading from the root down to a node. */
  ghost function Path(n: RedNode): seq<nat>
    decreases n
  {
    match n.parent
    case None => []
    case Some(p) => Path(p) + [n.indexInParent]
  }

  /** Following a well-placed node's path from its root's green node leads
      back to the node's own green node. */
  lemma {:induction false} PathLeadsHere(n: RedNode)
    requires Wf(n)
    ensures IsRoot(Root(n)) && Wf(Root(n))
    ensures Descend(Root(n).green, Path(n)) == Some(Node(n.green))
    decreases n
  {
    match n.parent
    case None =>
    case Some(p) =>
      PathLeadsHere(p);
      DescendStep(Root(p).green, Path(p), p.green, n.indexInParent);
  }

  /** The bottom-up edit builds exactly the tree the top-down reference edit
      builds: the root's green node with `newChild` at the end of the path to
      `n` extended by `idx`, one rebuilt node per ancestor. */
  lemma {:induction false} ReplaceChildIsPathCopy(n: RedNode, idx: nat, newChild: GreenElement)
    requires Wf(n) && idx < |n.green.children|
    ensures Descend(Root(n).green, Path(n) + [idx]).Some?
    ensures n.ReplaceChild(idx, newChild).green == ReplaceAtPath(Root(n).green, Path(n) + [idx], newChild)
    decreases n
  {
    PathLeadsHere(n);
    ReplaceAtPathBottomUp(Root(n).green, Path(n), n.green, idx, newChild);
    match n.parent
    case None =>
    case Some(p) =>
      var newGreen := Green.ReplaceChild(n.green, idx, newChild);
      ReplaceChildIsPathCopy(p, n.indexInParent, Node(newGreen));
  }

  /** Below the root, putting a new green node in place of this one builds
      the reference edit along the path from the root to this node. */
  lemma ReplaceOurselvesIsPathCopy(n: RedNode, newGreen: GreenNode)
    requires Wf(n) && n.parent.Some?
    ensures Descend(Root(n).green, Path(n)).Some?
    ensures n.ReplaceOurselves(newGreen).green == ReplaceAtPath(Root(n).green, Path(n), Node(newGreen))
  {
    ParentIsPlaced(n);
    ReplaceChildIsPathCopy(n.parent.value, n.indexInParent, Node(newGreen));
  }

  /** After the edit, every sibling of the edited path, at every level, is
      the old green subtree, and the edited slot holds the new child. */
  lemma ReplaceChildSharesSiblings(n: RedNode, idx: nat, newChild: GreenElement, k: nat, j: nat)
    requires Wf(n) && idx < |n.green.children|
    requires k <= |Path(n)| && j != (Path(n) + [idx])[k]
    ensures var path := Path(n) + [idx];
            var r := n.ReplaceChild(idx, newChild);
            && Descend(r.green, path) == Some(newChild)
            && Descend(r.green, path[..k] + [j]) == Descend(Root(n).green, path[..k] + [j])
  {
    ReplaceChildIsPathCopy(n, idx, newChild);
    ReplaceAtPathSharesSiblings(Root(n).green, Path(n) + [idx], newChild, k, j);
  }

  /** The new root's length is the old root's, less the replaced child's,
      plus the new child's. */
  lemma ReplaceChildLength(n: RedNode, idx: nat, newChild: GreenElement)
    requires Wf(n) && idx < |n.green.children|
    ensures n.ReplaceChild(idx, newChild).TextLen() + ElementLen(n.green.children[idx])
         == Root(n).TextLen() + ElementLen(newChild)
  {
    ReplaceChildIsPathCopy(n, idx, newChild);
    PathLeadsHere(n);
    DescendStep(Root(n).green, Path(n), n.green, idx);
  }
}
