/** The `smoke` scenario of src/lib.rs: build `1 * 2 + 1 * 2`, navigate to
    the second multiplication, replace its first operand by `3`, and keep
    the original root. */
module Smoke {
  import opened Prelude
  import opened NodeOrTokens
  import opened Green
  import opened Red

  // Kinds used by the scenario (src/kinds.rs).
  const BIN_EXPR := SyntaxKind(4)
  const WHITESPACE := SyntaxKind(99)
  const INT := SyntaxKind(102)
  const PLUS := SyntaxKind(103)
  const STAR := SyntaxKind(104)

  /** Five siblings render as their texts one after another. */
  lemma RenderFive(a: GreenElement, b: GreenElement, c: GreenElement, d: GreenElement, e: GreenElement)
    ensures SeqText([a, b, c, d, e])
         == ElementText(a) + ElementText(b) + ElementText(c) + ElementText(d) + ElementText(e)
  {
    var ta, tb, tc, td := ElementText(a), ElementText(b), ElementText(c), ElementText(d);
    RenderSnoc([], a);
    assert [] + [a] == [a];
    assert SeqText([a]) == ta;
    RenderSnoc([a], b);
    assert [a] + [b] == [a, b];
    assert SeqText([a, b]) == ta + tb;
    RenderSnoc([a, b], c);
    assert [a, b] + [c] == [a, b, c];
    assert SeqText([a, b, c]) == ta + tb + tc;
    RenderSnoc([a, b, c], d);
    assert [a, b, c] + [d] == [a, b, c, d];
    assert SeqText([a, b, c, d]) == ta + tb + tc + td;
    RenderSnoc([a, b, c, d], e);
    assert [a, b, c, d] + [e] == [a, b, c, d, e];
  }

  /** Rendering the original root gives `1 * 2 + 1 * 2` even after the edit;
      the child at index 4 is a node, so the `unwrap` succeeds; the new root
      renders `1 * 2 + 3 * 2` and still shares the untouched first
      multiplication with the original. */
  method Smoke() returns (oldText: string, newText: string, shared: bool)
    ensures oldText == "1 * 2 + 1 * 2"
    ensures newText == "1 * 2 + 3 * 2"
    ensures shared
  {
    var ws := GreenToken(WHITESPACE, " ");
    var one := GreenToken(INT, "1");
    var star := GreenToken(STAR, "*");
    var two := GreenToken(INT, "2");
    var three := GreenToken(INT, "3");

    var multiplication := GreenNode(BIN_EXPR, [Token(one), Token(ws), Token(star), Token(ws), Token(two)]);
    var plus := GreenToken(PLUS, "+");
    var addition := GreenNode(BIN_EXPR, [Node(multiplication), Token(ws), Token(plus), Token(ws), Node(multiplication)]);

    var root := RedNode.NewRoot(addition);
    var children := root.Children();
    var mul2 := children[4].IntoNode();
    assert GreenOf(children[4]) == Node(multiplication);
    ChildrenArePlaced(root, 4, children[4]);
    var newRoot := mul2.value.ReplaceChild(0, Token(three));

    var mul2' := Green.ReplaceChild(multiplication, 0, Token(three));
    assert mul2.value.parent == Some(root) && mul2.value.indexInParent == 4;
    assert mul2.value.green == multiplication;
    assert newRoot == mul2.value.ReplaceOurselves(mul2');
    assert newRoot == root.ReplaceChild(4, Node(mul2'));
    assert newRoot.green == Green.ReplaceChild(addition, 4, Node(mul2'));

    assert NodeText(multiplication) == "1 * 2" by {
      RenderFive(Token(one), Token(ws), Token(star), Token(ws), Token(two));
    }
    oldText := NodeText(root.green);
    assert oldText == "1 * 2 + 1 * 2" by {
      RenderFive(Node(multiplication), Token(ws), Token(plus), Token(ws), Node(multiplication));
    }
    newText := NodeText(newRoot.green);
    assert mul2'.children == [Token(three), Token(ws), Token(star), Token(ws), Token(two)];
    assert NodeText(mul2') == "3 * 2" by {
      RenderFive(Token(three), Token(ws), Token(star), Token(ws), Token(two));
    }
    assert newRoot.green.children == [Node(multiplication), Token(ws), Token(plus), Token(ws), Node(mul2')];
    assert newText == "1 * 2 + 3 * 2" by {
      RenderFive(Node(multiplication), Token(ws), Token(plus), Token(ws), Node(mul2'));
    }
    shared := newRoot.green.children[0] == root.green.children[0];
  }
}
