/** The two-variant container used for the children of green nodes and of
    red nodes alike (src/lib.rs). */
module NodeOrTokens {
  import opened Prelude

  datatype NodeOrToken<N, T> = Node(node: N) | Token(token: T)
  {
    /** `into_node`: the node side, or nothing for a token. */
    function IntoNode(): (r: Option<N>)
      ensures r.Some? <==> Node?
      ensures r.Some? ==> Node(r.value) == this
    {
      match this
      case Node(n) => Some(n)
      case Token(_) => None
    }

    /** `into_token`: the token side, or nothing for a node. */
    function IntoToken(): (r: Option<T>)
      ensures r.Some? <==> Token?
      ensures r.Some? ==> Token(r.value) == this
    {
      match this
      case Node(_) => None
      case Token(t) => Some(t)
    }
  }

  /** Each projection undoes its own constructor and refuses the other one. */
  lemma ProjectionsInvertConstructors<N, T>(n: N, t: T)
    ensures NodeOrToken<N, T>.Node(n).IntoNode() == Some(n)
    ensures NodeOrToken<N, T>.Node(n).IntoToken() == None
    ensures NodeOrToken<N, T>.Token(t).IntoToken() == Some(t)
    ensures NodeOrToken<N, T>.Token(t).IntoNode() == None
  {
  }

  /** Every value answers exactly one of the two projections. */
  lemma ExactlyOneSide<N, T>(e: NodeOrToken<N, T>)
    ensures e.IntoNode().Some? != e.IntoToken().Some?
  {
  }
}
