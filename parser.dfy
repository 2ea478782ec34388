/**
 * The analyzer's `LangParser`: walks a Go syntax tree and sends the full text of every
 * method declaration on its channel. The channel is modelled by the sequence of
 * messages sent on it so far.
 */
module Parser {
  import opened Text
  import opened Syntax

  class LangParser {
    /** The messages sent on `tx`, oldest first (the receiving end `rx` drains them in this order). */
    var sent: seq<bytes>

    /** `new`: a fresh channel with nothing sent. */
    constructor ()
      ensures sent == []
    {
      sent := [];
    }

    /**
     * `traverse`: at a method declaration, send its full text (body included); then
     * walk every child, in order.
     */
    method Traverse(node: Node, src: bytes)
      requires EmitOk(IsMethodDeclaration, node, src)
      modifies this
      ensures sent == old(sent) + Emitted(IsMethodDeclaration, node, src)
      decreases node
    {
      if node.kind == MethodDeclaration {
        var text := NodeText(node, src);
        sent := sent + [text];
      }
      ghost var start := sent;
      for i := 0 to |node.children|
        invariant sent == start + EmittedAll(IsMethodDeclaration, node.children[..i], src)
      {
        Traverse(node.children[i], src);
        EmittedNextChild(IsMethodDeclaration, start, node.children, i, src);
      }
      assert node.children[..|node.children|] == node.children;
    }
  }

  /**
   * The messages a walk sends are the texts of the tree's method declarations, in
   * pre-order, one per declaration; so nested declarations follow the one that holds
   * them, and every other kind of node sends nothing.
   */
  lemma SentArePreOrderMethods(node: Node, src: bytes)
    requires EmitOk(IsMethodDeclaration, node, src)
    ensures forall x | x in Select(PreOrder(node), IsMethodDeclaration) :: TextOk(x, src)
    ensures Emitted(IsMethodDeclaration, node, src) == Texts(Select(PreOrder(node), IsMethodDeclaration), src)
    ensures |Emitted(IsMethodDeclaration, node, src)| == |Select(PreOrder(node), IsMethodDeclaration)|
  {
    EmittedIsPreOrder(IsMethodDeclaration, node, src);
  }
}
