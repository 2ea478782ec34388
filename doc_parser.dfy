/**
 * The documentation tool's `LangParser` (the library crate's copy of the parser):
 * walks a Go syntax tree and sends the full text of every struct type declaration and
 * every method declaration on its channel, modelled by the sequence of messages sent.
 */
module DocParser {
  import opened Wrappers
  import opened Text
  import opened Syntax

  const TypeSpec := "type_spec"
  const StructType := "struct_type"

  /**
   * A node whose text the walk sends: a method declaration, or a type spec whose `type`
   * field holds a struct type. Only the first child under the field `type` is looked
   * at; a type spec without one sends nothing.
   */
  predicate IsDocumented(n: Node) {
    || (n.kind == TypeSpec && match ChildByFieldName(n, "type") { case Some(t) => t.kind == StructType case None => false })
    || n.kind == MethodDeclaration
  }

  /**
   * A type spec is sent exactly when some child is held under field `type` and the
   * first such child is a struct type; any other kind but a method declaration is
   * never sent.
   */
  lemma DocumentedTypeSpec(n: Node)
    requires n.kind == TypeSpec
    ensures IsDocumented(n) <==> exists i | 0 <= i < |n.children| ::
      && n.children[i].field == Some("type")
      && (forall j | 0 <= j < i :: n.children[j].field != Some("type"))
      && n.children[i].kind == StructType
  {
    var r := ChildByFieldName(n, "type");
    if r.Some? {
      var i := FirstWhere(n.children, (c: Node) => c.field == Some("type")).value;
      assert n.children[i] == r.value;
    }
  }

  class LangParser {
    /** The messages sent on `tx`, oldest first. */
    var sent: seq<bytes>

    /** `new`: a fresh channel with nothing sent. */
    constructor ()
      ensures sent == []
    {
      sent := [];
    }

    /**
     * `traverse`: at a type spec whose `type` field is a struct type, or at a method
     * declaration, send the node's full text; then walk every child, in order,
     * whether or not the node was sent.
     */
    method Traverse(node: Node, src: bytes)
      requires EmitOk(IsDocumented, node, src)
      modifies this
      ensures sent == old(sent) + Emitted(IsDocumented, node, src)
      decreases node
    {
      var isStruct := false;
      if node.kind == TypeSpec {
        var t := ChildByFieldName(node, "type");
        isStruct := t.Some? && t.value.kind == StructType;
      }
      if isStruct {
        var text := NodeText(node, src);
        sent := sent + [text];
      } else if node.kind == MethodDeclaration {
        var text := NodeText(node, src);
        sent := sent + [text];
      }
      assert sent == old(sent) + (if IsDocumented(node) then [NodeText(node, src)] else []);
      ghost var start := sent;
      for i := 0 to |node.children|
        invariant sent == start + EmittedAll(IsDocumented, node.children[..i], src)
      {
        Traverse(node.children[i], src);
        EmittedNextChild(IsDocumented, start, node.children, i, src);
      }
      assert node.children[..|node.children|] == node.children;
    }
  }

  /**
   * The messages a walk sends are the texts of the tree's struct type specs and method
   * declarations, in pre-order, one per node, and nothing else.
   */
  lemma SentArePreOrderDeclarations(node: Node, src: bytes)
    requires EmitOk(IsDocumented, node, src)
    ensures forall x | x in Select(PreOrder(node), IsDocumented) :: TextOk(x, src)
    ensures Emitted(IsDocumented, node, src) == Texts(Select(PreOrder(node), IsDocumented), src)
    ensures |Emitted(IsDocumented, node, src)| == |Select(PreOrder(node), IsDocumented)|
  {
    EmittedIsPreOrder(IsDocumented, node, src);
  }
}
