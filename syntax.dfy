/**
 * The parsed syntax tree the analyzer consumes, and the node accessors shared by the
 * indexer and both declaration extractors. The tree-sitter parser itself is not part
 * of this model: a tree is given as a value, read against the source bytes it was
 * parsed from.
 */
module Syntax {
  import opened Wrappers
  import opened Text

  /**
   * A tree-sitter node: its grammar kind, the field name under which its parent holds
   * it (if any), its byte range `[start, end)` in the source, and its children in
   * source order (named and anonymous alike, as `Node::children` yields them).
   */
  datatype Node = Node(kind: string, field: Option<string>, start: nat, end: nat, children: seq<Node>)

  const MethodDeclaration := "method_declaration"

  predicate IsMethodDeclaration(n: Node) {
    n.kind == MethodDeclaration
  }

  /**
   * `get_node_text` can slice this node's range out of the source (the range lies in
   * the buffer) and decode it (the slice is well-formed UTF-8); otherwise it panics.
   */
  predicate TextOk(n: Node, src: bytes) {
    n.start <= n.end <= |src| && ValidUtf8(src[n.start..n.end])
  }

  /** `get_node_text`: the verbatim source text of a node. */
  function NodeText(n: Node, src: bytes): (r: bytes)
    requires TextOk(n, src)
    ensures |r| == n.end - n.start && ValidUtf8(r)
    ensures forall i | 0 <= i < |r| :: r[i] == src[n.start + i]
  {
    src[n.start..n.end]
  }

  /** Index of the first node of `cs` that satisfies `p`, if there is one. */
  function FirstWhere(cs: seq<Node>, p: Node -> bool): (r: Option<nat>)
    ensures r.Some? ==> r.value < |cs| && p(cs[r.value])
    ensures r.Some? ==> forall j | 0 <= j < r.value :: !p(cs[j])
    ensures r.None? ==> forall j | 0 <= j < |cs| :: !p(cs[j])
  {
    if cs == [] then None
    else if p(cs[0]) then Some(0)
    else match FirstWhere(cs[1..], p)
      case None => None
      case Some(i) => Some(i + 1)
  }

  /** The first child that satisfies `p` has decodable text (vacuous when there is none). */
  predicate FirstTextOk(n: Node, p: Node -> bool, src: bytes) {
    match FirstWhere(n.children, p)
    case None => true
    case Some(i) => TextOk(n.children[i], src)
  }

  /** `child_by_field_name`: the first child held under field `name`. */
  function ChildByFieldName(n: Node, name: string): (r: Option<Node>)
    ensures r.Some? ==> r.value in n.children && r.value.field == Some(name)
    ensures r.None? <==> forall j | 0 <= j < |n.children| :: n.children[j].field != Some(name)
  {
    match FirstWhere(n.children, (c: Node) => c.field == Some(name))
    case None => None
    case Some(i) => Some(n.children[i])
  }

  // ---------------------------------------------------------------------------
  // Pre-order: the order in which every recursive walk of the analyzer visits nodes
  // (the node itself, then each child's subtree in child order).

  function PreOrder(n: Node): (r: seq<Node>)
    ensures |r| >= 1 && r[0] == n
    decreases n
  {
    [n] + PreOrderAll(n.children)
  }

  function PreOrderAll(cs: seq<Node>): seq<Node>
    decreases cs
  {
    if cs == [] then [] else PreOrderAll(cs[..|cs| - 1]) + PreOrder(cs[|cs| - 1])
  }

  /** `q` holds of every node of the tree (used for the trees' panic-freedom conditions). */
  predicate Everywhere(n: Node, src: bytes, q: (Node, bytes) -> bool)
    decreases n
  {
    q(n, src) && forall i | 0 <= i < |n.children| :: Everywhere(n.children[i], src, q)
  }

  /** `Everywhere` holds exactly when `q` holds of every node the pre-order walk visits. */
  lemma {:induction false} EverywhereIsPreOrder(n: Node, src: bytes, q: (Node, bytes) -> bool)
    ensures Everywhere(n, src, q) <==> forall x | x in PreOrder(n) :: q(x, src)
    decreases n, 1
  {
    EverywhereIsPreOrderAll(n.children, src, q);
  }

  lemma {:induction false} EverywhereIsPreOrderAll(cs: seq<Node>, src: bytes, q: (Node, bytes) -> bool)
    ensures (forall i | 0 <= i < |cs| :: Everywhere(cs[i], src, q))
        <==> forall x | x in PreOrderAll(cs) :: q(x, src)
    decreases cs, 0
  {
    if cs != [] {
      var init, last := cs[..|cs| - 1], cs[|cs| - 1];
      EverywhereIsPreOrderAll(init, src, q);
      EverywhereIsPreOrder(last, src, q);
      assert forall i | 0 <= i < |init| :: init[i] == cs[i];
    }
  }

  /** The nodes of `xs` that satisfy `p`, in order. */
  function Select(xs: seq<Node>, p: Node -> bool): (r: seq<Node>)
    ensures |r| <= |xs|
  {
    if xs == [] then []
    else Select(xs[..|xs| - 1], p) + (if p(xs[|xs| - 1]) then [xs[|xs| - 1]] else [])
  }

  /** `Select` keeps only nodes of its input that satisfy `p`. */
  lemma {:induction false} SelectMembers(xs: seq<Node>, p: Node -> bool)
    ensures forall x | x in Select(xs, p) :: x in xs && p(x)
  {
    if xs != [] {
      var init := xs[..|xs| - 1];
      SelectMembers(init, p);
      assert forall x | x in init :: x in xs;
    }
  }

  lemma SelectSnoc(xs: seq<Node>, x: Node, p: Node -> bool)
    ensures Select(xs + [x], p) == Select(xs, p) + (if p(x) then [x] else [])
  {
    var xx := xs + [x];
    assert xx[..|xx| - 1] == xs && xx[|xx| - 1] == x;
  }

  lemma {:induction false} SelectAppend(a: seq<Node>, b: seq<Node>, p: Node -> bool)
    ensures Select(a + b, p) == Select(a, p) + Select(b, p)
    decreases |b|
  {
    if b == [] {
      assert a + b == a;
    } else {
      var init, last := b[..|b| - 1], b[|b| - 1];
      assert a + b == (a + init) + [last] && b == init + [last];
      SelectAppend(a, init, p);
      SelectSnoc(a + init, last, p);
      SelectSnoc(init, last, p);
    }
  }

  /** The texts of a list of nodes, in order. */
  function Texts(xs: seq<Node>, src: bytes): (r: seq<bytes>)
    requires forall x | x in xs :: TextOk(x, src)
    ensures |r| == |xs|
    ensures forall i | 0 <= i < |xs| :: r[i] == NodeText(xs[i], src)
  {
    if xs == [] then [] else Texts(xs[..|xs| - 1], src) + [NodeText(xs[|xs| - 1], src)]
  }

  // ---------------------------------------------------------------------------
  // Emitting the text of every node of a kind, in pre-order (the declaration
  // extractors' walk).

  /** Every node the walk emits (those satisfying `p`) has decodable text. */
  predicate EmitOk(p: Node -> bool, n: Node, src: bytes)
    decreases n
  {
    (p(n) ==> TextOk(n, src)) && forall i | 0 <= i < |n.children| :: EmitOk(p, n.children[i], src)
  }

  /** The texts the walk emits: the node's own (if it satisfies `p`), then each child's, in order. */
  function Emitted(p: Node -> bool, n: Node, src: bytes): seq<bytes>
    requires EmitOk(p, n, src)
    decreases n
  {
    (if p(n) then [NodeText(n, src)] else []) + EmittedAll(p, n.children, src)
  }

  function EmittedAll(p: Node -> bool, cs: seq<Node>, src: bytes): seq<bytes>
    requires forall i | 0 <= i < |cs| :: EmitOk(p, cs[i], src)
    decreases cs
  {
    if cs == [] then [] else EmittedAll(p, cs[..|cs| - 1], src) + Emitted(p, cs[|cs| - 1], src)
  }

  lemma {:induction false} TextsAppend(a: seq<Node>, b: seq<Node>, src: bytes)
    requires forall x | x in a + b :: TextOk(x, src)
    ensures Texts(a + b, src) == Texts(a, src) + Texts(b, src)
  {
    var l, r := Texts(a + b, src), Texts(a, src) + Texts(b, src);
    forall i | 0 <= i < |l| ensures l[i] == r[i] {
      if i < |a| { assert (a + b)[i] == a[i]; } else { assert (a + b)[i] == b[i - |a|]; }
    }
  }

  /**
   * The walk emits the text of every node that satisfies `p`, once each, in pre-order
   * (a match nested in another match comes after it), and nothing else; so it emits
   * as many texts as the tree has matching nodes.
   */
  lemma {:induction false} EmittedIsPreOrder(p: Node -> bool, n: Node, src: bytes)
    requires EmitOk(p, n, src)
    ensures forall x | x in Select(PreOrder(n), p) :: TextOk(x, src)
    ensures Emitted(p, n, src) == Texts(Select(PreOrder(n), p), src)
    ensures |Emitted(p, n, src)| == |Select(PreOrder(n), p)|
    decreases n, 1
  {
    EmittedAllIsPreOrder(p, n.children, src);
    var own, rest := Select([n], p), Select(PreOrderAll(n.children), p);
    SelectAppend([n], PreOrderAll(n.children), p);
    assert Select(PreOrder(n), p) == own + rest;
    OwnTexts(p, n, src);
    TextsAppendOk(own, rest, src);
  }

  /** The node's own contribution to the walk. */
  lemma OwnTexts(p: Node -> bool, n: Node, src: bytes)
    requires p(n) ==> TextOk(n, src)
    ensures forall x | x in Select([n], p) :: TextOk(x, src)
    ensures Texts(Select([n], p), src) == if p(n) then [NodeText(n, src)] else []
  {
    SelectOne(p, n);
  }

  /** `TextsAppend`, with the decodability of each half as the premise. */
  lemma TextsAppendOk(a: seq<Node>, b: seq<Node>, src: bytes)
    requires forall x | x in a :: TextOk(x, src)
    requires forall x | x in b :: TextOk(x, src)
    ensures forall x | x in a + b :: TextOk(x, src)
    ensures Texts(a + b, src) == Texts(a, src) + Texts(b, src)
  {
    assert forall x | x in a + b :: x in a || x in b;
    TextsAppend(a, b, src);
  }

  lemma SelectOne(p: Node -> bool, n: Node)
    ensures Select([n], p) == if p(n) then [n] else []
  {
    assert [n][..0] == [];
  }

  lemma {:induction false} EmittedAllIsPreOrder(p: Node -> bool, cs: seq<Node>, src: bytes)
    requires forall i | 0 <= i < |cs| :: EmitOk(p, cs[i], src)
    ensures forall x | x in Select(PreOrderAll(cs), p) :: TextOk(x, src)
    ensures EmittedAll(p, cs, src) == Texts(Select(PreOrderAll(cs), p), src)
    decreases cs, 0
  {
    if cs != [] {
      var init, last := cs[..|cs| - 1], cs[|cs| - 1];
      EmittedAllIsPreOrder(p, init, src);
      EmittedIsPreOrder(p, last, src);
      SelectAppend(PreOrderAll(init), PreOrder(last), p);
      TextsAppend(Select(PreOrderAll(init), p), Select(PreOrder(last), p), src);
    }
  }

  /** One more child walked: its texts follow those of the children before it. */
  lemma EmittedNextChild(p: Node -> bool, start: seq<bytes>, cs: seq<Node>, i: nat, src: bytes)
    requires i < |cs| && forall j | 0 <= j < |cs| :: EmitOk(p, cs[j], src)
    ensures start + EmittedAll(p, cs[..i], src) + Emitted(p, cs[i], src) == start + EmittedAll(p, cs[..i + 1], src)
  {
    assert cs[..i + 1][..i] == cs[..i];
  }
}
