/**
 * `GoIndexer`: walks a Go syntax tree and stores the full text of every named method
 * declaration in the shared symbol store, under a key built from the file's package
 * name, the method's receiver and the method's name.
 */
module Indexer {
  import opened Wrappers
  import opened Text
  import opened Syntax
  import opened Memory

  const PackageClause := "package_clause"

  /** The byte string `package `, which a package clause's text must start with. */
  function PackageKeyword(): (r: bytes)
    ensures |r| == 8
  {
    Ascii("package ")
  }

  /** The separator `::` between the segments of a symbol key. */
  function Separator(): (r: bytes)
    ensures r == [58, 58]
  {
    Ascii("::")
  }

  /** A child that carries a method's name. */
  predicate IsNameChild(c: Node) {
    c.kind == "field_identifier" || c.kind == "method_spec"
  }

  /** A child that is a parameter list (the receiver is the first one). */
  predicate IsParameterList(c: Node) {
    c.kind == "parameter_list"
  }

  /** `get_method_name`: the text of the first direct child that is a field identifier or a method spec. */
  function MethodName(n: Node, src: bytes): (r: Option<bytes>)
    requires FirstTextOk(n, IsNameChild, src)
    ensures r.None? <==> forall j | 0 <= j < |n.children| :: !IsNameChild(n.children[j])
    ensures r.Some? ==> exists i | 0 <= i < |n.children| ::
      && IsNameChild(n.children[i])
      && (forall j | 0 <= j < i :: !IsNameChild(n.children[j]))
      && r.value == NodeText(n.children[i], src)
  {
    match FirstWhere(n.children, IsNameChild)
    case None => None
    case Some(i) => Some(NodeText(n.children[i], src))
  }

  /**
   * `get_struct_name`: the verbatim text of the first direct child that is a parameter
   * list, parentheses included. For a method declaration that is the receiver, so the
   * result is `(t T)`, not the type name `T`.
   */
  function StructName(n: Node, src: bytes): (r: Option<bytes>)
    requires FirstTextOk(n, IsParameterList, src)
    ensures r.None? <==> forall j | 0 <= j < |n.children| :: !IsParameterList(n.children[j])
    ensures r.Some? ==> exists i | 0 <= i < |n.children| ::
      && IsParameterList(n.children[i])
      && (forall j | 0 <= j < i :: !IsParameterList(n.children[j]))
      && r.value == NodeText(n.children[i], src)
  {
    match FirstWhere(n.children, IsParameterList)
    case None => None
    case Some(i) => Some(NodeText(n.children[i], src))
  }

  /**
   * `construct_key`: `package::struct::method` when there is a struct segment,
   * `package::method` otherwise.
   */
  function ConstructKey(packageName: bytes, structName: Option<bytes>, methodName: bytes): (key: bytes)
    ensures StartsWith(key, packageName + Separator())
    ensures EndsWith(key, Separator() + methodName)
    ensures structName.None? ==> |key| == |packageName| + 2 + |methodName|
    ensures structName.Some? ==> |key| == |packageName| + |structName.value| + 4 + |methodName|
    ensures structName.Some? ==>
      key[|packageName| + 2..|packageName| + 2 + |structName.value|] == structName.value
  {
    match structName
    case Some(s) => packageName + Separator() + s + Separator() + methodName
    case None => packageName + Separator() + methodName
  }

  // ---------------------------------------------------------------------------
  // `get_package_name`

  /**
   * What the package search needs in order not to panic: the text of every package
   * clause it reads is decodable. It reads clauses in pre-order, does not descend into
   * a clause, and stops at the first one that yields a name.
   */
  predicate PackageSearchOk(n: Node, src: bytes)
    decreases n, 0
  {
    if n.kind == PackageClause then TextOk(n, src) else PackageSearchOkIn(n.children, src)
  }

  predicate PackageSearchOkIn(cs: seq<Node>, src: bytes)
    decreases cs, 0
  {
    cs == [] || (PackageSearchOk(cs[0], src) && (PackageName(cs[0], src).None? ==> PackageSearchOkIn(cs[1..], src)))
  }

  /** The name a package clause declares: its text after `package `, trimmed; none without that prefix. */
  function ClauseName(n: Node, src: bytes): Option<bytes>
    requires TextOk(n, src)
  {
    var text := NodeText(n, src);
    if StartsWith(text, PackageKeyword()) then Some(Trim(text[|PackageKeyword()|..])) else None
  }

  /** A clause whose text is `package ` and then a name with no spaces around it declares that name. */
  lemma ClauseNameIs(n: Node, src: bytes, name: bytes)
    requires TextOk(n, src) && NodeText(n, src) == PackageKeyword() + name && Trim(name) == name
    ensures ClauseName(n, src) == Some(name)
  {
    var text := NodeText(n, src);
    assert text[..|PackageKeyword()|] == PackageKeyword();
    assert text[|PackageKeyword()|..] == name;
  }

  /** `get_package_name`: the name of the first package clause, in pre-order, that has one. */
  function PackageName(n: Node, src: bytes): (r: Option<bytes>)
    requires PackageSearchOk(n, src)
    ensures r.Some? ==> LeadingSpace(r.value) == 0 && TrailingSpace(r.value) == 0
    decreases n, 1
  {
    if n.kind == PackageClause then ClauseName(n, src) else PackageNameIn(n.children, src)
  }

  /** The loop over the children: the first child whose search yields a name. */
  function PackageNameIn(cs: seq<Node>, src: bytes): (r: Option<bytes>)
    requires PackageSearchOkIn(cs, src)
    ensures r.Some? ==> LeadingSpace(r.value) == 0 && TrailingSpace(r.value) == 0
    decreases cs, 1
  {
    if cs == [] then None
    else match PackageName(cs[0], src)
      case Some(name) => Some(name)
      case None => PackageNameIn(cs[1..], src)
  }

  /** The package clauses the search can reach, in pre-order (it never looks inside a clause). */
  function Clauses(n: Node): (r: seq<Node>)
    ensures forall x | x in r :: x.kind == PackageClause
    decreases n, 1
  {
    if n.kind == PackageClause then [n] else ClausesIn(n.children)
  }

  function ClausesIn(cs: seq<Node>): (r: seq<Node>)
    ensures forall x | x in r :: x.kind == PackageClause
    decreases cs, 0
  {
    if cs == [] then [] else Clauses(cs[0]) + ClausesIn(cs[1..])
  }

  /** Clauses are read up to the first named one, and each read clause is decodable. */
  predicate ClausesOk(xs: seq<Node>, src: bytes) {
    xs == [] || (TextOk(xs[0], src) && (ClauseName(xs[0], src).None? ==> ClausesOk(xs[1..], src)))
  }

  /** The reference reading of the search: the name of the first clause of the list that has one. */
  function FirstClauseName(xs: seq<Node>, src: bytes): Option<bytes>
    requires ClausesOk(xs, src)
  {
    if xs == [] then None
    else match ClauseName(xs[0], src)
      case Some(name) => Some(name)
      case None => FirstClauseName(xs[1..], src)
  }

  lemma {:induction false} FirstClauseNameAppend(a: seq<Node>, b: seq<Node>, src: bytes)
    ensures ClausesOk(a + b, src) <==> ClausesOk(a, src) && (FirstClauseNameOrNone(a, src) ==> ClausesOk(b, src))
    ensures ClausesOk(a + b, src) ==>
      FirstClauseName(a + b, src) == if FirstClauseName(a, src).Some? then FirstClauseName(a, src) else FirstClauseName(b, src)
  {
    if a == [] {
      assert a + b == b;
    } else {
      assert (a + b)[0] == a[0] && (a + b)[1..] == a[1..] + b;
      FirstClauseNameAppend(a[1..], b, src);
    }
  }

  /** The clause list is readable and names no package (so the search goes on past it). */
  predicate FirstClauseNameOrNone(xs: seq<Node>, src: bytes) {
    ClausesOk(xs, src) && FirstClauseName(xs, src).None?
  }

  /**
   * The recursive search returns the name of the first reachable package clause, in
   * pre-order, whose text starts with `package `: it goes on to later clauses (later
   * siblings included) past a clause without that prefix, and finds nothing if no
   * clause has it.
   */
  lemma {:induction false} PackageNameIsFirstClause(n: Node, src: bytes)
    ensures PackageSearchOk(n, src) <==> ClausesOk(Clauses(n), src)
    ensures PackageSearchOk(n, src) ==> PackageName(n, src) == FirstClauseName(Clauses(n), src)
    decreases n, 1
  {
    if n.kind == PackageClause {
      assert Clauses(n)[1..] == [];
    } else {
      PackageNameIsFirstClauseIn(n.children, src);
    }
  }

  lemma {:induction false} PackageNameIsFirstClauseIn(cs: seq<Node>, src: bytes)
    ensures PackageSearchOkIn(cs, src) <==> ClausesOk(ClausesIn(cs), src)
    ensures PackageSearchOkIn(cs, src) ==> PackageNameIn(cs, src) == FirstClauseName(ClausesIn(cs), src)
    decreases cs, 0
  {
    if cs != [] {
      PackageNameIsFirstClause(cs[0], src);
      PackageNameIsFirstClauseIn(cs[1..], src);
      FirstClauseNameAppend(Clauses(cs[0]), ClausesIn(cs[1..]), src);
    }
  }

  /** `index`: the package name, or the empty string when the tree declares none. */
  function KeyPrefix(root: Node, src: bytes): (prefix: bytes)
    requires PackageSearchOk(root, src)
    ensures PackageName(root, src).None? ==> prefix == []
    ensures PackageName(root, src).Some? ==> prefix == PackageName(root, src).value
  {
    match PackageName(root, src)
    case Some(name) => name
    case None => []
  }

  // ---------------------------------------------------------------------------
  // `traverse`

  /** One store write: a symbol key and the declaration text stored under it. */
  datatype Entry = Entry(key: bytes, text: bytes)

  /**
   * What `traverse` needs at a node in order not to panic: at a method declaration it
   * reads the node's text, its first name child's text and its first parameter list's text.
   */
  predicate MethodNodeOk(n: Node, src: bytes) {
    IsMethodDeclaration(n) ==>
      && TextOk(n, src)
      && FirstTextOk(n, IsNameChild, src)
      && FirstTextOk(n, IsParameterList, src)
  }

  /** The tree can be traversed without a panic. */
  predicate Traversable(n: Node, src: bytes) {
    Everywhere(n, src, MethodNodeOk)
  }

  /** A method declaration `traverse` writes an entry for: one that has a name. */
  predicate IsNamedMethod(n: Node) {
    IsMethodDeclaration(n) && FirstWhere(n.children, IsNameChild).Some?
  }

  /** The entry written for one named method declaration. */
  function MethodEntry(prefix: bytes, n: Node, src: bytes): (e: Entry)
    requires MethodNodeOk(n, src) && IsNamedMethod(n)
    ensures e.text == NodeText(n, src)
  {
    Entry(ConstructKey(prefix, StructName(n, src), MethodName(n, src).value), NodeText(n, src))
  }

  /** The writes `traverse` makes at one node, before descending. */
  function OwnEntry(prefix: bytes, n: Node, src: bytes): (r: seq<Entry>)
    requires MethodNodeOk(n, src)
  {
    if IsNamedMethod(n) then [MethodEntry(prefix, n, src)] else []
  }

  /** The writes `traverse` makes, in order. */
  function Entries(prefix: bytes, n: Node, src: bytes): (r: seq<Entry>)
    requires Traversable(n, src)
    ensures forall i | 0 <= i < |r| :: StartsWith(r[i].key, prefix + Separator())
    decreases n
  {
    OwnEntry(prefix, n, src) + EntriesAll(prefix, n.children, src)
  }

  function EntriesAll(prefix: bytes, cs: seq<Node>, src: bytes): (r: seq<Entry>)
    requires forall i | 0 <= i < |cs| :: Traversable(cs[i], src)
    ensures forall i | 0 <= i < |r| :: StartsWith(r[i].key, prefix + Separator())
    decreases cs
  {
    if cs == [] then [] else EntriesAll(prefix, cs[..|cs| - 1], src) + Entries(prefix, cs[|cs| - 1], src)
  }

  /** The writes of a list of siblings are those of its two halves, in order. */
  lemma {:induction false} EntriesAllAppend(prefix: bytes, a: seq<Node>, b: seq<Node>, src: bytes)
    requires forall i | 0 <= i < |a + b| :: Traversable((a + b)[i], src)
    ensures forall i | 0 <= i < |a| :: Traversable(a[i], src)
    ensures forall i | 0 <= i < |b| :: Traversable(b[i], src)
    ensures EntriesAll(prefix, a + b, src) == EntriesAll(prefix, a, src) + EntriesAll(prefix, b, src)
    decreases |b|
  {
    assert forall i | 0 <= i < |a| :: a[i] == (a + b)[i];
    assert forall i | 0 <= i < |b| :: b[i] == (a + b)[|a| + i];
    if b == [] {
      assert a + b == a;
    } else {
      var b', x := b[..|b| - 1], b[|b| - 1];
      assert (a + b)[..|a + b| - 1] == a + b';
      assert (a + b)[|a + b| - 1] == x;
      EntriesAllAppend(prefix, a, b', src);
      var ea, eb, ex := EntriesAll(prefix, a, src), EntriesAll(prefix, b', src), Entries(prefix, x, src);
      calc {
        EntriesAll(prefix, a + b, src);
        ea + eb + ex;
        { EntriesAssoc(ea, eb, ex); }
        ea + (eb + ex);
        ea + EntriesAll(prefix, b, src);
      }
    }
  }

  /**
   * Regrouping three runs of writes. Associativity of `+` only; a separate lemma so the
   * traversal proofs need not ask the solver for it inline.
   */
  lemma EntriesAssoc(x: seq<Entry>, y: seq<Entry>, z: seq<Entry>)
    ensures x + y + z == x + (y + z)
  {
  }

  /** The entries for a list of named method declarations, in order. */
  function EntriesOf(prefix: bytes, xs: seq<Node>, src: bytes): (r: seq<Entry>)
    requires forall x | x in xs :: MethodNodeOk(x, src) && IsNamedMethod(x)
    ensures |r| == |xs|
    ensures forall i | 0 <= i < |xs| :: r[i] == MethodEntry(prefix, xs[i], src)
  {
    seq(|xs|, i requires 0 <= i < |xs| => MethodEntry(prefix, xs[i], src))
  }

  lemma {:induction false} EntriesOfAppend(prefix: bytes, a: seq<Node>, b: seq<Node>, src: bytes)
    requires forall x | x in a + b :: MethodNodeOk(x, src) && IsNamedMethod(x)
    ensures EntriesOf(prefix, a + b, src) == EntriesOf(prefix, a, src) + EntriesOf(prefix, b, src)
  {
    var l, r := EntriesOf(prefix, a + b, src), EntriesOf(prefix, a, src) + EntriesOf(prefix, b, src);
    assert |l| == |r|;
    forall i | 0 <= i < |l| ensures l[i] == r[i] {
      if i < |a| { assert (a + b)[i] == a[i]; } else { assert (a + b)[i] == b[i - |a|]; }
    }
  }

  /**
   * `traverse` writes exactly one entry for each named method declaration of the tree,
   * in pre-order (nested declarations included, each after the one that contains it):
   * key `construct_key(prefix, struct, name)`, value the declaration's full text.
   * Nodes of other kinds and unnamed methods write nothing.
   */
  lemma {:induction false} EntriesArePreOrder(prefix: bytes, n: Node, src: bytes)
    requires Traversable(n, src)
    ensures forall x | x in Select(PreOrder(n), IsNamedMethod) :: MethodNodeOk(x, src) && IsNamedMethod(x)
    ensures Entries(prefix, n, src) == EntriesOf(prefix, Select(PreOrder(n), IsNamedMethod), src)
    decreases n, 1
  {
    EverywhereIsPreOrder(n, src, MethodNodeOk);
    SelectMembers(PreOrder(n), IsNamedMethod);
    EntriesAllArePreOrder(prefix, n.children, src);
    var own, rest := Select([n], IsNamedMethod), Select(PreOrderAll(n.children), IsNamedMethod);
    SelectAppend([n], PreOrderAll(n.children), IsNamedMethod);
    assert Select(PreOrder(n), IsNamedMethod) == own + rest;
    OwnEntryIsSelected(prefix, n, src);
    EntriesOfAppend(prefix, own, rest, src);
  }

  lemma OwnEntryIsSelected(prefix: bytes, n: Node, src: bytes)
    requires MethodNodeOk(n, src)
    ensures forall x | x in Select([n], IsNamedMethod) :: MethodNodeOk(x, src) && IsNamedMethod(x)
    ensures EntriesOf(prefix, Select([n], IsNamedMethod), src) == OwnEntry(prefix, n, src)
  {
    SelectOne(IsNamedMethod, n);
  }

  lemma {:induction false} EntriesAllArePreOrder(prefix: bytes, cs: seq<Node>, src: bytes)
    requires forall i | 0 <= i < |cs| :: Traversable(cs[i], src)
    ensures forall x | x in Select(PreOrderAll(cs), IsNamedMethod) :: MethodNodeOk(x, src) && IsNamedMethod(x)
    ensures EntriesAll(prefix, cs, src) == EntriesOf(prefix, Select(PreOrderAll(cs), IsNamedMethod), src)
    decreases cs, 0
  {
    if cs != [] {
      var init, last := cs[..|cs| - 1], cs[|cs| - 1];
      EntriesAllArePreOrder(prefix, init, src);
      EntriesArePreOrder(prefix, last, src);
      SelectAppend(PreOrderAll(init), PreOrder(last), IsNamedMethod);
      EntriesOfAppend(prefix, Select(PreOrderAll(init), IsNamedMethod), Select(PreOrder(last), IsNamedMethod), src);
    }
  }

  // ---------------------------------------------------------------------------
  // The store after a walk: every write is an upsert, so the last write of a key wins.

  /** The store after the writes `es`, in order. */
  function Upsert(m: map<bytes, IndexData>, es: seq<Entry>): (r: map<bytes, IndexData>)
    ensures r.Keys == m.Keys + set e | e in es :: e.key
  {
    if es == [] then m
    else
      var last := es[|es| - 1];
      var r := Upsert(m, es[..|es| - 1])[last.key := IndexData(last.text)];
      assert forall e | e in es :: e in es[..|es| - 1] || e == last;
      r
  }

  lemma {:induction false} UpsertAppend(m: map<bytes, IndexData>, a: seq<Entry>, b: seq<Entry>)
    ensures Upsert(m, a + b) == Upsert(Upsert(m, a), b)
    decreases |b|
  {
    if b == [] {
      assert a + b == a;
    } else {
      assert (a + b)[..|a + b| - 1] == a + b[..|b| - 1];
      assert (a + b)[|a + b| - 1] == b[|b| - 1];
      UpsertAppend(m, a, b[..|b| - 1]);
    }
  }

  /** Last writer wins: a key ends up holding the text of its last write. */
  lemma {:induction false} UpsertLastWins(m: map<bytes, IndexData>, es: seq<Entry>, i: nat)
    requires i < |es|
    requires forall j | i < j < |es| :: es[j].key != es[i].key
    ensures es[i].key in Upsert(m, es) && Upsert(m, es)[es[i].key] == IndexData(es[i].text)
    decreases |es|
  {
    if i < |es| - 1 {
      UpsertLastWins(m, es[..|es| - 1], i);
    }
  }

  /** Some write of `es` is to key `k`. */
  predicate Writes(es: seq<Entry>, k: bytes) {
    exists j | 0 <= j < |es| :: es[j].key == k
  }

  /** A key that no write touches keeps its value, and is not added. */
  lemma {:induction false} UpsertUntouched(m: map<bytes, IndexData>, es: seq<Entry>, k: bytes)
    requires !Writes(es, k)
    ensures k in Upsert(m, es) <==> k in m
    ensures k in m ==> Upsert(m, es)[k] == m[k]
    decreases |es|
  {
    if es != [] {
      var init := es[..|es| - 1];
      assert !Writes(init, k) by {
        forall j | 0 <= j < |init| ensures init[j].key != k {
          assert init[j] == es[j];
        }
      }
      assert es[|es| - 1].key != k;
      UpsertUntouched(m, init, k);
    }
  }

  /** The store after `index(root, src)`, starting from `m`. */
  function IndexResult(m: map<bytes, IndexData>, root: Node, src: bytes): map<bytes, IndexData>
    requires PackageSearchOk(root, src) && Traversable(root, src)
  {
    Upsert(m, Entries(KeyPrefix(root, src), root, src))
  }

  /**
   * After indexing, a key holds the text of the last write of it in the walk (by
   * `EntriesArePreOrder`, the last named method declaration, in pre-order, whose key it is).
   */
  lemma IndexLastWins(m: map<bytes, IndexData>, root: Node, src: bytes, i: nat)
    requires PackageSearchOk(root, src) && Traversable(root, src)
    requires var es := Entries(KeyPrefix(root, src), root, src);
      i < |es| && forall j | i < j < |es| :: es[j].key != es[i].key
    ensures var e := Entries(KeyPrefix(root, src), root, src)[i];
      e.key in IndexResult(m, root, src) && IndexResult(m, root, src)[e.key] == IndexData(e.text)
  {
    UpsertLastWins(m, Entries(KeyPrefix(root, src), root, src), i);
  }

  /** After indexing, a key that no declaration of the tree produces is left as it was. */
  lemma IndexKeepsOtherKeys(m: map<bytes, IndexData>, root: Node, src: bytes, k: bytes)
    requires PackageSearchOk(root, src) && Traversable(root, src)
    requires !Writes(Entries(KeyPrefix(root, src), root, src), k)
    ensures k in IndexResult(m, root, src) <==> k in m
    ensures k in m ==> IndexResult(m, root, src)[k] == m[k]
  {
    UpsertUntouched(m, Entries(KeyPrefix(root, src), root, src), k);
  }

  /** One more child walked: its writes follow those of the children before it. */
  lemma UpsertNextChild(m: map<bytes, IndexData>, own: seq<Entry>, prefix: bytes, cs: seq<Node>, i: nat, src: bytes)
    requires i < |cs| && forall j | 0 <= j < |cs| :: Traversable(cs[j], src)
    ensures Upsert(Upsert(m, own + EntriesAll(prefix, cs[..i], src)), Entries(prefix, cs[i], src))
         == Upsert(m, own + EntriesAll(prefix, cs[..i + 1], src))
  {
    assert cs[..i + 1][..i] == cs[..i];
    UpsertAppend(m, own + EntriesAll(prefix, cs[..i], src), Entries(prefix, cs[i], src));
    assert own + EntriesAll(prefix, cs[..i], src) + Entries(prefix, cs[i], src)
        == own + EntriesAll(prefix, cs[..i + 1], src);
  }

  class GoIndexer {
    /** The shared store (the source holds it behind `Arc<Mutex<_>>`). */
    const store: InMemoryIndexStore

    /** `new` */
    constructor (store: InMemoryIndexStore)
      ensures this.store == store
    {
      this.store := store;
    }

    /**
     * `traverse`: at a named method declaration, store the declaration's text under
     * `construct_key(prefix, struct, name)`; then walk every child, in order.
     */
    method Traverse(prefix: bytes, node: Node, src: bytes)
      requires Traversable(node, src)
      modifies store
      ensures store.inner == Upsert(old(store.inner), Entries(prefix, node, src))
      decreases node
    {
      if node.kind == MethodDeclaration {
        var text := NodeText(node, src);
        var methodName := MethodName(node, src);
        var structName := StructName(node, src);
        if methodName.Some? {
          var key := ConstructKey(prefix, structName, methodName.value);
          store.Set(key, IndexData(text));
        }
      }
      ghost var own := OwnEntry(prefix, node, src);
      assert store.inner == Upsert(old(store.inner), own) by {
        if own != [] { assert own[..0] == []; }
      }
      for i := 0 to |node.children|
        invariant store.inner == Upsert(old(store.inner), own + EntriesAll(prefix, node.children[..i], src))
      {
        Traverse(prefix, node.children[i], src);
        UpsertNextChild(old(store.inner), own, prefix, node.children, i, src);
      }
      assert node.children[..|node.children|] == node.children;
    }

    /** `index`: find the package name (empty if none), then traverse the whole tree. */
    method Index(root: Node, src: bytes)
      requires PackageSearchOk(root, src) && Traversable(root, src)
      modifies store
      ensures store.inner == IndexResult(old(store.inner), root, src)
    {
      var packageName := PackageName(root, src);
      var prefix := if packageName.Some? then packageName.value else [];
      Traverse(prefix, root, src);
    }
  }
}
