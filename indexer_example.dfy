/**
 * A worked example: the file `package demo\nfunc (t T) Hi() {}\n` as tree-sitter-go
 * parses it, indexed into an empty store.
 */
module IndexerExample {
  import opened Wrappers
  import opened Text
  import opened Syntax
  import opened Memory
  import opened Indexer

  /** The file's bytes, written token by token: `package demo`, a newline, `func (t T) Hi() {}`, a newline. */
  function DemoSource(): (r: bytes)
    ensures |r| == 32
  {
    Ascii("package ") + Ascii("demo") + [LF] + Ascii("func ") + Ascii("(t T)") + Ascii(" ")
      + Ascii("Hi") + Ascii("() {}") + [LF]
  }

  /** The byte ranges the tree refers to hold the expected tokens. */
  lemma DemoSlices()
    ensures DemoSource()[0..12] == Ascii("package ") + Ascii("demo")
    ensures DemoSource()[8..12] == Ascii("demo")
    ensures DemoSource()[18..23] == Ascii("(t T)")
    ensures DemoSource()[24..26] == Ascii("Hi")
    ensures DemoSource()[13..31] == Ascii("func ") + Ascii("(t T)") + Ascii(" ") + Ascii("Hi") + Ascii("() {}")
  {
    var s := DemoSource();
    var a, b := Ascii("package "), Ascii("demo");
    var c, d, e, f, g := Ascii("func "), Ascii("(t T)"), Ascii(" "), Ascii("Hi"), Ascii("() {}");
    assert s == a + b + [LF] + c + d + e + f + g + [LF];
    var decl := c + d + e + f + g;
    assert s == (a + b + [LF]) + decl + [LF];
    assert |a + b + [LF]| == 13;
  }

  function Leaf(kind: string, field: Option<string>, start: nat, end: nat): Node {
    Node(kind, field, start, end, [])
  }

  function DemoClause(): Node {
    Node("package_clause", None, 0, 12, [
      Leaf("package", None, 0, 7),
      Leaf("package_identifier", None, 8, 12)])
  }

  function DemoReceiver(): Node {
    Node("parameter_list", Some("receiver"), 18, 23, [
      Leaf("(", None, 18, 19),
      Node("parameter_declaration", None, 19, 22, [
        Leaf("identifier", Some("name"), 19, 20),
        Leaf("type_identifier", Some("type"), 21, 22)]),
      Leaf(")", None, 22, 23)])
  }

  function DemoMethod(): Node {
    Node("method_declaration", None, 13, 31, [
      Leaf("func", None, 13, 17),
      DemoReceiver(),
      Leaf("field_identifier", Some("name"), 24, 26),
      Node("parameter_list", Some("parameters"), 26, 28, [Leaf("(", None, 26, 27), Leaf(")", None, 27, 28)]),
      Node("block", Some("body"), 29, 31, [Leaf("{", None, 29, 30), Leaf("}", None, 30, 31)])])
  }

  /** The tree tree-sitter-go builds for the file (anonymous tokens included). */
  function DemoTree(): Node {
    Node("source_file", None, 0, 32, [DemoClause(), Leaf("\n", None, 12, 13), DemoMethod(), Leaf("\n", None, 31, 32)])
  }

  /** Every slice of an ASCII buffer is decodable. */
  lemma AsciiSliceOk(src: bytes, i: nat, j: nat)
    requires AllAsciiBytes(src) && i <= j <= |src|
    ensures ValidUtf8(src[i..j])
  {
    assert AllAsciiBytes(src[i..j]) by {
      forall k | 0 <= k < j - i ensures src[i..j][k] < 0x80 {
        assert src[i..j][k] == src[i + k];
      }
    }
    AsciiIsUtf8(src[i..j]);
  }

  /** The file is ASCII, so every range of it decodes. */
  lemma DemoDecodable(i: nat, j: nat)
    requires i <= j <= 32
    ensures ValidUtf8(DemoSource()[i..j])
  {
    var s := DemoSource();
    assert AllAsciiBytes(s) by {
      var a, b := Ascii("package "), Ascii("demo");
      var c, d, e, f, g := Ascii("func "), Ascii("(t T)"), Ascii(" "), Ascii("Hi"), Ascii("() {}");
      assert s == a + b + [LF] + c + d + e + f + g + [LF];
    }
    AsciiSliceOk(s, i, j);
  }

  /** The package clause names the package `demo`. */
  lemma DemoClauseName()
    ensures TextOk(DemoClause(), DemoSource())
    ensures ClauseName(DemoClause(), DemoSource()) == Some(Ascii("demo"))
  {
    var src, b := DemoSource(), Ascii("demo");
    DemoSlices();
    DemoDecodable(0, 12);
    GraphicEndsAreNotSpace(b);
    TrimmedIsFixed(b);
    ClauseNameIs(DemoClause(), src, b);
  }

  /** The package search finds `demo` in the first top-level clause. */
  lemma DemoPackage()
    ensures PackageSearchOk(DemoTree(), DemoSource())
    ensures PackageName(DemoTree(), DemoSource()) == Some(Ascii("demo"))
  {
    var src := DemoSource();
    DemoClauseName();
    var cs := DemoTree().children;
    assert PackageSearchOk(cs[0], src) && PackageName(cs[0], src) == Some(Ascii("demo"));
    assert PackageSearchOkIn(cs, src);
  }

  /** The method's name is `Hi` and its first parameter list, the receiver, reads `(t T)`. */
  lemma DemoMethodOk()
    ensures MethodNodeOk(DemoMethod(), DemoSource())
    ensures MethodName(DemoMethod(), DemoSource()) == Some(Ascii("Hi"))
    ensures StructName(DemoMethod(), DemoSource()) == Some(Ascii("(t T)"))
  {
    var src, m := DemoSource(), DemoMethod();
    DemoSlices();
    DemoDecodable(13, 31);
    DemoDecodable(18, 23);
    DemoDecodable(24, 26);
    assert FirstWhere(m.children, IsNameChild) == Some(2);
    assert FirstWhere(m.children, IsParameterList) == Some(1);
  }

  /** No node of the tree is a method declaration. */
  predicate NoMethods(n: Node)
    decreases n
  {
    !IsMethodDeclaration(n) && forall i | 0 <= i < |n.children| :: NoMethods(n.children[i])
  }

  /** A tree without method declarations can be walked and writes nothing. */
  lemma {:induction false} NoMethodsNoEntries(prefix: bytes, n: Node, src: bytes)
    requires NoMethods(n)
    ensures Traversable(n, src) && Entries(prefix, n, src) == []
    decreases n, 1
  {
    NoMethodsNoEntriesAll(prefix, n.children, src);
  }

  lemma {:induction false} NoMethodsNoEntriesAll(prefix: bytes, cs: seq<Node>, src: bytes)
    requires forall i | 0 <= i < |cs| :: NoMethods(cs[i])
    ensures forall i | 0 <= i < |cs| :: Traversable(cs[i], src)
    ensures EntriesAll(prefix, cs, src) == []
    decreases cs, 0
  {
    forall i | 0 <= i < |cs| ensures Traversable(cs[i], src) {
      NoMethodsNoEntries(prefix, cs[i], src);
    }
    if cs != [] {
      NoMethodsNoEntriesAll(prefix, cs[..|cs| - 1], src);
      NoMethodsNoEntries(prefix, cs[|cs| - 1], src);
    }
  }

  /** A node that is no method declaration, whose children are leaves that are not either. */
  lemma FlatNoMethods(n: Node)
    requires !IsMethodDeclaration(n)
    requires forall i | 0 <= i < |n.children| :: n.children[i].children == [] && !IsMethodDeclaration(n.children[i])
    ensures NoMethods(n)
  {
    forall i | 0 <= i < |n.children| ensures NoMethods(n.children[i]) {
    }
  }

  /** The top-level nodes other than the method hold no method declaration. */
  lemma DemoTopParts()
    ensures |DemoTree().children| == 4 && DemoTree().children[2] == DemoMethod()
    ensures forall i | 0 <= i < 4 && i != 2 :: NoMethods(DemoTree().children[i])
  {
    var t := DemoTree();
    FlatNoMethods(DemoClause());
    FlatNoMethods(t.children[1]);
    FlatNoMethods(t.children[3]);
    forall i | 0 <= i < 4 && i != 2 ensures NoMethods(t.children[i]) {
      if i == 0 {} else if i == 1 {} else {}
    }
  }

  /** No subtree of the method is a method declaration. */
  lemma DemoMethodParts()
    ensures forall i | 0 <= i < 5 :: NoMethods(DemoMethod().children[i])
  {
    var m, r := DemoMethod(), DemoReceiver();
    FlatNoMethods(r.children[0]);
    FlatNoMethods(r.children[1]);
    FlatNoMethods(r.children[2]);
    assert NoMethods(r) by {
      forall i | 0 <= i < 3 ensures NoMethods(r.children[i]) {
        if i == 0 {} else if i == 1 {} else {}
      }
    }
    FlatNoMethods(m.children[0]);
    FlatNoMethods(m.children[2]);
    FlatNoMethods(m.children[3]);
    FlatNoMethods(m.children[4]);
    assert m.children[1] == r;
    forall i | 0 <= i < 5 ensures NoMethods(m.children[i]) {
      if i == 0 {} else if i == 1 {} else if i == 2 {} else if i == 3 {} else {}
    }
  }

  /** A method declaration whose subtrees hold no further method declarations writes only its own entry. */
  lemma LoneMethod(prefix: bytes, m: Node, src: bytes)
    requires MethodNodeOk(m, src) && IsNamedMethod(m)
    requires forall i | 0 <= i < |m.children| :: NoMethods(m.children[i])
    ensures Traversable(m, src) && Entries(prefix, m, src) == [MethodEntry(prefix, m, src)]
  {
    NoMethodsNoEntriesAll(prefix, m.children, src);
  }

  /** A root none of whose subtrees but one holds a method declaration writes what that one writes. */
  lemma OneMethodSubtree(prefix: bytes, t: Node, k: nat, src: bytes)
    requires !IsMethodDeclaration(t) && k < |t.children| && Traversable(t.children[k], src)
    requires forall i | 0 <= i < |t.children| && i != k :: NoMethods(t.children[i])
    ensures Traversable(t, src) && Entries(prefix, t, src) == Entries(prefix, t.children[k], src)
  {
    var cs := t.children;
    forall i | 0 <= i < |cs| ensures Traversable(cs[i], src) {
      if i != k { NoMethodsNoEntries(prefix, cs[i], src); }
    }
    NoMethodsNoEntriesAll(prefix, cs[..k], src);
    NoMethodsNoEntriesAll(prefix, cs[k + 1..], src);
    EntriesAllAppend(prefix, cs[..k], [cs[k]] + cs[k + 1..], src);
    EntriesAllAppend(prefix, [cs[k]], cs[k + 1..], src);
    assert cs == cs[..k] + ([cs[k]] + cs[k + 1..]);
    assert [cs[k]][..0] == [];
  }

  /** The method declaration writes one entry: its key and its text. */
  lemma DemoMethodEntries(prefix: bytes)
    ensures Traversable(DemoMethod(), DemoSource())
    ensures Entries(prefix, DemoMethod(), DemoSource())
         == [Entry(ConstructKey(prefix, Some(Ascii("(t T)")), Ascii("Hi")), DemoSource()[13..31])]
  {
    var src, m := DemoSource(), DemoMethod();
    DemoMethodParts();
    DemoMethodOk();
    LoneMethod(prefix, m, src);
    assert NodeText(m, src) == src[13..31];
  }

  /** The only write the walk makes is the one for `Hi`. */
  lemma DemoEntries(prefix: bytes)
    ensures Traversable(DemoTree(), DemoSource())
    ensures Entries(prefix, DemoTree(), DemoSource())
         == [Entry(ConstructKey(prefix, Some(Ascii("(t T)")), Ascii("Hi")), DemoSource()[13..31])]
  {
    DemoTopParts();
    DemoMethodEntries(prefix);
    OneMethodSubtree(prefix, DemoTree(), 2, DemoSource());
  }

  /** Indexing into an empty store a tree with a package name and a single write. */
  lemma IndexOneEntry(root: Node, src: bytes, e: Entry)
    requires PackageSearchOk(root, src) && Traversable(root, src)
    requires Entries(KeyPrefix(root, src), root, src) == [e]
    ensures IndexResult(map[], root, src) == map[e.key := IndexData(e.text)]
  {
    assert [e][..0] == [];
  }

  /**
   * Indexing the file into an empty store leaves exactly one symbol, `demo::(t T)::Hi`,
   * holding the declaration's text `func (t T) Hi() {}`: the middle segment is the
   * receiver's verbatim text, so the key `demo::T::Hi` is not stored.
   */
  lemma DemoIndex()
    ensures PackageSearchOk(DemoTree(), DemoSource()) && Traversable(DemoTree(), DemoSource())
    ensures IndexResult(map[], DemoTree(), DemoSource())
         == map[Ascii("demo") + Separator() + Ascii("(t T)") + Separator() + Ascii("Hi")
              := IndexData(Ascii("func ") + Ascii("(t T)") + Ascii(" ") + Ascii("Hi") + Ascii("() {}"))]
    ensures Ascii("demo") + Separator() + Ascii("T") + Separator() + Ascii("Hi")
        !in IndexResult(map[], DemoTree(), DemoSource())
  {
    var src := DemoSource();
    var prefix := Ascii("demo");
    DemoPackage();
    DemoEntries(prefix);
    DemoSlices();
    var e := Entry(ConstructKey(prefix, Some(Ascii("(t T)")), Ascii("Hi")), src[13..31]);
    IndexOneEntry(DemoTree(), src, e);
  }
}
