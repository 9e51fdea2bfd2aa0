/**
 * The parsed markup tree and the order in which the extraction walk of
 * processHTMLContent collects translatable text nodes.
 *
 * The tree is an arena in pre-order: the subtree of node i occupies the index
 * range [i, End(i)), where End(i) = i + size. The first child of i is i + 1
 * (when i + 1 < End(i)) and the next sibling of a child c is End(c) (when it
 * is still below the parent's End). Node 0 is the document root and spans the
 * whole arena. Node references are indices into the arena.
 */
module Markup {
  import opened GoStrings

  /** The node kinds of the HTML parser. */
  datatype NodeType = ErrorNode | TextNode | DocumentNode | ElementNode | CommentNode | DoctypeNode | RawNode

  /** For an element `data` is the tag name, for a text node its text. */
  datatype Node = Node(kind: NodeType, data: string, size: nat)

  /** Subtree extents nest: each lies inside the extent of every node that contains its start. */
  ghost predicate ValidTree(t: seq<Node>) {
    |t| > 0 && t[0].size == |t|
    && (forall i :: 0 <= i < |t| ==> 1 <= t[i].size && i + t[i].size <= |t|)
    && (forall i, j :: 0 <= i < j < |t| && j < i + t[i].size ==> j + t[j].size <= i + t[i].size)
  }

  /** One past the last index of the subtree of node i. */
  function End(t: seq<Node>, i: nat): nat
    requires i < |t|
  {
    i + t[i].size
  }

  predicate IsParagraph(n: Node) {
    n.kind == ElementNode && n.data == "p"
  }

  /** A text node that TrimSpace does not reduce to nothing. */
  predicate IsTranslatable(n: Node) {
    n.kind == TextNode && !IsBlank(n.data)
  }

  /** The parent of node x: the innermost node whose subtree strictly contains x. */
  function Parent(t: seq<Node>, x: nat): (p: nat)
    requires ValidTree(t) && 0 < x < |t|
    ensures p < x < End(t, p)
    ensures forall r :: p < r < x ==> End(t, r) <= x
  {
    ParentSearch(t, x, x - 1)
  }

  /** Searches downwards from q for the nearest node whose subtree contains x. */
  function ParentSearch(t: seq<Node>, x: nat, q: nat): (p: nat)
    requires ValidTree(t) && 0 < x < |t| && q < x
    requires forall r :: q < r < x ==> End(t, r) <= x
    ensures p <= q && p < x < End(t, p)
    ensures forall r :: p < r < x ==> End(t, r) <= x
    decreases q
  {
    if x < End(t, q) then q else ParentSearch(t, x, q - 1)
  }

  /**
   * c is where a child of p starts (or End(p)): every node strictly between p
   * and c has its subtree closed before c.
   */
  ghost predicate ChildPosition(t: seq<Node>, p: nat, c: nat) {
    ValidTree(t) && p < |t| && p < c <= End(t, p)
    && forall r :: p < r < c ==> End(t, r) <= c
  }

  /** The translatable text children of p, from the child at c on. */
  function DirectTexts(t: seq<Node>, p: nat, c: nat): seq<nat>
    requires ValidTree(t) && p < |t| && p < c <= End(t, p)
    decreases End(t, p) - c
  {
    if c == End(t, p) then []
    else (if IsTranslatable(t[c]) then [c] else []) + DirectTexts(t, p, End(t, c))
  }

  /**
   * The nodes the walk collects from the subtree of n: a paragraph first
   * contributes its own translatable text children, then each child's subtree
   * is walked in turn.
   */
  function Collect(t: seq<Node>, n: nat): seq<nat>
    requires ValidTree(t) && n < |t|
    decreases t[n].size, 0
  {
    (if IsParagraph(t[n]) then DirectTexts(t, n, n + 1) else []) + CollectFrom(t, n, n + 1)
  }

  /** The walk over the children of p, from the child at c on. */
  function CollectFrom(t: seq<Node>, p: nat, c: nat): seq<nat>
    requires ValidTree(t) && p < |t| && p < c <= End(t, p)
    decreases End(t, p) - c, 1
  {
    if c == End(t, p) then [] else Collect(t, c) + CollectFrom(t, p, End(t, c))
  }

  /** A node at a child position of p has parent p. */
  lemma ChildPositionParent(t: seq<Node>, p: nat, c: nat)
    requires ChildPosition(t, p, c) && c < End(t, p)
    ensures Parent(t, c) == p
  {
    var q := Parent(t, c);
    assert !(p < q < c);
  }

  /** A node strictly inside the subtree of c has its parent at c or below it. */
  lemma ParentInside(t: seq<Node>, c: nat, x: nat)
    requires ValidTree(t) && c < x < |t| && x < End(t, c)
    ensures c <= Parent(t, x)
  {
  }

  /** x is among the text children collected from c on exactly when it is a translatable child of p there. */
  lemma {:induction false} DirectTextsExact(t: seq<Node>, p: nat, c: nat, x: nat)
    requires ChildPosition(t, p, c)
    ensures x in DirectTexts(t, p, c) <==>
      c <= x < End(t, p) && Parent(t, x) == p && IsTranslatable(t[x])
    decreases End(t, p) - c
  {
    if c < End(t, p) {
      var next := End(t, c);
      assert ChildPosition(t, p, next);
      DirectTextsExact(t, p, next, x);
      ChildPositionParent(t, p, c);
      var own := if IsTranslatable(t[c]) then [c] else [];
      assert DirectTexts(t, p, c) == own + DirectTexts(t, p, next);
      assert x in own <==> x == c && IsTranslatable(t[c]);
      if c < x < next {
        ParentInside(t, c, x);
      }
    }
  }

  /** The walk of a subtree collects exactly its translatable texts whose parent is a paragraph. */
  lemma {:induction false} CollectExact(t: seq<Node>, n: nat, x: nat)
    requires ValidTree(t) && n < |t|
    ensures x in Collect(t, n) <==>
      n < x < End(t, n) && IsTranslatable(t[x]) && IsParagraph(t[Parent(t, x)])
    decreases t[n].size, 0
  {
    assert ChildPosition(t, n, n + 1);
    DirectTextsExact(t, n, n + 1, x);
    CollectFromExact(t, n, n + 1, x);
    if n < x < End(t, n) {
      ParentInside(t, n, x);
    }
  }

  /** The walk over the children of p from c on collects exactly the deeper such texts. */
  lemma {:induction false} CollectFromExact(t: seq<Node>, p: nat, c: nat, x: nat)
    requires ChildPosition(t, p, c)
    ensures x in CollectFrom(t, p, c) <==>
      c <= x < End(t, p) && p < Parent(t, x) && IsTranslatable(t[x]) && IsParagraph(t[Parent(t, x)])
    decreases End(t, p) - c, 1
  {
    if c < End(t, p) {
      var next := End(t, c);
      assert ChildPosition(t, p, next);
      CollectExact(t, c, x);
      CollectFromExact(t, p, next, x);
      ChildPositionParent(t, p, c);
      if c < x < next {
        ParentInside(t, c, x);
      }
    }
  }

  predicate Distinct(s: seq<nat>) {
    forall i, j :: 0 <= i < j < |s| ==> s[i] != s[j]
  }

  lemma DistinctConcat(a: seq<nat>, b: seq<nat>)
    requires Distinct(a) && Distinct(b)
    requires forall x :: x in a ==> x !in b
    ensures Distinct(a + b)
  {
    forall i, j | 0 <= i < j < |a + b| ensures (a + b)[i] != (a + b)[j] {
      if i < |a| && j >= |a| {
        assert (a + b)[i] in a && (a + b)[j] in b;
      }
    }
  }

  lemma {:induction false} DirectTextsDistinct(t: seq<Node>, p: nat, c: nat)
    requires ChildPosition(t, p, c)
    ensures Distinct(DirectTexts(t, p, c))
    decreases End(t, p) - c
  {
    if c < End(t, p) {
      var next := End(t, c);
      assert ChildPosition(t, p, next);
      DirectTextsDistinct(t, p, next);
      DirectTextsExact(t, p, next, c);
      DistinctConcat(if IsTranslatable(t[c]) then [c] else [], DirectTexts(t, p, next));
    }
  }

  /** The walk never collects a node twice. */
  lemma {:induction false} CollectDistinct(t: seq<Node>, n: nat)
    requires ValidTree(t) && n < |t|
    ensures Distinct(Collect(t, n))
    decreases t[n].size, 0
  {
    assert ChildPosition(t, n, n + 1);
    var direct := if IsParagraph(t[n]) then DirectTexts(t, n, n + 1) else [];
    DirectTextsDistinct(t, n, n + 1);
    CollectFromDistinct(t, n, n + 1);
    forall x | x in direct ensures x !in CollectFrom(t, n, n + 1) {
      DirectTextsExact(t, n, n + 1, x);
      CollectFromExact(t, n, n + 1, x);
    }
    DistinctConcat(direct, CollectFrom(t, n, n + 1));
  }

  lemma {:induction false} CollectFromDistinct(t: seq<Node>, p: nat, c: nat)
    requires ChildPosition(t, p, c)
    ensures Distinct(CollectFrom(t, p, c))
    decreases End(t, p) - c, 1
  {
    if c < End(t, p) {
      var next := End(t, c);
      assert ChildPosition(t, p, next);
      CollectDistinct(t, c);
      CollectFromDistinct(t, p, next);
      forall x | x in Collect(t, c) ensures x !in CollectFrom(t, p, next) {
        CollectExact(t, c, x);
        CollectFromExact(t, p, next, x);
      }
      DistinctConcat(Collect(t, c), CollectFrom(t, p, next));
    }
  }

  /**
   * x comes before y in walk order: both are nodes below the root, and x's
   * parent is earlier, or they share a parent and x is earlier.
   */
  ghost predicate Before(t: seq<Node>, x: nat, y: nat) {
    && ValidTree(t) && 0 < x < |t| && 0 < y < |t|
    && (Parent(t, x) < Parent(t, y) || (Parent(t, x) == Parent(t, y) && x < y))
  }

  /** The nodes of s are listed by parent, and by position among nodes with the same parent. */
  ghost predicate WalkOrdered(t: seq<Node>, s: seq<nat>) {
    forall i, j :: 0 <= i < j < |s| ==> Before(t, s[i], s[j])
  }

  lemma OrderedConcat(t: seq<Node>, a: seq<nat>, b: seq<nat>)
    requires WalkOrdered(t, a) && WalkOrdered(t, b)
    requires forall x, y :: x in a && y in b ==> Before(t, x, y)
    ensures WalkOrdered(t, a + b)
  {
    forall i, j | 0 <= i < j < |a + b|
      ensures Before(t, (a + b)[i], (a + b)[j])
    {
      if j < |a| {
        assert (a + b)[i] == a[i] && (a + b)[j] == a[j];
      } else if i >= |a| {
        assert (a + b)[i] == b[i - |a|] && (a + b)[j] == b[j - |a|];
      } else {
        assert (a + b)[i] in a && (a + b)[j] in b;
      }
    }
  }

  /** The text children of p are listed in sibling order. */
  lemma {:induction false} DirectTextsOrdered(t: seq<Node>, p: nat, c: nat)
    requires ChildPosition(t, p, c)
    ensures WalkOrdered(t, DirectTexts(t, p, c))
    decreases End(t, p) - c
  {
    if c < End(t, p) {
      var next := End(t, c);
      assert ChildPosition(t, p, next);
      DirectTextsOrdered(t, p, next);
      DirectTextsStep(t, p, c);
    }
  }

  lemma DirectTextsStep(t: seq<Node>, p: nat, c: nat)
    requires ChildPosition(t, p, c) && c < End(t, p)
    requires WalkOrdered(t, DirectTexts(t, p, End(t, c)))
    ensures WalkOrdered(t, DirectTexts(t, p, c))
  {
    var rest := DirectTexts(t, p, End(t, c));
    var own := if IsTranslatable(t[c]) then [c] else [];
    forall x, y | x in own && y in rest
      ensures Before(t, x, y)
    {
      SiblingBefore(t, p, c, y);
    }
    OrderedConcat(t, own, rest);
    assert DirectTexts(t, p, c) == own + rest;
  }

  lemma SiblingBefore(t: seq<Node>, p: nat, c: nat, y: nat)
    requires ChildPosition(t, p, c) && c < End(t, p)
    requires y in DirectTexts(t, p, End(t, c))
    ensures Before(t, c, y)
  {
    assert ChildPosition(t, p, End(t, c));
    ChildPositionParent(t, p, c);
    DirectTextsExact(t, p, End(t, c), y);
  }

  /**
   * The order of the walk: nodes with an earlier parent come first, and the
   * children of one paragraph come in sibling order. With CollectCharacterised
   * this determines Collect(t, 0) entirely.
   */
  lemma {:induction false} CollectOrdered(t: seq<Node>, n: nat)
    requires ValidTree(t) && n < |t|
    ensures WalkOrdered(t, Collect(t, n))
    decreases t[n].size, 0
  {
    assert ChildPosition(t, n, n + 1);
    CollectFromOrdered(t, n, n + 1);
    if IsParagraph(t[n]) {
      DirectTextsOrdered(t, n, n + 1);
      forall x, y | x in DirectTexts(t, n, n + 1) && y in CollectFrom(t, n, n + 1)
        ensures Before(t, x, y)
      {
        OwnBeforeDeeper(t, n, x, y);
      }
      OrderedConcat(t, DirectTexts(t, n, n + 1), CollectFrom(t, n, n + 1));
    } else {
      assert Collect(t, n) == CollectFrom(t, n, n + 1);
    }
  }

  lemma OwnBeforeDeeper(t: seq<Node>, n: nat, x: nat, y: nat)
    requires ChildPosition(t, n, n + 1)
    requires x in DirectTexts(t, n, n + 1) && y in CollectFrom(t, n, n + 1)
    ensures Before(t, x, y)
  {
    DirectTextsExact(t, n, n + 1, x);
    CollectFromExact(t, n, n + 1, y);
  }

  lemma {:induction false} CollectFromOrdered(t: seq<Node>, p: nat, c: nat)
    requires ChildPosition(t, p, c)
    ensures WalkOrdered(t, CollectFrom(t, p, c))
    decreases End(t, p) - c, 1
  {
    if c < End(t, p) {
      var next := End(t, c);
      assert ChildPosition(t, p, next);
      CollectOrdered(t, c);
      CollectFromOrdered(t, p, next);
      forall x, y | x in Collect(t, c) && y in CollectFrom(t, p, next)
        ensures Before(t, x, y)
      {
        ChildBeforeLater(t, p, c, x, y);
      }
      OrderedConcat(t, Collect(t, c), CollectFrom(t, p, next));
    }
  }

  lemma ChildBeforeLater(t: seq<Node>, p: nat, c: nat, x: nat, y: nat)
    requires ChildPosition(t, p, c) && c < End(t, p)
    requires x in Collect(t, c) && y in CollectFrom(t, p, End(t, c))
    ensures Before(t, x, y)
  {
    assert ChildPosition(t, p, End(t, c));
    CollectExact(t, c, x);
    CollectFromExact(t, p, End(t, c), y);
    ParentAfter(t, p, End(t, c), y);
  }

  /** A node past child position c of p whose parent lies below p has its parent at c or later. */
  lemma ParentAfter(t: seq<Node>, p: nat, c: nat, y: nat)
    requires ChildPosition(t, p, c) && 0 < y < |t| && c <= y && p < Parent(t, y)
    ensures c <= Parent(t, y)
  {
    var q := Parent(t, y);
    assert y < End(t, q);
  }

  /**
   * The fragments of a document: every text node that is a direct child of a
   * paragraph and not blank, each exactly once.
   */
  lemma CollectCharacterised(t: seq<Node>)
    requires ValidTree(t)
    ensures Distinct(Collect(t, 0))
    ensures forall x :: x in Collect(t, 0) <==>
      0 < x < |t| && IsTranslatable(t[x]) && IsParagraph(t[Parent(t, x)])
  {
    CollectDistinct(t, 0);
    forall x: nat ensures x in Collect(t, 0) <==>
      0 < x < |t| && IsTranslatable(t[x]) && IsParagraph(t[Parent(t, x)])
    {
      CollectExact(t, 0, x);
    }
  }

  /**
   * The walk of a paragraph lists all of its own text children before any
   * other node it collects: the texts of paragraphs nested inside it come
   * after them, wherever they stand in the document.
   */
  lemma OwnTextsFirst(t: seq<Node>, p: nat, i: nat, j: nat)
    requires ValidTree(t) && p < |t| && i < |Collect(t, p)| && j < |Collect(t, p)|
    requires Collect(t, p)[i] in DirectTexts(t, p, p + 1)
    requires Collect(t, p)[j] !in DirectTexts(t, p, p + 1)
    ensures IsParagraph(t[p]) && i < j
  {
    var d := DirectTexts(t, p, p + 1);
    var c := CollectFrom(t, p, p + 1);
    var x := Collect(t, p)[i];
    assert ChildPosition(t, p, p + 1);
    DirectTextsExact(t, p, p + 1, x);
    CollectFromExact(t, p, p + 1, x);
    assert Collect(t, p) == d + c && x !in c;
    assert IsParagraph(t[p]);
  }

  /**
   * The tree of <p><button><p>x</p></button>y</p> below a document root. The
   * <html>, <head> and <body> elements a parser adds around it are omitted:
   * they hold no text, so the walk collects the same nodes in the same order.
   * The inner <p> stays nested because <button> bounds button scope, and the
   * parser closes an open <p> only up to that bound.
   */
  function NestedParagraphs(x: string, y: string): seq<Node> {
    [Node(DocumentNode, "", 6), Node(ElementNode, "p", 5), Node(ElementNode, "button", 3),
     Node(ElementNode, "p", 2), Node(TextNode, x, 1), Node(TextNode, y, 1)]
  }

  lemma NestedParagraphsValid(x: string, y: string)
    ensures ValidTree(NestedParagraphs(x, y))
  {
    var t := NestedParagraphs(x, y);
    forall i, j | 0 <= i < j < |t| && j < i + t[i].size
      ensures j + t[j].size <= i + t[i].size
    {
      assert i < 4;
    }
  }

  /** The walk of the innermost <p>x</p> collects x. */
  lemma InnermostParagraphCollect(x: string, y: string)
    requires !IsBlank(x)
    ensures ValidTree(NestedParagraphs(x, y)) && Collect(NestedParagraphs(x, y), 3) == [4]
  {
    var t := NestedParagraphs(x, y);
    NestedParagraphsValid(x, y);
    assert IsTranslatable(t[4]);
    assert Collect(t, 4) == [] + CollectFrom(t, 4, 5) == [];
    assert DirectTexts(t, 3, 4) == [4] + DirectTexts(t, 3, 5) == [4];
    assert CollectFrom(t, 3, 4) == Collect(t, 4) + CollectFrom(t, 3, 5) == [];
  }

  /** The walk of the inner <button><p>x</p></button> collects x alone. */
  lemma InnerParagraphCollect(x: string, y: string)
    requires !IsBlank(x)
    ensures ValidTree(NestedParagraphs(x, y)) && Collect(NestedParagraphs(x, y), 2) == [4]
  {
    var t := NestedParagraphs(x, y);
    InnermostParagraphCollect(x, y);
    assert CollectFrom(t, 2, 3) == Collect(t, 3) + CollectFrom(t, 2, 5) == [4];
    assert Collect(t, 2) == [] + CollectFrom(t, 2, 3) == [4];
  }

  /** The outer paragraph's own text is y alone, and nothing is collected below y. */
  lemma OuterParagraphOwnText(x: string, y: string)
    requires !IsBlank(y)
    ensures ValidTree(NestedParagraphs(x, y))
    ensures DirectTexts(NestedParagraphs(x, y), 1, 2) == [5]
    ensures CollectFrom(NestedParagraphs(x, y), 1, 5) == []
  {
    var t := NestedParagraphs(x, y);
    NestedParagraphsValid(x, y);
    assert IsTranslatable(t[5]);
    assert Collect(t, 5) == [] + CollectFrom(t, 5, 6) == [];
    assert DirectTexts(t, 1, 5) == [5] + DirectTexts(t, 1, 6) == [5];
    assert CollectFrom(t, 1, 5) == Collect(t, 5) + CollectFrom(t, 1, 6) == [];
  }

  /**
   * The collection order is not document order: in
   * <p><button><p>x</p></button>y</p>, the outer paragraph's own text y
   * (node 5) is collected before the nested paragraph's x (node 4).
   */
  lemma OwnTextsBeforeNestedTexts(x: string, y: string)
    requires !IsBlank(x) && !IsBlank(y)
    ensures ValidTree(NestedParagraphs(x, y)) && Collect(NestedParagraphs(x, y), 0) == [5, 4]
  {
    var t := NestedParagraphs(x, y);
    InnerParagraphCollect(x, y);
    OuterParagraphOwnText(x, y);
    assert CollectFrom(t, 1, 2) == Collect(t, 2) + CollectFrom(t, 1, 5) == [4];
    assert Collect(t, 1) == DirectTexts(t, 1, 2) + CollectFrom(t, 1, 2) == [5, 4];
    assert CollectFrom(t, 0, 1) == Collect(t, 1) + CollectFrom(t, 0, 6) == [5, 4];
  }
}
