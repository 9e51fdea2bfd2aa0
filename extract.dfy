/**
 * The extraction walk of processHTMLContent: a recursive visit of the parsed
 * tree that appends, to two parallel lists, every translatable text child of
 * a paragraph and its trimmed text.
 */
module Extraction {
  import opened GoStrings
  import opened Markup

  /** The trimmed text of each listed node, in list order. */
  function TextsOf(t: seq<Node>, ns: seq<nat>): seq<string>
    requires forall i :: 0 <= i < |ns| ==> ns[i] < |t|
  {
    seq(|ns|, i requires 0 <= i < |ns| => TrimSpace(t[ns[i]].data))
  }

  /** The two lists stay index-aligned: texts[i] is the trimmed data of node textNodes[i]. */
  ghost predicate Aligned(t: seq<Node>, textNodes: seq<nat>, texts: seq<string>) {
    |textNodes| == |texts|
    && forall i :: 0 <= i < |textNodes| ==> textNodes[i] < |t| && texts[i] == TrimSpace(t[textNodes[i]].data)
  }

  /** The closure `f` of processHTMLContent, with the two captured lists threaded through. */
  method Walk(nodes: array<Node>, n: nat, textNodes: seq<nat>, texts: seq<string>)
    returns (textNodes': seq<nat>, texts': seq<string>)
    requires ValidTree(nodes[..]) && n < nodes.Length
    requires Aligned(nodes[..], textNodes, texts)
    ensures textNodes' == textNodes + Collect(nodes[..], n)
    ensures Aligned(nodes[..], textNodes', texts')
    decreases nodes[n].size, 1
  {
    ghost var t := nodes[..];
    ghost var direct := if IsParagraph(t[n]) then DirectTexts(t, n, n + 1) else [];
    textNodes', texts' := textNodes, texts;
    var node := nodes[n];
    if node.kind == ElementNode && node.data == "p" {
      textNodes', texts' := AppendDirectTexts(nodes, n, textNodes', texts');
    }
    assert textNodes' == textNodes + direct;
    textNodes', texts' := WalkChildren(nodes, n, textNodes', texts');
    CollectUnfold(t, n, textNodes);
  }

  /** The loop over a paragraph's children that appends its translatable text children. */
  method AppendDirectTexts(nodes: array<Node>, n: nat, textNodes: seq<nat>, texts: seq<string>)
    returns (textNodes': seq<nat>, texts': seq<string>)
    requires ValidTree(nodes[..]) && n < nodes.Length
    requires Aligned(nodes[..], textNodes, texts)
    ensures textNodes' == textNodes + DirectTexts(nodes[..], n, n + 1)
    ensures Aligned(nodes[..], textNodes', texts')
  {
    ghost var t := nodes[..];
    textNodes', texts' := textNodes, texts;
    var end := n + nodes[n].size;
    var c := n + 1;
    while c < end
      invariant n < c <= end
      invariant Aligned(t, textNodes', texts')
      invariant textNodes' + DirectTexts(t, n, c) == textNodes + DirectTexts(t, n, n + 1)
      decreases end - c
    {
      textNodes', texts' := VisitChild(nodes, n, c, textNodes', texts');
      c := c + nodes[c].size;
    }
  }

  /** One turn of the loop over a paragraph's children: the child at c is kept when translatable. */
  method VisitChild(nodes: array<Node>, n: nat, c: nat, textNodes: seq<nat>, texts: seq<string>)
    returns (textNodes': seq<nat>, texts': seq<string>)
    requires ValidTree(nodes[..]) && n < nodes.Length && n < c < End(nodes[..], n)
    requires Aligned(nodes[..], textNodes, texts)
    ensures c < End(nodes[..], c) <= End(nodes[..], n)
    ensures textNodes' + DirectTexts(nodes[..], n, End(nodes[..], c)) == textNodes + DirectTexts(nodes[..], n, c)
    ensures Aligned(nodes[..], textNodes', texts')
  {
    ghost var t := nodes[..];
    var child := nodes[c];
    textNodes', texts' := textNodes, texts;
    if IsTranslatable(child) {
      AlignedAppend(t, textNodes', texts', c);
      textNodes' := textNodes' + [c];
      texts' := texts' + [TrimSpace(child.data)];
    }
    DirectStep(t, n, c, textNodes, textNodes');
  }

  /** The loop of `f` that recurses into each child of n in turn. */
  method WalkChildren(nodes: array<Node>, n: nat, textNodes: seq<nat>, texts: seq<string>)
    returns (textNodes': seq<nat>, texts': seq<string>)
    requires ValidTree(nodes[..]) && n < nodes.Length
    requires Aligned(nodes[..], textNodes, texts)
    ensures textNodes' == textNodes + CollectFrom(nodes[..], n, n + 1)
    ensures Aligned(nodes[..], textNodes', texts')
    decreases nodes[n].size, 0
  {
    ghost var t := nodes[..];
    textNodes', texts' := textNodes, texts;
    var end := n + nodes[n].size;
    var c := n + 1;
    while c < end
      invariant n < c <= end
      invariant Aligned(t, textNodes', texts')
      invariant textNodes' + CollectFrom(t, n, c) == textNodes + CollectFrom(t, n, n + 1)
      decreases end - c
    {
      ChildStep(t, n, c);
      var next := c + nodes[c].size;
      ghost var before := textNodes';
      textNodes', texts' := Walk(nodes, c, textNodes', texts');
      WalkStep(t, n, c, before, textNodes');
      c := next;
    }
  }

  /** One step along the children of n: the child at c and where its next sibling starts. */
  lemma ChildStep(t: seq<Node>, n: nat, c: nat)
    requires ValidTree(t) && n < |t| && n < c < End(t, n)
    ensures c < End(t, c) <= End(t, n) && t[c].size < t[n].size
    ensures DirectTexts(t, n, c) == (if IsTranslatable(t[c]) then [c] else []) + DirectTexts(t, n, End(t, c))
    ensures CollectFrom(t, n, c) == Collect(t, c) + CollectFrom(t, n, End(t, c))
  {
  }

  /** The children loop's invariant survives the walk of the child at c. */
  lemma WalkStep(t: seq<Node>, n: nat, c: nat, acc: seq<nat>, acc': seq<nat>)
    requires ValidTree(t) && n < |t| && n < c < End(t, n)
    requires acc' == acc + Collect(t, c)
    ensures acc' + CollectFrom(t, n, End(t, c)) == acc + CollectFrom(t, n, c)
  {
    ChildStep(t, n, c);
    AppendAssoc(acc, Collect(t, c), CollectFrom(t, n, End(t, c)));
  }

  /** Collect(t, n) is the paragraph's own texts followed by the walk over its children. */
  lemma CollectUnfold(t: seq<Node>, n: nat, acc: seq<nat>)
    requires ValidTree(t) && n < |t|
    ensures acc + (if IsParagraph(t[n]) then DirectTexts(t, n, n + 1) else []) + CollectFrom(t, n, n + 1)
      == acc + Collect(t, n)
  {
    var direct := if IsParagraph(t[n]) then DirectTexts(t, n, n + 1) else [];
    var children := CollectFrom(t, n, n + 1);
    assert Collect(t, n) == direct + children;
    AppendAssoc(acc, direct, children);
  }

  lemma AppendAssoc(a: seq<nat>, b: seq<nat>, c: seq<nat>)
    ensures a + b + c == a + (b + c)
  {
  }

  /** The direct-text loop's invariant survives one step over the child at c. */
  lemma DirectStep(t: seq<Node>, n: nat, c: nat, acc: seq<nat>, acc': seq<nat>)
    requires ValidTree(t) && n < |t| && n < c < End(t, n)
    requires acc' == if IsTranslatable(t[c]) then acc + [c] else acc
    ensures c < End(t, c) <= End(t, n)
    ensures acc' + DirectTexts(t, n, End(t, c)) == acc + DirectTexts(t, n, c)
  {
    ChildStep(t, n, c);
    if IsTranslatable(t[c]) {
      AppendAssoc(acc, [c], DirectTexts(t, n, End(t, c)));
    }
  }

  lemma AlignedAppend(t: seq<Node>, textNodes: seq<nat>, texts: seq<string>, c: nat)
    requires Aligned(t, textNodes, texts) && c < |t|
    ensures Aligned(t, textNodes + [c], texts + [TrimSpace(t[c].data)])
  {
    var ns, ts := textNodes + [c], texts + [TrimSpace(t[c].data)];
    forall i | 0 <= i < |ns| ensures ns[i] < |t| && ts[i] == TrimSpace(t[ns[i]].data) {
      if i < |textNodes| {
        assert ns[i] == textNodes[i] && ts[i] == texts[i];
      }
    }
  }

  /** Runs the walk from the document root. */
  method ExtractFragments(nodes: array<Node>) returns (textNodes: seq<nat>, texts: seq<string>)
    requires ValidTree(nodes[..])
    ensures textNodes == Collect(nodes[..], 0)
    ensures forall i :: 0 <= i < |textNodes| ==> textNodes[i] < nodes.Length
    ensures texts == TextsOf(nodes[..], textNodes)
  {
    textNodes, texts := Walk(nodes, 0, [], []);
  }

  /** Every text sent for translation is non-blank and already trimmed. */
  lemma TextsTrimmed(t: seq<Node>)
    requires ValidTree(t)
    ensures forall i :: 0 <= i < |Collect(t, 0)| ==> Collect(t, 0)[i] < |t|
    ensures forall i :: 0 <= i < |Collect(t, 0)| ==>
      var s := TextsOf(t, Collect(t, 0))[i]; !IsBlank(s) && TrimSpace(s) == s
  {
    var ns := Collect(t, 0);
    forall i | 0 <= i < |ns| ensures ns[i] < |t| && IsTranslatable(t[ns[i]]) {
      CollectExact(t, 0, ns[i]);
    }
    forall i | 0 <= i < |ns| ensures var s := TextsOf(t, ns)[i]; !IsBlank(s) && TrimSpace(s) == s {
      TrimSpaceIdempotent(t[ns[i]].data);
    }
  }
}
