/**
 * The reinjection loop of processHTMLContent: each collected text node gets
 * the translated piece of the same index, wrapped in the leading and trailing
 * runs of cutset white space (" \t\n\r") cut from its original data.
 */
module Reinjection {
  import opened GoStrings
  import opened Markup

  /** The cutset " \t\n\r" given to strings.TrimLeft and strings.TrimRight. */
  predicate InCutset(c: char) {
    c == ' ' || c == '\t' || c == '\n' || c == '\r'
  }

  /** `s[:len(s)-len(strings.TrimLeft(s, " \t\n\r"))]`: the longest prefix of cutset characters. */
  function LeadingSpace(s: string): (r: string)
    ensures |r| <= |s| && r == s[..|r|]
    ensures forall i :: 0 <= i < |r| ==> InCutset(s[i])
    ensures |r| < |s| ==> !InCutset(s[|r|])
  {
    s[..|s| - |TrimLeftFunc(s, InCutset)|]
  }

  /** `s[len(strings.TrimRight(s, " \t\n\r")):]`: the longest suffix of cutset characters. */
  function TrailingSpace(s: string): (r: string)
    ensures |r| <= |s| && r == s[|s| - |r|..]
    ensures forall i :: |s| - |r| <= i < |s| ==> InCutset(s[i])
    ensures |r| < |s| ==> !InCutset(s[|s| - |r| - 1])
  {
    s[|TrimRightFunc(s, InCutset)|..]
  }

  /** The new data of a collected node: its own outer cutset white space around the translation. */
  function Rewritten(original: string, translated: string): string {
    LeadingSpace(original) + translated + TrailingSpace(original)
  }

  /** The two white-space runs of a string with a non-cutset character do not overlap. */
  lemma WhitespaceSplit(s: string, k: nat)
    requires k < |s| && !InCutset(s[k])
    ensures |LeadingSpace(s)| <= k < |s| - |TrailingSpace(s)|
    ensures LeadingSpace(s) + s[|LeadingSpace(s)|..|s| - |TrailingSpace(s)|] + TrailingSpace(s) == s
    ensures !InCutset(s[|LeadingSpace(s)|]) && !InCutset(s[|s| - |TrailingSpace(s)| - 1])
  {
    SliceConcat(s, |LeadingSpace(s)|, |s| - |TrailingSpace(s)|);
  }

  /** Every cutset character is Unicode white space, so a non-blank text has a non-cutset character. */
  lemma NonBlankHasVisible(s: string) returns (k: nat)
    requires !IsBlank(s)
    ensures k < |s| && !IsSpace(s[k]) && !InCutset(s[k])
  {
    BlankIffAllSpace(s);
    k :| k < |s| && !IsSpace(s[k]);
  }

  /**
   * The white space that TrimSpace strips from either end of a text lies in
   * the cutset. White space between the text's visible characters may be anything.
   */
  predicate CutsetPadded(s: string) {
    && (forall i :: 0 <= i < |s| - |TrimLeftFunc(s, IsSpace)| ==> InCutset(s[i]))
    && (forall i :: |TrimRightFunc(s, IsSpace)| <= i < |s| ==> InCutset(s[i]))
  }

  /** The bounds of TrimSpace: `s[a..b]` is what it keeps, and `s[a]`, `s[b - 1]` are visible. */
  lemma TrimBounds(s: string) returns (a: nat, b: nat)
    requires !IsBlank(s)
    ensures a == |s| - |TrimLeftFunc(s, IsSpace)| && b == |TrimRightFunc(s, IsSpace)|
    ensures a < b <= |s| && !IsSpace(s[a]) && !IsSpace(s[b - 1])
    ensures TrimSpace(s) == s[a..b]
  {
    var k := NonBlankHasVisible(s);
    a, b := |s| - |TrimLeftFunc(s, IsSpace)|, |TrimRightFunc(s, IsSpace)|;
    assert a <= k < b;
    assert TrimLeftFunc(s, IsSpace)[0] == s[a];
    assert TrimRightFunc(s, IsSpace)[b - 1] == s[b - 1];
    TrimSpaceBetween(s, a, b);
  }

  /**
   * When the white space at both ends of a text lies in the cutset, putting its
   * own trimmed content back gives the text unchanged: an identity translation
   * restores the node.
   */
  lemma RestoresCutsetPadding(s: string)
    requires !IsBlank(s) && CutsetPadded(s)
    ensures Rewritten(s, TrimSpace(s)) == s
  {
    var a, b := TrimBounds(s);
    PaddingKept(s[..a], s[a..b], s[b..], s[a..b]);
    SliceConcat(s, a, b);
  }

  /**
   * The converse: when the white space at either end of a text holds a
   * character outside the cutset, an identity translation gives a shorter text.
   */
  lemma PaddingLost(s: string)
    requires !IsBlank(s) && !CutsetPadded(s)
    ensures |Rewritten(s, TrimSpace(s))| < |s|
  {
    var a, b := TrimBounds(s);
    var l, r := LeadingSpace(s), TrailingSpace(s);
    assert !InCutset(s[a]) && !InCutset(s[b - 1]);
    assert |l| <= a && |r| <= |s| - b;
    assert |Rewritten(s, TrimSpace(s))| == |l| + (b - a) + |r|;
    if exists i :: 0 <= i < a && !InCutset(s[i]) {
      var i :| 0 <= i < a && !InCutset(s[i]);
      assert |l| <= i;
    } else {
      var i :| b <= i < |s| && !InCutset(s[i]);
      assert |s| - |r| > i;
    }
  }

  lemma SliceConcat(s: string, a: nat, b: nat)
    requires a <= b <= |s|
    ensures s[..a] + s[a..b] + s[b..] == s
  {
  }

  /** A run of cutset characters before a non-cutset character is the leading white space. */
  lemma LeadingRun(l: string, rest: string)
    requires forall i :: 0 <= i < |l| ==> InCutset(l[i])
    requires rest != [] && !InCutset(rest[0])
    ensures LeadingSpace(l + rest) == l
  {
    var s := l + rest;
    assert forall i :: 0 <= i < |l| ==> s[i] == l[i];
    assert s[|l|] == rest[0];
    TrimLeftUnique(s, InCutset, |l|);
    assert s[..|l|] == l;
  }

  /** A run of cutset characters after a non-cutset character is the trailing white space. */
  lemma TrailingRun(rest: string, r: string)
    requires forall i :: 0 <= i < |r| ==> InCutset(r[i])
    requires rest != [] && !InCutset(rest[|rest| - 1])
    ensures TrailingSpace(rest + r) == r
  {
    var s := rest + r;
    assert forall i :: |rest| <= i < |s| ==> s[i] == r[i - |rest|];
    assert s[|rest| - 1] == rest[|rest| - 1];
    TrimRightUnique(s, InCutset, |rest|);
    assert s[|rest|..] == r;
  }

  /** Translating a text padded with cutset white space keeps exactly that padding. */
  lemma PaddingKept(l: string, m: string, r: string, translated: string)
    requires forall i :: 0 <= i < |l| ==> InCutset(l[i])
    requires forall i :: 0 <= i < |r| ==> InCutset(r[i])
    requires m != [] && !InCutset(m[0]) && !InCutset(m[|m| - 1])
    ensures Rewritten(l + m + r, translated) == l + translated + r
  {
    assert (m + r)[0] == m[0] && (l + m)[|l + m| - 1] == m[|m| - 1];
    LeadingRun(l, m + r);
    TrailingRun(l + m, r);
    assert l + (m + r) == l + m + r;
  }

  /**
   * TrimSpace strips Unicode white space that the cutset does not restore: a
   * text that begins with such a character (a vertical tab, a no-break space)
   * loses it, and comes out of an identity translation shorter.
   */
  lemma UnicodeSpaceLost(s: string)
    requires s != [] && !IsBlank(s) && IsSpace(s[0]) && !InCutset(s[0])
    ensures LeadingSpace(s) == []
    ensures |Rewritten(s, TrimSpace(s))| < |s|
  {
    var left := TrimLeftFunc(s, IsSpace);
    var a := |s| - |left|;
    var mid := TrimRightFunc(left, IsSpace);
    assert mid == TrimSpace(s) && mid != [];
    assert a >= 1;
    assert s[a + |mid| - 1] == mid[|mid| - 1];
    var k := NonBlankHasVisible(s);
    WhitespaceSplit(s, a + |mid| - 1);
  }

  /** Node n with its data rewritten around the translation. */
  function Rewrite(n: Node, translated: string): Node {
    n.(data := Rewritten(n.data, translated))
  }

  /**
   * The tree after `f` has been applied to the listed nodes in turn: node
   * ns[i] is replaced by `f` of its then-current value and ts[i].
   */
  function Overwritten(t: seq<Node>, ns: seq<nat>, ts: seq<string>, f: (Node, string) -> Node): (r: seq<Node>)
    requires |ns| <= |ts|
    requires forall i :: 0 <= i < |ns| ==> ns[i] < |t|
    ensures |r| == |t|
    decreases |ns|
  {
    if ns == [] then t
    else
      var k := |ns| - 1;
      var prev := Overwritten(t, ns[..k], ts, f);
      prev[ns[k] := f(prev[ns[k]], ts[k])]
  }

  /**
   * The tree after the loop has visited the first |ns| collected nodes: node
   * ns[i] has its then-current data rewritten around ts[i].
   */
  function Reinjected(t: seq<Node>, ns: seq<nat>, ts: seq<string>): seq<Node>
    requires |ns| <= |ts|
    requires forall i :: 0 <= i < |ns| ==> ns[i] < |t|
  {
    Overwritten(t, ns, ts, Rewrite)
  }

  /** The reinjection loop over the collected nodes. */
  method Reinject(nodes: array<Node>, textNodes: seq<nat>, translated: seq<string>)
    requires |textNodes| <= |translated|
    requires forall i :: 0 <= i < |textNodes| ==> textNodes[i] < nodes.Length
    modifies nodes
    ensures nodes[..] == Reinjected(old(nodes[..]), textNodes, translated)
  {
    ghost var t := nodes[..];
    for i := 0 to |textNodes|
      invariant nodes[..] == Reinjected(t, textNodes[..i], translated)
    {
      var node := textNodes[i];
      var originalText := nodes[node].data;
      nodes[node] := nodes[node].(data := LeadingSpace(originalText) + translated[i] + TrailingSpace(originalText));
      assert textNodes[..i + 1][..i] == textNodes[..i];
    }
    assert textNodes[..|textNodes|] == textNodes;
  }

  /** One step rewrites the last listed node and no other. */
  lemma OverwrittenStep(t: seq<Node>, ns: seq<nat>, ts: seq<string>, f: (Node, string) -> Node, x: nat)
    requires ns != [] && |ns| <= |ts| && x < |t|
    requires forall i :: 0 <= i < |ns| ==> ns[i] < |t|
    ensures Overwritten(t, ns, ts, f)[x] ==
      var prev := Overwritten(t, ns[..|ns| - 1], ts, f);
      if x == ns[|ns| - 1] then f(prev[x], ts[|ns| - 1]) else prev[x]
  {
  }

  /** A node that is not listed keeps its value. */
  lemma {:induction false} OverwrittenUntouched(t: seq<Node>, ns: seq<nat>, ts: seq<string>, f: (Node, string) -> Node, x: nat)
    requires |ns| <= |ts| && x < |t| && x !in ns
    requires forall i :: 0 <= i < |ns| ==> ns[i] < |t|
    ensures Overwritten(t, ns, ts, f)[x] == t[x]
    decreases |ns|
  {
    if ns != [] {
      var pre := ns[..|ns| - 1];
      assert x !in pre;
      OverwrittenUntouched(t, pre, ts, f, x);
      OverwrittenStep(t, ns, ts, f, x);
    }
  }

  /** A node listed once, as ns[i], ends up as `f` of its original value and ts[i]. */
  lemma {:induction false} OverwrittenOnce(t: seq<Node>, ns: seq<nat>, ts: seq<string>, f: (Node, string) -> Node, i: nat)
    requires |ns| <= |ts| && i < |ns|
    requires forall j :: 0 <= j < |ns| ==> ns[j] < |t|
    requires forall j :: 0 <= j < |ns| && j != i ==> ns[j] != ns[i]
    ensures Overwritten(t, ns, ts, f)[ns[i]] == f(t[ns[i]], ts[i])
    decreases |ns|
  {
    var k := |ns| - 1;
    var pre := ns[..k];
    var x := ns[i];
    OverwrittenStep(t, ns, ts, f, x);
    if i < k {
      assert x != ns[k] && pre[i] == x;
      OverwrittenOnce(t, pre, ts, f, i);
    } else {
      assert forall j :: 0 <= j < k ==> pre[j] != x;
      OverwrittenUntouched(t, pre, ts, f, x);
    }
  }

  /** A node that is not listed keeps its data. */
  lemma ReinjectedUntouched(t: seq<Node>, ns: seq<nat>, ts: seq<string>, x: nat)
    requires |ns| <= |ts| && x < |t| && x !in ns
    requires forall i :: 0 <= i < |ns| ==> ns[i] < |t|
    ensures Reinjected(t, ns, ts)[x] == t[x]
  {
    OverwrittenUntouched(t, ns, ts, Rewrite, x);
  }

  /** A node listed once, as ns[i], ends up rewritten around its own translation ts[i]. */
  lemma ReinjectedRewrites(t: seq<Node>, ns: seq<nat>, ts: seq<string>, i: nat)
    requires |ns| <= |ts| && i < |ns|
    requires forall j :: 0 <= j < |ns| ==> ns[j] < |t|
    requires forall j :: 0 <= j < |ns| && j != i ==> ns[j] != ns[i]
    ensures Reinjected(t, ns, ts)[ns[i]] == Rewrite(t[ns[i]], ts[i])
  {
    OverwrittenOnce(t, ns, ts, Rewrite, i);
  }

  /**
   * With distinct nodes, reinjection rewrites exactly the listed nodes, each
   * around its own translation, and leaves every other node as it was.
   */
  lemma ReinjectedSpec(t: seq<Node>, ns: seq<nat>, ts: seq<string>)
    requires |ns| <= |ts|
    requires forall i :: 0 <= i < |ns| ==> ns[i] < |t|
    requires Distinct(ns)
    ensures forall i :: 0 <= i < |ns| ==> Reinjected(t, ns, ts)[ns[i]] == Rewrite(t[ns[i]], ts[i])
    ensures forall x :: 0 <= x < |t| && x !in ns ==> Reinjected(t, ns, ts)[x] == t[x]
  {
    forall i | 0 <= i < |ns| ensures Reinjected(t, ns, ts)[ns[i]] == Rewrite(t[ns[i]], ts[i]) {
      ReinjectedRewrites(t, ns, ts, i);
    }
    forall x | 0 <= x < |t| && x !in ns ensures Reinjected(t, ns, ts)[x] == t[x] {
      ReinjectedUntouched(t, ns, ts, x);
    }
  }

  /** Applying `f` keeps every node's kind and extent when `f` itself does. */
  lemma {:induction false} OverwrittenShape(t: seq<Node>, ns: seq<nat>, ts: seq<string>, f: (Node, string) -> Node)
    requires |ns| <= |ts|
    requires forall i :: 0 <= i < |ns| ==> ns[i] < |t|
    requires forall n, s :: f(n, s).kind == n.kind && f(n, s).size == n.size
    ensures forall x :: 0 <= x < |t| ==>
      Overwritten(t, ns, ts, f)[x].kind == t[x].kind && Overwritten(t, ns, ts, f)[x].size == t[x].size
    decreases |ns|
  {
    if ns != [] {
      OverwrittenShape(t, ns[..|ns| - 1], ts, f);
      forall x | 0 <= x < |t|
        ensures Overwritten(t, ns, ts, f)[x].kind == t[x].kind && Overwritten(t, ns, ts, f)[x].size == t[x].size
      {
        OverwrittenStep(t, ns, ts, f, x);
      }
    }
  }

  /** Reinjection changes no node's kind and no subtree's extent. */
  lemma ReinjectedShape(t: seq<Node>, ns: seq<nat>, ts: seq<string>)
    requires |ns| <= |ts|
    requires forall i :: 0 <= i < |ns| ==> ns[i] < |t|
    ensures forall x :: 0 <= x < |t| ==>
      Reinjected(t, ns, ts)[x].kind == t[x].kind && Reinjected(t, ns, ts)[x].size == t[x].size
  {
    OverwrittenShape(t, ns, ts, Rewrite);
  }

  /** Reinjection keeps the shape of the tree. */
  lemma ReinjectedValid(t: seq<Node>, ns: seq<nat>, ts: seq<string>)
    requires ValidTree(t) && |ns| <= |ts|
    requires forall i :: 0 <= i < |ns| ==> ns[i] < |t|
    ensures ValidTree(Reinjected(t, ns, ts))
  {
    ReinjectedShape(t, ns, ts);
  }
}
