/**
 * processHTMLContent and the blank-input guard of translateText: extract the
 * fragments of a parsed document, translate them in one request, split the
 * reply, check the count, reinject the pieces and render the tree.
 *
 * The parse result, the translation service and the renderer are inputs: the
 * parse of the content is given as a value, the service and the renderer as
 * functions. The `requests` of an outcome lists the texts sent to the service.
 */
module Processing {
  import opened Wrappers
  import opened GoStrings
  import opened Markup
  import opened Batch
  import opened Extraction
  import opened Reinjection

  /** The errors processHTMLContent reports, each with the message of the failing step. */
  datatype Error = ParseError(msg: string) | ServiceError(msg: string) | RenderError(msg: string)

  /** The reply of translateText and the texts it sent to the service. */
  datatype Call = Call(reply: Result<string, string>, requests: seq<string>)

  /** What processHTMLContent returns, with the requests it made. */
  datatype Outcome = Outcome(content: string, err: Option<Error>, requests: seq<string>)

  /**
   * translateText: a blank text is answered with the empty string without a
   * request; any other text is sent as it is and the service's reply returned.
   */
  function TranslateText(text: string, service: string -> Result<string, string>): (c: Call)
    ensures c.requests == [] <==> IsBlank(text)
    ensures IsBlank(text) ==> c.reply == Success("")
    ensures !IsBlank(text) ==> c.requests == [text] && c.reply == service(text)
  {
    if TrimSpace(text) == "" then Call(Success(""), []) else Call(service(text), [text])
  }

  /** A text node that the walk collects: a translatable direct child of a paragraph. */
  ghost predicate Eligible(t: seq<Node>, x: nat)
    requires ValidTree(t)
  {
    0 < x < |t| && IsTranslatable(t[x]) && IsParagraph(t[Parent(t, x)])
  }

  /** The fragments of a document, in the order the walk collects them. */
  function Fragments(t: seq<Node>): (texts: seq<string>)
    requires ValidTree(t)
    ensures |texts| == |Collect(t, 0)|
    ensures forall i :: 0 <= i < |texts| ==> !IsBlank(texts[i]) && TrimSpace(texts[i]) == texts[i]
  {
    TextsTrimmed(t);
    TextsOf(t, Collect(t, 0))
  }

  /** The single request of a document with fragments: all of them, joined with the delimiter. */
  function Combined(t: seq<Node>): string
    requires ValidTree(t)
  {
    Join(Fragments(t), Delimiter)
  }

  /** processHTMLContent as a function of the parse result, the service and the renderer. */
  function Process(content: string, parsed: Result<seq<Node>, string>,
                   service: string -> Result<string, string>, render: seq<Node> -> Result<string, string>): (o: Outcome)
    requires parsed.Success? ==> ValidTree(parsed.value)
    ensures o.err.Some? ==> o.content == content
    ensures |o.requests| <= 1
  {
    match parsed
    case Failure(e) => Outcome(content, Some(ParseError(e)), [])
    case Success(t) =>
      var texts := Fragments(t);
      if |texts| == 0 then Outcome(content, None, [])
      else
        var call := TranslateText(Join(texts, Delimiter), service);
        match call.reply
        case Failure(e) => Outcome(content, Some(ServiceError(e)), call.requests)
        case Success(reply) =>
          var pieces := Split(reply, Delimiter);
          if |pieces| != |texts| then Outcome(content, None, call.requests)
          else
            TextsTrimmed(t);
            match render(Reinjected(t, Collect(t, 0), pieces))
            case Failure(e) => Outcome(content, Some(RenderError(e)), call.requests)
            case Success(out) => Outcome(out, None, call.requests)
  }

  /** processHTMLContent over the parsed tree, laid out in an array that the reinjection updates. */
  method ProcessHtmlContent(content: string, parsed: Result<seq<Node>, string>,
                            service: string -> Result<string, string>, render: seq<Node> -> Result<string, string>)
    returns (result: string, err: Option<Error>, requests: seq<string>)
    requires parsed.Success? ==> ValidTree(parsed.value)
    ensures Outcome(result, err, requests) == Process(content, parsed, service, render)
  {
    if parsed.Failure? {
      return content, Some(ParseError(parsed.error)), [];
    }
    var t := parsed.value;
    var nodes := new Node[|t|](i requires 0 <= i < |t| => t[i]);
    assert nodes[..] == t;
    var textNodes, texts := ExtractFragments(nodes);
    if |texts| == 0 {
      return content, None, [];
    }
    var call := TranslateText(Join(texts, Delimiter), service);
    requests := call.requests;
    if call.reply.Failure? {
      return content, Some(ServiceError(call.reply.error)), requests;
    }
    var pieces := Split(call.reply.value, Delimiter);
    if |pieces| != |texts| {
      return content, None, requests;
    }
    Reinject(nodes, textNodes, pieces);
    var rendered := render(nodes[..]);
    if rendered.Failure? {
      return content, Some(RenderError(rendered.error)), requests;
    }
    return rendered.value, None, requests;
  }

  /** A join whose first piece is not blank is not blank. */
  lemma JoinNotBlank(xs: seq<string>, sep: string)
    requires xs != [] && !IsBlank(xs[0])
    ensures !IsBlank(Join(xs, sep))
  {
    BlankIffAllSpace(xs[0]);
    var k :| 0 <= k < |xs[0]| && !IsSpace(xs[0][k]);
    var j := Join(xs, sep);
    assert j[k] == xs[0][k];
    BlankIffAllSpace(j);
  }

  /** A document with fragments always makes exactly one request: the joined fragments. */
  lemma OneRequest(content: string, t: seq<Node>, service: string -> Result<string, string>,
                   render: seq<Node> -> Result<string, string>)
    requires ValidTree(t)
    ensures Process(content, Success(t), service, render).requests ==
      (if Collect(t, 0) == [] then [] else [Combined(t)])
  {
    if Collect(t, 0) != [] {
      JoinNotBlank(Fragments(t), Delimiter);
      var call := TranslateText(Combined(t), service);
      assert call.requests == [Combined(t)];
      assert Process(content, Success(t), service, render).requests == call.requests;
    }
  }

  /** A document has fragments exactly when some text node is eligible. */
  lemma HasFragmentsIffEligible(t: seq<Node>)
    requires ValidTree(t)
    ensures Collect(t, 0) != [] <==> exists x: nat :: Eligible(t, x)
  {
    CollectCharacterised(t);
    if Collect(t, 0) != [] {
      var x := Collect(t, 0)[0];
      assert x in Collect(t, 0);
      assert Eligible(t, x);
    }
    if exists x: nat :: Eligible(t, x) {
      var x: nat :| Eligible(t, x);
      assert x in Collect(t, 0);
    }
  }

  /** A document without fragments comes back unchanged, without error and without a request. */
  lemma NoFragmentsUnchanged(content: string, t: seq<Node>, service: string -> Result<string, string>,
                             render: seq<Node> -> Result<string, string>)
    requires ValidTree(t) && !exists x: nat :: Eligible(t, x)
    ensures Process(content, Success(t), service, render) == Outcome(content, None, [])
  {
    HasFragmentsIffEligible(t);
  }

  /** A failed request leaves the content as it was and reports the service's error. */
  lemma ServiceFailureKeepsContent(content: string, t: seq<Node>, service: string -> Result<string, string>,
                                   render: seq<Node> -> Result<string, string>)
    requires ValidTree(t) && Collect(t, 0) != [] && service(Combined(t)).Failure?
    ensures Process(content, Success(t), service, render) ==
      Outcome(content, Some(ServiceError(service(Combined(t)).error)), [Combined(t)])
  {
    JoinNotBlank(Fragments(t), Delimiter);
  }

  /**
   * A reply that does not split into one piece per fragment reverts the whole
   * document to its content, without error: no node is rewritten.
   */
  lemma MismatchReverts(content: string, t: seq<Node>, service: string -> Result<string, string>,
                        render: seq<Node> -> Result<string, string>)
    requires ValidTree(t) && Collect(t, 0) != [] && service(Combined(t)).Success?
    requires Count(service(Combined(t)).value, Delimiter) + 1 != |Collect(t, 0)|
    ensures Process(content, Success(t), service, render) == Outcome(content, None, [Combined(t)])
  {
    JoinNotBlank(Fragments(t), Delimiter);
  }

  /**
   * When the reply splits into one piece per fragment, the rendered document
   * is that of the tree in which each collected node holds its piece between
   * its own leading and trailing white space; no other node changes.
   */
  lemma AlignedReplyReinjected(content: string, t: seq<Node>, service: string -> Result<string, string>,
                               render: seq<Node> -> Result<string, string>)
    requires ValidTree(t) && Collect(t, 0) != [] && service(Combined(t)).Success?
    requires Count(service(Combined(t)).value, Delimiter) + 1 == |Collect(t, 0)|
    ensures forall i :: 0 <= i < |Collect(t, 0)| ==> Collect(t, 0)[i] < |t|
    ensures var pieces := Split(service(Combined(t)).value, Delimiter);
      var t' := Reinjected(t, Collect(t, 0), pieces);
      && ValidTree(t')
      && (forall i :: 0 <= i < |pieces| ==>
            t'[Collect(t, 0)[i]] == Rewrite(t[Collect(t, 0)[i]], pieces[i]))
      && (forall x :: 0 <= x < |t| && !Eligible(t, x) ==> t'[x] == t[x])
      && Process(content, Success(t), service, render) ==
           match render(t')
           case Failure(e) => Outcome(content, Some(RenderError(e)), [Combined(t)])
           case Success(out) => Outcome(out, None, [Combined(t)])
  {
    JoinNotBlank(Fragments(t), Delimiter);
    PiecesReinjected(t, Split(service(Combined(t)).value, Delimiter));
  }

  /**
   * Reinjecting one piece per fragment keeps the tree well formed, rewrites
   * each collected node around its own piece and leaves every other node as
   * it was.
   */
  lemma PiecesReinjected(t: seq<Node>, pieces: seq<string>)
    requires ValidTree(t) && |pieces| == |Collect(t, 0)|
    ensures forall i :: 0 <= i < |Collect(t, 0)| ==> Collect(t, 0)[i] < |t|
    ensures var t' := Reinjected(t, Collect(t, 0), pieces);
      && ValidTree(t')
      && (forall i :: 0 <= i < |pieces| ==>
            t'[Collect(t, 0)[i]] == Rewrite(t[Collect(t, 0)[i]], pieces[i]))
      && (forall x :: 0 <= x < |t| && !Eligible(t, x) ==> t'[x] == t[x])
  {
    TextsTrimmed(t);
    var ns := Collect(t, 0);
    CollectCharacterised(t);
    ReinjectedSpec(t, ns, pieces);
    ReinjectedValid(t, ns, pieces);
    forall x | 0 <= x < |t| && !Eligible(t, x) ensures Reinjected(t, ns, pieces)[x] == t[x] {
      assert x !in ns;
    }
  }

  /**
   * The count check does not catch every misalignment. A document whose
   * fragments are "a\n---" and "b" sends "a\n---\n---\nb"; echoed back, it
   * splits into "a" and "---\nb", two pieces for two fragments, so the
   * document is rewritten with text moved from the first node to the second.
   */
  lemma MergedDelimiterEchoShifts(content: string, t: seq<Node>, render: seq<Node> -> Result<string, string>)
    requires ValidTree(t) && Fragments(t) == ["a\n---", "b"]
    ensures |Collect(t, 0)| == 2 && Collect(t, 0)[0] < |t| && Collect(t, 0)[1] < |t|
    ensures var t' := Reinjected(t, Collect(t, 0), ["a", "---\nb"]);
      && t'[Collect(t, 0)[0]] == Rewrite(t[Collect(t, 0)[0]], "a")
      && t'[Collect(t, 0)[1]] == Rewrite(t[Collect(t, 0)[1]], "---\nb")
      && Process(content, Success(t), s => Success(s), render) ==
           match render(t')
           case Failure(e) => Outcome(content, Some(RenderError(e)), [Combined(t)])
           case Success(out) => Outcome(out, None, [Combined(t)])
  {
    MergedDelimiterShiftsText();
    assert Split(Combined(t), Delimiter) == ["a", "---\nb"];
    AlignedReplyReinjected(content, t, s => Success(s), render);
  }

  /**
   * A service that echoes its request gives back the document's own tree when
   * the fragments are separable and every collected text is padded only with
   * cutset white space: the rendered tree is the parsed one.
   */
  lemma EchoRestoresTree(content: string, t: seq<Node>, render: seq<Node> -> Result<string, string>)
    requires ValidTree(t) && Collect(t, 0) != [] && Separable(Fragments(t))
    requires forall x: nat :: Eligible(t, x) ==> CutsetPadded(t[x].data)
    ensures Process(content, Success(t), s => Success(s), render) ==
      match render(t)
      case Failure(e) => Outcome(content, Some(RenderError(e)), [Combined(t)])
      case Success(out) => Outcome(out, None, [Combined(t)])
  {
    JoinNotBlank(Fragments(t), Delimiter);
    SplitJoin(Fragments(t));
    ReinjectOwnTexts(t);
  }

  /** Putting each fragment back into its own node restores a tree whose collected texts are cutset-padded. */
  lemma ReinjectOwnTexts(t: seq<Node>)
    requires ValidTree(t)
    requires forall x: nat :: Eligible(t, x) ==> CutsetPadded(t[x].data)
    ensures forall i :: 0 <= i < |Collect(t, 0)| ==> Collect(t, 0)[i] < |t|
    ensures Reinjected(t, Collect(t, 0), Fragments(t)) == t
  {
    TextsTrimmed(t);
    var t' := Reinjected(t, Collect(t, 0), Fragments(t));
    forall x | 0 <= x < |t| ensures t'[x] == t[x] {
      OwnTextsAt(t, x);
    }
  }

  /** Node x after putting the fragments back into their own nodes. */
  lemma OwnTextsAt(t: seq<Node>, x: nat)
    requires ValidTree(t) && x < |t|
    requires forall x: nat :: Eligible(t, x) ==> CutsetPadded(t[x].data)
    ensures forall i :: 0 <= i < |Collect(t, 0)| ==> Collect(t, 0)[i] < |t|
    ensures Reinjected(t, Collect(t, 0), Fragments(t))[x] == t[x]
  {
    var ns := Collect(t, 0);
    TextsTrimmed(t);
    CollectDistinct(t, 0);
    if x in ns {
      var i :| 0 <= i < |ns| && ns[i] == x;
      ReinjectedRewrites(t, ns, Fragments(t), i);
      OwnTextRestored(t, i);
    } else {
      ReinjectedUntouched(t, ns, Fragments(t), x);
    }
  }

  /** The i-th collected node, rewritten around its own fragment, is unchanged. */
  lemma OwnTextRestored(t: seq<Node>, i: nat)
    requires ValidTree(t) && i < |Collect(t, 0)|
    requires forall x: nat :: Eligible(t, x) ==> CutsetPadded(t[x].data)
    ensures Collect(t, 0)[i] < |t|
    ensures Rewrite(t[Collect(t, 0)[i]], Fragments(t)[i]) == t[Collect(t, 0)[i]]
  {
    var x := Collect(t, 0)[i];
    CollectExact(t, 0, x);
    assert Eligible(t, x);
    TextsTrimmed(t);
    assert Fragments(t)[i] == TrimSpace(t[x].data);
    RestoresCutsetPadding(t[x].data);
  }

  /**
   * A fragment that contains the delimiter makes an echoing service's reply
   * split into too many pieces, so the document is reverted.
   */
  lemma EchoDelimiterReverts(content: string, t: seq<Node>, render: seq<Node> -> Result<string, string>)
    requires ValidTree(t) && Collect(t, 0) != [] && SomeContainsDelimiter(Fragments(t))
    ensures Process(content, Success(t), s => Success(s), render) == Outcome(content, None, [Combined(t)])
  {
    JoinNotBlank(Fragments(t), Delimiter);
    DelimiterInFragmentOvercounts(Fragments(t));
  }
}
