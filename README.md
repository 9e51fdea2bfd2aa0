# transl-epub: the document translation protocol, in Dafny

transl-epub translates an EPUB book. It copies every member of the input
archive that it can open, and for which it can create an output entry, into a
new archive; the others are skipped. Each XHTML/HTML member that is read
completely goes through `processHTMLContent` on the way; one whose reading
fails is written with the bytes that were read:

1. The document is parsed.
2. A walk collects every non-blank text node that is a direct child of a `<p>`.
3. The trimmed texts are joined with `"\n---\n"` and sent in one request to a
   translation service.
4. The reply is split on the same delimiter. If the number of pieces differs
   from the number of texts, the document is left as it was.
5. Otherwise each collected node gets its piece, wrapped in the node's own
   leading and trailing run of the characters `" \t\n\r"`.
6. The tree is rendered back to text.

This project models that protocol and the member loop of `main`, and proves
what they guarantee.

| module | file | models |
|---|---|---|
| `GoStrings` | go_strings.dfy | the `strings` functions the code relies on: `TrimLeft` and `TrimRight` with the cutset `" \t\n\r"` (written `TrimLeftFunc(s, InCutset)` and `TrimRightFunc(s, InCutset)`), `TrimSpace` (with Go's `unicode.IsSpace` table), `HasSuffix`, `Join`, `Split`, `Count` |
| `Markup` | markup.dfy | the parsed tree, laid out in pre-order in an arena, and the exact set and order of the nodes the walk collects |
| `Extraction` | extract.dfy | the recursive walk `f`, as methods over an array of nodes |
| `Batch` | batch.dfy | the join/split round trip on which the count check relies |
| `Reinjection` | reinject.dfy | the white-space computation and the loop that rewrites node data in place |
| `Processing` | process.dfy | `translateText`'s blank guard and `processHTMLContent` end to end |
| `Archive` | archive.dfy | the member loop of `main` and the output archive writer |

**The tree.** The tree is an arena of nodes in pre-order. A node's subtree
occupies the index range `[i, i + size)`. The first child of `i` is `i + 1`,
and the next sibling of a child `c` is `c + size(c)`. `FirstChild` and
`NextSibling` pointers become this index arithmetic. A node reference in
`textNodes` becomes an index.

**The walk order.** The walk is not in document order. At a `<p>` it first
takes all of that paragraph's own text children, and only then descends.
`Markup.CollectOrdered` states the whole order: nodes are listed by the index
of their parent, and nodes with the same parent in sibling order.
`Markup.OwnTextsFirst` states this for every tree: within the nodes a
paragraph's walk collects, its own text children come before all the others.
`Markup.OwnTextsBeforeNestedTexts` illustrates it on
`<p><button><p>x</p></button>y</p>` for any non-blank texts `x` and `y`: `y`
is collected before `x`. The HTML parser closes an open `<p>` when it meets a
nested `<p>`, unless an element that bounds button scope, such as `<button>`
or `<object>`, stands between them. The example tree hangs the outer `<p>`
directly under the document root and omits the `<html>`, `<head>` and
`<body>` elements the parser adds; they hold no text, so the walk collects the
same nodes in the same order.

**The round trip needs more than "no fragment contains the delimiter".**
Joining and then splitting gives the fragments back when no fragment contains
`"\n---\n"` AND no fragment but the last ends in `"\n---"`.
`Batch.MergedDelimiterShiftsText` shows why the second condition is needed.
`["a\n---", "b"]` joins to `"a\n---\n---\nb"`, which splits into
`["a", "---\nb"]`. That is two pieces for two fragments, so the count check
passes, but text has moved from one piece to the other. Every fragment is
trimmed, so none starts or ends with a newline, but a trimmed fragment can
still end in `"\n---"`: the code can send exactly this batch.
`Processing.MergedDelimiterEchoShifts` follows it through
`processHTMLContent`: with a service that echoes its input, a document whose
fragments are `["a\n---", "b"]` is rewritten with `"a"` and `"---\nb"`
rather than reverted.

**Restored white space is the cutset `" \t\n\r"` only.** `TrimSpace` strips
the leading and trailing Unicode white space of the text that is sent,
including `\v` and `\f`; white space between words is sent as it is.
Only the leading and trailing runs of `" \t\n\r"` are put back.
`Reinjection.UnicodeSpaceLost` proves that a text beginning with any other
white-space character (a vertical tab, a no-break space) loses it.

## Model

| member | source | states |
|---|---|---|
| `GoStrings.TrimLeftFunc` | main.go:99 | `strings.TrimLeft(s, cutset)` is `TrimLeftFunc(s, InCutset)`: the result is a suffix of the input, every removed character satisfies the predicate, and the first kept one does not |
| `GoStrings.TrimRightFunc` | main.go:100 | `strings.TrimRight(s, cutset)` is `TrimRightFunc(s, InCutset)`: the result is a prefix of the input, every removed character satisfies the predicate, and the last kept one does not |
| `GoStrings.IsSpace` | main.go:24 | `unicode.IsSpace`: the Latin-1 spaces `\t \n \v \f \r`, space, U+0085, U+00A0 and the other Unicode White_Space characters (a predicate; `BlankIffAllSpace` relies on it) |
| `GoStrings.TrimSpace` | main.go:24 | `strings.TrimSpace`: `TrimLeftFunc` then `TrimRightFunc` with `IsSpace`; characterised by `BlankIffAllSpace`, `TrimSpaceBetween` and `TrimSpaceIdempotent` |
| `GoStrings.HasSuffix` | main.go:166 | `strings.HasSuffix`: the name ends with the given suffix, character for character |
| `GoStrings.Join` | main.go:83 | `strings.Join`: the pieces with the separator between consecutive ones; its partner is `Split`, through `JoinSplit` and `Batch.SplitJoin` |
| `GoStrings.Count` | main.go:89 | `strings.Count` for a non-empty separator: leftmost non-overlapping occurrences; `Split` returns one piece more, and `CountPositiveIffContains` relates it to an independent `Contains` |
| `GoStrings.IsBlank` | main.go:24 | the test `strings.TrimSpace(x) == ""`, used by `translateText` and again at main.go:66; `BlankIffAllSpace` proves it holds exactly when every character is white space, and `Processing.TranslateText` and `Markup.IsTranslatable` use it |
| `GoStrings.BlankIffAllSpace` | main.go:24 | `TrimSpace(s) == ""` exactly when every character of `s` is Unicode white space |
| `GoStrings.TrimSpaceIdempotent` | main.go:68 | a trimmed text has nothing left to trim |
| `GoStrings.TrimSpaceBetween` | main.go:68 | `TrimSpace` keeps exactly the stretch from the first to the last non-space character |
| `GoStrings.Split` | main.go:89 | the split yields one piece more than the number of delimiter occurrences |
| `GoStrings.CountPositiveIffContains` | main.go:89 | some occurrence is counted exactly when the delimiter occurs |
| `GoStrings.JoinSplit` | main.go:89 | joining the pieces of a split with the same separator gives the string back |
| `GoStrings.SplitWithoutSeparator` | main.go:89 | a string without the separator splits into itself alone |
| `GoStrings.CountConcat` | main.go:83 | occurrences in two strings stay occurrences in their concatenation |
| `Markup.IsParagraph` | main.go:64 | the test `n.Type == html.ElementNode && n.Data == "p"`; `Collect` takes a node's own texts only when it holds, and `OwnTextsFirst` proves the node is a paragraph whenever own texts are collected |
| `Markup.IsTranslatable` | main.go:66 | the test `c.Type == html.TextNode && strings.TrimSpace(c.Data) != ""`; `DirectTexts` keeps exactly the children that pass it, and `CollectExact` states membership through it |
| `Markup.Parent` | main.go:64-66 | the parent of a node is the innermost node whose subtree strictly contains it |
| `Markup.Collect` | main.go:62-76 | the nodes the closure `f` appends from node `n`, in its order: the paragraph's own text children (`DirectTexts`), then the walk of each child (`CollectFrom`); which nodes it holds, each once, is fixed by `CollectExact`, `CollectDistinct` and `CollectCharacterised`, and their order by `CollectOrdered`; together these determine `Collect(t, 0)` |
| `Markup.DirectTexts` | main.go:64-71 | the translatable children of `p` from child `c` on, in sibling order; characterised by `DirectTextsExact` |
| `Markup.CollectFrom` | main.go:73-75 | the walks of the children of `p` from child `c` on, concatenated in sibling order; characterised by `CollectFromExact` |
| `Markup.CollectExact` | main.go:62-76 | the walk of a subtree collects exactly its translatable texts whose parent is a `<p>` |
| `Markup.CollectDistinct` | main.go:62-76 | the walk never collects a node twice |
| `Markup.CollectCharacterised` | main.go:58-77 | from the root, a node is collected iff it is a non-blank text node whose parent is a `<p>`, each exactly once |
| `Markup.CollectOrdered` | main.go:62-76 | the walk lists its nodes by parent index, and nodes with the same parent by position: a paragraph's text children come in sibling order, and a paragraph's texts come before those of any paragraph that starts after it |
| `Markup.OwnTextsFirst` | main.go:64-75 | in every tree, among the nodes a paragraph's walk collects, its own text children come before every other node |
| `Markup.OwnTextsBeforeNestedTexts` | main.go:64-75 | on `<p><button><p>x</p></button>y</p>`, the outer paragraph's own text `y` is collected before the nested paragraph's `x` |
| `Extraction.TextsOf` | main.go:68 | what `textsToTranslate` holds: the trimmed data of each listed node, in list order; `Walk` and `ExtractFragments` keep the text list equal to it, and `TextsTrimmed` proves every entry non-blank and trimmed |
| `Extraction.Walk` | main.go:62-76 | the walk from node `n` appends exactly `Collect(n)` to the node list and keeps the text list aligned with it |
| `Extraction.AppendDirectTexts` | main.go:64-71 | the loop over a paragraph's children appends exactly its translatable text children, each with its trimmed text |
| `Extraction.VisitChild` | main.go:65-70 | one turn of the paragraph's child loop keeps the child exactly when it is a translatable text, with its trimmed text, and moves to the next sibling |
| `Extraction.WalkChildren` | main.go:73-75 | the loop over the children appends the walk of each child, in order |
| `Extraction.ExtractFragments` | main.go:58-77 | the two lists from the root are `Collect(0)` and the trimmed data of those nodes, index by index |
| `Extraction.TextsTrimmed` | main.go:66-68 | every text sent is non-blank and already trimmed |
| `Batch.SplitJoin` | main.go:83-89 | joining separable fragments and splitting the result gives them back |
| `Batch.MergedDelimiterShiftsText` | main.go:83-89 | without the end-of-fragment condition the round trip fails while the piece count still matches |
| `Batch.JoinCount` | main.go:83 | a join holds at least one delimiter per gap, and one more when a fragment contains the delimiter |
| `Batch.DelimiterInFragmentOvercounts` | main.go:83-91 | a fragment containing the delimiter makes the echoed request split into more pieces than there are fragments |
| `Reinjection.InCutset` | main.go:99-100 | membership in the cutset `" \t\n\r"` passed to `strings.TrimLeft` and `strings.TrimRight`; `LeadingSpace`, `TrailingSpace` and `CutsetPadded` are stated through it |
| `Reinjection.LeadingSpace` | main.go:99 | the longest prefix of `" \t\n\r"` characters |
| `Reinjection.TrailingSpace` | main.go:100 | the longest suffix of `" \t\n\r"` characters |
| `Reinjection.WhitespaceSplit` | main.go:99-100 | leading run, middle and trailing run make up the original, and the two runs do not overlap when it has a visible character |
| `Reinjection.Rewritten` | main.go:98-101 | the new data of a node: its leading cutset run, the translation, its trailing cutset run; characterised by `PaddingKept`, `RestoresCutsetPadding` and `PaddingLost` |
| `Reinjection.TrimBounds` | main.go:66-68 | a non-blank text has a first and a last visible character, and `TrimSpace` keeps exactly the span between them |
| `Reinjection.RestoresCutsetPadding` | main.go:66-68 | when the white space `TrimSpace` strips from either end of a non-blank text lies in the cutset `" \t\n\r"` (`CutsetPadded`; white space between its words may be anything, a no-break space included), putting back its own trimmed content gives the text unchanged |
| `Reinjection.PaddingLost` | main.go:66-68 | the converse: when that stripped white space holds a character outside the cutset, an identity translation gives a shorter text; so restoration holds exactly for cutset-padded texts |
| `Reinjection.UnicodeSpaceLost` | main.go:66-68 | a text that starts with white space outside the cutset (`\v`, `\f`, a no-break space) loses it, and comes out of an identity translation shorter |
| `Reinjection.PaddingKept` | main.go:98-101 | a text padded with characters of the cutset keeps exactly that padding around its translation |
| `Reinjection.Reinject` | main.go:96-102 | the loop leaves the array equal to `Reinjected` of the old tree |
| `Reinjection.Reinjected` | main.go:96-101 | the tree after the reinjection loop: each listed node, in list order, gets `Rewritten` data; characterised by `ReinjectedSpec`, `ReinjectedRewrites`, `ReinjectedUntouched` and `ReinjectedShape` |
| `Reinjection.ReinjectedRewrites` | main.go:96-101 | a node listed once, as `ns[i]`, ends up holding the translation `ts[i]` between its own white space |
| `Reinjection.ReinjectedSpec` | main.go:96-101 | with distinct nodes, every listed node holds its own translation and every other node is unchanged |
| `Reinjection.ReinjectedUntouched` | main.go:96-101 | a node that is not listed keeps its data |
| `Reinjection.ReinjectedShape` | main.go:96-101 | reinjection changes no node's kind and no subtree's extent |
| `Processing.TranslateText` | main.go:23-26 | a blank text gets `""` and no request; any other text is sent as it is |
| `Processing.Eligible` | main.go:64-66 | a node the walk collects: a text node with visible data whose parent is a `<p>` element; equivalent to being collected by `Markup.CollectCharacterised` |
| `Processing.Fragments` | main.go:58-77 | one text per collected node, each non-blank and trimmed |
| `Processing.Combined` | main.go:83 | the single request: the fragments joined with `"\n---\n"`; `Batch.SplitJoin` gives the fragments back when they are separable, and `OneRequest` shows it is the only request |
| `Processing.Process` | main.go:52-110 | every error returns the original content, and at most one request is made |
| `Processing.ProcessHtmlContent` | main.go:52-110 | the method, over an array that reinjection updates in place, returns what `Process` specifies |
| `Processing.HasFragmentsIffEligible` | main.go:58-81 | a document has fragments exactly when some text node is eligible |
| `Processing.OneRequest` | main.go:79-84 | a document with fragments makes exactly one request, the joined fragments; one without makes none |
| `Processing.NoFragmentsUnchanged` | main.go:79-81 | a document without eligible nodes comes back unchanged, without error or request |
| `Processing.ServiceFailureKeepsContent` | main.go:84-87 | a failed request returns the original content with the service's error |
| `Processing.MismatchReverts` | main.go:89-94 | a reply whose piece count differs from the fragment count reverts to the original content, without error |
| `Processing.AlignedReplyReinjected` | main.go:89-109 | an aligned reply renders the tree in which each collected node holds its own piece and no other node changes |
| `Processing.PiecesReinjected` | main.go:96-102 | one piece per fragment: the tree stays well formed, each collected node holds its piece, every node that is not eligible is unchanged |
| `Processing.EchoRestoresTree` | main.go:83-109 | an echoing service renders the parsed tree itself when the fragments are separable and every collected text is `CutsetPadded` |
| `Processing.MergedDelimiterEchoShifts` | main.go:83-101 | with an echoing service, a document whose fragments are `["a\n---", "b"]` passes the count check and is rendered with `"a"` and `"---\nb"` in place of its texts |
| `Processing.EchoDelimiterReverts` | main.go:83-94 | an echoing service reverts a document in which some fragment contains the delimiter |
| `Archive.ZipWriter.constructor` | main.go:147 | `zip.NewWriter`: a writer with no entries, the state the member loop of `TranslateArchive` starts from |
| `Archive.ZipWriter.Create` | main.go:159 | a new empty entry is appended |
| `Archive.ZipWriter.Write` | main.go:173 | the bytes are appended to the last created entry |
| `Archive.IsMarkupName` | main.go:166 | a member name that ends in `.html` or `.xhtml`; it decides between `MarkupMemberWritten` and `PlainMemberCopied` |
| `Archive.ProcessMember` | main.go:177-178 | `processHTMLContent` on the member's bytes decoded to text; `Processing.Process` carries its contract |
| `Archive.MarkupBytes` | main.go:169-186 | the bytes written for a markup member: the bytes read when reading fails, the original bytes when processing fails, the encoded result otherwise; implemented by `ReadMarkup` |
| `Archive.MemberOutput` | main.go:153-193 | no entry iff open or create fails; the entry keeps the member's name; non-markup or unreadable members keep their bytes; markup members get the original bytes on error and the processed text otherwise |
| `Archive.TranslateArchive` | main.go:151-194 | the loop appends `ArchiveOutput(members)` to the writer's entries |
| `Archive.ArchiveOutput` | main.go:151-194 | the entries the member loop writes, one `MemberOutput` per member in input order; characterised by `ArchiveConcat` and `OutputFollowsKept`, implemented by `TranslateArchive` |
| `Archive.CopyMember` | main.go:153-193 | one turn of the loop appends the member's entry, if any |
| `Archive.ReadMarkup` | main.go:169-186 | the bytes chosen for a markup member: what was read when reading fails, the original bytes when processing fails, the processed text otherwise |
| `Archive.ArchiveConcat` | main.go:151-194 | the output of two runs of members is the output of each, in order |
| `Archive.OutputFollowsKept` | main.go:153-164 | one entry per member that opens and gets an entry, in input order; every other member is missing |
| `Archive.PlainMemberCopied` | main.go:187-193 | a member that is not markup is copied byte for byte |
| `Archive.MarkupMemberWritten` | main.go:166-186 | a markup member is written with its own bytes or the encoding of a successfully processed document |
| `Archive.ServiceFailureWritesOriginal` | main.go:178-182 | when the translation service fails, the member keeps its original bytes |
| `Archive.MismatchWritesOriginal` | main.go:89-94 | a markup document whose reply splits into the wrong number of pieces is written with its original bytes, through the no-error write at main.go:183-185 |
| `Archive.UntranslatedKeepsBytes` | main.go:79-80 | a markup document without fragments keeps its bytes, given a decoder the encoder inverts |

## Left out

- The Gemini client, the prompt, model selection and the unpacking of the reply (main.go:28-49) are one function parameter, `service`. It returns the reply text or an error message.
- `html.Parse` and `html.Render` (main.go:53, 105) are inputs. The parse result is a value that is assumed to be a well-formed tree (`ValidTree`). The renderer is a function from a tree to text or an error. Whether `html.Parse` can fail on some input is not modelled.
- The tree carries only what the code reads: node type, data (tag name or text) and subtree extent. Attributes, namespaces and the parent/child pointers themselves are not represented.
- Zip reading and writing and `io.ReadAll` are replaced by records. Each member says whether it opens, whether its entry can be created, and whether reading completes, with the bytes read. The decoding of bytes to the parser's text, and the encoding back, are function parameters.
- `Archive.CopyMember` writes a markup member once, with the bytes `Archive.ReadMarkup` chooses; the source has one `Write` call in each of the three branches (main.go:173, 182, 185). The bytes written are the same.
- `Archive.CopyMember` writes the non-markup member's bytes whole. An `io.Copy` failure part-way (main.go:189-191) is not modelled beyond the bytes the member record holds.
- `os.Getenv`, `os.Stat`, `os.Create`, `os.Exit`, `context`, and the deferred `Close` calls (main.go:112-148) are left out, as are all console messages (main.go:92, 150-196).
- Go strings are byte strings; the model works on decoded characters. Invalid UTF-8 is not modelled. The cutset `" \t\n\r"` is ASCII, so byte and character offsets agree for the slicing at main.go:99-100.
- `Split` and `Count` are modelled for a non-empty separator only; the code always passes `"\n---\n"`.
