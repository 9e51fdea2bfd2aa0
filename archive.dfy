/**
 * The member loop of main: every member of the input archive is copied into
 * the output archive, markup members (.html, .xhtml) through
 * processHTMLContent, and a member that cannot be opened, or whose output
 * entry cannot be created, is skipped.
 *
 * The archive reader is replaced by a sequence of members that record what
 * the reader does with each one; the output archive is a writer object whose
 * entries grow as the loop creates and writes them.
 */
module Archive {
  import opened Wrappers
  import opened GoStrings
  import opened Markup
  import opened Batch
  import opened Processing

  newtype byte = b: int | 0 <= b < 256

  /**
   * A member of the input archive. `data` is what its reader yields: all of
   * its bytes when `readsAll` holds, the bytes before the failure otherwise.
   * `opens` and `creates` say whether opening it and creating its output
   * entry succeed.
   */
  datatype Member = Member(name: string, data: seq<byte>, opens: bool, creates: bool, readsAll: bool)

  /** An entry of the output archive. */
  datatype Entry = Entry(name: string, data: seq<byte>)

  /**
   * What the loop calls but does not define: the conversions between the
   * bytes of a member and the text the parser reads, the parser, the
   * translation service and the renderer.
   */
  datatype Environment = Environment(
    decode: seq<byte> -> string,
    encode: string -> seq<byte>,
    parse: string -> Result<seq<Node>, string>,
    service: string -> Result<string, string>,
    render: seq<Node> -> Result<string, string>)

  /** The parser yields well-formed trees. */
  ghost predicate ParsesTrees(env: Environment) {
    forall s :: env.parse(s).Success? ==> ValidTree(env.parse(s).value)
  }

  /** The output archive: entries are created one after the other and written at the end. */
  class ZipWriter {
    var entries: seq<Entry>

    constructor ()
      ensures entries == []
    {
      entries := [];
    }

    /** zip.Writer.Create: a new, empty entry that later writes go to. */
    method Create(name: string)
      modifies this
      ensures entries == old(entries) + [Entry(name, [])]
    {
      entries := entries + [Entry(name, [])];
    }

    /** Writing to the last created entry appends to its data. */
    method Write(data: seq<byte>)
      requires entries != []
      modifies this
      ensures var n := |old(entries)| - 1;
        entries == old(entries)[..n] + [old(entries)[n].(data := old(entries)[n].data + data)]
    {
      var last := entries[|entries| - 1];
      entries := entries[..|entries| - 1] + [last.(data := last.data + data)];
    }
  }

  /** Members whose names end in .html or .xhtml go through the translation. */
  predicate IsMarkupName(name: string) {
    HasSuffix(name, ".html") || HasSuffix(name, ".xhtml")
  }

  /** The outcome of processHTMLContent on the text of a member. */
  function ProcessMember(data: seq<byte>, env: Environment): Outcome
    requires ParsesTrees(env)
  {
    var html := env.decode(data);
    Process(html, env.parse(html), env.service, env.render)
  }

  /**
   * The bytes written for a markup member: what was read when reading fails,
   * the original bytes when processing fails, the processed text otherwise.
   */
  function MarkupBytes(m: Member, env: Environment): seq<byte>
    requires ParsesTrees(env)
  {
    if !m.readsAll then m.data
    else
      var o := ProcessMember(m.data, env);
      if o.err.Some? then m.data else env.encode(o.content)
  }

  /** The entry the loop writes for one member, if any. */
  function MemberOutput(m: Member, env: Environment): (r: Option<Entry>)
    requires ParsesTrees(env)
    ensures r.None? <==> !m.opens || !m.creates
    ensures r.Some? ==> r.value.name == m.name
    ensures r.Some? && !(IsMarkupName(m.name) && m.readsAll) ==> r.value.data == m.data
    ensures r.Some? && IsMarkupName(m.name) && m.readsAll ==>
      var o := ProcessMember(m.data, env);
      r.value.data == if o.err.Some? then m.data else env.encode(o.content)
  {
    if !m.opens || !m.creates then None
    else if IsMarkupName(m.name) then Some(Entry(m.name, MarkupBytes(m, env)))
    else Some(Entry(m.name, m.data))
  }

  function Entries(r: Option<Entry>): seq<Entry> {
    match r
    case None => []
    case Some(e) => [e]
  }

  /** The entries the loop writes for the members, in order. */
  function ArchiveOutput(ms: seq<Member>, env: Environment): seq<Entry>
    requires ParsesTrees(env)
    decreases |ms|
  {
    if ms == [] then []
    else ArchiveOutput(ms[..|ms| - 1], env) + Entries(MemberOutput(ms[|ms| - 1], env))
  }

  /** The loop of main over the members of the input archive. */
  method TranslateArchive(members: seq<Member>, env: Environment, w: ZipWriter)
    requires ParsesTrees(env)
    modifies w
    ensures w.entries == old(w.entries) + ArchiveOutput(members, env)
  {
    for i := 0 to |members|
      invariant w.entries == old(w.entries) + ArchiveOutput(members[..i], env)
    {
      assert members[..i + 1][..i] == members[..i];
      CopyMember(members[i], env, w);
    }
    assert members[..|members|] == members;
  }

  /** One turn of the loop: the member's entry, if it gets one, is created and written. */
  method CopyMember(m: Member, env: Environment, w: ZipWriter)
    requires ParsesTrees(env)
    modifies w
    ensures w.entries == old(w.entries) + Entries(MemberOutput(m, env))
  {
    if !m.opens {
      return;
    }
    if !m.creates {
      return;
    }
    w.Create(m.name);
    assert (old(w.entries) + [Entry(m.name, [])])[..|old(w.entries)|] == old(w.entries);
    if HasSuffix(m.name, ".html") || HasSuffix(m.name, ".xhtml") {
      var data := ReadMarkup(m, env);
      w.Write(data);
      assert [] + data == data;
    } else {
      w.Write(m.data);
      assert [] + m.data == m.data;
    }
  }

  /**
   * The markup branch of the loop: the member is read and processed, and the
   * bytes to write are chosen by whether reading and processing succeed.
   */
  method ReadMarkup(m: Member, env: Environment) returns (data: seq<byte>)
    requires ParsesTrees(env)
    ensures data == MarkupBytes(m, env)
  {
    if !m.readsAll {
      return m.data;
    }
    var html := env.decode(m.data);
    var translated, err, requests := ProcessHtmlContent(html, env.parse(html), env.service, env.render);
    assert Outcome(translated, err, requests) == ProcessMember(m.data, env);
    if err.Some? {
      data := m.data;
    } else {
      data := env.encode(translated);
    }
  }

  /** The output of two runs of members is the output of each, one after the other. */
  lemma {:induction false} ArchiveConcat(a: seq<Member>, b: seq<Member>, env: Environment)
    requires ParsesTrees(env)
    ensures ArchiveOutput(a + b, env) == ArchiveOutput(a, env) + ArchiveOutput(b, env)
    decreases |b|
  {
    if b == [] {
      assert a + b == a;
    } else {
      var k := |b| - 1;
      assert (a + b)[..|a + b| - 1] == a + b[..k];
      ArchiveConcat(a, b[..k], env);
    }
  }

  /** The members that are opened and get an output entry. */
  function Kept(ms: seq<Member>): seq<Member>
    decreases |ms|
  {
    if ms == [] then []
    else
      var m := ms[|ms| - 1];
      Kept(ms[..|ms| - 1]) + if m.opens && m.creates then [m] else []
  }

  /**
   * The output holds one entry per member that opens and gets an entry, in
   * the order of the input and under its name; every other member is missing.
   */
  lemma {:induction false} OutputFollowsKept(ms: seq<Member>, env: Environment)
    requires ParsesTrees(env)
    ensures |ArchiveOutput(ms, env)| == |Kept(ms)|
    ensures forall i :: 0 <= i < |Kept(ms)| ==>
      Some(ArchiveOutput(ms, env)[i]) == MemberOutput(Kept(ms)[i], env)
    decreases |ms|
  {
    if ms != [] {
      var pre := ms[..|ms| - 1];
      OutputFollowsKept(pre, env);
    }
  }

  /** A member that is not markup is copied byte for byte. */
  lemma PlainMemberCopied(m: Member, env: Environment)
    requires ParsesTrees(env) && m.opens && m.creates && !IsMarkupName(m.name)
    ensures ArchiveOutput([m], env) == [Entry(m.name, m.data)]
  {
    assert [m][..0] == [];
  }

  /**
   * A markup member is written either with its own bytes or with the encoding
   * of a successfully processed document.
   */
  lemma MarkupMemberWritten(m: Member, env: Environment)
    requires ParsesTrees(env) && m.opens && m.creates && IsMarkupName(m.name)
    ensures |ArchiveOutput([m], env)| == 1
    ensures var e := ArchiveOutput([m], env)[0];
      e.name == m.name
      && (e.data == m.data
          || (m.readsAll && ProcessMember(m.data, env).err.None? && e.data == env.encode(ProcessMember(m.data, env).content)))
  {
    assert [m][..0] == [];
  }

  /**
   * When the translation service fails on a member's document, the member is
   * written with its original bytes.
   */
  lemma ServiceFailureWritesOriginal(m: Member, env: Environment, t: seq<Node>)
    requires ParsesTrees(env) && m.opens && m.creates && IsMarkupName(m.name) && m.readsAll
    requires env.parse(env.decode(m.data)) == Success(t)
    requires Collect(t, 0) != [] && env.service(Combined(t)).Failure?
    ensures MemberOutput(m, env) == Some(Entry(m.name, m.data))
  {
    ServiceFailureKeepsContent(env.decode(m.data), t, env.service, env.render);
  }

  /**
   * A markup document whose translated reply does not split into one piece
   * per fragment is written with its original bytes, when encoding the
   * decoded bytes gives them back.
   */
  lemma MismatchWritesOriginal(m: Member, env: Environment, t: seq<Node>)
    requires ParsesTrees(env) && m.opens && m.creates && IsMarkupName(m.name) && m.readsAll
    requires env.encode(env.decode(m.data)) == m.data
    requires env.parse(env.decode(m.data)) == Success(t)
    requires Collect(t, 0) != [] && env.service(Combined(t)).Success?
    requires Count(env.service(Combined(t)).value, Delimiter) + 1 != |Collect(t, 0)|
    ensures MemberOutput(m, env) == Some(Entry(m.name, m.data))
  {
    MismatchReverts(env.decode(m.data), t, env.service, env.render);
  }

  /**
   * A markup document without fragments is written with its original bytes,
   * when encoding the decoded bytes gives them back.
   */
  lemma UntranslatedKeepsBytes(m: Member, env: Environment, t: seq<Node>)
    requires ParsesTrees(env) && m.opens && m.creates && IsMarkupName(m.name) && m.readsAll
    requires env.encode(env.decode(m.data)) == m.data
    requires env.parse(env.decode(m.data)) == Success(t)
    requires !exists x: nat :: Eligible(t, x)
    ensures MemberOutput(m, env) == Some(Entry(m.name, m.data))
  {
    NoFragmentsUnchanged(env.decode(m.data), t, env.service, env.render);
  }
}
