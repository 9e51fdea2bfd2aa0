/**
 * The batch alignment protocol: all fragments of one document travel in a
 * single translation request, joined with a fixed delimiter, and the reply is
 * split on the same delimiter. The count check that follows relies on the
 * facts proved here.
 */
module Batch {
  import opened GoStrings

  /** The separator placed between fragments of one request. */
  const Delimiter: string := "\n---\n"

  /**
   * The delimiter without its final newline: a fragment that ends in it forms
   * a delimiter with the first newline of the delimiter that follows it.
   */
  const DelimiterHead: string := "\n---"

  /**
   * Fragments whose joined form splits back into themselves: none contains the
   * delimiter, and none but the last ends in "\n---", which would otherwise
   * merge with the delimiter that follows it.
   */
  predicate Separable(xs: seq<string>) {
    forall i :: 0 <= i < |xs| ==>
      !Contains(xs[i], Delimiter) && (i < |xs| - 1 ==> !HasSuffix(xs[i], DelimiterHead))
  }

  /** Some fragment carries the delimiter inside it. */
  predicate SomeContainsDelimiter(xs: seq<string>) {
    exists i :: 0 <= i < |xs| && Contains(xs[i], Delimiter)
  }

  /** The first piece of a split is a separable fragment followed by the delimiter. */
  lemma {:induction false} SplitAfterFragment(x: string, rest: string)
    requires !Contains(x, Delimiter) && !HasSuffix(x, DelimiterHead)
    ensures Split(x + Delimiter + rest, Delimiter) == [x] + Split(rest, Delimiter)
    decreases |x|
  {
    var s := x + Delimiter + rest;
    if x == [] {
      assert s == Delimiter + rest;
      assert OccursAt(s, Delimiter, 0);
      assert s[|Delimiter|..] == rest;
    } else {
      DelimiterNotAtFront(x, rest);
      FragmentTail(x);
      SplitAfterFragment(x[1..], rest);
      SplitAfterChar(x, rest);
    }
  }

  /** A non-empty fragment followed by the delimiter does not start with the delimiter. */
  lemma DelimiterNotAtFront(x: string, rest: string)
    requires x != [] && !Contains(x, Delimiter) && !HasSuffix(x, DelimiterHead)
    ensures !OccursAt(x + Delimiter + rest, Delimiter, 0)
  {
    var s := x + Delimiter + rest;
    if |x| >= 5 {
      assert !OccursAt(x, Delimiter, 0);
      assert s[..5] == x[..5];
    } else if |x| < 4 {
      assert s[|x|] == '\n' && Delimiter[|x|] == '-';
    } else {
      assert x[|x| - 4..] == x;
      assert s[..5][..4] == s[..4] == x;
      assert Delimiter[..4] == DelimiterHead;
    }
  }

  /** The first piece grows by a character that does not start a delimiter. */
  lemma SplitAfterChar(x: string, rest: string)
    requires x != [] && !OccursAt(x + Delimiter + rest, Delimiter, 0)
    requires Split(x[1..] + Delimiter + rest, Delimiter) == [x[1..]] + Split(rest, Delimiter)
    ensures Split(x + Delimiter + rest, Delimiter) == [x] + Split(rest, Delimiter)
  {
    var s := x + Delimiter + rest;
    assert s[1..] == x[1..] + Delimiter + rest;
    var r := Split(s[1..], Delimiter);
    assert Split(s, Delimiter) == [[s[0]] + r[0]] + r[1..];
    assert r[0] == x[1..] && r[1..] == Split(rest, Delimiter);
    assert [s[0]] + x[1..] == x;
  }

  /** Dropping the first character of such a fragment keeps both conditions. */
  lemma FragmentTail(x: string)
    requires x != [] && !Contains(x, Delimiter) && !HasSuffix(x, DelimiterHead)
    ensures !Contains(x[1..], Delimiter) && !HasSuffix(x[1..], DelimiterHead)
  {
    var tail := x[1..];
    forall i: nat | i <= |tail| && OccursAt(tail, Delimiter, i)
      ensures OccursAt(x, Delimiter, i + 1)
    {
      assert x[i + 1..i + 1 + |Delimiter|] == tail[i..i + |Delimiter|];
    }
    if |tail| >= 4 {
      assert tail[|tail| - 4..] == x[|x| - 4..];
    }
  }

  /** Joining separable fragments and splitting the result gives them back. */
  lemma {:induction false} SplitJoin(xs: seq<string>)
    requires xs != [] && Separable(xs)
    ensures Split(Join(xs, Delimiter), Delimiter) == xs
    decreases |xs|
  {
    if |xs| == 1 {
      SplitWithoutSeparator(xs[0], Delimiter);
    } else {
      var rest := xs[1..];
      assert Separable(rest) by {
        forall i | 0 <= i < |rest|
          ensures !Contains(rest[i], Delimiter) && (i < |rest| - 1 ==> !HasSuffix(rest[i], DelimiterHead))
        {
          assert rest[i] == xs[i + 1];
        }
      }
      SplitJoin(rest);
      SplitAfterFragment(xs[0], Join(rest, Delimiter));
      assert [xs[0]] + rest == xs;
    }
  }

  /**
   * The side condition of SplitJoin cannot be dropped: two fragments that
   * contain no delimiter, the first ending in "\n---", come back as two pieces
   * with their text shifted from one to the other.
   */
  lemma MergedDelimiterShiftsText()
    ensures Split(Join(["a\n---", "b"], Delimiter), Delimiter) == ["a", "---\nb"]
  {
    var s := Join(["a\n---", "b"], Delimiter);
    var tail := "---\nb";
    assert s == "a\n---" + Delimiter + "b";
    assert !OccursAt(s, Delimiter, 0) by {
      assert s[..5][0] == 'a';
    }
    assert s[1..] == Delimiter + tail;
    assert !Contains(tail, Delimiter) by {
      forall i: nat | i <= |tail| ensures !OccursAt(tail, Delimiter, i) {
        if i == 0 {
          assert tail[..5][0] == '-';
        }
      }
    }
    SplitAfterFragment([], tail);
    assert [] + Delimiter + tail == Delimiter + tail;
    SplitWithoutSeparator(tail, Delimiter);
    var pieces := Split(s[1..], Delimiter);
    assert pieces == [[], tail];
    assert Split(s, Delimiter) == [[s[0]] + pieces[0]] + pieces[1..];
    assert [s[0]] + pieces[0] == "a" && pieces[1..] == [tail];
  }

  /** Each join adds one delimiter occurrence, and a fragment containing one adds more. */
  lemma {:induction false} JoinCount(xs: seq<string>)
    requires xs != []
    ensures Count(Join(xs, Delimiter), Delimiter) >= |xs| - 1
    ensures SomeContainsDelimiter(xs) ==> Count(Join(xs, Delimiter), Delimiter) >= |xs|
    decreases |xs|
  {
    CountPositiveIffContains(xs[0], Delimiter);
    if |xs| > 1 {
      var rest := xs[1..];
      var j := Join(rest, Delimiter);
      JoinCount(rest);
      assert Count(Delimiter + j, Delimiter) == 1 + Count(j, Delimiter) by {
        assert OccursAt(Delimiter + j, Delimiter, 0);
        assert (Delimiter + j)[|Delimiter|..] == j;
      }
      assert Join(xs, Delimiter) == xs[0] + (Delimiter + j);
      CountConcat(xs[0], Delimiter + j, Delimiter);
      if SomeContainsDelimiter(xs) && !Contains(xs[0], Delimiter) {
        var i :| 0 <= i < |xs| && Contains(xs[i], Delimiter);
        assert rest[i - 1] == xs[i];
      }
    }
  }

  /** A fragment that contains the delimiter makes an echoed request split into too many pieces. */
  lemma DelimiterInFragmentOvercounts(xs: seq<string>)
    requires xs != [] && SomeContainsDelimiter(xs)
    ensures |Split(Join(xs, Delimiter), Delimiter)| > |xs|
  {
    JoinCount(xs);
  }
}
