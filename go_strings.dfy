/**
 * The functions of Go's `strings` package that the translation pipeline
 * relies on, over strings of decoded characters: TrimLeft and TrimRight with
 * a cutset (written TrimLeftFunc(s, InCutset) and TrimRightFunc(s, InCutset),
 * a cutset being a predicate on characters), TrimSpace, HasSuffix, Join,
 * Split and Count (the last two for a non-empty separator, matched
 * leftmost-first and without overlap, as Go does).
 */
module GoStrings {

  /** Go's unicode.IsSpace: the Latin-1 spaces plus the Unicode White_Space property. */
  predicate IsSpace(c: char) {
    c == '\t' || c == '\n' || c == '\U{000B}' || c == '\U{000C}' || c == '\r' || c == ' '
    || c == '\U{0085}' || c == '\U{00A0}' || c == '\U{1680}'
    || ('\U{2000}' <= c <= '\U{200A}')
    || c == '\U{2028}' || c == '\U{2029}' || c == '\U{202F}' || c == '\U{205F}' || c == '\U{3000}'
  }

  /** Removes the longest prefix whose characters all satisfy `p`. */
  function TrimLeftFunc(s: string, p: char -> bool): (r: string)
    ensures |r| <= |s| && r == s[|s| - |r|..]
    ensures forall i :: 0 <= i < |s| - |r| ==> p(s[i])
    ensures r != [] ==> !p(r[0])
  {
    if s != [] && p(s[0]) then TrimLeftFunc(s[1..], p) else s
  }

  /** Removes the longest suffix whose characters all satisfy `p`. */
  function TrimRightFunc(s: string, p: char -> bool): (r: string)
    ensures |r| <= |s| && r == s[..|r|]
    ensures forall i :: |r| <= i < |s| ==> p(s[i])
    ensures r != [] ==> !p(r[|r| - 1])
  {
    if s != [] && p(s[|s| - 1]) then TrimRightFunc(s[..|s| - 1], p) else s
  }

  /** strings.TrimSpace: strips leading and trailing Unicode white space. */
  function TrimSpace(s: string): string {
    TrimRightFunc(TrimLeftFunc(s, IsSpace), IsSpace)
  }

  /** A string that TrimSpace reduces to nothing. */
  predicate IsBlank(s: string) {
    TrimSpace(s) == []
  }

  lemma BlankIffAllSpace(s: string)
    ensures IsBlank(s) <==> forall i :: 0 <= i < |s| ==> IsSpace(s[i])
  {
    var l := TrimLeftFunc(s, IsSpace);
    if l != [] {
      assert !IsSpace(l[0]) && l[0] == s[|s| - |l|];
      assert TrimRightFunc(l, IsSpace) != [];
    }
  }

  /** TrimLeftFunc removes exactly the prefix before the first character failing `p`. */
  lemma {:induction false} TrimLeftUnique(s: string, p: char -> bool, k: nat)
    requires k <= |s| && (forall i :: 0 <= i < k ==> p(s[i])) && (k < |s| ==> !p(s[k]))
    ensures TrimLeftFunc(s, p) == s[k..]
    decreases k
  {
    if k > 0 {
      var tail := s[1..];
      assert forall i :: 0 <= i < k - 1 ==> tail[i] == s[i + 1];
      assert k - 1 < |tail| ==> tail[k - 1] == s[k];
      TrimLeftUnique(tail, p, k - 1);
      assert tail[k - 1..] == s[k..];
    }
  }

  /** TrimRightFunc keeps exactly the prefix up to the last character failing `p`. */
  lemma {:induction false} TrimRightUnique(s: string, p: char -> bool, k: nat)
    requires k <= |s| && (forall i :: k <= i < |s| ==> p(s[i])) && (k > 0 ==> !p(s[k - 1]))
    ensures TrimRightFunc(s, p) == s[..k]
    decreases |s| - k
  {
    if k < |s| {
      var init := s[..|s| - 1];
      assert forall i :: k <= i < |init| ==> init[i] == s[i];
      assert k > 0 ==> init[k - 1] == s[k - 1];
      TrimRightUnique(init, p, k);
      assert init[..k] == s[..k];
    }
  }

  /** TrimSpace keeps exactly the stretch from the first to the last non-space character. */
  lemma TrimSpaceBetween(s: string, a: nat, b: nat)
    requires a < b <= |s| && !IsSpace(s[a]) && !IsSpace(s[b - 1])
    requires forall i :: 0 <= i < a ==> IsSpace(s[i])
    requires forall i :: b <= i < |s| ==> IsSpace(s[i])
    ensures TrimSpace(s) == s[a..b]
  {
    TrimLeftUnique(s, IsSpace, a);
    var left := TrimLeftFunc(s, IsSpace);
    assert left == s[a..];
    TrimRightAfter(s, a, b, left);
    assert TrimSpace(s) == TrimRightFunc(left, IsSpace);
  }

  lemma TrimRightAfter(s: string, a: nat, b: nat, left: string)
    requires a < b <= |s| && !IsSpace(s[b - 1]) && left == s[a..]
    requires forall i :: b <= i < |s| ==> IsSpace(s[i])
    ensures TrimRightFunc(left, IsSpace) == s[a..b]
  {
    assert forall i :: b - a <= i < |left| ==> IsSpace(left[i]) by {
      forall i | b - a <= i < |left| ensures IsSpace(left[i]) {
        assert left[i] == s[a + i];
      }
    }
    assert left[b - a - 1] == s[b - 1];
    TrimRightUnique(left, IsSpace, b - a);
    assert left[..b - a] == s[a..b];
  }

  /** TrimSpace leaves nothing to trim. */
  lemma TrimSpaceIdempotent(s: string)
    ensures TrimSpace(TrimSpace(s)) == TrimSpace(s)
  {
    var r := TrimSpace(s);
    var l := TrimLeftFunc(s, IsSpace);
    if r != [] {
      assert r == l[..|r|];
      assert !IsSpace(r[0]) by {
        assert r[0] == l[0];
      }
      assert TrimLeftFunc(r, IsSpace) == r;
      assert TrimRightFunc(r, IsSpace) == r;
    }
  }

  predicate HasSuffix(s: string, suffix: string) {
    |suffix| <= |s| && s[|s| - |suffix|..] == suffix
  }

  /** `sep` occurs in `s` starting at index `i`. */
  predicate OccursAt(s: string, sep: string, i: nat) {
    i + |sep| <= |s| && s[i..i + |sep|] == sep
  }

  predicate Contains(s: string, sep: string) {
    exists i: nat | i <= |s| :: OccursAt(s, sep, i)
  }

  /** strings.Join. */
  function Join(xs: seq<string>, sep: string): string {
    if |xs| == 0 then []
    else if |xs| == 1 then xs[0]
    else xs[0] + sep + Join(xs[1..], sep)
  }

  /** strings.Count for a non-empty separator: leftmost, non-overlapping occurrences. */
  function Count(s: string, sep: string): nat
    requires sep != []
    decreases |s|
  {
    if OccursAt(s, sep, 0) then 1 + Count(s[|sep|..], sep)
    else if s == [] then 0
    else Count(s[1..], sep)
  }

  lemma {:induction false} CountPositiveIffContains(s: string, sep: string)
    requires sep != []
    ensures Count(s, sep) > 0 <==> Contains(s, sep)
    decreases |s|
  {
    if OccursAt(s, sep, 0) {
      assert Contains(s, sep);
    } else if s != [] {
      CountPositiveIffContains(s[1..], sep);
      if Contains(s, sep) {
        var i: nat :| i <= |s| && OccursAt(s, sep, i);
        assert i > 0;
        assert s[1..][i - 1..i - 1 + |sep|] == s[i..i + |sep|];
        assert OccursAt(s[1..], sep, i - 1);
      }
      if Contains(s[1..], sep) {
        var i: nat :| i <= |s[1..]| && OccursAt(s[1..], sep, i);
        assert s[1..][i..i + |sep|] == s[i + 1..i + 1 + |sep|];
        assert OccursAt(s, sep, i + 1);
      }
    }
  }

  /**
   * strings.Split for a non-empty separator: the pieces between the
   * leftmost non-overlapping occurrences of `sep`.
   */
  function Split(s: string, sep: string): (r: seq<string>)
    requires sep != []
    ensures |r| == Count(s, sep) + 1
    decreases |s|
  {
    if OccursAt(s, sep, 0) then [[]] + Split(s[|sep|..], sep)
    else if s == [] then [[]]
    else
      var rest := Split(s[1..], sep);
      [[s[0]] + rest[0]] + rest[1..]
  }

  lemma JoinCons(x: string, xs: seq<string>, sep: string)
    requires xs != []
    ensures Join([x] + xs, sep) == x + sep + Join(xs, sep)
  {
    assert ([x] + xs)[1..] == xs;
  }

  /** Joining the pieces of a split with the same separator gives back the string. */
  lemma {:induction false} JoinSplit(s: string, sep: string)
    requires sep != []
    ensures Join(Split(s, sep), sep) == s
    decreases |s|
  {
    if OccursAt(s, sep, 0) {
      JoinSplit(s[|sep|..], sep);
      JoinSplitAtSeparator(s, sep);
    } else if s != [] {
      JoinSplit(s[1..], sep);
      JoinSplitAtChar(s, sep);
    }
  }

  /** The round trip extends over a separator at the front. */
  lemma JoinSplitAtSeparator(s: string, sep: string)
    requires sep != [] && OccursAt(s, sep, 0)
    requires Join(Split(s[|sep|..], sep), sep) == s[|sep|..]
    ensures Join(Split(s, sep), sep) == s
  {
    var rest := Split(s[|sep|..], sep);
    assert Split(s, sep) == [[]] + rest;
    JoinCons([], rest, sep);
    assert [] + sep == sep == s[..|sep|];
    TakeDrop(s, |sep|);
  }

  lemma TakeDrop(s: string, k: nat)
    requires k <= |s|
    ensures s[..k] + s[k..] == s
  {
  }

  /** The round trip extends over a character that does not start a separator. */
  lemma JoinSplitAtChar(s: string, sep: string)
    requires sep != [] && s != [] && !OccursAt(s, sep, 0)
    requires Join(Split(s[1..], sep), sep) == s[1..]
    ensures Join(Split(s, sep), sep) == s
  {
    var rest := Split(s[1..], sep);
    var head := [s[0]] + rest[0];
    assert Split(s, sep) == [head] + rest[1..];
    if |rest| == 1 {
      assert [head] + rest[1..] == [head];
      assert Join(rest, sep) == rest[0];
    } else {
      var tail := Join(rest[1..], sep);
      JoinCons(head, rest[1..], sep);
      assert [rest[0]] + rest[1..] == rest;
      JoinCons(rest[0], rest[1..], sep);
      PrependAssoc([s[0]], rest[0], sep, tail);
    }
    assert s == [s[0]] + s[1..];
  }

  lemma PrependAssoc(a: string, b: string, c: string, d: string)
    ensures a + b + c + d == a + (b + c + d)
  {
  }

  /** A string without the separator splits into itself alone. */
  lemma {:induction false} SplitWithoutSeparator(s: string, sep: string)
    requires sep != [] && !Contains(s, sep)
    ensures Split(s, sep) == [s]
    decreases |s|
  {
    assert !OccursAt(s, sep, 0);
    if s != [] {
      assert !Contains(s[1..], sep) by {
        forall i: nat | OccursAt(s[1..], sep, i) ensures OccursAt(s, sep, i + 1) {
          assert s[i + 1..i + 1 + |sep|] == s[1..][i..i + |sep|];
        }
      }
      SplitWithoutSeparator(s[1..], sep);
      assert s == [s[0]] + s[1..];
    }
  }

  /** A string shorter than the separator holds no occurrence of it. */
  lemma {:induction false} CountShort(s: string, sep: string)
    requires sep != [] && |s| < |sep|
    ensures Count(s, sep) == 0
    decreases |s|
  {
    if s != [] {
      CountShort(s[1..], sep);
    }
  }

  /** Dropping the first character never adds an occurrence. */
  lemma {:induction false} CountDropFirst(s: string, sep: string)
    requires sep != [] && s != []
    ensures Count(s[1..], sep) <= Count(s, sep)
    decreases |s|, 0, 0
  {
    if OccursAt(s, sep, 0) {
      CountDropUpTo(s[1..], sep, |sep| - 1);
      assert s[1..][|sep| - 1..] == s[|sep|..];
    }
  }

  /** Dropping a prefix never adds an occurrence. */
  lemma {:induction false} CountSuffix(s: string, sep: string, k: nat)
    requires sep != [] && k <= |s|
    ensures Count(s[k..], sep) <= Count(s, sep)
    decreases |s|, 1, k
  {
    if k > 0 {
      var u := s[k - 1..];
      CountDropFirst(u, sep);
      assert u[1..] == s[k..];
      CountSuffix(s, sep, k - 1);
    }
  }

  /** Dropping at most one separator's length removes at most one occurrence. */
  lemma {:induction false} CountDropUpTo(t: string, sep: string, m: nat)
    requires sep != [] && m <= |sep| && m <= |t|
    ensures Count(t, sep) <= 1 + Count(t[m..], sep)
    decreases |t|, 0, 0
  {
    if m > 0 {
      if OccursAt(t, sep, 0) {
        CountSuffix(t[m..], sep, |sep| - m);
        assert t[m..][|sep| - m..] == t[|sep|..];
      } else {
        CountDropUpTo(t[1..], sep, m - 1);
        assert t[1..][m - 1..] == t[m..];
      }
    }
  }

  /** Occurrences in two strings stay occurrences in their concatenation. */
  lemma {:induction false} CountConcat(a: string, b: string, sep: string)
    requires sep != []
    ensures Count(a, sep) + Count(b, sep) <= Count(a + b, sep)
    decreases |a|
  {
    if a == [] {
      assert a + b == b;
    } else if |a| >= |sep| {
      assert (a + b)[..|sep|] == a[..|sep|];
      if OccursAt(a, sep, 0) {
        assert (a + b)[|sep|..] == a[|sep|..] + b;
        CountConcat(a[|sep|..], b, sep);
      } else {
        assert (a + b)[1..] == a[1..] + b;
        CountConcat(a[1..], b, sep);
      }
    } else {
      CountShort(a, sep);
      if OccursAt(a + b, sep, 0) {
        assert (a + b)[|sep|..] == b[|sep| - |a|..];
        CountDropUpTo(b, sep, |sep| - |a|);
      } else {
        assert (a + b)[1..] == a[1..] + b;
        CountConcat(a[1..], b, sep);
        CountShort(a[1..], sep);
      }
    }
  }
}
