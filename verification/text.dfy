/**
 String helpers the registry relies on: Ruby's ordering of strings (used to
 sort operation names), a sorted-insert that keeps a list of distinct names in
 order, substring occurrence (used to say what an error message mentions),
 the `[0..n]` prefix slice, `join`, and `sub(/>$/, ...)`.
 */
module Text {
  import opened Options

  /** Ruby's `String#<=>` as a "less than or equal" test: character by
      character, and a proper prefix sorts before the longer string. */
  predicate Le(a: string, b: string)
    decreases |a|
  {
    |a| == 0 || (|b| > 0 && (a[0] < b[0] || (a[0] == b[0] && Le(a[1..], b[1..]))))
  }

  /** Strictly before in Ruby's string order. */
  predicate Lt(a: string, b: string)
  {
    Le(a, b) && a != b
  }

  lemma {:induction false} LeTotal(a: string, b: string)
    ensures Le(a, b) || Le(b, a)
    decreases |a|
  {
    if |a| > 0 && |b| > 0 && a[0] == b[0] {
      LeTotal(a[1..], b[1..]);
    }
  }

  lemma {:induction false} LeAntisymmetric(a: string, b: string)
    requires Le(a, b) && Le(b, a)
    ensures a == b
    decreases |a|
  {
    if |a| > 0 {
      LeAntisymmetric(a[1..], b[1..]);
      assert a == [a[0]] + a[1..];
      assert b == [b[0]] + b[1..];
    }
  }

  lemma {:induction false} LeTransitive(a: string, b: string, c: string)
    requires Le(a, b) && Le(b, c)
    ensures Le(a, c)
    decreases |a|
  {
    if |a| > 0 && a[0] == b[0] && b[0] == c[0] {
      LeTransitive(a[1..], b[1..], c[1..]);
    }
  }

  lemma LtTransitive(a: string, b: string, c: string)
    requires Lt(a, b) && Lt(b, c)
    ensures Lt(a, c)
  {
    LeTransitive(a, b, c);
    if a == c {
      LeAntisymmetric(a, b);
    }
  }

  /** Not before means at or after: Ruby's order is total. */
  lemma NotLtMeansAfter(a: string, b: string)
    requires !Lt(a, b) && a != b
    ensures Lt(b, a)
  {
    LeTotal(a, b);
  }

  /** Each name strictly before the next: sorted and free of repeats. */
  predicate StrictlySorted(s: seq<string>)
  {
    forall i, j :: 0 <= i < j < |s| ==> Lt(s[i], s[j])
  }

  /** A name before every name of a sorted list can go in front of it. */
  lemma SortedCons(x: string, t: seq<string>)
    requires StrictlySorted(t)
    requires forall j :: 0 <= j < |t| ==> Lt(x, t[j])
    ensures StrictlySorted([x] + t)
  {
  }

  /** A name before all of `s` and before `k` is before all of any list
      holding `s` and `k`. */
  lemma BeforeAll(x: string, s: seq<string>, k: string, r: seq<string>)
    requires forall j :: 0 <= j < |s| ==> Lt(x, s[j])
    requires Lt(x, k)
    requires multiset(r) == multiset(s) + multiset{k}
    ensures forall j :: 0 <= j < |r| ==> Lt(x, r[j])
  {
    forall j | 0 <= j < |r|
      ensures Lt(x, r[j])
    {
      assert r[j] in multiset(r);
    }
  }

  /** Puts `k` into its place in a sorted list of names that lacks it. */
  function Insert(s: seq<string>, k: string): (r: seq<string>)
    requires StrictlySorted(s)
    requires k !in s
    ensures StrictlySorted(r)
    ensures multiset(r) == multiset(s) + multiset{k}
    decreases |s|
  {
    if |s| == 0 then [k]
    else if Lt(k, s[0]) then
      assert forall j :: 0 <= j < |s| ==> Lt(k, s[j]) by {
        forall j | 0 < j < |s| { LtTransitive(k, s[0], s[j]); }
      }
      SortedCons(k, s);
      [k] + s
    else
      var tail := s[1..];
      var rest := Insert(tail, k);
      assert s == [s[0]] + tail;
      NotLtMeansAfter(k, s[0]);
      BeforeAll(s[0], tail, k, rest);
      SortedCons(s[0], rest);
      [s[0]] + rest
  }

  lemma ElementIn<T>(s: seq<T>, i: int)
    requires 0 <= i < |s|
    ensures s[i] in s
  {
  }

  /** Two sorted listings of the same names are the same listing. */
  lemma {:induction false} SortedListingUnique(a: seq<string>, b: seq<string>)
    requires StrictlySorted(a) && StrictlySorted(b)
    requires forall x :: x in a <==> x in b
    ensures a == b
    decreases |a|
  {
    if |a| == 0 {
      if |b| > 0 {
        ElementIn(b, 0);
        assert false;
      }
    } else {
      assert a[0] in a;
      assert |b| > 0;
      assert b[0] in b;
      if a[0] != b[0] {
        var i :| 0 <= i < |a| && a[i] == b[0];
        var j :| 0 <= j < |b| && b[j] == a[0];
        assert Lt(a[0], b[0]);
        assert Lt(b[0], a[0]);
        LeAntisymmetric(a[0], b[0]);
        assert false;
      }
      forall x
        ensures x in a[1..] <==> x in b[1..]
      {
        if x in a[1..] {
          var i :| 1 <= i < |a| && a[i] == x;
          assert Lt(a[0], x);
          assert x in b;
        }
        if x in b[1..] {
          var j :| 1 <= j < |b| && b[j] == x;
          assert Lt(b[0], x);
          assert x in a;
        }
      }
      SortedListingUnique(a[1..], b[1..]);
      assert a == [a[0]] + a[1..];
      assert b == [b[0]] + b[1..];
    }
  }

  /** `t` occurs in `s` starting at offset `i`. */
  predicate OccursAt(s: string, t: string, i: nat)
  {
    i + |t| <= |s| && s[i..i + |t|] == t
  }

  /** `s.include?(t)` */
  predicate Contains(s: string, t: string)
  {
    exists i: nat | i <= |s| :: OccursAt(s, t, i)
  }

  /** A string ends with itself. */
  lemma ContainsAtEnd(a: string, t: string)
    ensures Contains(a + t, t)
  {
    assert (a + t)[|a|..|a| + |t|] == t;
    assert OccursAt(a + t, t, |a|);
  }

  /** Text appended after an occurrence keeps it. */
  lemma ContainsExtendRight(s: string, t: string, u: string)
    requires Contains(s, t)
    ensures Contains(s + u, t)
  {
    var i: nat :| i <= |s| && OccursAt(s, t, i);
    assert (s + u)[i..i + |t|] == s[i..i + |t|];
    assert OccursAt(s + u, t, i);
  }

  /** Text put in front of an occurrence keeps it, further along. */
  lemma ContainsExtendLeft(u: string, s: string, t: string)
    requires Contains(s, t)
    ensures Contains(u + s, t)
  {
    var i: nat :| i <= |s| && OccursAt(s, t, i);
    assert (u + s)[|u| + i..|u| + i + |t|] == s[i..i + |t|];
    assert OccursAt(u + s, t, |u| + i);
  }

  /** Ruby's `s[0..n-1]`: the first `n` characters, or all of `s` when it is shorter. */
  function Prefix(s: string, n: nat): (r: string)
    ensures |r| <= n
    ensures r <= s
    ensures |s| <= n ==> r == s
    ensures |s| > n ==> |r| == n
  {
    if |s| <= n then s else s[..n]
  }

  /** Ruby's `parts.join(sep)`. */
  function Join(parts: seq<string>, sep: string): (r: string)
    ensures |parts| == 1 ==> r == parts[0]
    ensures |parts| == 0 ==> r == ""
    decreases |parts|
  {
    if |parts| == 0 then ""
    else if |parts| == 1 then parts[0]
    else parts[0] + sep + Join(parts[1..], sep)
  }

  /** `join` read left to right: each piece after the first comes with the
      separator in front of it, so one more piece appends the separator and
      that piece to the text joined so far. */
  lemma {:induction false} JoinSnoc(parts: seq<string>, sep: string, p: string)
    requires |parts| > 0
    ensures Join(parts + [p], sep) == Join(parts, sep) + sep + p
    decreases |parts|
  {
    assert (parts + [p])[0] == parts[0];
    if |parts| == 1 {
      assert (parts + [p])[1..] == [p];
    } else {
      assert (parts + [p])[1..] == parts[1..] + [p];
      JoinSnoc(parts[1..], sep, p);
    }
  }

  /** Every piece handed to `Join` shows up in the joined text. */
  lemma {:induction false} JoinContainsParts(parts: seq<string>, sep: string, k: nat)
    requires k < |parts|
    ensures Contains(Join(parts, sep), parts[k])
    decreases |parts|
  {
    if |parts| == 1 {
      ContainsAtEnd("", parts[0]);
      assert "" + parts[0] == parts[0];
    } else if k == 0 {
      ContainsAtEnd("", parts[0]);
      assert "" + parts[0] == parts[0];
      ContainsExtendRight(parts[0], parts[0], sep + Join(parts[1..], sep));
      assert parts[0] + (sep + Join(parts[1..], sep)) == Join(parts, sep);
    } else {
      JoinContainsParts(parts[1..], sep, k - 1);
      assert parts[1..][k - 1] == parts[k];
      ContainsExtendLeft(parts[0] + sep, Join(parts[1..], sep), parts[k]);
    }
  }
  /** Where the pattern `/>$/` matches: a `>` at the end of a line, that is,
      followed by a newline or by the end of the text. */
  predicate ClosesLine(s: string, i: int)
  {
    0 <= i < |s| && s[i] == '>' && (i + 1 == |s| || s[i + 1] == '\n')
  }

  /** `i` is the leftmost match of `/>$/`. */
  predicate FirstClosesAt(s: string, i: int)
  {
    ClosesLine(s, i) && forall j :: 0 <= j < i ==> !ClosesLine(s, j)
  }

  /** `/>$/` does not match anywhere. */
  predicate NeverCloses(s: string)
  {
    forall j :: 0 <= j < |s| ==> !ClosesLine(s, j)
  }

  /** The leftmost match of `/>$/` at or after `from`, if any. */
  function FirstClosing(s: string, from: nat): (r: Option<nat>)
    ensures r.Some? ==> from <= r.value && ClosesLine(s, r.value)
    ensures r.Some? ==> forall j :: from <= j < r.value ==> !ClosesLine(s, j)
    ensures r.None? ==> forall j :: from <= j < |s| ==> !ClosesLine(s, j)
    decreases |s| - from
  {
    if from >= |s| then None
    else if ClosesLine(s, from) then Some(from)
    else FirstClosing(s, from + 1)
  }

  /** There is only one leftmost match. */
  lemma FirstClosesAtUnique(s: string, i: int, k: int)
    requires FirstClosesAt(s, i) && FirstClosesAt(s, k)
    ensures i == k
  {
  }

  /** Ruby's `s.sub(/>$/, rep)`: the leftmost `>` that ends a line is
      replaced by `rep`; with no such `>` the text is unchanged. */
  function SubClosing(s: string, rep: string): (r: string)
    ensures NeverCloses(s) ==> r == s
    ensures forall i :: FirstClosesAt(s, i) ==> r == s[..i] + rep + s[i + 1..]
  {
    match FirstClosing(s, 0)
    case None => s
    case Some(m) =>
      assert FirstClosesAt(s, m);
      assert forall i :: FirstClosesAt(s, i) ==> i == m by {
        forall i | FirstClosesAt(s, i) { FirstClosesAtUnique(s, i, m); }
      }
      s[..m] + rep + s[m + 1..]
  }
}
