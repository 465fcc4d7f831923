/**
 * The operations of Python's `str` that the program relies on: `startswith`,
 * and `replace` and `find` for the one-character arguments the program
 * passes (`replace` with a one-character or an empty replacement).
 * `EndsWith` is a helper for stating contracts.
 */
module PyStrings {

  /** `s.startswith(p)`: `p` is no longer than `s` and matches it position by position. */
  predicate StartsWith(s: string, p: string): (b: bool)
    ensures b <==> |p| <= |s| && forall i :: 0 <= i < |p| ==> s[i] == p[i]
  {
    |p| <= |s| && s[..|p|] == p
  }

  /** `s.endswith(p)`, used in contracts. */
  predicate EndsWith(s: string, p: string)
  {
    |p| <= |s| && s[|s| - |p|..] == p
  }

  /** `s.replace(c, d)`: every occurrence of `c` becomes `d`, position by position. */
  function ReplaceChar(s: string, c: char, d: char): (r: string)
    ensures |r| == |s|
    ensures forall i :: 0 <= i < |s| ==> r[i] == (if s[i] == c then d else s[i])
    ensures c != d ==> c !in r
  {
    seq(|s|, i requires 0 <= i < |s| => if s[i] == c then d else s[i])
  }

  /** `s.replace(c, "")`: every occurrence of `c` is dropped, the rest keep their order. */
  function DeleteChar(s: string, c: char): (r: string)
    ensures c !in r
    ensures |r| == |s| - multiset(s)[c]
  {
    if s == [] then []
    else
      assert s == [s[0]] + s[1..];
      (if s[0] == c then [] else [s[0]]) + DeleteChar(s[1..], c)
  }

  /** `s.find(c)`: the index of the first `c` in `s`, or -1 when there is none. */
  function Find(s: string, c: char): (r: int)
    ensures -1 <= r < |s|
    ensures r == -1 <==> c !in s
    ensures 0 <= r ==> s[r] == c && c !in s[..r]
  {
    if s == [] then -1
    else if s[0] == c then 0
    else
      var k := Find(s[1..], c);
      assert s[1..][..k + 1] == s[1..k + 2] by { if 0 <= k { assert s[1..][..k] == s[1..k + 1]; } }
      if k == -1 then -1 else k + 1
  }

  lemma ReplaceCharMembers(s: string, c: char, d: char, x: char)
    ensures x in ReplaceChar(s, c, d) <==> (x in s && x != c) || (x == d && c in s)
  {
    var r := ReplaceChar(s, c, d);
    if x in r {
      var i :| 0 <= i < |r| && r[i] == x;
    }
    if x in s && x != c {
      var i :| 0 <= i < |s| && s[i] == x;
      assert r[i] == x;
    }
    if x == d && c in s {
      var i :| 0 <= i < |s| && s[i] == c;
      assert r[i] == x;
    }
  }

  lemma {:induction false} DeleteCharMembers(s: string, c: char, x: char)
    ensures x in DeleteChar(s, c) <==> x in s && x != c
  {
    if s != [] {
      DeleteCharMembers(s[1..], c, x);
      assert s == [s[0]] + s[1..];
    }
  }

  lemma ReplaceCharConcat(a: string, b: string, c: char, d: char)
    ensures ReplaceChar(a + b, c, d) == ReplaceChar(a, c, d) + ReplaceChar(b, c, d)
  {
  }

  lemma {:induction false} DeleteCharConcat(a: string, b: string, c: char)
    ensures DeleteChar(a + b, c) == DeleteChar(a, c) + DeleteChar(b, c)
  {
    if a == [] {
      assert a + b == b;
    } else {
      assert (a + b)[0] == a[0];
      assert (a + b)[1..] == a[1..] + b;
      DeleteCharConcat(a[1..], b, c);
    }
  }

  /** When nothing is to be deleted, `replace(c, "")` gives back its input. */
  lemma {:induction false} DeleteCharAbsent(s: string, c: char)
    requires c !in s
    ensures DeleteChar(s, c) == s
  {
    if s != [] {
      assert c !in s[1..] by { assert forall x :: x in s[1..] ==> x in s; }
      DeleteCharAbsent(s[1..], c);
      assert s == [s[0]] + s[1..];
    }
  }

  /** Only the first `c` counts: what comes after it does not change `find`. */
  lemma FindAfterPrefix(a: string, c: char, b: string)
    requires c !in a
    ensures Find(a + [c] + b, c) == |a|
  {
    var s := a + [c] + b;
    assert s[|a|] == c;
    assert s[..|a|] == a;
  }
}
