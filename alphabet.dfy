/** The alphabet every codec class is built from: the constructors reject a
    string with a repeated character and otherwise keep its characters sorted
    (`Array.Sort` on a `char[]`, ordinal order). */
module Alphabet {
  import opened Common

  predicate Distinct(s: seq<char>)
  {
    forall i, j :: 0 <= i < j < |s| ==> s[i] != s[j]
  }

  predicate Sorted(s: seq<char>)
  {
    forall i, j :: 0 <= i < j < |s| ==> s[i] <= s[j]
  }

  function Insert(c: char, s: seq<char>): (r: seq<char>)
    requires Sorted(s)
    ensures Sorted(r) && multiset(r) == multiset(s) + multiset{c}
  {
    if s == [] then [c]
    else if c <= s[0] then SortedCons(c, s); [c] + s
    else
      var t := Insert(c, s[1..]);
      assert s == [s[0]] + s[1..];
      BoundedBelow(s[0], c, s[1..], t);
      SortedCons(s[0], t);
      [s[0]] + t
  }

  /** A sorted sequence stays sorted behind a character no larger than any of it. */
  lemma SortedCons(x: char, t: seq<char>)
    requires Sorted(t) && forall k :: 0 <= k < |t| ==> x <= t[k]
    ensures Sorted([x] + t)
  {
  }

  /** The characters of a permutation of `u` plus `c` are all at least x when
      those of `u` and `c` are. */
  lemma BoundedBelow(x: char, c: char, u: seq<char>, t: seq<char>)
    requires x <= c && forall k :: 0 <= k < |u| ==> x <= u[k]
    requires multiset(t) == multiset(u) + multiset{c}
    ensures forall k :: 0 <= k < |t| ==> x <= t[k]
  {
    forall k | 0 <= k < |t| ensures x <= t[k] {
      assert t[k] in multiset(t);
      if t[k] != c {
        assert t[k] in multiset(u);
      }
    }
  }

  /** The sorted permutation of s (insertion sort). */
  function Sort(s: seq<char>): (r: seq<char>)
    ensures Sorted(r) && multiset(r) == multiset(s)
  {
    if s == [] then []
    else
      assert s == [s[0]] + s[1..];
      Insert(s[0], Sort(s[1..]))
  }

  lemma {:induction false} DistinctCount(s: seq<char>, c: char)
    requires Distinct(s)
    ensures multiset(s)[c] <= 1
  {
    if s != [] {
      assert s == [s[0]] + s[1..];
      DistinctCount(s[1..], c);
      if s[0] == c {
        assert c !in s[1..];
      }
    }
  }

  /** A character at two positions occurs at least twice. */
  lemma RepeatCount(r: seq<char>, i: nat, j: nat)
    requires i < j < |r| && r[i] == r[j]
    ensures multiset(r)[r[i]] >= 2
  {
    assert r == r[..j] + r[j..];
    assert multiset(r) == multiset(r[..j]) + multiset(r[j..]);
    assert r[..j][i] == r[i];
    assert r[j..][0] == r[i];
  }

  /** Sorting keeps the characters distinct. */
  lemma SortKeepsDistinct(s: seq<char>)
    requires Distinct(s)
    ensures Distinct(Sort(s))
  {
    var r := Sort(s);
    forall i, j | 0 <= i < j < |r| ensures r[i] != r[j] {
      if r[i] == r[j] {
        RepeatCount(r, i, j);
        DistinctCount(s, r[i]);
        assert false;
      }
    }
  }

  /** The constructors' check and sort: a repeated character is an error,
      otherwise the characters are kept in sorted order. */
  function Normalize(s: seq<char>): (r: Result<seq<char>>)
    ensures r.Ok? <==> Distinct(s)
    ensures r.Err? ==> r.error == NotDistinct
    ensures r.Ok? ==> Sorted(r.value) && Distinct(r.value) && multiset(r.value) == multiset(s)
  {
    if Distinct(s) then SortKeepsDistinct(s); Ok(Sort(s)) else Err(NotDistinct)
  }

  /** The position where a `foreach` check of `ok` over s first fails, or |s|
      if it never does. */
  function FirstFailure(s: seq<char>, ok: char -> bool): (k: nat)
    ensures k <= |s|
    ensures forall j :: 0 <= j < k ==> ok(s[j])
    ensures k < |s| ==> !ok(s[k])
  {
    if s == [] || !ok(s[0]) then 0 else 1 + FirstFailure(s[1..], ok)
  }

  /** The three properties of FirstFailure determine it: a scan that stops at
      the first failing character (or at the end) has found it. */
  lemma FirstFailureAt(s: seq<char>, ok: char -> bool, k: nat)
    requires k <= |s|
    requires forall j :: 0 <= j < k ==> ok(s[j])
    requires k < |s| ==> !ok(s[k])
    ensures FirstFailure(s, ok) == k
  {
  }
}
