/** The prefix tree of the tree-based encoders, kept in a pool of node slots
    addressed by position (the C# nodes are objects handed out by the pool; a
    handle here is the slot number). */
module Trie {
  import opened Alphabet
  import opened Lzw

  /** A prefix-tree node: the code of its block and its children by next
      character, each child given by its slot. */
  datatype PrefixTree = PrefixTree(number: int, nodes: map<char, nat>)

  /** A node as the pool hands it out: number 0 and no children. */
  const Cleared: PrefixTree := PrefixTree(0, map[])

  /** The string spelled from the root to slot s: the root (slot 0) spells the
      empty string and slot s >= 1 the block with code s - 1. */
  function Path(d: Dict, s: nat): seq<char>
    requires s <= |d|
  {
    if s == 0 then [] else d[s - 1]
  }

  /** The string of slot s followed by c: what an edge labelled c out of s spells. */
  function Step(d: Dict, s: nat, c: char): seq<char>
    requires s <= |d|
  {
    Path(d, s) + [c]
  }

  /** Whether the node has an edge labelled c. */
  predicate HasChild(n: PrefixTree, c: char)
  {
    c in n.nodes
  }

  /** The slot the edge labelled c leads to. */
  function Child(n: PrefixTree, c: char): nat
    requires HasChild(n, c)
  {
    n.nodes[c]
  }

  /** Slots 0 .. |d| of the pool hold a prefix tree for d: the root in slot 0,
      the block with code i in slot i + 1 and numbered i, and an edge labelled c
      out of a node exactly when the node's string followed by c is a block. */
  predicate Represents(pool: seq<PrefixTree>, d: Dict)
  {
    && |d| < |pool|
    && (forall s :: 1 <= s <= |d| ==> pool[s].number == s - 1)
    && (forall s: nat, c :: s <= |d| && HasChild(pool[s], c) ==>
          1 <= Child(pool[s], c) <= |d| && d[Child(pool[s], c) - 1] == Step(d, s, c))
    && (forall s: nat, c :: s <= |d| && Step(d, s, c) in d ==> HasChild(pool[s], c))
  }

  /** A root with no children represents the empty dictionary. */
  lemma RootAlone(pool: seq<PrefixTree>)
    requires 1 <= |pool| && pool[0].nodes == map[]
    ensures Represents(pool, [])
  {
  }

  /** Distinct slots spell distinct strings. */
  lemma PathInjective(d: Dict, s1: nat, s2: nat)
    requires WellFormed(d) && s1 <= |d| && s2 <= |d| && Path(d, s1) == Path(d, s2)
    ensures s1 == s2
  {
  }

  /** The root's children are exactly the dictionary's one-character blocks. */
  lemma RootChildren(pool: seq<PrefixTree>, d: Dict, c: char)
    requires Represents(pool, d)
    ensures HasChild(pool[0], c) <==> [c] in d
  {
    assert Step(d, 0, c) == [c];
  }

  /** Extending the node of r[..i] by r[i] spells r[..i+1]. */
  lemma StepPrefix(d: Dict, r: seq<char>, s: nat, i: nat)
    requires s <= |d| && i < |r| && Path(d, s) == r[..i]
    ensures Step(d, s, r[i]) == r[..i + 1]
  {
    assert r[..i + 1] == r[..i] + [r[i]];
  }

  /** Following an existing edge from the node of r[..i] leads to the node of r[..i+1]. */
  lemma FollowEdge(pool: seq<PrefixTree>, d: Dict, r: seq<char>, s: nat, i: nat)
    requires Represents(pool, d) && s <= |d| && i < |r| && Path(d, s) == r[..i]
    requires HasChild(pool[s], r[i])
    ensures var t := Child(pool[s], r[i]); 1 <= t <= |d| && Path(d, t) == r[..i + 1]
  {
    StepPrefix(d, r, s, i);
  }

  /** The walk stops at the longest block that starts r, and that node's number
      is the block's code. */
  lemma WalkStopsAtMatch(pool: seq<PrefixTree>, d: Dict, r: seq<char>, s: nat, i: nat)
    requires Represents(pool, d) && WellFormed(d) && Covers(d, r) && r != []
    requires s <= |d| && i <= |r| && Path(d, s) == r[..i]
    requires i < |r| ==> !HasChild(pool[s], r[i])
    ensures i == Match(d, r) && 1 <= s
    ensures pool[s].number == IndexOf(d, r[..i])
  {
    assert Step(d, 0, r[0]) == [r[0]] && [r[0]] in d;
    assert i != 0;
    assert r[..i] == d[s - 1];
    if i < |r| {
      StepPrefix(d, r, s, i);
    }
    StopIsMatch(d, r, i);
    IndexOfUnique(d, r[..i], s - 1);
  }

  /** The pool after the edge labelled c out of slot s is set to slot t. */
  function Attached(pool: seq<PrefixTree>, s: nat, c: char, t: nat): (p: seq<PrefixTree>)
    requires s < |pool|
    ensures |p| == |pool|
    ensures forall u :: 0 <= u < |p| && u != s ==> p[u] == pool[u]
    ensures p[s].number == pool[s].number && p[s].nodes == pool[s].nodes[c := t]
  {
    pool[s := PrefixTree(pool[s].number, pool[s].nodes[c := t])]
  }

  /** The pool after slot t is given the number n. */
  function Numbered(pool: seq<PrefixTree>, t: nat, n: int): (p: seq<PrefixTree>)
    requires t < |pool|
    ensures |p| == |pool|
    ensures forall u :: 0 <= u < |p| && u != t ==> p[u] == pool[u]
    ensures p[t].number == n && p[t].nodes == pool[t].nodes
  {
    pool[t := PrefixTree(n, pool[t].nodes)]
  }

  /** `n` nodes as the pool creates them. */
  function Fill(n: nat): (p: seq<PrefixTree>)
    ensures |p| == n && forall u :: 0 <= u < n ==> p[u] == Cleared
  {
    seq(n, u => Cleared)
  }

  /** Only slots 0 .. |d| matter: changing the others, or adding slots, keeps
      the tree. */
  lemma RepresentsFrame(pool: seq<PrefixTree>, pool': seq<PrefixTree>, d: Dict)
    requires Represents(pool, d) && |d| < |pool'|
    requires forall u :: 0 <= u <= |d| ==> pool'[u] == pool[u]
    ensures Represents(pool', d)
  {
  }

  /** The edges that exist after the attachment are sound. */
  lemma AttachEdges(pool: seq<PrefixTree>, d: Dict, s: nat, c: char)
    requires Represents(pool, d) && s <= |d| && !HasChild(pool[s], c)
    requires |d| + 1 < |pool| && pool[|d| + 1] == PrefixTree(|d|, map[])
    ensures var d', p' := d + [Step(d, s, c)], Attached(pool, s, c, |d| + 1);
            forall s': nat, c' :: s' <= |d'| && HasChild(p'[s'], c') ==>
              1 <= Child(p'[s'], c') <= |d'| && d'[Child(p'[s'], c') - 1] == Step(d', s', c')
  {
    var d', p' := d + [Step(d, s, c)], Attached(pool, s, c, |d| + 1);
    forall s': nat, c' | s' <= |d'| && HasChild(p'[s'], c')
      ensures 1 <= Child(p'[s'], c') <= |d'| && d'[Child(p'[s'], c') - 1] == Step(d', s', c')
    {
      assert s' <= |d|;
      assert Step(d', s', c') == Step(d, s', c');
      if s' == s && c' == c {
        assert Child(p'[s'], c') == |d| + 1;
      } else {
        assert HasChild(pool[s'], c') && Child(p'[s'], c') == Child(pool[s'], c');
        var t := Child(pool[s'], c');
        assert d'[t - 1] == d[t - 1];
      }
    }
  }

  /** No edge is missing after the attachment. */
  lemma AttachComplete(pool: seq<PrefixTree>, d: Dict, s: nat, c: char)
    requires Represents(pool, d) && WellFormed(d) && s <= |d| && !HasChild(pool[s], c)
    requires |d| + 1 < |pool| && pool[|d| + 1] == PrefixTree(|d|, map[])
    ensures var d', p' := d + [Step(d, s, c)], Attached(pool, s, c, |d| + 1);
            forall s': nat, c' :: s' <= |d'| && Step(d', s', c') in d' ==> HasChild(p'[s'], c')
  {
    var x := Step(d, s, c);
    var d', p' := d + [x], Attached(pool, s, c, |d| + 1);
    forall s': nat, c' | s' <= |d'| && Step(d', s', c') in d' ensures HasChild(p'[s'], c') {
      var y := Step(d', s', c');
      if s' == |d| + 1 {
        assert Path(d', s') == x;
        assert y != x && y[..|x|] == x;
        PrefixIn(d, y, |x|);
        assert false;
      } else if y == x {
        assert Path(d', s') == Path(d, s');
        assert Path(d, s') == y[..|y| - 1] == Path(d, s);
        PathInjective(d, s', s);
      } else {
        assert Step(d', s', c') == Step(d, s', c');
      }
    }
  }

  /** Attaching a fresh node numbered |d| under slot s by a character c that is
      not yet a child there adds exactly the block "s's string followed by c". */
  lemma Attach(pool: seq<PrefixTree>, d: Dict, s: nat, c: char)
    requires Represents(pool, d) && WellFormed(d) && s <= |d| && !HasChild(pool[s], c)
    requires |d| + 1 < |pool| && pool[|d| + 1] == PrefixTree(|d|, map[])
    ensures WellFormed(d + [Step(d, s, c)])
    ensures Represents(Attached(pool, s, c, |d| + 1), d + [Step(d, s, c)])
  {
    var x := Step(d, s, c);
    var d' := d + [x];
    forall i, k | 0 <= i < |d'| && 0 < k < |d'[i]| ensures d'[i][..k] in d' {
      if i < |d| {
        assert d'[i] == d[i];
      } else {
        assert d'[i][..k] == Path(d, s)[..k];
        if k < |Path(d, s)| {
          PrefixIn(d, Path(d, s), k);
        } else {
          assert Path(d, s)[..k] == Path(d, s) == d[s - 1];
        }
      }
    }
    AttachEdges(pool, d, s, c);
    AttachComplete(pool, d, s, c);
  }

  /** No two edges lead to the same node, and none leads back to the root: every
      node has one parent, so the slots handed out are never aliased. */
  lemma NoAliasing(pool: seq<PrefixTree>, d: Dict, s1: nat, c1: char, s2: nat, c2: char)
    requires Represents(pool, d) && WellFormed(d) && s1 <= |d| && s2 <= |d|
    requires HasChild(pool[s1], c1) && HasChild(pool[s2], c2) && (s1 != s2 || c1 != c2)
    ensures Child(pool[s1], c1) != 0
    ensures Child(pool[s1], c1) != Child(pool[s2], c2)
  {
    if Child(pool[s1], c1) == Child(pool[s2], c2) {
      var y := Step(d, s1, c1);
      assert y == Step(d, s2, c2);
      assert c1 == y[|y| - 1] == c2;
      assert Path(d, s1) == y[..|y| - 1] == Path(d, s2);
      PathInjective(d, s1, s2);
    }
  }

  /** One character of the initial dictionary: a node numbered i attached
      under the root by the i-th character. */
  lemma AttachInitial(pool: seq<PrefixTree>, a: seq<char>, i: nat)
    requires Distinct(a) && i < |a| && Represents(pool, Initial(a[..i]))
    requires i + 1 < |pool| && pool[i + 1] == PrefixTree(i, map[])
    ensures !HasChild(pool[0], a[i])
    ensures Represents(Attached(pool, 0, a[i], i + 1), Initial(a[..i + 1]))
  {
    var d := Initial(a[..i]);
    assert |d| == i;
    InitialWellFormed(a[..i]);
    InitialBlocks(a[..i], [a[i]]);
    RootChildren(pool, d, a[i]);
    Attach(pool, d, 0, a[i]);
    assert Step(d, 0, a[i]) == [a[i]];
    InitialAppend(a, i);
  }

  /** One encoding step: the node numbered |d| attached under the end of the
      walk by the next character turns the tree for d into the tree for the
      extended dictionary; the walk's end had no such child before. */
  lemma AttachNext(pool: seq<PrefixTree>, d: Dict, r: seq<char>, s: nat)
    requires Represents(pool, d) && WellFormed(d) && Covers(d, r) && r != []
    requires Match(d, r) < |r| && s <= |d| && Path(d, s) == r[..Match(d, r)]
    requires |d| + 1 < |pool| && pool[|d| + 1] == PrefixTree(|d|, map[])
    ensures !HasChild(pool[s], r[Match(d, r)])
    ensures Represents(Attached(pool, s, r[Match(d, r)], |d| + 1), Extend(d, r))
  {
    var L := Match(d, r);
    StepPrefix(d, r, s, L);
    ExtendShape(d, r);
    Attach(pool, d, s, r[L]);
  }
}
