/** The LZW dictionary and the two codec directions as pure functions: the
    reference every encoder and decoder class is proved against.

    A dictionary is the list of blocks in the order they were assigned codes,
    so the code of a block is its position. Both sides start from one block per
    alphabet character, in sorted order. */
module Lzw {
  import opened Common
  import opened Decimal
  import opened Alphabet

  type Dict = seq<seq<char>>

  predicate NonEmpty(d: Dict)
  {
    forall i :: 0 <= i < |d| ==> d[i] != []
  }

  predicate Unique(d: Dict)
  {
    forall i, j :: 0 <= i < j < |d| ==> d[i] != d[j]
  }

  /** Every non-empty proper prefix of a block is a block too. */
  predicate PrefixClosed(d: Dict)
  {
    forall i, k :: 0 <= i < |d| && 0 < k < |d[i]| ==> d[i][..k] in d
  }

  predicate WellFormed(d: Dict)
  {
    NonEmpty(d) && Unique(d) && PrefixClosed(d)
  }

  /** Every character of r is a one-character block of d. */
  predicate Covers(d: Dict, r: seq<char>)
  {
    forall j :: 0 <= j < |r| ==> [r[j]] in d
  }

  /** The dictionary both sides start from: the i-th sorted character has code i. */
  function Initial(a: seq<char>): Dict
  {
    seq(|a|, i requires 0 <= i < |a| => [a[i]])
  }

  lemma InitialWellFormed(a: seq<char>)
    requires Distinct(a)
    ensures WellFormed(Initial(a))
  {
  }

  lemma InitialBlocks(a: seq<char>, w: seq<char>)
    ensures w in Initial(a) <==> |w| == 1 && w[0] in a
  {
    if |w| == 1 && w[0] in a {
      var i :| 0 <= i < |a| && a[i] == w[0];
      assert Initial(a)[i] == w;
    }
  }

  /** Building the initial dictionary one character at a time. */
  lemma InitialAppend(a: seq<char>, i: nat)
    requires i < |a|
    ensures Initial(a[..i + 1]) == Initial(a[..i]) + [[a[i]]]
  {
  }

  lemma InitialCovers(a: seq<char>, r: seq<char>)
    requires forall j :: 0 <= j < |r| ==> r[j] in a
    ensures Covers(Initial(a), r)
  {
    forall j | 0 <= j < |r| ensures [r[j]] in Initial(a) {
      InitialBlocks(a, [r[j]]);
    }
  }

  lemma PrefixIn(d: Dict, w: seq<char>, k: nat)
    requires PrefixClosed(d) && w in d && 0 < k <= |w|
    ensures w[..k] in d
  {
    if k < |w| {
      var i :| 0 <= i < |d| && d[i] == w;
    } else {
      assert w[..k] == w;
    }
  }

  /** The largest L <= k such that r[..L] is a block, 0 if there is none. */
  function Longest(d: Dict, r: seq<char>, k: nat): (L: nat)
    requires k <= |r|
    ensures L <= k
    ensures 0 < L ==> r[..L] in d
    ensures forall j :: L < j <= k ==> r[..j] !in d
  {
    if k == 0 then 0 else if r[..k] in d then k else Longest(d, r, k - 1)
  }

  /** The length of the longest prefix of r that is a block. */
  function Match(d: Dict, r: seq<char>): (L: nat)
    ensures L <= |r|
    ensures 0 < L ==> r[..L] in d
    ensures forall j :: L < j <= |r| ==> r[..j] !in d
    ensures Covers(d, r) && r != [] ==> 0 < L
  {
    assert r != [] ==> r[..1] == [r[0]];
    Longest(d, r, |r|)
  }

  /** Any length with Match's defining properties is the match. */
  lemma MatchUnique(d: Dict, r: seq<char>, L: nat)
    requires L <= |r|
    requires 0 < L ==> r[..L] in d
    requires forall j :: L < j <= |r| ==> r[..j] !in d
    ensures L == Match(d, r)
  {
  }

  /** When r[..L+1] is not a block (or all of r is consumed), no longer prefix is
      a block: in a prefix-closed dictionary the search can stop there. */
  lemma StopIsMatch(d: Dict, r: seq<char>, L: nat)
    requires PrefixClosed(d) && 0 < L <= |r| && r[..L] in d
    requires L < |r| ==> r[..L + 1] !in d
    ensures L == Match(d, r)
  {
    forall j | L < j <= |r| ensures r[..j] !in d {
      if r[..j] in d {
        assert r[..j][..L + 1] == r[..L + 1];
        PrefixIn(d, r[..j], L + 1);
      }
    }
    MatchUnique(d, r, L);
  }

  /** The code of a block (its last position, which is its only one in a
      dictionary whose blocks are unique). */
  function IndexOf(d: Dict, w: seq<char>): (i: nat)
    requires w in d
    ensures i < |d| && d[i] == w
  {
    var n := |d| - 1;
    if d[n] == w then n
    else
      assert d == d[..n] + [d[n]];
      IndexOf(d[..n], w)
  }

  lemma IndexOfUnique(d: Dict, w: seq<char>, i: nat)
    requires Unique(d) && i < |d| && d[i] == w
    ensures IndexOf(d, w) == i
  {
  }

  /** The hash encoders' `string -> int` table for a dictionary: block to code. */
  function TableOf(d: Dict): map<seq<char>, int>
  {
    if d == [] then map[] else TableOf(d[..|d| - 1])[d[|d| - 1] := |d| - 1]
  }

  lemma {:induction false} TableOfLookup(d: Dict, w: seq<char>)
    ensures w in TableOf(d) <==> w in d
    ensures w in d ==> TableOf(d)[w] == IndexOf(d, w)
  {
    if d != [] {
      var n := |d| - 1;
      assert d == d[..n] + [d[n]];
      TableOfLookup(d[..n], w);
    }
  }

  /** The values of the table are exactly the codes 0 .. |d|-1, one per block. */
  lemma TableOfValues(d: Dict)
    requires Unique(d)
    ensures forall w :: w in TableOf(d) ==> 0 <= TableOf(d)[w] < |d|
    ensures forall i :: 0 <= i < |d| ==> d[i] in TableOf(d) && TableOf(d)[d[i]] == i
  {
    forall w | w in TableOf(d) ensures 0 <= TableOf(d)[w] < |d| {
      TableOfLookup(d, w);
    }
    forall i | 0 <= i < |d| ensures d[i] in TableOf(d) && TableOf(d)[d[i]] == i {
      TableOfLookup(d, d[i]);
      IndexOfUnique(d, d[i], i);
    }
  }

  /** The table has one entry per block. */
  lemma {:induction false} TableSize(d: Dict)
    requires Unique(d)
    ensures |TableOf(d)| == |d|
  {
    if d != [] {
      var n := |d| - 1;
      assert Unique(d[..n]);
      TableSize(d[..n]);
      TableOfLookup(d[..n], d[n]);
      assert d[n] !in d[..n];
    }
  }

  lemma TableOfAppend(d: Dict, w: seq<char>)
    ensures TableOf(d + [w]) == TableOf(d)[w := |d|]
  {
    assert (d + [w])[..|d|] == d;
  }

  /** The table of the initial dictionary, built one character at a time. */
  lemma TableOfInitialStep(a: seq<char>, i: nat)
    requires i < |a|
    ensures TableOf(Initial(a[..i + 1])) == TableOf(Initial(a[..i]))[[a[i]] := i]
  {
    InitialAppend(a, i);
    TableOfAppend(Initial(a[..i]), [a[i]]);
  }

  /** The length of the longest block (0 for an empty dictionary). */
  function MaxLen(d: Dict): (m: nat)
    ensures forall i :: 0 <= i < |d| ==> |d[i]| <= m
    ensures d == [] ==> m == 0
    ensures d != [] ==> exists i :: 0 <= i < |d| && |d[i]| == m
  {
    if d == [] then 0
    else
      var n := |d| - 1;
      var m := MaxLen(d[..n]);
      assert forall i :: 0 <= i < n ==> d[..n][i] == d[i];
      if |d[n]| > m then |d[n]| else m
  }

  lemma MaxLenAppend(d: Dict, w: seq<char>)
    ensures MaxLen(d + [w]) == if |w| > MaxLen(d) then |w| else MaxLen(d)
  {
    assert (d + [w])[..|d|] == d;
  }

  lemma MaxLenInitial(a: seq<char>)
    ensures MaxLen(Initial(a)) == if |a| > 0 then 1 else 0
  {
  }

  lemma ExtendWellFormed(d: Dict, r: seq<char>, L: nat)
    requires WellFormed(d) && 0 < L < |r| && r[..L] in d && r[..L + 1] !in d
    ensures WellFormed(d + [r[..L + 1]])
  {
    var e := d + [r[..L + 1]];
    forall i, k | 0 <= i < |e| && 0 < k < |e[i]| ensures e[i][..k] in e {
      if i < |d| {
        assert e[i] == d[i];
      } else {
        assert e[i][..k] == r[..k];
        PrefixIn(d, r[..L], k);
        assert r[..L][..k] == r[..k];
      }
    }
  }

  /** One encoding step's effect on the dictionary: the match followed by the
      next character becomes a block, unless the match used up all of r. */
  function Extend(d: Dict, r: seq<char>): (e: Dict)
    requires WellFormed(d) && Covers(d, r) && r != []
    ensures WellFormed(e) && |d| <= |e| && e[..|d|] == d
    ensures |e| == if Match(d, r) < |r| then |d| + 1 else |d|
    ensures Match(d, r) < |r| ==> e[|d|] == r[..Match(d, r) + 1]
    ensures Covers(e, r[Match(d, r)..])
  {
    var L := Match(d, r);
    if L < |r| then
      ExtendWellFormed(d, r, L);
      d + [r[..L + 1]]
    else
      d
  }

  /** The number of digits of every code while the dictionary holds `count`
      blocks: the width of the largest code, 0 for an empty dictionary. */
  function CodeWidth(count: nat): nat
  {
    if count == 0 then 0 else Digits(count - 1)
  }

  /** The width is the least one that fits every code below count: no code
      has more digits, and the largest code has exactly that many. */
  lemma CodeWidthFits(count: nat)
    ensures forall x: nat :: x < count ==> Digits(x) <= CodeWidth(count)
    ensures count > 0 ==> exists x: nat :: x < count && Digits(x) == CodeWidth(count)
  {
    forall x: nat | x < count
      ensures Digits(x) <= CodeWidth(count)
    {
      DigitsMonotone(x, count - 1);
    }
    if count > 0 {
      assert Digits(count - 1) == CodeWidth(count);
    }
  }

  lemma CodeWidthStep(count: nat)
    requires 1 <= count
    ensures CodeWidth(count) <= CodeWidth(count + 1) <= CodeWidth(count) + 1
    ensures CodeWidth(count + 1) == Digits(count)
  {
    DigitsStep(count - 1);
  }

  lemma PadDigits(x: nat, w: nat)
    ensures AllDigits(Pad(x, w))
  {
    var s := ToDecimal(x);
    var p := Pad(x, w);
    forall i | 0 <= i < |p| ensures IsDigit(p[i]) {
      if i >= |p| - |s| {
        assert p[i] == p[|p| - |s|..][i - (|p| - |s|)];
      }
    }
  }

  /** The code string an encoder produces for r, starting from dictionary d:
      each step writes the code of the longest block that starts r, padded to the
      width of the dictionary's largest code, extends the dictionary and continues
      after the block. */
  function EncodeFrom(d: Dict, r: seq<char>): (out: seq<char>)
    requires WellFormed(d) && Covers(d, r)
    ensures AllDigits(out)
    decreases |r|
  {
    if r == [] then []
    else
      var L := Match(d, r);
      var code := IndexOf(d, r[..L]);
      var rest := EncodeFrom(Extend(d, r), r[L..]);
      PadDigits(code, CodeWidth(|d|));
      Pad(code, CodeWidth(|d|)) + rest
  }

  /** The dictionary an encoder holds after encoding r from d. */
  function Grow(d: Dict, r: seq<char>): (g: Dict)
    requires WellFormed(d) && Covers(d, r)
    ensures WellFormed(g) && |d| <= |g| && g[..|d|] == d
    decreases |r|
  {
    if r == [] then d
    else
      var g := Grow(Extend(d, r), r[Match(d, r)..]);
      assert g[..|d|] == Extend(d, r)[..|d|];
      g
  }

  /** The dictionary after one encoding step, written out. */
  lemma ExtendShape(d: Dict, r: seq<char>)
    requires WellFormed(d) && Covers(d, r) && r != []
    ensures var L := Match(d, r);
            && 0 < L <= |r| && r[..L] in d
            && (L < |r| ==> r[..L + 1] !in d && Extend(d, r) == d + [r[..L + 1]])
            && (L == |r| ==> Extend(d, r) == d)
  {
    var L := Match(d, r);
    var e := Extend(d, r);
    assert e == e[..|d|] + e[|d|..];
    if L < |r| {
      assert e[|d|..] == [r[..L + 1]];
    } else {
      assert e[|d|..] == [];
    }
  }

  /** Writing one step's code after the output so far leaves the rest of the
      encoding to be appended. */
  lemma EncodeAccumulate(d: Dict, r: seq<char>, acc: seq<char>)
    requires WellFormed(d) && Covers(d, r) && r != []
    ensures var L := Match(d, r);
            (acc + Pad(IndexOf(d, r[..L]), CodeWidth(|d|))) + EncodeFrom(Extend(d, r), r[L..])
              == acc + EncodeFrom(d, r)
  {
  }

  /** The encoders' check on each message character. */
  function InAlphabet(a: seq<char>): char -> bool
  {
    c => c in a
  }

  /** What every encoder returns for a message over a sorted, distinct alphabet:
      the first character outside the alphabet is an error, and otherwise the
      codes computed from the initial dictionary. */
  function Encode(a: seq<char>, message: seq<char>): (r: Result<seq<char>>)
    requires Distinct(a)
    ensures r.Ok? ==> AllDigits(r.value)
    ensures r.Err? ==> r.error.NotInAlphabet? && r.error.c in message && r.error.c !in a
  {
    var k := FirstFailure(message, InAlphabet(a));
    if k < |message| then Err(NotInAlphabet(message[k]))
    else
      InitialWellFormed(a);
      InitialCovers(a, message);
      Ok(EncodeFrom(Initial(a), message))
  }

  /** The dictionary an encoder ends with for an accepted message. */
  function FinalDict(a: seq<char>, message: seq<char>): Dict
    requires Distinct(a) && forall j :: 0 <= j < |message| ==> message[j] in a
  {
    InitialWellFormed(a);
    InitialCovers(a, message);
    Grow(Initial(a), message)
  }
  /** A message whose characters are all in the alphabet is encoded. */
  lemma EncodeAccepts(a: seq<char>, message: seq<char>)
    requires Distinct(a) && forall j :: 0 <= j < |message| ==> message[j] in a
    ensures WellFormed(Initial(a)) && Covers(Initial(a), message)
    ensures Encode(a, message) == Ok(EncodeFrom(Initial(a), message))
  {
    InitialWellFormed(a);
    InitialCovers(a, message);
    FirstFailureAt(message, InAlphabet(a), |message|);
  }

  /** The first character outside the alphabet is the one reported. */
  lemma EncodeRejects(a: seq<char>, message: seq<char>, k: nat)
    requires Distinct(a) && k < |message| && message[k] !in a
    requires forall j :: 0 <= j < k ==> message[j] in a
    ensures Encode(a, message) == Err(NotInAlphabet(message[k]))
  {
    FirstFailureAt(message, InAlphabet(a), k);
  }


  /** The decoders' width rule after each code: one more digit when the table
      count has just reached a power of ten. */
  function NextWidth(count: nat, w: nat): (r: nat)
    requires 1 <= count
    ensures w <= r <= w + 1
    ensures w == Digits(count - 1) ==> r == Digits(count)
  {
    DigitsStep(count - 1);
    if Digits(count) > Digits(count - 1) then w + 1 else w
  }

  /** What a decoder produces from the code string s, with table t, the block
      of the previous step (if any) and current width w. */
  function DecodeFrom(t: Dict, prev: Option<seq<char>>, w: nat, s: seq<char>): (r: Result<seq<char>>)
    requires NonEmpty(t) && (prev.Some? ==> prev.value != [])
    ensures r.Err? ==> r.error == InvalidBlockIndex
    ensures r.Ok? ==> (r.value == [] <==> s == [])
    decreases |s|
  {
    if s == [] then Ok([])
    else if |s| < w then Err(InvalidBlockIndex)
    else
      match TryParse(s[..w])
      case None => Err(InvalidBlockIndex)
      case Some(idx) =>
        if idx < |t| then
          var block := t[idx];
          var t' := if prev.Some? then t + [prev.value + [block[0]]] else t;
          Then(block, DecodeFrom(t', Some(block), NextWidth(|t'|, w), s[w..]))
        else if prev.None? then Err(InvalidBlockIndex)
        else
          var block := prev.value + [prev.value[0]];
          Then(block, DecodeFrom(t + [block], Some(block), NextWidth(|t| + 1, w), s[w..]))
  }

  /** The table and width a decoder holds when its loop over s stops, at the
      end of the input or at the code group it cannot resolve; the table only
      ever grows. */
  function DecodeState(t: Dict, prev: Option<seq<char>>, w: nat, s: seq<char>): (g: (Dict, nat))
    requires NonEmpty(t) && (prev.Some? ==> prev.value != [])
    ensures NonEmpty(g.0) && |t| <= |g.0| && g.0[..|t|] == t
    decreases |s|
  {
    if s == [] || |s| < w then (t, w)
    else
      match TryParse(s[..w])
      case None => (t, w)
      case Some(idx) =>
        if idx < |t| then
          var block := t[idx];
          var t' := if prev.Some? then t + [prev.value + [block[0]]] else t;
          var g := DecodeState(t', Some(block), NextWidth(|t'|, w), s[w..]);
          assert g.0[..|t|] == g.0[..|t'|][..|t|];
          g
        else if prev.None? then (t, w)
        else
          var block := prev.value + [prev.value[0]];
          var g := DecodeState(t + [block], Some(block), NextWidth(|t| + 1, w), s[w..]);
          assert g.0[..|t|] == g.0[..|t| + 1][..|t|];
          g
  }

  /** A decode call whose table starts as t0: a non-digit anywhere is an error
      before anything is decoded. */
  function DecodeWith(t0: Dict, code: seq<char>): (r: Result<seq<char>>)
    requires NonEmpty(t0)
    ensures !AllDigits(code) <==> r.Err? && r.error.NotADigit?
    ensures r.Err? && r.error.NotADigit? ==> r.error.c in code && !IsDigit(r.error.c)
    ensures r.Err? ==> r.error.NotADigit? || r.error == InvalidBlockIndex
    ensures r.Ok? ==> (r.value == [] <==> code == [])
  {
    var k := FirstFailure(code, IsDigit);
    if k < |code| then Err(NotADigit(code[k]))
    else DecodeFrom(t0, None, CodeWidth(|t0|), code)
  }

  /** What every decoder returns for a code string over a sorted alphabet. */
  function Decode(a: seq<char>, code: seq<char>): (r: Result<seq<char>>)
    ensures !AllDigits(code) <==> r.Err? && r.error.NotADigit?
    ensures r.Err? ==> r.error.NotADigit? || r.error == InvalidBlockIndex
    ensures r.Ok? ==> (r.value == [] <==> code == [])
  {
    DecodeWith(Initial(a), code)
  }

  /** How the decoder resolves the code of one encoding step: a code below the
      table size names the matched block and the table becomes the encoder's
      dictionary by adding `prev` plus the block's first character; the one code
      past the table names `prev` plus its own first character. */
  lemma ResolveBlock(d: Dict, t: Dict, prev: Option<seq<char>>, r: seq<char>)
    requires WellFormed(d) && Covers(d, r) && r != []
    requires prev.None? ==> t == d
    requires prev.Some? ==> prev.value != [] && d == t + [prev.value + [r[0]]]
    ensures var w := r[..Match(d, r)];
            var code := IndexOf(d, w);
            && w != [] && w[0] == r[0]
            && (code < |t| ==> t[code] == w && d == (if prev.Some? then t + [prev.value + [w[0]]] else t))
            && (code >= |t| ==> prev.Some? && w == prev.value + [prev.value[0]] && d == t + [w])
  {
    var w := r[..Match(d, r)];
  }

  /** The first code group of an encoding reads back as the first block's code. */
  lemma ReadCode(d: Dict, r: seq<char>)
    requires WellFormed(d) && Covers(d, r) && r != []
    ensures var L := Match(d, r);
            var code := IndexOf(d, r[..L]);
            var W := CodeWidth(|d|);
            var s := EncodeFrom(d, r);
            && 1 <= W <= |s|
            && TryParse(s[..W]) == Some(code)
            && s[W..] == EncodeFrom(Extend(d, r), r[L..])
  {
    var L := Match(d, r);
    var code := IndexOf(d, r[..L]);
    var W := CodeWidth(|d|);
    var rest := EncodeFrom(Extend(d, r), r[L..]);
    var s := Pad(code, W) + rest;
    assert EncodeFrom(d, r) == s;
    DigitsMonotone(code, |d| - 1);
    PadThenParse(code, W);
    assert s[..W] == Pad(code, W) && s[W..] == rest;
  }

  /** One step of DecodeFrom when the code group resolves to block w and the
      table becomes d. */
  lemma DecodeStep(t: Dict, prev: Option<seq<char>>, W: nat, s: seq<char>, code: nat, w: seq<char>, d: Dict)
    requires NonEmpty(t) && (prev.Some? ==> prev.value != [])
    requires s != [] && W <= |s| && TryParse(s[..W]) == Some(code) && w != []
    requires code < |t| ==> t[code] == w && d == (if prev.Some? then t + [prev.value + [w[0]]] else t)
    requires code >= |t| ==> prev.Some? && w == prev.value + [prev.value[0]] && d == t + [w]
    ensures NonEmpty(d) && 1 <= |d|
    ensures DecodeFrom(t, prev, W, s) == Then(w, DecodeFrom(d, Some(w), NextWidth(|d|, W), s[W..]))
    ensures DecodeState(t, prev, W, s) == DecodeState(d, Some(w), NextWidth(|d|, W), s[W..])
  {
  }

  /** A code group that is short, not a number, or past the table with no
      previous block stops the decoder with the table and width it has. */
  lemma DecodeStops(t: Dict, prev: Option<seq<char>>, W: nat, s: seq<char>)
    requires NonEmpty(t) && (prev.Some? ==> prev.value != [])
    requires s != []
    requires |s| < W || TryParse(s[..W]).None? || (TryParse(s[..W]).value >= |t| && prev.None?)
    ensures DecodeFrom(t, prev, W, s) == Err(InvalidBlockIndex)
    ensures DecodeState(t, prev, W, s) == (t, W)
  {
  }

  /** One step of the encoder seen by the decoder: it reads the step's block and
      continues from the encoder's dictionary. */
  lemma DecodeFirstBlock(d: Dict, t: Dict, prev: Option<seq<char>>, r: seq<char>)
    requires WellFormed(d) && Covers(d, r) && r != []
    requires prev.None? ==> t == d
    requires prev.Some? ==> prev.value != [] && d == t + [prev.value + [r[0]]]
    ensures NonEmpty(t) && 0 < Match(d, r) && 1 <= |d|
    ensures DecodeFrom(t, prev, CodeWidth(|d|), EncodeFrom(d, r))
         == Then(r[..Match(d, r)], DecodeFrom(d, Some(r[..Match(d, r)]), NextWidth(|d|, CodeWidth(|d|)),
                                              EncodeFrom(Extend(d, r), r[Match(d, r)..])))
  {
    assert t == d[..|t|];
    var w := r[..Match(d, r)];
    var s := EncodeFrom(d, r);
    ReadCode(d, r);
    ResolveBlock(d, t, prev, r);
    DecodeStep(t, prev, CodeWidth(|d|), s, IndexOf(d, w), w, d);
  }

  /** After a step that leaves input, the decoder's width and table match the
      encoder's state for the next step. */
  lemma NextStepState(d: Dict, r: seq<char>)
    requires WellFormed(d) && Covers(d, r) && r != [] && Match(d, r) < |r|
    ensures 1 <= |d|
    ensures NextWidth(|d|, CodeWidth(|d|)) == CodeWidth(|Extend(d, r)|)
    ensures var L := Match(d, r); Extend(d, r) == d + [r[..L] + [r[L..][0]]]
  {
    var L := Match(d, r);
    assert r[..L + 1] == r[..L] + [r[L..][0]];
    var e := Extend(d, r);
    assert e == e[..|d|] + [e[|d|]];
    CodeWidthStep(|d|);
    DigitsStep(|d| - 1);
  }

  /** The decoder rebuilds the encoder's dictionary one step behind: `t` is the
      encoder's dictionary `d` without its newest block, which is `prev` followed
      by the first character still to encode. */
  lemma {:induction false} DecodeEncoded(d: Dict, t: Dict, prev: Option<seq<char>>, r: seq<char>)
    requires WellFormed(d) && Covers(d, r)
    requires prev.None? ==> t == d
    requires prev.Some? ==> r != [] && prev.value != [] && d == t + [prev.value + [r[0]]]
    ensures NonEmpty(t)
    ensures DecodeFrom(t, prev, CodeWidth(|d|), EncodeFrom(d, r)) == Ok(r)
    decreases |r|
  {
    assert t == d[..|t|];
    if r != [] {
      var L := Match(d, r);
      assert r == r[..L] + r[L..];
      DecodeFirstBlock(d, t, prev, r);
      if L < |r| {
        NextStepState(d, r);
        DecodeEncoded(Extend(d, r), d, Some(r[..L]), r[L..]);
      } else {
        assert r[L..] == [];
      }
    }
  }

  /** Decoding what the encoders produce gives the message back. */
  lemma RoundTrip(a: seq<char>, message: seq<char>)
    requires Distinct(a) && Encode(a, message).Ok?
    ensures Decode(a, Encode(a, message).value) == Ok(message)
  {
    InitialWellFormed(a);
    InitialCovers(a, message);
    var out := EncodeFrom(Initial(a), message);
    assert FirstFailure(out, IsDigit) == |out|;
    DecodeEncoded(Initial(a), Initial(a), None, message);
  }
}
