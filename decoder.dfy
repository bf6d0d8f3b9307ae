/** The decoder that keeps one table for its lifetime: each call appends the
    alphabet's blocks to it and a successful call empties it again, so a call
    that fails half-way leaves its blocks in front of the next call's. */
module Decoder {
  import opened Common
  import opened Decimal
  import opened Alphabet
  import opened Lzw

  class LZWDecompress {
    /** The primary alphabet, sorted; fixed at construction. */
    const alphabet: seq<char>
    /** Table of blocks, code i at position i. */
    var table: seq<seq<char>>
    var blockCodeSize: nat

    predicate Valid()
      reads this
    {
      Sorted(alphabet) && Distinct(alphabet) && NonEmpty(table)
    }

    /** The C# constructor: rejects an alphabet with repeated characters, and
        otherwise keeps it sorted, with an empty table. */
    static method Create(alphabet: seq<char>) returns (r: Result<LZWDecompress>)
      ensures r.Ok? <==> Distinct(alphabet)
      ensures r.Err? ==> r.error == NotDistinct
      ensures r.Ok? ==> && fresh(r.value) && r.value.Valid() && r.value.table == []
                        && Distinct(alphabet) && r.value.alphabet == Normalize(alphabet).value
    {
      var sorted := Normalize(alphabet);
      if sorted.Err? {
        return Err(sorted.error);
      }
      var d := new LZWDecompress(sorted.value);
      return Ok(d);
    }

    constructor(sortedAlphabet: seq<char>)
      requires Sorted(sortedAlphabet) && Distinct(sortedAlphabet)
      ensures Valid() && alphabet == sortedAlphabet && table == []
    {
      alphabet := sortedAlphabet;
      table := [];
    }

    /** Appends one block per alphabet character to whatever the table holds,
        and sets the width from the resulting table size. */
    method Initialize()
      requires Valid()
      modifies this
      ensures Valid() && table == old(table) + Initial(alphabet)
      ensures blockCodeSize == CodeWidth(|table|)
    {
      ghost var stale := table;
      for i := 0 to |alphabet|
        invariant table == stale + Initial(alphabet[..i])
      {
        InitialAppend(alphabet, i);
        table := table + [[alphabet[i]]];
      }
      assert alphabet[..|alphabet|] == alphabet;
      blockCodeSize := if |table| > 0 then Digits(|table| - 1) else 0;
    }

    /** Decodes a code string against the table left by earlier calls followed
        by the alphabet's blocks; a non-digit is reported before the table is
        touched. */
    method Decrypt(message: seq<char>) returns (r: Result<seq<char>>)
      requires Valid()
      modifies this
      ensures Valid()
      ensures r == DecodeWith(old(table) + Initial(alphabet), message)
      ensures r.Ok? ==> && table == []
                        && var t0 := old(table) + Initial(alphabet);
                           blockCodeSize == DecodeState(t0, None, CodeWidth(|t0|), message).1
      ensures r.Err? && r.error.NotADigit? ==> table == old(table) && blockCodeSize == old(blockCodeSize)
      ensures r.Err? && !r.error.NotADigit? ==>
                var t0 := old(table) + Initial(alphabet);
                (table, blockCodeSize) == DecodeState(t0, None, CodeWidth(|t0|), message)
    {
      var k := CheckCode(message);
      if k < |message| {
        FirstFailureAt(message, IsDigit, k);
        return Err(NotADigit(message[k]));
      }
      FirstFailureAt(message, IsDigit, |message|);
      Initialize();
      ghost var t0 := table;
      r := DecodeMessage(message);
      if r.Ok? {
        Cleanup();
      }
    }

    /** Decrypt with the table released on every exit, not only after a
        completed decoding: a rejected code string leaves nothing behind. */
    method DecryptWithCleanup(message: seq<char>) returns (r: Result<seq<char>>)
      requires Valid() && table == []
      modifies this
      ensures Valid() && table == []
      ensures r == Decode(alphabet, message)
    {
      assert table + Initial(alphabet) == Initial(alphabet);
      r := Decrypt(message);
      Cleanup();
    }

    /** Empties the table. */
    method Cleanup()
      modifies this
      ensures table == [] && blockCodeSize == old(blockCodeSize)
    {
      table := [];
    }

    /** The position of the first character of the code string that is not a
        digit, or its length if there is none. */
    static method CheckCode(message: seq<char>) returns (k: nat)
      ensures k <= |message|
      ensures forall j :: 0 <= j < k ==> IsDigit(message[j])
      ensures k < |message| ==> !IsDigit(message[k])
    {
      for i := 0 to |message|
        invariant forall j :: 0 <= j < i ==> IsDigit(message[j])
      {
        if !IsDigit(message[i]) {
          return i;
        }
      }
      return |message|;
    }

    /** The decoding loop over a code string of digits, from the table the
        call starts with. */
    method DecodeMessage(message: seq<char>) returns (r: Result<seq<char>>)
      requires Valid()
      requires blockCodeSize == CodeWidth(|table|)
      modifies this
      ensures Valid()
      ensures r == DecodeFrom(old(table), None, CodeWidth(|old(table)|), message)
      ensures (table, blockCodeSize) == DecodeState(old(table), None, CodeWidth(|old(table)|), message)
    {
      ghost var t0 := table;
      var result := [];
      var remaining := message;
      var newBlock: Option<seq<char>> := None;
      ThenNothing(DecodeFrom(table, newBlock, blockCodeSize, remaining));
      while |remaining| > 0
        invariant Valid() && t0 <= table
        invariant newBlock.None? ==> table == t0 && blockCodeSize == CodeWidth(|t0|)
        invariant newBlock.Some? ==> newBlock.value != [] && 1 <= |table| && blockCodeSize == Digits(|table|)
        invariant DecodeFrom(t0, None, CodeWidth(|t0|), message)
               == Then(result, DecodeFrom(table, newBlock, blockCodeSize, remaining))
        invariant DecodeState(t0, None, CodeWidth(|t0|), message)
               == DecodeState(table, newBlock, blockCodeSize, remaining)
        decreases |remaining|
      {
        var ok, block, rest := DecodeBlock(remaining, newBlock);
        if !ok {
          return Err(InvalidBlockIndex);
        }
        ThenThen(result, block, DecodeFrom(table, Some(block), blockCodeSize, rest));
        result := result + block;
        remaining := rest;
        newBlock := Some(block);
      }
      assert result + [] == result;
      return Ok(result);
    }

    /** One pass of the decoding loop: reads a code group of the current
        width, resolves it against the table or the previous block, adds the
        block the previous step left open, and updates the width. */
    method DecodeBlock(remaining: seq<char>, newBlock: Option<seq<char>>)
      returns (ok: bool, block: seq<char>, rest: seq<char>)
      requires Valid() && remaining != []
      requires newBlock.None? ==> blockCodeSize == CodeWidth(|table|)
      requires newBlock.Some? ==> newBlock.value != [] && 1 <= |table| && blockCodeSize == Digits(|table|)
      modifies this
      ensures Valid()
      ensures ok ==> && old(table) <= table && |table| <= |old(table)| + 1
                     && 1 <= |table| && blockCodeSize == Digits(|table|)
      ensures !ok ==> && DecodeFrom(old(table), newBlock, old(blockCodeSize), remaining) == Err(InvalidBlockIndex)
                      && table == old(table) && blockCodeSize == old(blockCodeSize)
                      && DecodeState(old(table), newBlock, old(blockCodeSize), remaining) == (table, blockCodeSize)
      ensures ok ==> && block != [] && |rest| < |remaining|
                     && DecodeFrom(old(table), newBlock, old(blockCodeSize), remaining)
                        == Then(block, DecodeFrom(table, Some(block), blockCodeSize, rest))
                     && DecodeState(old(table), newBlock, old(blockCodeSize), remaining)
                        == DecodeState(table, Some(block), blockCodeSize, rest)
    {
      var w := blockCodeSize;
      var blockNumber := if |remaining| < w then None else TryParse(remaining[..w]);
      if blockNumber.None? || (blockNumber.value >= |table| && newBlock.None?) {
        DecodeStops(table, newBlock, w, remaining);
        return false, [], remaining;
      }
      ghost var t := table;
      block := Resolve(blockNumber.value, newBlock);
      rest := remaining[w..];
      DecodeStep(t, newBlock, w, remaining, blockNumber.value, block, table);
      UpdateWidth();
      ok := true;
    }

    /** Resolves a parsed code: a code inside the table names its block, and
        the block left open by the previous step is closed with that block's
        first character; any other code names the previous block followed by
        its own first character, which is added at once. */
    method Resolve(code: nat, newBlock: Option<seq<char>>) returns (block: seq<char>)
      requires Valid() && (newBlock.Some? ==> newBlock.value != [])
      requires code < |table| || newBlock.Some?
      modifies this
      ensures Valid() && block != [] && blockCodeSize == old(blockCodeSize)
      ensures code < |old(table)| ==>
                && old(table)[code] == block
                && table == if newBlock.Some? then old(table) + [newBlock.value + [block[0]]] else old(table)
      ensures code >= |old(table)| ==>
                && block == newBlock.value + [newBlock.value[0]] && table == old(table) + [block]
    {
      if code < |table| {
        block := table[code];
        if newBlock.Some? {
          table := table + [newBlock.value + [block[0]]];
        }
      } else {
        block := newBlock.value + [newBlock.value[0]];
        table := table + [block];
      }
    }

    /** The width check after each code: one more digit once the table count
        has gained one. */
    method UpdateWidth()
      requires Valid() && 1 <= |table| && blockCodeSize == Digits(|table| - 1)
      modifies this
      ensures Valid() && table == old(table)
      ensures blockCodeSize == NextWidth(|table|, old(blockCodeSize)) == Digits(|table|)
    {
      DigitsStep(|table| - 1);
      if Digits(|table|) > Digits(|table| - 1) {
        blockCodeSize := blockCodeSize + 1;
      }
    }
  }
}
