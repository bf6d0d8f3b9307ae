/** The decoder that rebuilds its table from the dictionary on every call. */
module ZipDecoder {
  import opened Common
  import opened Decimal
  import opened Alphabet
  import opened Lzw

  class ZipDecrypt {
    /** The primary dictionary (the alphabet), sorted; fixed at construction. */
    const dictionary: seq<char>
    /** Table of blocks, code i at position i; rebuilt by every call. */
    var table: seq<seq<char>>
    var blockCodeSize: nat

    predicate Valid()
      reads this
    {
      Sorted(dictionary) && Distinct(dictionary) && NonEmpty(table)
    }

    /** The C# constructor: rejects a dictionary with repeated characters, and
        otherwise keeps it sorted. */
    static method Create(dictionary: seq<char>) returns (r: Result<ZipDecrypt>)
      ensures r.Ok? <==> Distinct(dictionary)
      ensures r.Err? ==> r.error == NotDistinct
      ensures r.Ok? ==> && fresh(r.value) && r.value.Valid()
                        && Distinct(dictionary) && r.value.dictionary == Normalize(dictionary).value
    {
      var sorted := Normalize(dictionary);
      if sorted.Err? {
        return Err(sorted.error);
      }
      var d := new ZipDecrypt(sorted.value);
      return Ok(d);
    }

    constructor(sortedDictionary: seq<char>)
      requires Sorted(sortedDictionary) && Distinct(sortedDictionary)
      ensures Valid() && dictionary == sortedDictionary && table == []
    {
      dictionary := sortedDictionary;
      table := [];
    }

    /** Builds a fresh table with one block per dictionary character. */
    method Initialize()
      requires Valid()
      modifies this
      ensures Valid() && table == Initial(dictionary) && blockCodeSize == CodeWidth(|dictionary|)
    {
      table := [];
      for i := 0 to |dictionary|
        invariant table == Initial(dictionary[..i])
      {
        InitialAppend(dictionary, i);
        table := table + [[dictionary[i]]];
      }
      assert dictionary[..|dictionary|] == dictionary;
      blockCodeSize := if |table| > 0 then Digits(|table| - 1) else 0;
    }

    /** Decodes a code string; a non-digit is reported before any decoding,
        and a code group that cannot be resolved stops the call. */
    method Decrypt(message: seq<char>) returns (r: Result<seq<char>>)
      requires Valid()
      modifies this
      ensures Valid()
      ensures r == Decode(dictionary, message)
      ensures r.Err? && r.error.NotADigit? ==> table == old(table) && blockCodeSize == old(blockCodeSize)
      ensures !(r.Err? && r.error.NotADigit?) ==>
                (table, blockCodeSize) == DecodeState(Initial(dictionary), None, CodeWidth(|dictionary|), message)
    {
      var k := CheckCode(message);
      if k < |message| {
        FirstFailureAt(message, IsDigit, k);
        return Err(NotADigit(message[k]));
      }
      FirstFailureAt(message, IsDigit, |message|);
      Initialize();
      r := DecodeMessage(message);
    }

    /** The position of the first character of the code string that is not a
        digit, or its length if there is none. */
    static method CheckCode(message: seq<char>) returns (k: nat)
      ensures k <= |message|
      ensures forall j :: 0 <= j < k ==> IsDigit(message[j])
      ensures k < |message| ==> !IsDigit(message[k])
    {
      for i := 0 to |message|
        invariant forall j :: 0 <= j < i ==> IsDigit(message[j])
      {
        if !IsDigit(message[i]) {
          return i;
        }
      }
      return |message|;
    }

    /** The decoding loop over a code string of digits, from the table the
        call starts with. */
    method DecodeMessage(message: seq<char>) returns (r: Result<seq<char>>)
      requires Valid()
      requires blockCodeSize == CodeWidth(|table|)
      modifies this
      ensures Valid()
      ensures r == DecodeFrom(old(table), None, CodeWidth(|old(table)|), message)
      ensures (table, blockCodeSize) == DecodeState(old(table), None, CodeWidth(|old(table)|), message)
    {
      ghost var t0 := table;
      var result := [];
      var remaining := message;
      var newBlock: Option<seq<char>> := None;
      ThenNothing(DecodeFrom(table, newBlock, blockCodeSize, remaining));
      while |remaining| > 0
        invariant Valid() && t0 <= table
        invariant newBlock.None? ==> table == t0 && blockCodeSize == CodeWidth(|t0|)
        invariant newBlock.Some? ==> newBlock.value != [] && 1 <= |table| && blockCodeSize == Digits(|table|)
        invariant DecodeFrom(t0, None, CodeWidth(|t0|), message)
               == Then(result, DecodeFrom(table, newBlock, blockCodeSize, remaining))
        invariant DecodeState(t0, None, CodeWidth(|t0|), message)
               == DecodeState(table, newBlock, blockCodeSize, remaining)
        decreases |remaining|
      {
        var ok, block, rest := DecodeBlock(remaining, newBlock);
        if !ok {
          return Err(InvalidBlockIndex);
        }
        ThenThen(result, block, DecodeFrom(table, Some(block), blockCodeSize, rest));
        result := result + block;
        remaining := rest;
        newBlock := Some(block);
      }
      assert result + [] == result;
      return Ok(result);
    }

    /** One pass of the decoding loop: reads a code group of the current
        width, resolves it against the table or the previous block, adds the
        block the previous step left open, and updates the width. */
    method DecodeBlock(remaining: seq<char>, newBlock: Option<seq<char>>)
      returns (ok: bool, block: seq<char>, rest: seq<char>)
      requires Valid() && remaining != []
      requires newBlock.None? ==> blockCodeSize == CodeWidth(|table|)
      requires newBlock.Some? ==> newBlock.value != [] && 1 <= |table| && blockCodeSize == Digits(|table|)
      modifies this
      ensures Valid()
      ensures ok ==> && old(table) <= table && |table| <= |old(table)| + 1
                     && 1 <= |table| && blockCodeSize == Digits(|table|)
      ensures !ok ==> && DecodeFrom(old(table), newBlock, old(blockCodeSize), remaining) == Err(InvalidBlockIndex)
                      && table == old(table) && blockCodeSize == old(blockCodeSize)
                      && DecodeState(old(table), newBlock, old(blockCodeSize), remaining) == (table, blockCodeSize)
      ensures ok ==> && block != [] && |rest| < |remaining|
                     && DecodeFrom(old(table), newBlock, old(blockCodeSize), remaining)
                        == Then(block, DecodeFrom(table, Some(block), blockCodeSize, rest))
                     && DecodeState(old(table), newBlock, old(blockCodeSize), remaining)
                        == DecodeState(table, Some(block), blockCodeSize, rest)
    {
      var w := blockCodeSize;
      var blockNumber := if |remaining| < w then None else TryParse(remaining[..w]);
      if blockNumber.None? || (blockNumber.value >= |table| && newBlock.None?) {
        DecodeStops(table, newBlock, w, remaining);
        return false, [], remaining;
      }
      ghost var t := table;
      block := Resolve(blockNumber.value, newBlock);
      rest := remaining[w..];
      DecodeStep(t, newBlock, w, remaining, blockNumber.value, block, table);
      UpdateWidth();
      ok := true;
    }

    /** Resolves a parsed code: a code inside the table names its block, and
        the block left open by the previous step is closed with that block's
        first character; any other code names the previous block followed by
        its own first character, which is added at once. */
    method Resolve(code: nat, newBlock: Option<seq<char>>) returns (block: seq<char>)
      requires Valid() && (newBlock.Some? ==> newBlock.value != [])
      requires code < |table| || newBlock.Some?
      modifies this
      ensures Valid() && block != [] && blockCodeSize == old(blockCodeSize)
      ensures code < |old(table)| ==>
                && old(table)[code] == block
                && table == if newBlock.Some? then old(table) + [newBlock.value + [block[0]]] else old(table)
      ensures code >= |old(table)| ==>
                && block == newBlock.value + [newBlock.value[0]] && table == old(table) + [block]
    {
      if code < |table| {
        block := table[code];
        if newBlock.Some? {
          table := table + [newBlock.value + [block[0]]];
        }
      } else {
        block := newBlock.value + [newBlock.value[0]];
        table := table + [block];
      }
    }

    /** The width check after each code: one more digit once the table count
        has gained one. */
    method UpdateWidth()
      requires Valid() && 1 <= |table| && blockCodeSize == Digits(|table| - 1)
      modifies this
      ensures Valid() && table == old(table)
      ensures blockCodeSize == NextWidth(|table|, old(blockCodeSize)) == Digits(|table|)
    {
      DigitsStep(|table| - 1);
      if Digits(|table|) > Digits(|table| - 1) {
        blockCodeSize := blockCodeSize + 1;
      }
    }
  }
}
