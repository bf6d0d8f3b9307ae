/** The hash-table encoder: blocks are looked up in a `string -> int` table and
    the length of the next block is found by binary search between 1 and the
    length of the largest block. */
module HashEncoder {
  import opened Common
  import opened Decimal
  import opened Alphabet
  import opened Lzw

  class LZWCompress {
    /** The alphabet, sorted; fixed at construction. */
    const alphabet: seq<char>
    /** Table of block codes. Between calls it is empty, or still holds the
        initial blocks when the previous call rejected its message. */
    var table: map<seq<char>, int>
    var nextBlockIndex: int
    var maxBlockSize: int
    var blockCodeSize: int

    predicate Valid()
      reads this
    {
      && Sorted(alphabet) && Distinct(alphabet)
      && (table == map[] || table == TableOf(Initial(alphabet)))
    }

    /** The C# constructor: rejects an alphabet with repeated characters, and
        otherwise keeps it sorted, with an empty table. */
    static method Create(alphabet: seq<char>) returns (r: Result<LZWCompress>)
      ensures r.Ok? <==> Distinct(alphabet)
      ensures r.Err? ==> r.error == NotDistinct
      ensures r.Ok? ==> && fresh(r.value) && r.value.Valid() && r.value.table == map[]
                        && Distinct(alphabet) && r.value.alphabet == Normalize(alphabet).value
    {
      var sorted := Normalize(alphabet);
      if sorted.Err? {
        return Err(sorted.error);
      }
      var c := new LZWCompress(sorted.value);
      return Ok(c);
    }

    constructor(sortedAlphabet: seq<char>)
      requires Sorted(sortedAlphabet) && Distinct(sortedAlphabet)
      ensures Valid() && alphabet == sortedAlphabet && table == map[]
    {
      alphabet := sortedAlphabet;
      table := map[];
    }

    /** Fills the table with one block per alphabet character. Adding a key the
        table already holds fails (the .NET dictionary throws), which happens
        exactly when the previous call left the initial blocks behind. */
    method Initialize() returns (ok: bool)
      requires Valid()
      modifies this
      ensures Valid()
      ensures ok <==> old(table) == map[]
      ensures ok ==> && table == TableOf(Initial(alphabet)) && nextBlockIndex == |alphabet|
                     && maxBlockSize == MaxLen(Initial(alphabet))
                     && blockCodeSize == CodeWidth(|alphabet|)
      ensures !ok ==> && table == old(table) && nextBlockIndex == 1 && maxBlockSize == 1
                      && blockCodeSize == old(blockCodeSize)
    {
      maxBlockSize := if |alphabet| > 0 then 1 else 0;
      nextBlockIndex := 0;
      InitialWellFormed(alphabet);
      ghost var stale := table != map[];
      if stale {
        assert Initial(alphabet) != [];
        assert Initial(alphabet)[0] == [alphabet[0]];
        TableOfLookup(Initial(alphabet), [alphabet[0]]);
      }
      for i := 0 to |alphabet|
        invariant nextBlockIndex == i
        invariant maxBlockSize == (if |alphabet| > 0 then 1 else 0)
        invariant blockCodeSize == old(blockCodeSize)
        invariant !stale ==> table == TableOf(Initial(alphabet[..i]))
        invariant stale ==> i == 0 && table == old(table) && [alphabet[0]] in table
      {
        var key := [alphabet[i]];
        if !stale {
          InitialBlocks(alphabet[..i], key);
          TableOfLookup(Initial(alphabet[..i]), key);
        }
        if key in table {
          nextBlockIndex := nextBlockIndex + 1;
          return false;
        }
        TableOfInitialStep(alphabet, i);
        table := table[key := nextBlockIndex];
        nextBlockIndex := nextBlockIndex + 1;
      }
      assert alphabet[..|alphabet|] == alphabet;
      TableSize(Initial(alphabet));
      MaxLenInitial(alphabet);
      blockCodeSize := if |table| > 0 then Digits(|table| - 1) else 0;
      return true;
    }

    /** Length of the longest block that starts `remaining`, by binary search
        over the block lengths 1 .. min(maxBlockSize, |remaining|). */
    method FindBlock(remaining: seq<char>, ghost dict: Dict) returns (size: nat)
      requires table == TableOf(dict) && maxBlockSize == MaxLen(dict)
      requires WellFormed(dict) && Covers(dict, remaining) && remaining != []
      ensures size == Match(dict, remaining)
    {
      assert remaining[..1] == [remaining[0]];
      var l, r := 1, if maxBlockSize < |remaining| then maxBlockSize else |remaining|;
      while l != r
        invariant 1 <= l <= r <= |remaining|
        invariant remaining[..l] in dict
        invariant forall j :: r < j <= |remaining| ==> remaining[..j] !in dict
        decreases r - l
      {
        var middle := (l + r) / 2;
        if middle == l {
          middle := middle + 1;
        }
        TableOfLookup(dict, remaining[..middle]);
        if remaining[..middle] in table {
          l := middle;
        } else {
          forall j | middle <= j <= |remaining| ensures remaining[..j] !in dict {
            if remaining[..j] in dict {
              assert remaining[..j][..middle] == remaining[..middle];
              PrefixIn(dict, remaining[..j], middle);
            }
          }
          r := middle - 1;
        }
      }
      StopIsMatch(dict, remaining, r);
      return r;
    }

    /** Encodes a message. A character outside the alphabet is an error; the
        table is cleared only when the encoding completes. */
    method Encrypt(message: seq<char>) returns (r: Result<seq<char>>)
      requires Valid()
      modifies this
      ensures Valid()
      ensures old(table) != map[] ==> && r == Err(DuplicateKey) && table == old(table)
                                      && nextBlockIndex == 1 && maxBlockSize == 1
                                      && blockCodeSize == old(blockCodeSize)
      ensures old(table) == map[] ==> r == Encode(alphabet, message)
      ensures r.Ok? ==> && (forall j :: 0 <= j < |message| ==> message[j] in alphabet)
                        && table == map[]
                        && nextBlockIndex == |FinalDict(alphabet, message)|
                        && maxBlockSize == MaxLen(FinalDict(alphabet, message))
                        && blockCodeSize == CodeWidth(|FinalDict(alphabet, message)|)
      ensures old(table) == map[] && r.Err? ==>
                && table == TableOf(Initial(alphabet)) && nextBlockIndex == |alphabet|
                && maxBlockSize == MaxLen(Initial(alphabet)) && blockCodeSize == CodeWidth(|alphabet|)
    {
      var ok := Initialize();
      if !ok {
        return Err(DuplicateKey);
      }
      var k := CheckMessage(message);
      if k < |message| {
        EncodeRejects(alphabet, message, k);
        return Err(NotInAlphabet(message[k]));
      }
      var result := EncodeMessage(message);
      Cleanup();
      return Ok(result);
    }

    /** Encrypt with the table released on every exit, not only after a
        completed encoding: the object stays usable after a rejected message. */
    method EncryptWithCleanup(message: seq<char>) returns (r: Result<seq<char>>)
      requires Valid() && table == map[]
      modifies this
      ensures Valid() && table == map[]
      ensures r == Encode(alphabet, message)
    {
      r := Encrypt(message);
      Cleanup();
    }

    /** The position of the first message character that is not a block of
        the freshly initialized table, or the message length if there is none. */
    method CheckMessage(message: seq<char>) returns (k: nat)
      requires table == TableOf(Initial(alphabet))
      ensures k <= |message|
      ensures forall j :: 0 <= j < k ==> message[j] in alphabet
      ensures k < |message| ==> message[k] !in alphabet
    {
      for i := 0 to |message|
        invariant forall j :: 0 <= j < i ==> message[j] in alphabet
      {
        TableOfLookup(Initial(alphabet), [message[i]]);
        InitialBlocks(alphabet, [message[i]]);
        if [message[i]] !in table {
          return i;
        }
      }
      return |message|;
    }

    /** The encoding loop over an accepted message, from the initialized table
        to the dictionary the encoding ends with. */
    method EncodeMessage(message: seq<char>) returns (result: seq<char>)
      requires Distinct(alphabet) && forall j :: 0 <= j < |message| ==> message[j] in alphabet
      requires table == TableOf(Initial(alphabet)) && nextBlockIndex == |alphabet|
      requires maxBlockSize == MaxLen(Initial(alphabet)) && blockCodeSize == CodeWidth(|alphabet|)
      modifies this
      ensures Encode(alphabet, message) == Ok(result)
      ensures var final := FinalDict(alphabet, message);
              && table == TableOf(final) && nextBlockIndex == |final|
              && maxBlockSize == MaxLen(final) && blockCodeSize == CodeWidth(|final|)
    {
      EncodeAccepts(alphabet, message);
      ghost var dict := Initial(alphabet);
      result := [];
      var remaining := message;
      while |remaining| > 0
        invariant WellFormed(dict) && Covers(dict, remaining)
        invariant table == TableOf(dict)
        invariant nextBlockIndex == |dict| && maxBlockSize == MaxLen(dict)
        invariant blockCodeSize == CodeWidth(|dict|)
        invariant result + EncodeFrom(dict, remaining) == EncodeFrom(Initial(alphabet), message)
        invariant Grow(dict, remaining) == Grow(Initial(alphabet), message)
        decreases |remaining|
      {
        var code, size := EncodeBlock(remaining, dict);
        EncodeAccumulate(dict, remaining, result);
        result := result + code;
        dict := Extend(dict, remaining);
        remaining := remaining[size..];
      }
      assert result == EncodeFrom(Initial(alphabet), message);
    }

    /** One pass of the encoding loop: finds the longest block that starts
        `remaining`, returns its padded code and its length, and adds the block
        extended by the next character when there is one. */
    method EncodeBlock(remaining: seq<char>, ghost dict: Dict) returns (code: seq<char>, size: nat)
      requires WellFormed(dict) && Covers(dict, remaining) && remaining != []
      requires table == TableOf(dict) && nextBlockIndex == |dict|
      requires maxBlockSize == MaxLen(dict) && blockCodeSize == CodeWidth(|dict|)
      modifies this
      ensures size == Match(dict, remaining)
      ensures code == Pad(IndexOf(dict, remaining[..size]), CodeWidth(|dict|))
      ensures var next := Extend(dict, remaining);
              && table == TableOf(next) && nextBlockIndex == |next|
              && maxBlockSize == MaxLen(next) && blockCodeSize == CodeWidth(|next|)
    {
      size := FindBlock(remaining, dict);
      ExtendShape(dict, remaining);
      TableOfLookup(dict, remaining[..size]);
      code := Pad(table[remaining[..size]], blockCodeSize);
      ghost var next := Extend(dict, remaining);
      if size < |remaining| {
        assert next == dict + [remaining[..size + 1]];
        AddBlock(remaining[..size + 1], dict);
      } else {
        assert next == dict;
      }
    }

    /** Adds a new block with the next code, and widens the codes when that
        code needs one more digit. */
    method AddBlock(block: seq<char>, ghost dict: Dict)
      requires table == TableOf(dict) && nextBlockIndex == |dict| && 1 <= |dict|
      requires maxBlockSize == MaxLen(dict) && blockCodeSize == CodeWidth(|dict|)
      requires block !in dict
      modifies this
      ensures table == TableOf(dict + [block]) && nextBlockIndex == |dict| + 1
      ensures maxBlockSize == MaxLen(dict + [block]) && blockCodeSize == CodeWidth(|dict| + 1)
    {
      TableOfLookup(dict, block);
      assert block !in table;
      TableOfAppend(dict, block);
      MaxLenAppend(dict, block);
      table := table[block := nextBlockIndex];
      nextBlockIndex := nextBlockIndex + 1;
      if |block| > maxBlockSize {
        maxBlockSize := |block|;
      }
      CodeWidthStep(|dict|);
      if Digits(nextBlockIndex - 1) > blockCodeSize {
        blockCodeSize := blockCodeSize + 1;
      }
    }

    /** Empties the table. */
    method Cleanup()
      modifies this
      ensures table == map[]
      ensures nextBlockIndex == old(nextBlockIndex) && maxBlockSize == old(maxBlockSize)
      ensures blockCodeSize == old(blockCodeSize)
    {
      table := map[];
    }
  }
}
