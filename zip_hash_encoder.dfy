/** The second hash-table encoder: the same binary search as the first one,
    but every call builds a fresh table, and a new code's width is settled
    before the block is added. */
module ZipHashEncoder {
  import opened Common
  import opened Decimal
  import opened Alphabet
  import opened Lzw

  class ZipEncrypt {
    /** The primary dictionary (the alphabet), sorted; fixed at construction. */
    const dictionary: seq<char>
    /** Table of block codes, rebuilt by every call and left as the call ends. */
    var table: map<seq<char>, int>
    var nextBlockIndex: int
    var maxBlockSize: int
    var blockCodeSize: int

    predicate Valid()
      reads this
    {
      Sorted(dictionary) && Distinct(dictionary)
    }

    /** The C# constructor: rejects a dictionary with repeated characters, and
        otherwise keeps it sorted. */
    static method Create(dictionary: seq<char>) returns (r: Result<ZipEncrypt>)
      ensures r.Ok? <==> Distinct(dictionary)
      ensures r.Err? ==> r.error == NotDistinct
      ensures r.Ok? ==> && fresh(r.value) && r.value.Valid()
                        && Distinct(dictionary) && r.value.dictionary == Normalize(dictionary).value
    {
      var sorted := Normalize(dictionary);
      if sorted.Err? {
        return Err(sorted.error);
      }
      var e := new ZipEncrypt(sorted.value);
      return Ok(e);
    }

    constructor(sortedDictionary: seq<char>)
      requires Sorted(sortedDictionary) && Distinct(sortedDictionary)
      ensures Valid() && dictionary == sortedDictionary
    {
      dictionary := sortedDictionary;
    }

    /** Builds a fresh table with one block per dictionary character. */
    method Initialize()
      requires Valid()
      modifies this
      ensures table == TableOf(Initial(dictionary)) && nextBlockIndex == |dictionary|
      ensures maxBlockSize == MaxLen(Initial(dictionary)) && blockCodeSize == CodeWidth(|dictionary|)
    {
      maxBlockSize := if |dictionary| > 0 then 1 else 0;
      nextBlockIndex := 0;
      table := map[];
      for i := 0 to |dictionary|
        invariant nextBlockIndex == i
        invariant maxBlockSize == (if |dictionary| > 0 then 1 else 0)
        invariant table == TableOf(Initial(dictionary[..i]))
      {
        var key := [dictionary[i]];
        TableOfInitialStep(dictionary, i);
        table := table[key := nextBlockIndex];
        nextBlockIndex := nextBlockIndex + 1;
      }
      assert dictionary[..|dictionary|] == dictionary;
      InitialWellFormed(dictionary);
      TableSize(Initial(dictionary));
      MaxLenInitial(dictionary);
      blockCodeSize := if |table| > 0 then Digits(|table| - 1) else 0;
    }

    /** Encodes a message; a character outside the dictionary is an error. */
    method Encrypt(message: seq<char>) returns (r: Result<seq<char>>)
      requires Valid()
      modifies this
      ensures r == Encode(dictionary, message)
      ensures r.Ok? ==> && (forall j :: 0 <= j < |message| ==> message[j] in dictionary)
                        && var final := FinalDict(dictionary, message);
                           && table == TableOf(final) && nextBlockIndex == |final|
                           && maxBlockSize == MaxLen(final) && blockCodeSize == CodeWidth(|final|)
      ensures r.Err? ==> && table == TableOf(Initial(dictionary)) && nextBlockIndex == |dictionary|
                         && maxBlockSize == MaxLen(Initial(dictionary))
                         && blockCodeSize == CodeWidth(|dictionary|)
    {
      Initialize();
      var k := CheckMessage(message);
      if k < |message| {
        EncodeRejects(dictionary, message, k);
        return Err(NotInAlphabet(message[k]));
      }
      var result := EncodeMessage(message);
      return Ok(result);
    }

    /** The position of the first message character that is not a block of
        the freshly initialized table, or the message length if there is none. */
    method CheckMessage(message: seq<char>) returns (k: nat)
      requires table == TableOf(Initial(dictionary))
      ensures k <= |message|
      ensures forall j :: 0 <= j < k ==> message[j] in dictionary
      ensures k < |message| ==> message[k] !in dictionary
    {
      for i := 0 to |message|
        invariant forall j :: 0 <= j < i ==> message[j] in dictionary
      {
        TableOfLookup(Initial(dictionary), [message[i]]);
        InitialBlocks(dictionary, [message[i]]);
        if [message[i]] !in table {
          return i;
        }
      }
      return |message|;
    }

    /** The encoding loop over an accepted message. */
    method EncodeMessage(message: seq<char>) returns (result: seq<char>)
      requires Distinct(dictionary) && forall j :: 0 <= j < |message| ==> message[j] in dictionary
      requires table == TableOf(Initial(dictionary)) && nextBlockIndex == |dictionary|
      requires maxBlockSize == MaxLen(Initial(dictionary)) && blockCodeSize == CodeWidth(|dictionary|)
      modifies this
      ensures Encode(dictionary, message) == Ok(result)
      ensures var final := FinalDict(dictionary, message);
              && table == TableOf(final) && nextBlockIndex == |final|
              && maxBlockSize == MaxLen(final) && blockCodeSize == CodeWidth(|final|)
    {
      EncodeAccepts(dictionary, message);
      ghost var dict := Initial(dictionary);
      result := [];
      var remaining := message;
      while |remaining| > 0
        invariant WellFormed(dict) && Covers(dict, remaining)
        invariant table == TableOf(dict)
        invariant nextBlockIndex == |dict| && maxBlockSize == MaxLen(dict)
        invariant blockCodeSize == CodeWidth(|dict|)
        invariant result + EncodeFrom(dict, remaining) == EncodeFrom(Initial(dictionary), message)
        invariant Grow(dict, remaining) == Grow(Initial(dictionary), message)
        decreases |remaining|
      {
        var code, size := EncodeBlock(remaining, dict);
        EncodeAccumulate(dict, remaining, result);
        result := result + code;
        dict := Extend(dict, remaining);
        remaining := remaining[size..];
      }
      assert result == EncodeFrom(Initial(dictionary), message);
    }

    /** One pass of the encoding loop: the padded code of the longest block
        that starts `remaining` and that block's length, adding the block
        extended by the next character when there is one. */
    method EncodeBlock(remaining: seq<char>, ghost dict: Dict) returns (code: seq<char>, size: nat)
      requires WellFormed(dict) && Covers(dict, remaining) && remaining != []
      requires table == TableOf(dict) && nextBlockIndex == |dict|
      requires maxBlockSize == MaxLen(dict) && blockCodeSize == CodeWidth(|dict|)
      modifies this
      ensures size == Match(dict, remaining)
      ensures code == Pad(IndexOf(dict, remaining[..size]), CodeWidth(|dict|))
      ensures var next := Extend(dict, remaining);
              && table == TableOf(next) && nextBlockIndex == |next|
              && maxBlockSize == MaxLen(next) && blockCodeSize == CodeWidth(|next|)
    {
      size := FindBlock(remaining, dict);
      ExtendShape(dict, remaining);
      TableOfLookup(dict, remaining[..size]);
      code := Pad(table[remaining[..size]], blockCodeSize);
      ghost var next := Extend(dict, remaining);
      if size < |remaining| {
        assert next == dict + [remaining[..size + 1]];
        AddBlock(remaining[..size + 1], dict);
      } else {
        assert next == dict;
      }
    }

    /** Length of the longest block that starts `remaining`, by binary search
        over the block lengths 1 .. min(maxBlockSize, |remaining|). */
    method FindBlock(remaining: seq<char>, ghost dict: Dict) returns (size: nat)
      requires table == TableOf(dict) && maxBlockSize == MaxLen(dict)
      requires WellFormed(dict) && Covers(dict, remaining) && remaining != []
      ensures size == Match(dict, remaining)
    {
      assert remaining[..1] == [remaining[0]];
      var l, r := 1, if maxBlockSize < |remaining| then maxBlockSize else |remaining|;
      while l != r
        invariant 1 <= l <= r <= |remaining|
        invariant remaining[..l] in dict
        invariant forall j :: r < j <= |remaining| ==> remaining[..j] !in dict
        decreases r - l
      {
        var middle := (l + r) / 2;
        if middle == l {
          middle := middle + 1;
        }
        TableOfLookup(dict, remaining[..middle]);
        if remaining[..middle] in table {
          l := middle;
        } else {
          forall j | middle <= j <= |remaining| ensures remaining[..j] !in dict {
            if remaining[..j] in dict {
              assert remaining[..j][..middle] == remaining[..middle];
              PrefixIn(dict, remaining[..j], middle);
            }
          }
          r := middle - 1;
        }
      }
      StopIsMatch(dict, remaining, r);
      return r;
    }

    /** Settles the width of the next code, then adds the new block with it. */
    method AddBlock(block: seq<char>, ghost dict: Dict)
      requires table == TableOf(dict) && nextBlockIndex == |dict| && 1 <= |dict|
      requires maxBlockSize == MaxLen(dict) && blockCodeSize == CodeWidth(|dict|)
      requires block !in dict
      modifies this
      ensures table == TableOf(dict + [block]) && nextBlockIndex == |dict| + 1
      ensures maxBlockSize == MaxLen(dict + [block]) && blockCodeSize == CodeWidth(|dict| + 1)
    {
      CodeWidthStep(|dict|);
      if Digits(nextBlockIndex) > blockCodeSize {
        blockCodeSize := blockCodeSize + 1;
      }
      TableOfLookup(dict, block);
      assert block !in table;
      TableOfAppend(dict, block);
      MaxLenAppend(dict, block);
      table := table[block := nextBlockIndex];
      nextBlockIndex := nextBlockIndex + 1;
      if |block| > maxBlockSize {
        maxBlockSize := |block|;
      }
    }
  }
}
