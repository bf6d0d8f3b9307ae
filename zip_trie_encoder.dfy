/** The second prefix-tree encoder: the node pool is part of the encoder, a
    new node is attached before the code is written, the code width is checked
    after every code, and a completed call drops the tree. */
module ZipTrieEncoder {
  import opened Common
  import opened Decimal
  import opened Alphabet
  import opened Lzw
  import opened Trie

  class ZipEncryptPT {
    /** The primary dictionary (the alphabet), sorted; fixed at construction. */
    const dictionary: seq<char>
    /** The node pool; its list always holds as many nodes as its capacity. */
    var nodePool: seq<PrefixTree>
    /** Index of the next free node in the pool */
    var nextFreeNode: nat
    /** The root of the prefix tree (a slot of the pool), or null. */
    var blockTree: Option<nat>
    var nextBlockIndex: int
    var blockCodeSize: int

    predicate Valid()
      reads this
    {
      Sorted(dictionary) && Distinct(dictionary) && 1 <= |nodePool| && nextFreeNode <= |nodePool|
    }

    /** The encoder's state holds dictionary d: the tree rooted at slot 0
        represents d, the next free node and the next code follow its last
        block, and the code width is that of d's largest code. */
    predicate Holds(d: Dict)
      reads this
    {
      && Valid() && Represents(nodePool, d)
      && blockTree == Some(0) && nextFreeNode == |d| + 1
      && nextBlockIndex == |d| && blockCodeSize == CodeWidth(|d|)
    }

    /** The C# constructor: rejects a dictionary with repeated characters, and
        otherwise keeps it sorted, with a pool of n+1 nodes. */
    static method Create(dictionary: seq<char>) returns (r: Result<ZipEncryptPT>)
      ensures r.Ok? <==> Distinct(dictionary)
      ensures r.Err? ==> r.error == NotDistinct
      ensures r.Ok? ==> && fresh(r.value) && r.value.Valid()
                        && Distinct(dictionary) && r.value.dictionary == Normalize(dictionary).value
    {
      var sorted := Normalize(dictionary);
      if sorted.Err? {
        return Err(sorted.error);
      }
      var e := new ZipEncryptPT(sorted.value);
      return Ok(e);
    }

    constructor(sortedDictionary: seq<char>)
      requires Sorted(sortedDictionary) && Distinct(sortedDictionary)
      ensures Valid() && dictionary == sortedDictionary
      ensures nodePool == Fill(|sortedDictionary| + 1) && nextFreeNode == 0 && blockTree == None
    {
      dictionary := sortedDictionary;
      var created: seq<PrefixTree> := [];
      for i := 0 to |sortedDictionary| + 1
        invariant created == Fill(i)
      {
        created := created + [Cleared];
      }
      nodePool := created;
      nextFreeNode := 0;
      blockTree := None;
    }

    /** Encodes a message; a character outside the dictionary is an error. A
        completed encoding drops the tree and frees every node. */
    method Encrypt(message: seq<char>) returns (r: Result<seq<char>>)
      requires Valid()
      modifies this
      ensures Valid()
      ensures r == Encode(dictionary, message)
      ensures r.Ok? ==> && (forall j :: 0 <= j < |message| ==> message[j] in dictionary)
                        && var final := FinalDict(dictionary, message);
                           && Represents(nodePool, final) && blockTree == None && nextFreeNode == 0
                           && nextBlockIndex == |final| && blockCodeSize == CodeWidth(|final|)
      ensures r.Err? ==> Holds(Initial(dictionary))
    {
      Initialize();
      var k := CheckMessage(message);
      if k < |message| {
        EncodeRejects(dictionary, message, k);
        return Err(NotInAlphabet(message[k]));
      }
      var result := EncodeMessage(message);
      Cleanup();
      return Ok(result);
    }

    /** Rebuilds the tree from the pool: a root with one child per dictionary
        character, the i-th numbered i. */
    method Initialize()
      requires Valid()
      modifies this
      ensures Holds(Initial(dictionary))
    {
      nextBlockIndex := 0;
      nextFreeNode := 0;
      var root := GetPrefixTreeNode();
      blockTree := Some(root);
      RootAlone(nodePool);
      for i := 0 to |dictionary|
        invariant Valid() && blockTree == Some(0)
        invariant Represents(nodePool, Initial(dictionary[..i]))
        invariant nextFreeNode == i + 1 && nextBlockIndex == i
      {
        ghost var before := nodePool;
        var node := GetPrefixTreeNode();
        RepresentsFrame(before, nodePool, Initial(dictionary[..i]));
        before := nodePool;
        nodePool := Numbered(nodePool, node, nextBlockIndex);
        nextBlockIndex := nextBlockIndex + 1;
        RepresentsFrame(before, nodePool, Initial(dictionary[..i]));
        AttachInitial(nodePool, dictionary, i);
        nodePool := Attached(nodePool, blockTree.value, dictionary[i], node);
      }
      assert dictionary[..|dictionary|] == dictionary;
      blockCodeSize := if |dictionary| > 0 then Digits(|dictionary| - 1) else 0;
    }

    /** Drops the tree and frees every node. */
    method Cleanup()
      modifies this
      ensures blockTree == None && nextFreeNode == 0
      ensures nodePool == old(nodePool) && nextBlockIndex == old(nextBlockIndex)
      ensures blockCodeSize == old(blockCodeSize)
    {
      blockTree := None;
      nextFreeNode := 0;
    }

    /** Hands out the next free node, cleared, and doubles the pool first when
        every node is in use. */
    method GetPrefixTreeNode() returns (node: nat)
      requires Valid()
      modifies this
      ensures Valid()
      ensures node == old(nextFreeNode) && nextFreeNode == node + 1 && node < |nodePool|
      ensures |nodePool| == if old(nextFreeNode) < old(|nodePool|) then old(|nodePool|) else 2 * old(|nodePool|)
      ensures forall u :: 0 <= u < |nodePool| ==>
                nodePool[u] == if u == node || u >= old(|nodePool|) then Cleared else old(nodePool)[u]
      ensures blockTree == old(blockTree) && nextBlockIndex == old(nextBlockIndex)
      ensures blockCodeSize == old(blockCodeSize)
    {
      if nextFreeNode >= |nodePool| {
        var capacity := 2 * |nodePool|;
        for i := |nodePool| to capacity
          invariant |nodePool| == i && nextFreeNode == old(nextFreeNode)
          invariant blockTree == old(blockTree) && nextBlockIndex == old(nextBlockIndex)
          invariant blockCodeSize == old(blockCodeSize)
          invariant forall u :: 0 <= u < i ==>
                      nodePool[u] == if u >= old(|nodePool|) then Cleared else old(nodePool)[u]
        {
          nodePool := nodePool + [Cleared];
        }
      }
      nodePool := nodePool[nextFreeNode := Cleared];
      node := nextFreeNode;
      nextFreeNode := nextFreeNode + 1;
    }

    /** The position of the first message character that is not a child of
        the root, or the message length if there is none. */
    method CheckMessage(message: seq<char>) returns (k: nat)
      requires Holds(Initial(dictionary))
      ensures k <= |message|
      ensures forall j :: 0 <= j < k ==> message[j] in dictionary
      ensures k < |message| ==> message[k] !in dictionary
    {
      for i := 0 to |message|
        invariant forall j :: 0 <= j < i ==> message[j] in dictionary
      {
        RootChildren(nodePool, Initial(dictionary), message[i]);
        InitialBlocks(dictionary, [message[i]]);
        if !HasChild(nodePool[blockTree.value], message[i]) {
          return i;
        }
      }
      return |message|;
    }

    /** The encoding loop over an accepted message. */
    method EncodeMessage(message: seq<char>) returns (result: seq<char>)
      requires forall j :: 0 <= j < |message| ==> message[j] in dictionary
      requires Holds(Initial(dictionary))
      modifies this
      ensures Encode(dictionary, message) == Ok(result)
      ensures Holds(FinalDict(dictionary, message))
    {
      EncodeAccepts(dictionary, message);
      ghost var dict := Initial(dictionary);
      result := [];
      var remaining := message;
      while |remaining| > 0
        invariant WellFormed(dict) && Covers(dict, remaining) && Holds(dict)
        invariant result + EncodeFrom(dict, remaining) == EncodeFrom(Initial(dictionary), message)
        invariant Grow(dict, remaining) == Grow(Initial(dictionary), message)
        decreases |remaining|
      {
        var code, size := EncodeBlock(remaining, dict);
        EncodeAccumulate(dict, remaining, result);
        result := result + code;
        dict := Extend(dict, remaining);
        remaining := remaining[size..];
      }
      assert result == EncodeFrom(Initial(dictionary), message);
    }

    /** Walks down the tree along `remaining` as far as the edges go. */
    method Walk(remaining: seq<char>, ghost dict: Dict) returns (node: nat, index: nat)
      requires WellFormed(dict) && Covers(dict, remaining) && remaining != [] && Holds(dict)
      ensures index == Match(dict, remaining)
      ensures 1 <= node <= |dict| && Path(dict, node) == remaining[..index]
      ensures index < |remaining| ==> !HasChild(nodePool[node], remaining[index])
      ensures nodePool[node].number == IndexOf(dict, remaining[..index])
    {
      index := 0;
      node := blockTree.value;
      while index < |remaining| && HasChild(nodePool[node], remaining[index])
        invariant index <= |remaining| && node <= |dict| && Path(dict, node) == remaining[..index]
        decreases |remaining| - index
      {
        FollowEdge(nodePool, dict, remaining, node, index);
        node := Child(nodePool[node], remaining[index]);
        index := index + 1;
      }
      WalkStopsAtMatch(nodePool, dict, remaining, node, index);
    }

    /** One pass of the encoding loop: attaches a new node for the longest
        block that starts `remaining` extended by the next character (when
        there is one), then returns the block's padded code and its length, and
        widens the codes when the last code assigned needs one more digit. */
    method EncodeBlock(remaining: seq<char>, ghost dict: Dict) returns (code: seq<char>, size: nat)
      requires WellFormed(dict) && Covers(dict, remaining) && remaining != [] && Holds(dict)
      modifies this
      ensures size == Match(dict, remaining)
      ensures code == Pad(IndexOf(dict, remaining[..size]), CodeWidth(|dict|))
      ensures Holds(Extend(dict, remaining))
    {
      var node;
      node, size := Walk(remaining, dict);
      if size <= |remaining| - 1 {
        if !HasChild(nodePool[node], remaining[size]) {
          AttachBlock(remaining, dict, node, size);
        }
      } else {
        ExtendShape(dict, remaining);
      }
      code := Pad(nodePool[node].number, blockCodeSize);
      UpdateWidth();
    }

    /** Widens the codes when the last code assigned needs one more digit:
        this restores the width rule after at most one new code. */
    method UpdateWidth()
      requires 1 <= nextBlockIndex
      requires blockCodeSize == CodeWidth(nextBlockIndex) || blockCodeSize == CodeWidth(nextBlockIndex - 1)
      modifies this
      ensures nodePool == old(nodePool) && nextFreeNode == old(nextFreeNode)
      ensures blockTree == old(blockTree) && nextBlockIndex == old(nextBlockIndex)
      ensures blockCodeSize == CodeWidth(nextBlockIndex)
    {
      if nextBlockIndex >= 2 {
        CodeWidthStep(nextBlockIndex - 1);
      }
      if Digits(nextBlockIndex - 1) > blockCodeSize {
        blockCodeSize := blockCodeSize + 1;
      }
    }

    /** Attaches a fresh node, numbered with the next code, under the end of
        the walk by the character that follows the match. */
    method AttachBlock(remaining: seq<char>, ghost dict: Dict, node: nat, size: nat)
      requires WellFormed(dict) && Covers(dict, remaining) && remaining != [] && Holds(dict)
      requires size == Match(dict, remaining) && size < |remaining|
      requires 1 <= node <= |dict| && Path(dict, node) == remaining[..size]
      modifies this
      ensures Valid() && Represents(nodePool, Extend(dict, remaining))
      ensures nextFreeNode == |dict| + 2 && nextBlockIndex == |dict| + 1
      ensures |Extend(dict, remaining)| == |dict| + 1
      ensures blockTree == old(blockTree) && blockCodeSize == old(blockCodeSize)
      ensures nodePool[node].number == old(nodePool[node].number)
    {
      ExtendShape(dict, remaining);
      ghost var before := nodePool;
      var newNode := GetPrefixTreeNode();
      RepresentsFrame(before, nodePool, dict);
      before := nodePool;
      nodePool := Numbered(nodePool, newNode, nextBlockIndex);
      nextBlockIndex := nextBlockIndex + 1;
      RepresentsFrame(before, nodePool, dict);
      AttachNext(nodePool, dict, remaining, node);
      nodePool := Attached(nodePool, node, remaining[size], newNode);
    }
  }
}
