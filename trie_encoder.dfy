/** The prefix-tree encoder: blocks are the paths of a tree whose nodes come
    from a pool that is reused from call to call. */
module TrieEncoder {
  import opened Common
  import opened Decimal
  import opened Alphabet
  import opened Lzw
  import opened Trie

  /** The pool of prefix-tree nodes. Its list always holds as many nodes as its
      capacity, so the capacity is its length; handing out a node past the end
      doubles the list. */
  class NodePool {
    var nodes: seq<PrefixTree>
    /** Index of the next free node */
    var nextFreeNode: nat

    predicate Valid()
      reads this
    {
      1 <= |nodes| && nextFreeNode <= |nodes|
    }

    /** A pool of `capacity` fresh nodes, none handed out. */
    constructor(capacity: nat)
      requires 1 <= capacity
      ensures Valid() && nodes == Fill(capacity) && nextFreeNode == 0
    {
      var created: seq<PrefixTree> := [];
      for i := 0 to capacity
        invariant created == Fill(i)
      {
        created := created + [Cleared];
      }
      nodes := created;
      nextFreeNode := 0;
    }

    /** Hands out the next free node, cleared, and doubles the pool first when
        every node is in use. */
    method GetNode() returns (node: nat)
      requires Valid()
      modifies this
      ensures Valid()
      ensures node == old(nextFreeNode) && nextFreeNode == node + 1 && node < |nodes|
      ensures |nodes| == if old(nextFreeNode) < old(|nodes|) then old(|nodes|) else 2 * old(|nodes|)
      ensures forall u :: 0 <= u < |nodes| ==>
                nodes[u] == if u == node || u >= old(|nodes|) then Cleared else old(nodes)[u]
    {
      if nextFreeNode >= |nodes| {
        var capacity := 2 * |nodes|;
        for i := |nodes| to capacity
          invariant |nodes| == i && nextFreeNode == old(nextFreeNode)
          invariant forall u :: 0 <= u < i ==> nodes[u] == if u >= old(|nodes|) then Cleared else old(nodes)[u]
        {
          nodes := nodes + [Cleared];
        }
      }
      nodes := nodes[nextFreeNode := Cleared];
      node := nextFreeNode;
      nextFreeNode := nextFreeNode + 1;
    }

    /** Makes every node free again; the nodes themselves are left as they are. */
    method Reset()
      modifies this
      ensures nextFreeNode == 0 && nodes == old(nodes)
    {
      nextFreeNode := 0;
    }
  }

  class LZWCompressPT {
    /** The primary alphabet, sorted; fixed at construction. */
    const alphabet: seq<char>
    const nodePool: NodePool
    /** The root of the prefix tree (a slot of the pool). */
    var blockTree: nat
    var nextBlockIndex: int
    var blockCodeSize: int

    predicate Valid()
      reads this, nodePool
    {
      Sorted(alphabet) && Distinct(alphabet) && nodePool.Valid()
    }

    /** The encoder's state holds dictionary d: the tree rooted at slot 0
        represents d, the next free node and the next code follow its last
        block, and the code width is that of d's largest code. */
    predicate Holds(d: Dict)
      reads this, nodePool
    {
      && nodePool.Valid() && Represents(nodePool.nodes, d)
      && blockTree == 0 && nodePool.nextFreeNode == |d| + 1
      && nextBlockIndex == |d| && blockCodeSize == CodeWidth(|d|)
    }

    /** The C# constructor: rejects an alphabet with repeated characters, and
        otherwise keeps it sorted, with a pool of 2n+1 nodes. */
    static method Create(alphabet: seq<char>) returns (r: Result<LZWCompressPT>)
      ensures r.Ok? <==> Distinct(alphabet)
      ensures r.Err? ==> r.error == NotDistinct
      ensures r.Ok? ==> && fresh(r.value) && fresh(r.value.nodePool) && r.value.Valid()
                        && Distinct(alphabet) && r.value.alphabet == Normalize(alphabet).value
    {
      var sorted := Normalize(alphabet);
      if sorted.Err? {
        return Err(sorted.error);
      }
      var c := new LZWCompressPT(sorted.value);
      return Ok(c);
    }

    constructor(sortedAlphabet: seq<char>)
      requires Sorted(sortedAlphabet) && Distinct(sortedAlphabet)
      ensures Valid() && fresh(nodePool) && alphabet == sortedAlphabet
      ensures nodePool.nodes == Fill(2 * |sortedAlphabet| + 1) && nodePool.nextFreeNode == 0
    {
      alphabet := sortedAlphabet;
      nodePool := new NodePool(2 * |sortedAlphabet| + 1);
    }

    /** Rebuilds the tree from the pool: a root with one child per alphabet
        character, the i-th numbered i. */
    method Initialize()
      requires Valid()
      modifies this, nodePool
      ensures Valid() && Holds(Initial(alphabet))
    {
      nodePool.Reset();
      nextBlockIndex := 0;
      blockTree := nodePool.GetNode();
      RootAlone(nodePool.nodes);
      for i := 0 to |alphabet|
        invariant nodePool.Valid() && blockTree == 0
        invariant Represents(nodePool.nodes, Initial(alphabet[..i]))
        invariant nodePool.nextFreeNode == i + 1 && nextBlockIndex == i
      {
        ghost var before := nodePool.nodes;
        var node := nodePool.GetNode();
        RepresentsFrame(before, nodePool.nodes, Initial(alphabet[..i]));
        before := nodePool.nodes;
        nodePool.nodes := Numbered(nodePool.nodes, node, nextBlockIndex);
        nextBlockIndex := nextBlockIndex + 1;
        RepresentsFrame(before, nodePool.nodes, Initial(alphabet[..i]));
        AttachInitial(nodePool.nodes, alphabet, i);
        nodePool.nodes := Attached(nodePool.nodes, blockTree, alphabet[i], node);
      }
      assert alphabet[..|alphabet|] == alphabet;
      blockCodeSize := if |alphabet| > 0 then Digits(|alphabet| - 1) else 0;
    }

    /** Encodes a message; a character outside the alphabet is an error. */
    method Encrypt(message: seq<char>) returns (r: Result<seq<char>>)
      requires Valid()
      modifies this, nodePool
      ensures Valid()
      ensures r == Encode(alphabet, message)
      ensures r.Ok? ==> && (forall j :: 0 <= j < |message| ==> message[j] in alphabet)
                        && Holds(FinalDict(alphabet, message))
      ensures r.Err? ==> Holds(Initial(alphabet))
    {
      Initialize();
      var k := CheckMessage(message);
      if k < |message| {
        EncodeRejects(alphabet, message, k);
        return Err(NotInAlphabet(message[k]));
      }
      var result := EncodeMessage(message);
      return Ok(result);
    }

    /** The position of the first message character that is not a child of
        the root, or the message length if there is none. */
    method CheckMessage(message: seq<char>) returns (k: nat)
      requires Holds(Initial(alphabet))
      ensures k <= |message|
      ensures forall j :: 0 <= j < k ==> message[j] in alphabet
      ensures k < |message| ==> message[k] !in alphabet
    {
      for i := 0 to |message|
        invariant forall j :: 0 <= j < i ==> message[j] in alphabet
      {
        RootChildren(nodePool.nodes, Initial(alphabet), message[i]);
        InitialBlocks(alphabet, [message[i]]);
        if !HasChild(nodePool.nodes[blockTree], message[i]) {
          return i;
        }
      }
      return |message|;
    }

    /** The encoding loop over an accepted message. */
    method EncodeMessage(message: seq<char>) returns (result: seq<char>)
      requires Valid() && forall j :: 0 <= j < |message| ==> message[j] in alphabet
      requires Holds(Initial(alphabet))
      modifies this, nodePool
      ensures Valid()
      ensures Encode(alphabet, message) == Ok(result)
      ensures Holds(FinalDict(alphabet, message))
    {
      EncodeAccepts(alphabet, message);
      ghost var dict := Initial(alphabet);
      result := [];
      var remaining := message;
      while |remaining| > 0
        invariant Valid()
        invariant WellFormed(dict) && Covers(dict, remaining) && Holds(dict)
        invariant result + EncodeFrom(dict, remaining) == EncodeFrom(Initial(alphabet), message)
        invariant Grow(dict, remaining) == Grow(Initial(alphabet), message)
        decreases |remaining|
      {
        var code, size := EncodeBlock(remaining, dict);
        EncodeAccumulate(dict, remaining, result);
        result := result + code;
        dict := Extend(dict, remaining);
        remaining := remaining[size..];
      }
      assert result == EncodeFrom(Initial(alphabet), message);
    }

    /** Walks down the tree along `remaining` as far as the edges go. */
    method Walk(remaining: seq<char>, ghost dict: Dict) returns (node: nat, index: nat)
      requires WellFormed(dict) && Covers(dict, remaining) && remaining != [] && Holds(dict)
      ensures index == Match(dict, remaining)
      ensures 1 <= node <= |dict| && Path(dict, node) == remaining[..index]
      ensures index < |remaining| ==> !HasChild(nodePool.nodes[node], remaining[index])
      ensures nodePool.nodes[node].number == IndexOf(dict, remaining[..index])
    {
      index := 0;
      node := blockTree;
      while index < |remaining| && HasChild(nodePool.nodes[node], remaining[index])
        invariant index <= |remaining| && node <= |dict| && Path(dict, node) == remaining[..index]
        decreases |remaining| - index
      {
        FollowEdge(nodePool.nodes, dict, remaining, node, index);
        node := Child(nodePool.nodes[node], remaining[index]);
        index := index + 1;
      }
      WalkStopsAtMatch(nodePool.nodes, dict, remaining, node, index);
    }

    /** One pass of the encoding loop: the padded code of the longest block
        that starts `remaining` and that block's length, attaching a new node
        for the block extended by the next character when there is one. */
    method EncodeBlock(remaining: seq<char>, ghost dict: Dict) returns (code: seq<char>, size: nat)
      requires Valid() && WellFormed(dict) && Covers(dict, remaining) && remaining != [] && Holds(dict)
      modifies this, nodePool
      ensures Valid()
      ensures size == Match(dict, remaining)
      ensures code == Pad(IndexOf(dict, remaining[..size]), CodeWidth(|dict|))
      ensures Holds(Extend(dict, remaining))
    {
      var node;
      node, size := Walk(remaining, dict);
      code := Pad(nodePool.nodes[node].number, blockCodeSize);
      ExtendShape(dict, remaining);
      if size <= |remaining| - 1 {
        if !HasChild(nodePool.nodes[node], remaining[size]) {
          ghost var before := nodePool.nodes;
          var newNode := nodePool.GetNode();
          RepresentsFrame(before, nodePool.nodes, dict);
          before := nodePool.nodes;
          nodePool.nodes := Numbered(nodePool.nodes, newNode, nextBlockIndex);
          nextBlockIndex := nextBlockIndex + 1;
          RepresentsFrame(before, nodePool.nodes, dict);
          AttachNext(nodePool.nodes, dict, remaining, node);
          nodePool.nodes := Attached(nodePool.nodes, node, remaining[size], newNode);
          CodeWidthStep(|dict|);
          if Digits(nextBlockIndex - 1) > blockCodeSize {
            blockCodeSize := blockCodeSize + 1;
          }
        }
      }
    }
  }
}
