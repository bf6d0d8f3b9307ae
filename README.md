# LZW decimal-code codec, modelled in Dafny

The repository is an LZW text codec over an alphabet of distinct characters that
the caller supplies. Codes are not bit-packed. Each dictionary index is printed in
decimal and left-padded with zeros to a width that grows with the table. There are
six classes, in two generations:

- hash-table encoders `LZWCompress` and `ZipEncrypt`: a `string -> int` table,
  with the longest block found by binary search over block lengths;
- prefix-tree encoders `LZWCompressPT` (with its `NodePool` arena) and
  `ZipEncryptPT` (with an inline pool): the longest block is found by walking a
  trie;
- decoders `LZWDecompress` and `ZipDecrypt`: the table is rebuilt one step behind
  the encoder, including the self-referential code.

The model has three layers.

- `Common`, `Decimal`, `Alphabet`: outcomes and errors, decimal printing and
  parsing (`ToString`, `PadLeft(w, '0')`, `int.TryParse`), and the constructors'
  distinctness check and sort.
- `Lzw` and `Trie`: the reference.
  - A dictionary is the list of blocks in code order.
  - `Encode` and `Decode` say what every encoder and every decoder returns.
  - `Represents(pool, d)` says when a node arena is the trie of dictionary `d`.
  - The round trip, prefix-closedness, binary-search soundness, the width rules
    and trie no-aliasing are proved here.
- One module per class (`HashEncoder`, `ZipHashEncoder`, `TrieEncoder`,
  `ZipTrieEncoder`, `Decoder`, `ZipDecoder`).
  - Each is a Dafny `class` with the C# fields. Its methods mirror the C#
    methods, with loops and invariants.
  - Each `Encrypt`/`Decrypt` is proved equal to the reference function, and its
    final state is stated.
  - Long C# methods are split into several Dafny methods (one loop pass, one
    insertion). This keeps each proof small.

`Scenarios` uses the classes together. It covers:
- the unit tests' expectations;
- the four encoders agreeing;
- the round trip through encoder and decoder objects;
- what the two long-lived classes do after a rejected call.

Modelling conventions:
- A C# exception is an `Err` outcome of type `Result`. The error names the cause:
  `NotDistinct`, `DuplicateKey`, `NotInAlphabet(c)`, `NotADigit(c)` or
  `InvalidBlockIndex`.
- A constructor that can throw becomes a static `Create` that returns
  `Result<Class>`, plus a constructor that takes the already sorted alphabet.
- Trie nodes, which are objects in C#, are slots of a `seq<PrefixTree>` arena. A
  child reference is a slot number. A node's number and children are updated by
  replacing its slot. Slot s >= 1 holds block s-1, and slot 0 is the root.

Classic LZW takes the decoder's self-referential branch only when the code
equals the table size. This code takes it for every code at or above the table
size (ZIP/LZWDecompress.cs:82, 103), and the model follows the code. Either way
the decoder throws when there is no previous block.

## Model

| member | source | states |
|---|---|---|
| Alphabet.Normalize | ZIP/LZWCompress.cs:50-56 | A repeated character is `NotDistinct`. Otherwise the kept alphabet is sorted, distinct and has the same characters. |
| Alphabet.FirstFailure | ZIP/LZWCompress.cs:70-76 | The `foreach` check stops at the first failing character: every earlier one passes and that one fails, or it returns the length if none fails. |
| Decimal.ToDecimal | ZIP/LZWCompress.cs:109 | `x.ToString()` has `Digits(x)` characters, all decimal digits. |
| Decimal.PadLeft | ZIP/LZWCompress.cs:109 | `PadLeft(w, '0')` has length max(len, w), ends with the string and has only zeros before it. |
| Decimal.TryParse | ZIP/LZWDecompress.cs:76 | Parsing succeeds exactly on a non-empty string of digits. |
| Decimal.PadThenParse | ZIP/LZWDecompress.cs:76 | A code padded to a width at least its digit count is exactly that wide, all digits, and parses back to the code. |
| Decimal.ValueOfDecimal | ZIP/LZWDecompress.cs:76 | Parsing `x.ToString()` gives x. |
| Decimal.DigitsStep | ZIP/LZWCompress.cs:122-125 | The digit count of x+1 is that of x or one more. |
| Decimal.DigitsMonotone | ZIP/LZWCompress.cs:109 | A smaller number never has more digits. |
| Lzw.Initial | ZIP/LZWCompress.cs:145-148 | Defines the initial table: one single-character block per alphabet character, with code i for the i-th character of the sorted alphabet. No contract of its own; its properties are the Initial lemmas below. |
| Lzw.InitialWellFormed | ZIP/LZWCompress.cs:140-151 | One block per character of a distinct alphabet gives non-empty, unique, prefix-closed blocks. |
| Lzw.InitialBlocks | ZIP/LZWCompress.cs:70-76 | A string is an initial block if and only if it is one alphabet character. |
| Alphabet.Sort | ZIP/LZWCompress.cs:55-56 | `Array.Sort` gives a sorted permutation. |
| Alphabet.SortKeepsDistinct | ZIP/LZWCompress.cs:55-56 | Sorting keeps the characters distinct. |
| Lzw.InitialAppend | ZIP/LZWCompress.cs:145-148 | Each pass of the initialization loop appends the next character's block. |
| Lzw.TableOfInitialStep | ZIP/LZWCompress.cs:147 | Each `Add` of the initialization loop gives the next character the next code. |
| Lzw.InitialCovers | ZIP/LZWCompress.cs:70-76 | Every character of an accepted message is a block of the initial table. |
| Lzw.PrefixIn | ZIP/LZWCompress.cs:112-118 | In a prefix-closed table every non-empty prefix of a block is a block. |
| Lzw.Longest | ZIP/LZWCompress.cs:85-103 | The longest block among the first k prefixes. |
| Lzw.Match | ZIP/LZWCompress.cs:85-105 | The matched length is the longest prefix that is a block, and at least 1 when every character is a block. |
| Lzw.StopIsMatch | ZIP/LZWCompress.cs:85-105 | In a prefix-closed table the search may stop at the first length whose next prefix is not a block: that length is the longest match. |
| Lzw.MatchUnique | ZIP/LZWCompress.cs:105 | Any length with the longest-match properties is the match. |
| Lzw.IndexOf | ZIP/LZWCompress.cs:109 | A block's code is a position holding that block. |
| Lzw.IndexOfUnique | ZIP/LZWCompress.cs:109 | With unique blocks, the code is the only position holding the block. |
| Lzw.TableOf | ZIP/LZWCompress.cs:145-148 | Defines the hash table the encoders hold for a list of blocks: each block is a key mapped to its position, built the way the table is filled, one Add per block in code order. No contract of its own; Lzw.TableOfLookup, Lzw.TableOfValues and Lzw.TableSize state its meaning. |
| Lzw.TableOfLookup | ZIP/LZWCompress.cs:95 | A string is a key of the hash table if and only if it is a block, and the value is its code. |
| Lzw.TableOfValues | ZIP/LZWCompress.cs:115 | The table's values are exactly the codes 0 .. count-1, each block mapping to its own position. |
| Lzw.TableSize | ZIP/LZWCompress.cs:147 | With unique blocks the table has one key per block. |
| Lzw.TableOfAppend | ZIP/LZWCompress.cs:115 | Adding a block adds one key with the next code and leaves every other entry unchanged. |
| Lzw.MaxLen | ZIP/LZWCompress.cs:116-119 | `maxBlockSize` bounds every block and is reached by one, or is 0 for an empty table. |
| Lzw.MaxLenAppend | ZIP/LZWCompress.cs:116-119 | Adding a block raises `maxBlockSize` to its length when it is longer, and otherwise keeps it. |
| Lzw.MaxLenInitial | ZIP/LZWCompress.cs:144 | The initial table's longest block has length 1, or 0 for an empty alphabet. |
| Lzw.ExtendWellFormed | ZIP/LZWCompress.cs:112-118 | Adding a match plus the next character, which is not yet a block, keeps the table well formed. |
| Lzw.Extend | ZIP/LZWCompress.cs:106-118 | A step adds the match plus the next character exactly when input remains after the match. All earlier blocks stay, and the table stays well formed. |
| Lzw.ExtendShape | ZIP/LZWCompress.cs:105-118 | The match has length 1 .. remaining and is a block. The added block is new. Nothing is added when the match uses up the input. |
| Lzw.CodeWidth | ZIP/LZWCompress.cs:150 | Defines the code width for a table of `count` blocks: 0 for an empty table, otherwise the digit count of the largest code `count - 1`. No contract of its own; Lzw.CodeWidthFits states its meaning. |
| Lzw.CodeWidthFits | ZIP/LZWCompress.cs:150 | The width its definition produces is the least that fits: no code below `count` has more digits, and some code (the largest) has exactly that many. |
| Lzw.CodeWidthStep | ZIP/ZipEncrypt.cs:112-118 | Width after one insertion = width before, or one more = digits of the old count. So the pre-insertion check and the post-insertion check (ZIP/LZWCompress.cs:122-125) give the same widths. |
| Lzw.EncodeFrom | ZIP/LZWCompress.cs:81-130 | Encoder output is all decimal digits. |
| Lzw.Encode | ZIP/LZWCompress.cs:66-130 | The reference for one Encrypt call on a fresh table: the first character outside the alphabet is reported as NotInAlphabet (a character of the message not in the alphabet); otherwise the result is the code string built from the initial table, all decimal digits. |
| Lzw.EncodeAccumulate | ZIP/LZWCompress.cs:109-129 | A step appends the match's code padded to the current width, then the encoder continues after the match with the extended table. |
| Lzw.Grow | ZIP/LZWCompress.cs:112-118 | The final table is well formed and keeps the initial blocks at their codes (append-only). |
| Lzw.EncodeAccepts | ZIP/LZWCompress.cs:66-135 | A message over the alphabet encodes to the segmentation output from the initial table. |
| Lzw.EncodeRejects | ZIP/LZWCompress.cs:70-76 | The first character outside the alphabet is the error reported. |
| Lzw.DecodeState | ZIP/LZWDecompress.cs:72-123 | The state when the decoding loop stops (at the end or at a failing code group) keeps every block it started with: the table is append-only. |
| Lzw.DecodeFrom | ZIP/LZWDecompress.cs:72-123 | The reference for the decoding loop over the rest of the code string with table t, previous block prev and width w. A code below the table size names that block and, when there is a previous block, appends prev plus the block's first character. A code at or above the table size names prev + prev[0] and appends it, and fails when there is no previous block (ZIP/LZWDecompress.cs:82, 103-114). A code group shorter than w or not parseable fails. Its contract: the only failure is InvalidBlockIndex, and the output is empty exactly when the code string is. |
| Lzw.NextWidth | ZIP/LZWDecompress.cs:119-122 | The width after a table insertion grows by at most one digit, and when it was the digit count of the largest old code it becomes the digit count of the new largest code. |
| Lzw.DecodeWith | ZIP/LZWDecompress.cs:56-123 | The reference for one Decrypt call whose table starts as t0. A non-digit anywhere in the code string is reported as NotADigit before any code is read; this happens if and only if the string is not all digits, and the reported character is in the string and is not a digit (ZIP/LZWDecompress.cs:58-64). The only other failure is InvalidBlockIndex, and an accepted string decodes to the empty message exactly when it is empty. |
| Lzw.Decode | ZIP/LZWDecompress.cs:56-128 | The reference for one Decrypt call on a fresh decoder: DecodeWith from the initial table of the sorted alphabet. It fails with NotADigit exactly when the string has a non-digit, otherwise only with InvalidBlockIndex, and decodes to the empty message exactly when the string is empty. |
| Lzw.ResolveBlock | ZIP/LZWDecompress.cs:82-114 | On encoder output, a code below the table size names the block and the table catches up by `prev + block[0]`. A code at the table size names `prev + prev[0]`. |
| Lzw.ReadCode | ZIP/LZWDecompress.cs:76-79 | The first code group of an encoding has the encoder's width and parses to the code of the first block. |
| Lzw.DecodeStep | ZIP/LZWDecompress.cs:76-122 | One decoding step: output the resolved block, add the pending block, update the width. The loop's final state moves on by the same step. |
| Lzw.DecodeStops | ZIP/LZWDecompress.cs:76-108 | A short code group, one that does not parse, or a code past the table with no previous block fails with `InvalidBlockIndex`. The loop then stops with the table and width it has. |
| Lzw.DecodeFirstBlock | ZIP/LZWDecompress.cs:76-116 | On an encoding, the decoder's first step outputs the encoder's first block and continues from the encoder's dictionary and the rest of the code string. |
| Lzw.NextStepState | ZIP/LZWDecompress.cs:119-122 | The decoder's width rule `digits(Count) > digits(Count-1)` agrees with the encoder's width for the next code. |
| Lzw.DecodeEncoded | ZIP/LZWDecompress.cs:72-123 | A decoder one block behind the encoder decodes the encoder's remaining output to the remaining message. |
| Lzw.RoundTrip | ZipTest/ZipUnitTest.cs:90-91 | Decoding what the encoders produce from an accepted message gives the message back. |
| Trie.Represents | ZIP/LZWCompressPT.cs:207-224 | Defines when a pool of PrefixTree nodes is the trie of a block list: slot 0 is the root, slot s >= 1 is numbered s - 1, and a node has an edge labelled c exactly when its string followed by c is a block, leading to that block's slot. No contract of its own; the Trie lemmas below are stated in its terms. |
| Trie.RootAlone | ZIP/LZWCompressPT.cs:129 | A root with no children is the trie of the empty table. |
| Trie.PathInjective | ZIP/LZWCompressPT.cs:97-111 | Distinct tree nodes spell distinct blocks. |
| Trie.RootChildren | ZIP/LZWCompressPT.cs:70-76 | The root has a child for c if and only if [c] is a block. |
| Trie.FollowEdge | ZIP/LZWCompressPT.cs:87-91 | Following an edge reaches the node whose path is one character longer. |
| Trie.WalkStopsAtMatch | ZIP/LZWCompressPT.cs:84-94 | The walk stops exactly at the longest match, at a non-root node whose `Number` is the match's code. |
| Trie.RepresentsFrame | ZIP/LZWCompressPT.cs:176-193 | Changing slots beyond the tree's nodes does not change the tree. |
| Trie.AttachComplete | ZIP/LZWCompressPT.cs:97-104 | After attaching, a node has a child for c whenever its string followed by c is a block of the extended table. |
| Trie.Attach | ZIP/LZWCompressPT.cs:97-104 | Attaching a fresh node numbered with the next code under a node without that child gives the trie of the extended table, which stays well formed. |
| Trie.NoAliasing | ZIP/LZWCompressPT.cs:97-111 | No edge leads to the root, and distinct edges lead to distinct nodes. |
| Trie.AttachInitial | ZIP/LZWCompressPT.cs:130-135 | Each alphabet character is not yet a root child, and attaching it gives the trie of the next initial table. |
| Trie.AttachNext | ZIP/LZWCompressPT.cs:97-104 | When input remains after the walk, the next character is never already a child (the check at line 99 always holds). Attaching gives the trie of the extended table. |
| Trie.Attached | ZIP/LZWCompressPT.cs:104 | Adding a child changes only the parent's child map. |
| Trie.Numbered | ZIP/LZWCompressPT.cs:103 | Setting a node's `Number` changes only that node's number. |
| Trie.Fill | ZIP/LZWCompressPT.cs:162-167 | The pool pre-filled with n cleared nodes. |
| HashEncoder.LZWCompress.Create | ZIP/LZWCompress.cs:48-59 | Fails with `NotDistinct` exactly on repeated characters. Otherwise a valid object with the sorted alphabet and an empty table. |
| HashEncoder.LZWCompress.constructor | ZIP/LZWCompress.cs:55-58 | Keeps the sorted alphabet, with an empty table. |
| HashEncoder.LZWCompress.Initialize | ZIP/LZWCompress.cs:140-151 | Succeeds exactly when the table is empty. It then holds the initial blocks at codes 0..n-1, with `nextBlockIndex` n, `maxBlockSize` 1 or 0 and width digits(n-1) or 0. From a stale table the first `Add` throws. The table and width are unchanged, `maxBlockSize` is 1 and `nextBlockIndex` is 1, because the post-increment ran before the throw. |
| HashEncoder.LZWCompress.FindBlock | ZIP/LZWCompress.cs:85-105 | The binary search returns the longest match. |
| HashEncoder.LZWCompress.Encrypt | ZIP/LZWCompress.cs:66-135 | From an empty table, returns `Encode`. On success the table is empty and the counters are those of the final table. After a rejected message the table, counters and width are those of the initial table. A stale table gives `DuplicateKey`: the table and width are unchanged and both counters are 1. |
| HashEncoder.LZWCompress.EncryptWithCleanup | ZIP/LZWCompress.cs:66-135 | The corrected call (see Findings): returns `Encode` and always leaves an empty table. |
| HashEncoder.LZWCompress.CheckMessage | ZIP/LZWCompress.cs:70-76 | Returns the first character not in the table, or the length. |
| HashEncoder.LZWCompress.EncodeMessage | ZIP/LZWCompress.cs:78-130 | The loop's output is `Encode` of the message, and its final table, counters and width are those of the final dictionary. |
| HashEncoder.LZWCompress.EncodeBlock | ZIP/LZWCompress.cs:85-129 | One pass emits the match's code padded to the current width and leaves the state of the extended table. |
| HashEncoder.LZWCompress.AddBlock | ZIP/LZWCompress.cs:115-125 | The new key gets the next code. `maxBlockSize` and the width (post-insertion check) become those of the extended table. |
| HashEncoder.LZWCompress.Cleanup | ZIP/LZWCompress.cs:156-159 | Empties the table and changes nothing else. |
| ZipHashEncoder.ZipEncrypt.Create | ZIP/ZipEncrypt.cs:47-56 | Fails with `NotDistinct` exactly on repeated characters; otherwise keeps the sorted dictionary. |
| ZipHashEncoder.ZipEncrypt.constructor | ZIP/ZipEncrypt.cs:53-55 | Keeps the sorted dictionary. |
| ZipHashEncoder.ZipEncrypt.Initialize | ZIP/ZipEncrypt.cs:135-147 | Always builds a fresh initial table, whatever the old state. |
| ZipHashEncoder.ZipEncrypt.Encrypt | ZIP/ZipEncrypt.cs:63-130 | Returns `Encode` on every call. On success the state is that of the final table; on failure it is that of the initial table. |
| ZipHashEncoder.ZipEncrypt.CheckMessage | ZIP/ZipEncrypt.cs:66-72 | Returns the first character not in the table, or the length. |
| ZipHashEncoder.ZipEncrypt.EncodeMessage | ZIP/ZipEncrypt.cs:74-127 | The loop's output is `Encode`, with the final dictionary's state. |
| ZipHashEncoder.ZipEncrypt.FindBlock | ZIP/ZipEncrypt.cs:81-101 | The binary search returns the longest match. |
| ZipHashEncoder.ZipEncrypt.EncodeBlock | ZIP/ZipEncrypt.cs:81-126 | One pass emits the padded code of the match and leaves the extended table's state. |
| ZipHashEncoder.ZipEncrypt.AddBlock | ZIP/ZipEncrypt.cs:109-123 | The width is bumped before the insertion when the new code needs another digit. The result equals the width of the extended table. |
| TrieEncoder.NodePool.constructor | ZIP/LZWCompressPT.cs:159-170 | A pool of `capacity` cleared nodes, none issued. |
| TrieEncoder.NodePool.GetNode | ZIP/LZWCompressPT.cs:176-193 | Issues the slot at the cursor, cleared, and advances the cursor. The pool doubles when exhausted. Other slots are unchanged and new ones are cleared. |
| TrieEncoder.NodePool.Reset | ZIP/LZWCompressPT.cs:198-201 | Only zeroes the cursor. |
| TrieEncoder.LZWCompressPT.Create | ZIP/LZWCompressPT.cs:48-59 | Fails with `NotDistinct` exactly on repeated characters; otherwise keeps the sorted alphabet and a fresh pool. |
| TrieEncoder.LZWCompressPT.constructor | ZIP/LZWCompressPT.cs:55-58 | The pool holds 2n+1 cleared nodes. |
| TrieEncoder.LZWCompressPT.Initialize | ZIP/LZWCompressPT.cs:124-138 | The pool is reset and the root taken. The n root children are numbered 0..n-1 in sorted order. The result is the trie of the initial table, with cursor n+1 and width digits(n-1) or 0. |
| TrieEncoder.LZWCompressPT.Encrypt | ZIP/LZWCompressPT.cs:66-119 | Returns `Encode` on every call. On success the tree is the trie of the final dictionary; on failure, of the initial one. |
| TrieEncoder.LZWCompressPT.CheckMessage | ZIP/LZWCompressPT.cs:70-76 | Returns the first character that is not a root child, or the length. |
| TrieEncoder.LZWCompressPT.EncodeMessage | ZIP/LZWCompressPT.cs:78-116 | The loop's output is `Encode`, and the tree ends as the trie of the final dictionary. |
| TrieEncoder.LZWCompressPT.Walk | ZIP/LZWCompressPT.cs:84-91 | The walk ends at the longest match. The node reached spells it and has its code as `Number`. When input remains, that node has no child for the next character. |
| TrieEncoder.LZWCompressPT.EncodeBlock | ZIP/LZWCompressPT.cs:84-115 | One pass emits the reached node's number padded to the width. It attaches one node numbered with the next code exactly when input remains, and the tree becomes the trie of the extended table. |
| ZipTrieEncoder.ZipEncryptPT.Create | ZIP/ZipEncryptPT.cs:52-71 | Fails with `NotDistinct` exactly on repeated characters; otherwise keeps the sorted dictionary. |
| ZipTrieEncoder.ZipEncryptPT.constructor | ZIP/ZipEncryptPT.cs:59-70 | The pool holds n+1 cleared nodes, the cursor is 0 and there is no tree. |
| ZipTrieEncoder.ZipEncryptPT.Initialize | ZIP/ZipEncryptPT.cs:137-151 | Whatever the old state, the pool ends holding the trie of the initial table. The root is at slot 0 and its children are numbered 0..n-1. The cursor is n+1, `nextBlockIndex` is n and the width is digits(n-1) or 0. |
| ZipTrieEncoder.ZipEncryptPT.Encrypt | ZIP/ZipEncryptPT.cs:78-132 | Returns `Encode` on every call. After success the pool holds the trie of the final dictionary, the tree is dropped and the cursor is 0. On failure the object holds the initial trie. |
| ZipTrieEncoder.ZipEncryptPT.Cleanup | ZIP/ZipEncryptPT.cs:156-160 | Drops the tree and zeroes the cursor, and changes nothing else. |
| ZipTrieEncoder.ZipEncryptPT.GetPrefixTreeNode | ZIP/ZipEncryptPT.cs:166-183 | Issues the slot at the cursor, cleared, and advances the cursor. The pool doubles when exhausted. |
| ZipTrieEncoder.ZipEncryptPT.CheckMessage | ZIP/ZipEncryptPT.cs:82-88 | Returns the first character that is not a root child, or the length. |
| ZipTrieEncoder.ZipEncryptPT.EncodeMessage | ZIP/ZipEncryptPT.cs:90-127 | The loop's output is `Encode`, and the pool ends as the trie of the final dictionary. |
| ZipTrieEncoder.ZipEncryptPT.Walk | ZIP/ZipEncryptPT.cs:96-103 | The walk ends at the longest match, at the node with the match's code. |
| ZipTrieEncoder.ZipEncryptPT.EncodeBlock | ZIP/ZipEncryptPT.cs:96-123 | The new node is attached first. The emitted code is the number of the node walked to, not of the new node. The state is that of the extended table. |
| ZipTrieEncoder.ZipEncryptPT.AttachBlock | ZIP/ZipEncryptPT.cs:106-113 | Attaches one node numbered with the next code, leaving the walked-to node's number unchanged. |
| ZipTrieEncoder.ZipEncryptPT.UpdateWidth | ZIP/ZipEncryptPT.cs:119-123 | The width check runs every pass. From either the old or the current width it leaves exactly the width of `nextBlockIndex` codes, and nothing else changes. |
| Decoder.LZWDecompress.Create | ZIP/LZWDecompress.cs:38-49 | Fails with `NotDistinct` exactly on repeated characters. Otherwise the alphabet is sorted and the table empty. |
| Decoder.LZWDecompress.constructor | ZIP/LZWDecompress.cs:45-48 | Keeps the sorted alphabet, with an empty table. |
| Decoder.LZWDecompress.Initialize | ZIP/LZWDecompress.cs:133-141 | Appends the alphabet's blocks after whatever the table holds and sets the width from the new table size. |
| Decoder.LZWDecompress.Decrypt | ZIP/LZWDecompress.cs:56-128 | Returns the decoding of the code string from the table the call starts with. A non-digit leaves the state untouched. On success the table is emptied. On a failing code group the table and width are where the loop stopped. |
| Decoder.LZWDecompress.DecryptWithCleanup | ZIP/LZWDecompress.cs:56-128 | The corrected call (see Findings): returns `Decode` and always leaves an empty table. |
| Decoder.LZWDecompress.Cleanup | ZIP/LZWDecompress.cs:146-149 | Empties the table. |
| Decoder.LZWDecompress.CheckCode | ZIP/LZWDecompress.cs:58-64 | Returns the first non-digit, or the length. |
| Decoder.LZWDecompress.DecodeMessage | ZIP/LZWDecompress.cs:68-123 | The loop's outcome and final table and width are the reference decoder's. |
| Decoder.LZWDecompress.DecodeBlock | ZIP/LZWDecompress.cs:76-122 | Reads one code group of the current width and takes the in-table or the self-referential branch. The table grows by at most one block. After the pass the width is digits(Count). |
| Decoder.LZWDecompress.Resolve | ZIP/LZWDecompress.cs:82-114 | A code inside the table names its block and closes the pending block with that block's first character. Any other code names the previous block plus its own first character, which is added. |
| Decoder.LZWDecompress.UpdateWidth | ZIP/LZWDecompress.cs:119-122 | The width rule leaves width digits(Count), from digits(Count-1). |
| ZipDecoder.ZipDecrypt.Create | ZIP/ZipDecrypt.cs:37-46 | Fails with `NotDistinct` exactly on repeated characters; otherwise keeps the sorted dictionary. |
| ZipDecoder.ZipDecrypt.constructor | ZIP/ZipDecrypt.cs:44-45 | Keeps the sorted dictionary. |
| ZipDecoder.ZipDecrypt.Initialize | ZIP/ZipDecrypt.cs:128-137 | Builds a fresh list of the initial blocks, whatever the old state, with width digits(n-1) or 0. |
| ZipDecoder.ZipDecrypt.Decrypt | ZIP/ZipDecrypt.cs:53-123 | Returns `Decode` on every call. A non-digit leaves the state untouched. Otherwise the table and width are where the loop stopped. |
| ZipDecoder.ZipDecrypt.CheckCode | ZIP/ZipDecrypt.cs:55-61 | Returns the first non-digit, or the length. |
| ZipDecoder.ZipDecrypt.DecodeMessage | ZIP/ZipDecrypt.cs:65-120 | The loop's outcome and final table and width are the reference decoder's. |
| ZipDecoder.ZipDecrypt.DecodeBlock | ZIP/ZipDecrypt.cs:73-119 | Reads one code group and takes the in-table or the self-referential branch. The table grows by at most one block, and after the pass the width is digits(Count). |
| ZipDecoder.ZipDecrypt.Resolve | ZIP/ZipDecrypt.cs:79-111 | A code inside the table names its block and closes the pending block with that block's first character. Any other code names the previous block plus its own first character, which is added. |
| ZipDecoder.ZipDecrypt.UpdateWidth | ZIP/ZipDecrypt.cs:116-119 | The width rule leaves width digits(Count), from digits(Count-1). |
| Scenarios.EmptyAlphabetEncode | ZipTest/ZipUnitTest.cs:23-42 | With the empty alphabet only the empty message encodes. Any other is rejected at its first character. |
| Scenarios.EmptyAlphabetDecode | ZipTest/ZipUnitTest.cs:47-54 | With the empty alphabet only the empty code string decodes. Digits fail with `InvalidBlockIndex` (width 0); a non-digit fails first. |
| Scenarios.EncodeAcceptsExactly | ZIP/ZipEncrypt.cs:66-72 | A message encodes if and only if every character is in the alphabet. |
| Scenarios.SortedSameCharacters | ZIP/ZipEncrypt.cs:53-55 | Sorting the alphabet does not change which messages are over it. |
| Scenarios.EmptyAlphabetCases | ZipTest/ZipUnitTest.cs:23-54 | The three empty-alphabet tests through the objects. `Encrypt("")` and `Decrypt("")` are empty; `Encrypt("a")` and `Decrypt("0")` fail. |
| Scenarios.EncodersAgree | ZIP/ZipEncryptPT.cs:93-127 | The four encoders, freshly built from one alphabet, return the same outcome for every message. |
| Scenarios.ZipRoundTrip | ZipTest/ZipUnitTest.cs:90-91 | `ZipDecrypt.Decrypt(ZipEncrypt.Encrypt(m)) == m` for every m over the alphabet. |
| Scenarios.CompressRoundTrip | ZIP/LZWDecompress.cs:56-128 | `LZWDecompress.Decrypt(LZWCompress.Encrypt(m)) == m` for fresh objects and every m over the alphabet. |
| Scenarios.RejectTwo | ZIP/LZWDecompress.cs:103-108 | With alphabet "ab", code "2" has no previous block to extend and is rejected without adding a block. |
| Scenarios.DecodeTwoCodes | ZIP/LZWDecompress.cs:103-114 | With alphabet "ab", "02" decodes to "aaa" through the self-referential branch. |
| Scenarios.DecodeBehindStaleBlocks | ZIP/LZWDecompress.cs:133-141 | Behind two stale blocks, "02" decodes to "aa". |
| Scenarios.InitialTableNotEmpty | ZIP/LZWCompress.cs:145-148 | A non-empty alphabet leaves a non-empty table behind. |
| Scenarios.CompressorAfterRejection | ZIP/LZWCompress.cs:68-76 | After a rejected "ax", `Encrypt("ab")` fails with `DuplicateKey` although "ab" is over the alphabet. |
| Scenarios.CompressorWithCleanup | ZIP/LZWCompress.cs:132 | With cleanup on every exit, the second call returns `Encode("ab", "ab")`. |
| Scenarios.DecompressorAfterRejection | ZIP/LZWDecompress.cs:76-125 | After a rejected "2", `Decrypt("02")` returns "aa" instead of "aaa". |
| Scenarios.DecompressorWithCleanup | ZIP/LZWDecompress.cs:125 | With cleanup on every exit, the second call returns "aaa". |

## Left out

- ZIP/Program.cs (the console loop, timing and exception reporting) is pure I/O and is not part of this model.
- ZipTest/ZipUnitTest.cs is not modelled as a test harness. Its assertions are stated as the `Scenarios` members instead, and the round trip is proved for every message rather than an enumerated subset.
- Alphabet.Normalize, Alphabet.Sort and every encoder and decoder take symbols as Dafny `char`, a Unicode scalar value. A C# `char` is a UTF-16 code unit. So the model does not capture text beyond the Basic Multilingual Plane: a C# string holds such a character as two surrogate code units, which become two alphabet entries, and `Array.Sort` orders surrogates below U+E000..U+FFFF. Nor does it capture lone surrogates, which a C# string can hold and a Dafny `char` cannot. For text inside the Basic Multilingual Plane without surrogates, the two agree character for character and in order.
- `char.IsDigit` is modelled as '0'..'9' only. .NET also accepts other Unicode decimal digits, which `int.TryParse` would then reject; the model has no such characters.
- `int` is unbounded in the model. Not modelled: `nextBlockIndex` overflow, and `int.TryParse` overflow once the width reaches 10 digits. The `TryParse` modelled here accepts exactly non-empty digit strings, without the leading/trailing whitespace and sign that .NET allows (the code stream is checked to be digits first, so these cannot occur).
- Exception types are not distinguished. An `ArgumentOutOfRangeException` from `Substring` on a short final group (ZIP/LZWDecompress.cs:76) and a failed `TryParse` are both `InvalidBlockIndex`. Each `Err` names the cause, not the .NET class.
- `List.Capacity` is modelled as the pool's length: pre-filled nodes, then doubling when the cursor reaches it. Memory and garbage-collection intent are not modelled (the `Cleanup` comments, string-building cost, hash-table internals and iteration order).
- Node objects are arena slots. A `PrefixTree` reference is a slot number. Reusing a slot after `Reset` is updating that slot, so object identity is captured only as slot identity.
- TrieEncoder.LZWCompressPT: `blockTree` is `null` until the first call in C#. The model keeps it as slot 0 from construction on, which every call sets again at ZIP/LZWCompressPT.cs:129.
- Decoder.LZWDecompress.Decrypt: on success the table is stated to be empty and the width is stated. The blocks that were in the table during the call are not stated after it is cleared.
- ZipTrieEncoder.ZipEncryptPT.Encrypt: after success the pool is stated as the trie of the final dictionary, but the slots above the cursor are not (only their count is bounded).

## Findings

| source | as written | input that shows it | evidently intended | confidence | as-written member | corrected member |
|---|---|---|---|---|---|---|
| ZIP/LZWCompress.cs:66-135 | A rejected message throws (line 74) after `Initialize` (line 68) filled the table, so `Cleanup` (line 132) is skipped. Every later `Encrypt` re-adds the first key and `Dictionary.Add` throws. | alphabet "ab": `Encrypt("ax")`, then `Encrypt("ab")` | the second call encodes "ab" | high (proved on the model; not executed) | Scenarios.CompressorAfterRejection | HashEncoder.LZWCompress.EncryptWithCleanup |
| ZIP/LZWDecompress.cs:56-128 | A code string rejected mid-stream (lines 76-79, 105-108) skips `Cleanup` (line 125). The next `Initialize` appends the alphabet after the stale blocks, so later codes name stale entries. | alphabet "ab": `Decrypt("2")`, then `Decrypt("02")` returns "aa" | "02", the code of "aaa", decodes to "aaa" | high (proved on the model; not executed) | Scenarios.DecompressorAfterRejection | Decoder.LZWDecompress.DecryptWithCleanup |
