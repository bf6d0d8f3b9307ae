/** Uses of the six classes together: the unit tests' expectations, the four
    encoders agreeing, the round trip through encoder and decoder objects, and
    what the two long-lived classes do after a rejected call. */
module Scenarios {
  import opened Common
  import opened Decimal
  import opened Alphabet
  import opened Lzw
  import opened HashEncoder
  import opened ZipHashEncoder
  import opened TrieEncoder
  import opened ZipTrieEncoder
  import opened Decoder
  import opened ZipDecoder

  /** With no alphabet only the empty message encodes; any other message is
      rejected at its first character. */
  lemma EmptyAlphabetEncode(message: seq<char>)
    ensures Encode([], message) == if message == [] then Ok([]) else Err(NotInAlphabet(message[0]))
  {
    if message == [] {
      EncodeAccepts([], message);
    } else {
      EncodeRejects([], message, 0);
    }
  }

  /** With no alphabet only the empty code string decodes; a string of digits
      has no code group of width 0 to read. */
  lemma EmptyAlphabetDecode(code: seq<char>)
    ensures var k := FirstFailure(code, IsDigit);
            Decode([], code) == if k < |code| then Err(NotADigit(code[k]))
                                else if code == [] then Ok([]) else Err(InvalidBlockIndex)
  {
  }

  /** Every message over the alphabet encodes, and no other message does. */
  lemma EncodeAcceptsExactly(a: seq<char>, message: seq<char>)
    requires Distinct(a)
    ensures Encode(a, message).Ok? <==> forall j :: 0 <= j < |message| ==> message[j] in a
  {
    var k := FirstFailure(message, InAlphabet(a));
    if k < |message| {
      EncodeRejects(a, message, k);
    } else {
      EncodeAccepts(a, message);
    }
  }

  /** The alphabet a class keeps has the same characters as the one it was
      given. */
  lemma SortedSameCharacters(a: seq<char>, message: seq<char>)
    requires Distinct(a)
    ensures (forall j :: 0 <= j < |message| ==> message[j] in Normalize(a).value)
        <==> (forall j :: 0 <= j < |message| ==> message[j] in a)
  {
    var s := Normalize(a).value;
    forall c ensures c in s <==> c in a {
      assert c in s <==> c in multiset(s);
      assert c in a <==> c in multiset(a);
    }
  }

  /** Reading one code group of width 1. */
  lemma ReadDigit(s: seq<char>, d: nat)
    requires s != [] && d < 10 && s[0] == DigitChar(d)
    ensures TryParse(s[..1]) == Some(d)
  {
    var g := s[..1];
    assert g == [DigitChar(d)] && g[..0] == [];
    assert DigitValue(DigitChar(d)) == d;
    assert AllDigits(g);
    assert Value(g) == 10 * Value([]) + d;
  }

  /** The one-digit code "2" names no block of the two-block table and has no
      previous block to extend: it is rejected before the table changes. */
  lemma RejectTwo()
    ensures Decode("ab", "2") == Err(InvalidBlockIndex)
    ensures DecodeState(Initial("ab"), None, CodeWidth(2), "2") == (Initial("ab"), 1)
  {
    FirstFailureAt("2", IsDigit, 1);
    ReadDigit("2", 2);
  }

  /** "02" is "a" and then the self-referential code for "aa". */
  lemma DecodeTwoCodes()
    ensures Decode("ab", "02") == Ok("aaa")
  {
    var t := Initial("ab");
    assert t == ["a", "b"];
    FirstFailureAt("02", IsDigit, 2);
    ReadDigit("02", 0);
    ReadDigit("2", 2);
    assert "02"[1..] == "2" && "2"[1..] == [];
    DecodeStep(t, None, 1, "02", 0, "a", t);
    DecodeStep(t, Some("a"), 1, "2", 2, "aa", t + ["aa"]);
    assert "a" + ("aa" + []) == "aaa";
  }

  /** Behind two stale blocks, code 2 names the stale "a" instead of the block
      still to be built. */
  lemma DecodeBehindStaleBlocks()
    ensures DecodeWith(Initial("ab") + Initial("ab"), "02") == Ok("aa")
  {
    var t := Initial("ab") + Initial("ab");
    assert t == ["a", "b", "a", "b"];
    FirstFailureAt("02", IsDigit, 2);
    ReadDigit("02", 0);
    ReadDigit("2", 2);
    assert "02"[1..] == "2" && "2"[1..] == [];
    DecodeStep(t, None, 1, "02", 0, "a", t);
    assert "a" + ["a"[0]] == "aa";
    DecodeStep(t, Some("a"), 1, "2", 2, "a", t + ["aa"]);
    assert "a" + ("a" + []) == "aa";
  }

  /** The unit tests with the empty alphabet: the empty message and the empty
      code string round-trip, "a" cannot be encoded and "0" cannot be decoded. */
  method EmptyAlphabetCases() returns (e1: Result<seq<char>>, e2: Result<seq<char>>,
                                       d1: Result<seq<char>>, d2: Result<seq<char>>)
    ensures e1 == Ok([]) && e2 == Err(NotInAlphabet('a'))
    ensures d1 == Ok([]) && d2 == Err(InvalidBlockIndex)
  {
    var zipper := new ZipEncrypt([]);
    var unzipper := new ZipDecrypt([]);
    EmptyAlphabetEncode([]);
    EmptyAlphabetEncode("a");
    EmptyAlphabetDecode([]);
    EmptyAlphabetDecode("0");
    e1 := zipper.Encrypt([]);
    d1 := unzipper.Decrypt([]);
    e2 := zipper.Encrypt("a");
    d2 := unzipper.Decrypt("0");
  }

  /** The four encoders, each freshly constructed from the same alphabet,
      return the same outcome for the same message. */
  method EncodersAgree(alphabet: seq<char>, message: seq<char>)
    returns (r1: Result<seq<char>>, r2: Result<seq<char>>, r3: Result<seq<char>>, r4: Result<seq<char>>)
    requires Distinct(alphabet)
    ensures r1 == r2 == r3 == r4 == Encode(Normalize(alphabet).value, message)
  {
    var c1 := LZWCompress.Create(alphabet);
    var c2 := ZipEncrypt.Create(alphabet);
    var c3 := LZWCompressPT.Create(alphabet);
    var c4 := ZipEncryptPT.Create(alphabet);
    r1 := c1.value.Encrypt(message);
    r2 := c2.value.Encrypt(message);
    r3 := c3.value.Encrypt(message);
    r4 := c4.value.Encrypt(message);
  }

  /** The round trip of the unit tests through ZipEncrypt and ZipDecrypt: a
      message over the alphabet encodes, and decoding its code string gives the
      message back. */
  method ZipRoundTrip(alphabet: seq<char>, message: seq<char>)
    returns (zipped: Result<seq<char>>, unzipped: Result<seq<char>>)
    requires Distinct(alphabet)
    requires forall j :: 0 <= j < |message| ==> message[j] in alphabet
    ensures zipped.Ok? && unzipped == Ok(message)
  {
    var a := Normalize(alphabet).value;
    SortedSameCharacters(alphabet, message);
    EncodeAcceptsExactly(a, message);
    Lzw.RoundTrip(a, message);
    var zipper := ZipEncrypt.Create(alphabet);
    var unzipper := ZipDecrypt.Create(alphabet);
    zipped := zipper.value.Encrypt(message);
    assert zipped == Encode(a, message);
    unzipped := unzipper.value.Decrypt(zipped.value);
    assert unzipped == Decode(a, zipped.value);
  }

  /** The same round trip through freshly built LZWCompress and LZWDecompress
      objects. */
  method CompressRoundTrip(alphabet: seq<char>, message: seq<char>)
    returns (compressed: Result<seq<char>>, decompressed: Result<seq<char>>)
    requires Distinct(alphabet)
    requires forall j :: 0 <= j < |message| ==> message[j] in alphabet
    ensures compressed.Ok? && decompressed == Ok(message)
  {
    var a := Normalize(alphabet).value;
    SortedSameCharacters(alphabet, message);
    EncodeAcceptsExactly(a, message);
    Lzw.RoundTrip(a, message);
    FreshDecoderDecodes(a, Encode(a, message).value);
    var compressor := LZWCompress.Create(alphabet);
    var decompressor := LZWDecompress.Create(alphabet);
    var c, d := compressor.value, decompressor.value;
    compressed := c.Encrypt(message);
    assert compressed == Encode(a, message);
    decompressed := d.Decrypt(compressed.value);
    assert decompressed == Decode(a, compressed.value);
  }

  /** A decoder whose table is empty starts from the initial table alone. */
  lemma FreshDecoderDecodes(a: seq<char>, code: seq<char>)
    ensures DecodeWith([] + Initial(a), code) == Decode(a, code)
  {
    assert [] + Initial(a) == Initial(a);
  }

  /** The table a failed call leaves behind is not empty. */
  lemma InitialTableNotEmpty(a: seq<char>)
    requires Distinct(a) && a != []
    ensures TableOf(Initial(a)) != map[]
  {
    InitialWellFormed(a);
    TableSize(Initial(a));
  }

  /** A rejected message leaves an LZWCompress unable to encode anything: the
      next call meets its own stale table. */
  method CompressorAfterRejection() returns (first: Result<seq<char>>, second: Result<seq<char>>)
    ensures first == Err(NotInAlphabet('x'))
    ensures second == Err(DuplicateKey) && Encode("ab", "ab").Ok?
  {
    var compressor := new LZWCompress("ab");
    EncodeRejects("ab", "ax", 1);
    InitialTableNotEmpty("ab");
    EncodeAcceptsExactly("ab", "ab");
    first := compressor.Encrypt("ax");
    second := compressor.Encrypt("ab");
  }

  /** With the table released on every exit, the second call encodes. */
  method CompressorWithCleanup() returns (first: Result<seq<char>>, second: Result<seq<char>>)
    ensures first == Err(NotInAlphabet('x'))
    ensures second == Encode("ab", "ab") && second.Ok?
  {
    var compressor := new LZWCompress("ab");
    EncodeRejects("ab", "ax", 1);
    EncodeAcceptsExactly("ab", "ab");
    first := compressor.EncryptWithCleanup("ax");
    second := compressor.EncryptWithCleanup("ab");
  }

  /** A rejected code string leaves its table in an LZWDecompress: the next
      call reads "02", which is the code string of "aaa", as "aa". */
  method DecompressorAfterRejection() returns (first: Result<seq<char>>, second: Result<seq<char>>)
    ensures first == Err(InvalidBlockIndex)
    ensures Decode("ab", "02") == Ok("aaa") && second == Ok("aa")
  {
    var decompressor := new LZWDecompress("ab");
    RejectTwo();
    DecodeTwoCodes();
    DecodeBehindStaleBlocks();
    assert [] + Initial("ab") == Initial("ab");
    first := decompressor.Decrypt("2");
    second := decompressor.Decrypt("02");
  }

  /** With the table released on every exit, the second call decodes "02" as
      "aaa". */
  method DecompressorWithCleanup() returns (first: Result<seq<char>>, second: Result<seq<char>>)
    ensures first == Err(InvalidBlockIndex) && second == Ok("aaa")
  {
    var decompressor := new LZWDecompress("ab");
    RejectTwo();
    DecodeTwoCodes();
    first := decompressor.DecryptWithCleanup("2");
    second := decompressor.DecryptWithCleanup("02");
  }
}
