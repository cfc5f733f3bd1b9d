/** Steps 6 to 9 of magma.cpp's `main`: the key-usage check, padding on
    encryption, the block-by-block loop in electronic codebook mode, and
    unpadding on decryption, over the bytes read from the input file. */
module Pipeline {
  import opened Words
  import opened Feistel
  import opened Padding
  import opened KeyUsage
  import opened KeySchedule

  /** What the processing steps of main end with: refused by the key-usage
      check (exit code 1), or the output bytes and whether the warning was printed. */
  datatype Outcome = Refused | Done(output: seq<Byte>, warned: bool)

  /** One 64-bit block, most significant byte first, encrypted or decrypted. */
  function CryptBlock(keys: seq<Word>, block: seq<Byte>, encrypt: bool): (r: seq<Byte>)
    requires |block| == BlockBytes
    ensures |r| == BlockBytes
  {
    var h := Halves(WordOf(block[..4]), WordOf(block[4..]));
    var o := if encrypt then Encrypt(h, keys) else Decrypt(h, keys);
    BytesOf(o.left) + BytesOf(o.right)
  }

  /** Splitting a block into its halves and joining them again loses nothing. */
  lemma BlockOfHalves(block: seq<Byte>)
    requires |block| == BlockBytes
    ensures BytesOf(WordOf(block[..4])) + BytesOf(WordOf(block[4..])) == block
  {
    BytesOfWordOf(block[..4]);
    BytesOfWordOf(block[4..]);
    assert block == block[..4] + block[4..];
  }

  /** Joining two halves into a block and splitting it again loses nothing. */
  lemma HalvesOfBlock(h: Halves)
    ensures WordOf((BytesOf(h.left) + BytesOf(h.right))[..4]) == h.left
    ensures WordOf((BytesOf(h.left) + BytesOf(h.right))[4..]) == h.right
  {
    assert (BytesOf(h.left) + BytesOf(h.right))[..4] == BytesOf(h.left);
    assert (BytesOf(h.left) + BytesOf(h.right))[4..] == BytesOf(h.right);
    WordOfBytesOf(h.left);
    WordOfBytesOf(h.right);
  }

  /** Decrypting an encrypted block gives it back, and the other way round. */
  lemma CryptBlockInverse(keys: seq<Word>, block: seq<Byte>, encrypt: bool)
    requires |block| == BlockBytes
    ensures CryptBlock(keys, CryptBlock(keys, block, encrypt), !encrypt) == block
  {
    var h := Halves(WordOf(block[..4]), WordOf(block[4..]));
    var o := if encrypt then Encrypt(h, keys) else Decrypt(h, keys);
    var c := BytesOf(o.left) + BytesOf(o.right);
    HalvesOfBlock(o);
    assert Halves(WordOf(c[..4]), WordOf(c[4..])) == o;
    if encrypt {
      DecryptEncrypt(h, keys);
    } else {
      EncryptDecrypt(h, keys);
    }
    BlockOfHalves(block);
  }

  /** The block loop: every whole block encrypted or decrypted on its own, and
      a trailing part of fewer than eight bytes copied as it is. */
  function Ecb(keys: seq<Word>, data: seq<Byte>, encrypt: bool): (r: seq<Byte>)
    ensures |r| == |data|
    decreases |data|
  {
    if |data| < BlockBytes then data
    else CryptBlock(keys, data[..BlockBytes], encrypt) + Ecb(keys, data[BlockBytes..], encrypt)
  }

  /** Codebook mode: the output of aligned data followed by more data is the
      output of each part on its own, so equal blocks give equal outputs. */
  lemma {:induction false} EcbAppend(keys: seq<Word>, a: seq<Byte>, b: seq<Byte>, encrypt: bool)
    requires |a| % BlockBytes == 0
    ensures Ecb(keys, a + b, encrypt) == Ecb(keys, a, encrypt) + Ecb(keys, b, encrypt)
    decreases |a|
  {
    if a != [] {
      assert (a + b)[..BlockBytes] == a[..BlockBytes];
      assert (a + b)[BlockBytes..] == a[BlockBytes..] + b;
      EcbAppend(keys, a[BlockBytes..], b, encrypt);
    } else {
      assert a + b == b;
    }
  }

  /** Running the block loop twice on data that starts with a whole block runs
      both directions on that block, then on the rest. */
  lemma EcbTwiceFirstBlock(keys: seq<Word>, data: seq<Byte>, encrypt: bool)
    requires |data| >= BlockBytes
    ensures Ecb(keys, Ecb(keys, data, encrypt), !encrypt)
      == CryptBlock(keys, CryptBlock(keys, data[..BlockBytes], encrypt), !encrypt)
       + Ecb(keys, Ecb(keys, data[BlockBytes..], encrypt), !encrypt)
  {
    var head := CryptBlock(keys, data[..BlockBytes], encrypt);
    var out := head + Ecb(keys, data[BlockBytes..], encrypt);
    assert out[..BlockBytes] == head;
    assert out[BlockBytes..] == Ecb(keys, data[BlockBytes..], encrypt);
  }

  /** The block loop in one direction undoes the block loop in the other, for any data and any keys. */
  lemma {:induction false} EcbInverse(keys: seq<Word>, data: seq<Byte>, encrypt: bool)
    ensures Ecb(keys, Ecb(keys, data, encrypt), !encrypt) == data
    decreases |data|
  {
    if |data| >= BlockBytes {
      EcbTwiceFirstBlock(keys, data, encrypt);
      CryptBlockInverse(keys, data[..BlockBytes], encrypt);
      EcbInverse(keys, data[BlockBytes..], encrypt);
      assert data == data[..BlockBytes] + data[BlockBytes..];
    }
  }

  /** The bytes the block loop runs over: padded on encryption unless already a
      whole number of blocks, as they are otherwise. */
  function Prepared(input: seq<Byte>, encrypt: bool): (data: seq<Byte>)
    ensures encrypt ==> |data| % BlockBytes == 0
    ensures !encrypt || |input| % BlockBytes == 0 ==> data == input
    ensures encrypt && |input| % BlockBytes != 0 ==> data == Pad(input)
  {
    if encrypt && |input| % BlockBytes != 0 then Pad(input) else input
  }

  /** What steps 6 to 9 of main compute from the input bytes: refused above the
      key's budget, otherwise done with the warning of the key-usage check. */
  function Run(input: seq<Byte>, keys: seq<Word>, encrypt: bool): (r: Outcome)
    ensures r.Refused? <==> MaxBytesPerKey < |input|
    ensures r.Done? ==> (r.warned <==> WarnBytesPerKey < |input|)
    ensures r.Done? && encrypt ==> |r.output| % BlockBytes == 0
  {
    var usage := CheckKeyUsage(|input|);
    if !usage.allowed then Refused
    else
      var out := Ecb(keys, Prepared(input, encrypt), encrypt);
      Done(if encrypt then out else Unpad(out), usage.warned)
  }

  /** The block loop on data that starts with a whole block. */
  lemma EcbFirstBlock(keys: seq<Word>, data: seq<Byte>, i: nat, encrypt: bool)
    requires i + BlockBytes <= |data|
    ensures Ecb(keys, data[i..], encrypt)
      == CryptBlock(keys, data[i..i + BlockBytes], encrypt) + Ecb(keys, data[i + BlockBytes..], encrypt)
  {
    assert data[i..][..BlockBytes] == data[i..i + BlockBytes];
    assert data[i..][BlockBytes..] == data[i + BlockBytes..];
  }

  /** The block loop's invariant carried over one whole block. */
  lemma EcbNextBlock(keys: seq<Word>, data: seq<Byte>, i: nat, encrypt: bool, output: seq<Byte>, block: seq<Byte>)
    requires i + BlockBytes <= |data|
    requires output + Ecb(keys, data[i..], encrypt) == Ecb(keys, data, encrypt)
    requires block == CryptBlock(keys, data[i..i + BlockBytes], encrypt)
    ensures (output + block) + Ecb(keys, data[i + BlockBytes..], encrypt) == Ecb(keys, data, encrypt)
  {
    EcbFirstBlock(keys, data, i, encrypt);
  }

  /** The block loop's invariant closed by a trailing part, which is copied. */
  lemma EcbTail(keys: seq<Word>, data: seq<Byte>, i: nat, encrypt: bool, output: seq<Byte>)
    requires i <= |data| < i + BlockBytes
    requires output + Ecb(keys, data[i..], encrypt) == Ecb(keys, data, encrypt)
    ensures output + data[i..] == Ecb(keys, data, encrypt)
  {
  }

  /** One pass of the block loop's body: the two halves read most significant
      byte first, encrypted or decrypted with round_keys, written back the same way. */
  method CryptAt(data: seq<Byte>, i: nat, roundKeys: array<Word>, encrypt: bool) returns (block: seq<Byte>)
    requires i + BlockBytes <= |data| && roundKeys.Length >= RoundCount
    ensures block == CryptBlock(roundKeys[..RoundCount], data[i..i + BlockBytes], encrypt)
  {
    ghost var b := data[i..i + BlockBytes];
    assert data[i..i + 4] == b[..4] && data[i + 4..i + 8] == b[4..];
    var left := WordOf(data[i..i + 4]);
    var right := WordOf(data[i + 4..i + 8]);
    if encrypt {
      left, right := EncryptBlock(left, right, roundKeys);
    } else {
      left, right := DecryptBlock(left, right, roundKeys);
    }
    block := BytesOf(left) + BytesOf(right);
  }

  /** A block that starts at a multiple of eight inside data of a multiple of eight bytes ends inside it. */
  lemma AlignedHasNoTail(n: nat, i: nat, blocks: nat)
    requires n % BlockBytes == 0 && i == BlockBytes * blocks && i < n
    ensures i + BlockBytes <= n
  {
    var m := n / BlockBytes;
    assert n == BlockBytes * m;
  }

  /** The inner loop of step 8: the bytes from position i on, pushed one by one. */
  method CopyTail(data: seq<Byte>, i: nat) returns (tail: seq<Byte>)
    requires i <= |data|
    ensures tail == data[i..]
  {
    tail := [];
    for j := i to |data|
      invariant tail == data[i..j]
    {
      tail := tail + [data[j]];
    }
  }

  /** Step 8 of `main`, the block loop over data that, when encrypting, is a
      whole number of blocks. */
  method ProcessBlocks(data: seq<Byte>, roundKeys: array<Word>, encryptMode: bool) returns (output: seq<Byte>)
    requires roundKeys.Length >= RoundCount
    requires encryptMode ==> |data| % BlockBytes == 0
    ensures output == Ecb(roundKeys[..RoundCount], data, encryptMode)
  {
    ghost var keys := roundKeys[..RoundCount];
    output := [];
    var i := 0;
    ghost var blocks := 0;
    while i < |data|
      invariant 0 <= i <= |data| && i == BlockBytes * blocks
      invariant output + Ecb(keys, data[i..], encryptMode) == Ecb(keys, data, encryptMode)
    {
      if i + BlockBytes > |data| {
        // Only decryption can meet a trailing part: encryption runs over padded data.
        assert encryptMode ==> i + BlockBytes <= |data| by {
          if encryptMode {
            AlignedHasNoTail(|data|, i, blocks);
          }
        }
        assert !encryptMode;
        var tail := CopyTail(data, i);
        EcbTail(keys, data, i, encryptMode, output);
        output := output + tail;
        return;
      }
      var block := CryptAt(data, i, roundKeys, encryptMode);
      EcbNextBlock(keys, data, i, encryptMode, output, block);
      output := output + block;
      i := i + BlockBytes;
      blocks := blocks + 1;
    }
    assert data[i..] == [];
  }

  /** Steps 6 to 9 of `main`: check the key usage, pad when encrypting data
      that is not a whole number of blocks, run the block loop, unpad when decrypting. */
  method Process(input: seq<Byte>, roundKeys: array<Word>, encryptMode: bool) returns (outcome: Outcome)
    requires roundKeys.Length >= RoundCount
    ensures outcome == Run(input, roundKeys[..RoundCount], encryptMode)
  {
    var usage := CheckKeyUsage(|input|);
    if !usage.allowed {
      return Refused;
    }
    var data := input;
    if encryptMode && |data| % BlockBytes != 0 {
      data := PadBlock(data);
    }
    var output := ProcessBlocks(data, roundKeys, encryptMode);
    if !encryptMode {
      output := UnpadBlock(output);
    }
    outcome := Done(output, usage.warned);
  }

  /** Encryption of data within the key's budget succeeds, and its output is
      the data itself in length when that is a whole number of blocks, the
      padded data in length otherwise. */
  lemma EncryptedLength(input: seq<Byte>, keys: seq<Word>)
    requires |input| <= MaxBytesPerKey
    ensures Run(input, keys, true).Done?
    ensures |input| % BlockBytes == 0 ==> |Run(input, keys, true).output| == |input|
    ensures |input| % BlockBytes != 0 ==> |Run(input, keys, true).output| == |Pad(input)|
    ensures |Run(input, keys, true).output| % BlockBytes == 0
  {
  }

  /** Data of fewer than MaxBytesPerKey bytes still fits the budget once padded. */
  lemma PaddedFitsBudget(input: seq<Byte>)
    requires |input| < MaxBytesPerKey
    ensures |Pad(input)| <= MaxBytesPerKey
  {
    var s := |Pad(input)|;
    var a := s / BlockBytes;
    assert s == BlockBytes * a;
    assert a <= 2560;
  }

  /** Decryption of encrypted data: the block loops cancel, and what is left is
      the prepared data, unpadded. */
  lemma DecryptEncrypted(input: seq<Byte>, keys: seq<Word>)
    requires |input| <= MaxBytesPerKey
    ensures Run(input, keys, true).Done?
    ensures Run(Run(input, keys, true).output, keys, false)
      == Done(Unpad(Prepared(input, true)), CheckKeyUsage(|Prepared(input, true)|).warned)
  {
    var data := Prepared(input, true);
    if |input| % BlockBytes != 0 {
      assert |input| != MaxBytesPerKey;
      PaddedFitsBudget(input);
    }
    EcbInverse(keys, data, true);
  }

  /** Data that is not a whole number of blocks comes back unchanged from
      encryption and then decryption with the same round keys. */
  lemma RoundTripUnaligned(input: seq<Byte>, keys: seq<Word>)
    requires |input| % BlockBytes != 0 && |input| <= MaxBytesPerKey
    ensures Run(input, keys, true).Done?
    ensures Run(Run(input, keys, true).output, keys, false).Done?
    ensures Run(Run(input, keys, true).output, keys, false).output == input
  {
    PaddedFitsBudget(input);
    DecryptEncrypted(input, keys);
    UnpadPad(input);
  }

  /** Data that is a whole number of blocks is not padded, but its decryption
      is unpadded all the same: what comes back is Unpad of the data. */
  lemma RoundTripAligned(input: seq<Byte>, keys: seq<Word>)
    requires |input| % BlockBytes == 0 && |input| <= MaxBytesPerKey
    ensures Run(input, keys, true).Done?
    ensures Run(Run(input, keys, true).output, keys, false).Done?
    ensures Run(Run(input, keys, true).output, keys, false).output == Unpad(input)
  {
    DecryptEncrypted(input, keys);
  }

  /** Eight bytes of data that end like padding: 'A', the marker, six zeros. */
  const MarkerEndedBlock: seq<Byte> := [0x41, 0x80, 0, 0, 0, 0, 0, 0]

  /** As written, main loses the end of MarkerEndedBlock: for any round keys,
      encrypting it and decrypting the result gives back the single byte 'A'. */
  lemma MarkerEndedBlockLosesItsEnd(keys: seq<Word>)
    ensures Run(Run(MarkerEndedBlock, keys, true).output, keys, false) == Done([0x41], false)
  {
    UnpadMarkerEndedBlock();
    RoundTripAligned(MarkerEndedBlock, keys);
  }

  /** MarkerEndedBlock is a whole block, and unpadding it leaves only its first byte. */
  lemma UnpadMarkerEndedBlock()
    ensures |MarkerEndedBlock| == BlockBytes && Unpad(MarkerEndedBlock) == [0x41]
  {
    assert PaddedAt(MarkerEndedBlock, 1);
  }

  /** The processing with padding as evidently intended: every plaintext is
      padded on encryption, so that unpadding after decryption is always right. */
  function RunPaddingAlways(input: seq<Byte>, keys: seq<Word>, encrypt: bool): Outcome
  {
    var usage := CheckKeyUsage(|input|);
    if !usage.allowed then Refused
    else
      var out := Ecb(keys, if encrypt then Pad(input) else input, encrypt);
      Done(if encrypt then out else Unpad(out), usage.warned)
  }

  /** With padding always applied, every plaintext below the key's budget comes
      back unchanged from encryption and decryption with the same round keys. */
  lemma RoundTripPaddingAlways(input: seq<Byte>, keys: seq<Word>)
    requires |input| < MaxBytesPerKey
    ensures RunPaddingAlways(input, keys, true).Done?
    ensures RunPaddingAlways(RunPaddingAlways(input, keys, true).output, keys, false).Done?
    ensures RunPaddingAlways(RunPaddingAlways(input, keys, true).output, keys, false).output == input
  {
    PaddedFitsBudget(input);
    EcbInverse(keys, Pad(input), true);
    UnpadPad(input);
  }

  /** With padding always applied, a plaintext of exactly the budget is still
      encrypted, but its ciphertext is a block longer than the budget, so its
      decryption is refused. */
  lemma PaddingAlwaysRefusesFullBudget(input: seq<Byte>, keys: seq<Word>)
    requires |input| == MaxBytesPerKey
    ensures RunPaddingAlways(input, keys, true).Done?
    ensures |RunPaddingAlways(input, keys, true).output| == MaxBytesPerKey + BlockBytes
    ensures RunPaddingAlways(RunPaddingAlways(input, keys, true).output, keys, false) == Refused
  {
  }

  /** Both corrections together: the round keys of the packed 256-bit key, and
      padding always applied, give back every plaintext below the budget. */
  lemma RoundTripCorrected(input: seq<Byte>, key: seq<Byte>)
    requires |input| < MaxBytesPerKey && |key| == KeyBytes
    ensures RunPaddingAlways(RunPaddingAlways(input, RoundKeysOf(key), true).output, RoundKeysOf(key), false)
      == Done(input, WarnBytesPerKey < |Pad(input)|)
  {
    RoundTripPaddingAlways(input, RoundKeysOf(key));
  }
}
