/** The 32-round Feistel network of GOST R 34.12-2015 on a 64-bit block held as
    two 32-bit halves: the round transformations G[k] and G*[k] of section 4.2 of
    RFC 8891, and encryption and decryption as sections 5.1 and 5.2 of RFC 8891
    define them, computed as `round`, `encrypt_block` and `decrypt_block` of
    magma.cpp compute them. */
module Feistel {
  import opened Words
  import opened Sequences
  import opened RoundFunction

  /** A 64-bit block: `left` holds its high 32 bits, `right` its low 32 bits. */
  datatype Halves = Halves(left: Word, right: Word)

  /** The number of rounds both directions run. */
  const RoundCount: nat := 32

  /** Bitwise exclusive or of two words (`^`). */
  function Xor(a: Word, b: Word): Word
  {
    a ^ b
  }

  /** A round function of a half and a round key, such as g. */
  type RoundFn = (Word, Word) -> Word

  /** One round with round function g: the right half moves left, and the new
      right half is the old left half XOR g applied to the old right half. */
  function Step(h: Halves, k: Word, g: RoundFn): Halves
  {
    Halves(h.right, Xor(h.left, g(h.right, k)))
  }

  /** Exchanging the halves: what the block functions do after their rounds. */
  function Swap(h: Halves): Halves
  {
    Halves(h.right, h.left)
  }

  /** The rounds of ks applied in order, first key first. */
  function Rounds(h: Halves, ks: seq<Word>, g: RoundFn): Halves
    decreases |ks|
  {
    if ks == [] then h else Step(Rounds(h, ks[..|ks| - 1], g), ks[|ks| - 1], g)
  }

  /** Encryption: every round key in order, then the halves exchanged. */
  function Encrypt(h: Halves, ks: seq<Word>): Halves
  {
    Swap(Rounds(h, ks, G))
  }

  /** Decryption: every round key in reverse order, then the halves exchanged. */
  function Decrypt(h: Halves, ks: seq<Word>): Halves
  {
    Swap(Rounds(h, Reverse(ks), G))
  }

  /** XOR with the same word twice is the identity. */
  lemma XorTwice(x: Word, y: Word)
    ensures Xor(Xor(x, y), y) == x
  {
  }

  /** A round undoes itself once the halves are exchanged around it: the
      property of a Feistel round that makes decryption possible, whatever the
      round function is. */
  lemma StepUndoesStep(h: Halves, k: Word, g: RoundFn)
    ensures Step(Swap(Step(h, k, g)), k, g) == Swap(h)
  {
    XorTwice(h.left, g(h.right, k));
  }

  /** Running a key sequence with a key in front is running that key first. */
  lemma {:induction false} RoundsPrepend(h: Halves, k: Word, ks: seq<Word>, g: RoundFn)
    ensures Rounds(h, [k] + ks, g) == Rounds(Step(h, k, g), ks, g)
    decreases |ks|
  {
    if ks == [] {
      assert ([k] + ks)[..0] == [];
    } else {
      var init := ks[..|ks| - 1];
      var last := ks[|ks| - 1];
      var longer := [k] + ks;
      assert longer[..|longer| - 1] == [k] + init;
      assert longer[|longer| - 1] == last;
      calc {
        Rounds(h, longer, g);
        Step(Rounds(h, [k] + init, g), last, g);
        { RoundsPrepend(h, k, init, g); }
        Step(Rounds(Step(h, k, g), init, g), last, g);
      }
    }
  }

  /** The rounds of ks, undone by the rounds of ks in reverse order between two
      exchanges of the halves, for any keys and any round function. */
  lemma {:induction false} RoundsReversed(h: Halves, ks: seq<Word>, g: RoundFn)
    ensures Rounds(Swap(Rounds(h, ks, g)), Reverse(ks), g) == Swap(h)
    decreases |ks|
  {
    if ks != [] {
      var init := ks[..|ks| - 1];
      var last := ks[|ks| - 1];
      assert ks == init + [last];
      ReverseAppend(init, [last]);
      assert Reverse([last]) == [last];
      var mid := Rounds(h, init, g);
      calc {
        Rounds(Swap(Rounds(h, ks, g)), Reverse(ks), g);
        Rounds(Swap(Step(mid, last, g)), [last] + Reverse(init), g);
        { RoundsPrepend(Swap(Step(mid, last, g)), last, Reverse(init), g); }
        Rounds(Step(Swap(Step(mid, last, g)), last, g), Reverse(init), g);
        { StepUndoesStep(mid, last, g); }
        Rounds(Swap(mid), Reverse(init), g);
        { RoundsReversed(h, init, g); }
        Swap(h);
      }
    }
  }

  /** Decryption inverts encryption, for any round keys. */
  lemma DecryptEncrypt(h: Halves, ks: seq<Word>)
    ensures Decrypt(Encrypt(h, ks), ks) == h
  {
    RoundsReversed(h, ks, G);
  }

  /** Encryption inverts decryption, for any round keys. */
  lemma EncryptDecrypt(h: Halves, ks: seq<Word>)
    ensures Encrypt(Decrypt(h, ks), ks) == h
  {
    RoundsReversed(h, Reverse(ks), G);
    ReverseReverse(ks);
  }

  /** `round`: one round on the two halves passed by reference. */
  method Round(left: Word, right: Word, roundKey: Word) returns (newLeft: Word, newRight: Word)
    ensures Halves(newLeft, newRight) == Step(Halves(left, right), roundKey, G)
    ensures Step(Swap(Halves(newLeft, newRight)), roundKey, G) == Swap(Halves(left, right))
  {
    var temp := right;
    newRight := Xor(left, G(right, roundKey));
    newLeft := temp;
    StepUndoesStep(Halves(left, right), roundKey, G);
  }

  /** Extending the key prefix by one key runs one more round. */
  lemma RoundsPrefix(h: Halves, ks: seq<Word>, i: nat, g: RoundFn)
    requires i < |ks|
    ensures Rounds(h, ks[..i + 1], g) == Step(Rounds(h, ks[..i], g), ks[i], g)
  {
    assert ks[..i + 1][..i] == ks[..i];
  }

  /** Extending the reversed key suffix by the key in front of it runs one more round. */
  lemma RoundsReversedSuffix(h: Halves, ks: seq<Word>, i: nat, g: RoundFn)
    requires i < |ks|
    ensures Rounds(h, Reverse(ks[i..]), g) == Step(Rounds(h, Reverse(ks[i + 1..]), g), ks[i], g)
  {
    var done := Reverse(ks[i + 1..]);
    assert ks[i..] == [ks[i]] + ks[i + 1..];
    ReverseAppend([ks[i]], ks[i + 1..]);
    assert Reverse([ks[i]]) == [ks[i]];
    assert (done + [ks[i]])[..|done|] == done;
  }

  /** The rounds of a whole key sequence, then the exchange, are the encryption,
      which decryption undoes. */
  lemma AllRoundsEncrypt(h: Halves, keys: seq<Word>)
    ensures Swap(Rounds(h, keys[..|keys|], G)) == Encrypt(h, keys)
    ensures Decrypt(Swap(Rounds(h, keys[..|keys|], G)), keys) == h
  {
    assert keys[..|keys|] == keys;
    DecryptEncrypt(h, keys);
  }

  /** `encrypt_block`: the 32 rounds with round_keys[0], ..., round_keys[31], then the exchange. */
  method EncryptBlock(left: Word, right: Word, roundKeys: array<Word>) returns (outLeft: Word, outRight: Word)
    requires roundKeys.Length >= RoundCount
    ensures Halves(outLeft, outRight) == Encrypt(Halves(left, right), roundKeys[..RoundCount])
    ensures Decrypt(Halves(outLeft, outRight), roundKeys[..RoundCount]) == Halves(left, right)
  {
    ghost var keys := roundKeys[..RoundCount];
    ghost var start := Halves(left, right);
    var l, r := left, right;
    var i := 0;
    while i < RoundCount
      invariant 0 <= i <= RoundCount
      invariant Halves(l, r) == Rounds(start, keys[..i], G)
    {
      assert roundKeys[i] == keys[i];
      RoundsPrefix(start, keys, i, G);
      l, r := Round(l, r, roundKeys[i]);
      i := i + 1;
    }
    outLeft, outRight := r, l;
    AllRoundsEncrypt(Halves(left, right), keys);
  }

  /** `decrypt_block`: the 32 rounds with round_keys[31], ..., round_keys[0], then the exchange. */
  method DecryptBlock(left: Word, right: Word, roundKeys: array<Word>) returns (outLeft: Word, outRight: Word)
    requires roundKeys.Length >= RoundCount
    ensures Halves(outLeft, outRight) == Decrypt(Halves(left, right), roundKeys[..RoundCount])
    ensures Encrypt(Halves(outLeft, outRight), roundKeys[..RoundCount]) == Halves(left, right)
  {
    ghost var keys := roundKeys[..RoundCount];
    var l, r := left, right;
    var i := RoundCount as int - 1;
    while i >= 0
      invariant -1 <= i < RoundCount
      invariant Halves(l, r) == Rounds(Halves(left, right), Reverse(keys[i + 1..]), G)
    {
      RoundsReversedSuffix(Halves(left, right), keys, i, G);
      l, r := Round(l, r, roundKeys[i]);
      i := i - 1;
    }
    assert keys[0..] == keys;
    outLeft, outRight := r, l;
    EncryptDecrypt(Halves(left, right), keys);
  }
}
