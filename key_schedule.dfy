/** The key schedule of magma.cpp: `expand_key` stretches the 56-bit key read
    from the key file, and `generate_round_keys` lays the eight words of a
    256-bit key out over the 32 rounds (section 4.3 of RFC 8891). */
module KeySchedule {
  import opened Words
  import opened Sequences

  /** Bytes in the key file. */
  const KeyBytes: nat := 7

  /** Words of a 256-bit key. */
  const KeyWords: nat := 8

  /** Round keys, one per round. */
  const RoundKeyCount: nat := 32

  /** Words `expand_key` writes. */
  const ExpandedKeyWords: nat := 32

  /** Words of the `key_256` buffer that `main` declares. */
  const MainKeyBufferWords: nat := 8

  /** The round keys for key words k: K1..K8 three times over, then K8..K1. */
  function Schedule(k: seq<Word>): (r: seq<Word>)
    requires |k| == KeyWords
    ensures |r| == RoundKeyCount
    ensures forall i :: 0 <= i < 24 ==> r[i] == k[i % 8]
    ensures forall i :: 24 <= i < 32 ==> r[i] == k[31 - i]
  {
    k + k + k + Reverse(k)
  }

  /** Read backwards, as decryption reads it, the schedule is K1..K8 once,
      then K8..K1 three times over. */
  lemma ScheduleReversed(k: seq<Word>)
    requires |k| == KeyWords
    ensures Reverse(Schedule(k)) == k + Reverse(k) + Reverse(k) + Reverse(k)
  {
    ReverseAppend(k + k + k, Reverse(k));
    ReverseReverse(k);
    ReverseAppend(k + k, k);
    ReverseAppend(k, k);
  }

  /** Key word K(j+1) is the round key of rounds j+1, j+9, j+17 and 32-j. */
  lemma ScheduleUsesEachWordInFourRounds(k: seq<Word>, j: int)
    requires |k| == KeyWords && 0 <= j < 8
    ensures Schedule(k)[j] == k[j] && Schedule(k)[8 + j] == k[j]
    ensures Schedule(k)[16 + j] == k[j] && Schedule(k)[31 - j] == k[j]
  {
  }

  /** `generate_round_keys`: fills round_keys[0..32) from key_256[0..8). The
      two buffers may even be the same array: the words it reads are never
      overwritten with anything else. */
  method GenerateRoundKeys(key256: array<Word>, roundKeys: array<Word>)
    requires key256.Length >= KeyWords && roundKeys.Length >= RoundKeyCount
    modifies roundKeys
    ensures roundKeys[..RoundKeyCount] == Schedule(old(key256[..KeyWords]))
    ensures roundKeys[RoundKeyCount..] == old(roundKeys[RoundKeyCount..])
  {
    ghost var k := key256[..KeyWords];
    ghost var schedule := Schedule(k);
    for i := 0 to 24
      invariant key256[..KeyWords] == k
      invariant roundKeys[..i] == schedule[..i]
      invariant roundKeys[RoundKeyCount..] == old(roundKeys[RoundKeyCount..])
    {
      roundKeys[i] := key256[i % 8];
      assert key256[..KeyWords] == k;
    }
    for i := 0 to 8
      invariant key256[..KeyWords] == k
      invariant roundKeys[..24 + i] == schedule[..24 + i]
      invariant roundKeys[RoundKeyCount..] == old(roundKeys[RoundKeyCount..])
    {
      roundKeys[24 + i] := key256[7 - i];
    }
  }

  /** What `expand_key` writes: the seven key bytes four times over, then the
      first four of them again, each byte widened to a word of its own. */
  function ExpandedWords(k: seq<Byte>): (r: seq<Word>)
    requires |k| == KeyBytes
    ensures |r| == ExpandedKeyWords
    ensures forall p :: 0 <= p < 28 ==> r[p] == k[p % 7] as Word
    ensures forall p :: 28 <= p < 32 ==> r[p] == k[p - 28] as Word
  {
    seq(ExpandedKeyWords, p requires 0 <= p < ExpandedKeyWords => Widen(if p < 28 then k[p % 7] else k[p - 28]))
  }

  /** A key byte stored in a word of its own (the implicit `uint8_t` to `uint32_t` conversion). */
  function Widen(b: Byte): Word
  {
    b as Word
  }

  /** A widened byte keeps its value in the low eight bits and nothing above them. */
  lemma WidenedByte(b: Byte)
    ensures (b as Word) < 256 && (b as Word) as Byte == b
  {
  }

  /** Every word `expand_key` writes is below 256 and gives its key byte back:
      the expanded key holds the 56 key bits and no others. */
  lemma ExpandedWordsAreBytes(k: seq<Byte>)
    requires |k| == KeyBytes
    ensures forall p :: 0 <= p < ExpandedKeyWords ==> ExpandedWords(k)[p] < 256
    ensures forall j :: 0 <= j < KeyBytes ==> ExpandedWords(k)[j] as Byte == k[j]
  {
    forall p | 0 <= p < ExpandedKeyWords
      ensures ExpandedWords(k)[p] < 256
    {
      WidenedByte(if p < 28 then k[p % 7] else k[p - 28]);
    }
    forall j | 0 <= j < KeyBytes
      ensures ExpandedWords(k)[j] as Byte == k[j]
    {
      WidenedByte(k[j]);
    }
  }

  /** `expand_key`: writes key_256[0..32) from key_56[0..7). */
  method ExpandKey(key56: array<Byte>, key256: array<Word>)
    requires key56.Length >= KeyBytes && key256.Length >= ExpandedKeyWords
    modifies key256
    ensures key256[..ExpandedKeyWords] == ExpandedWords(key56[..KeyBytes])
    ensures key256[ExpandedKeyWords..] == old(key256[ExpandedKeyWords..])
  {
    ghost var expanded := ExpandedWords(key56[..KeyBytes]);
    for i := 0 to 4
      invariant key256[..7 * i] == expanded[..7 * i]
      invariant key256[ExpandedKeyWords..] == old(key256[ExpandedKeyWords..])
    {
      for j := 0 to 7
        invariant key256[..7 * i + j] == expanded[..7 * i + j]
        invariant key256[ExpandedKeyWords..] == old(key256[ExpandedKeyWords..])
      {
        key256[i * 7 + j] := key56[j] as Word;
        assert (7 * i + j) % 7 == j;
      }
    }
    for i := 0 to 4
      invariant key256[..28 + i] == expanded[..28 + i]
      invariant key256[ExpandedKeyWords..] == old(key256[ExpandedKeyWords..])
    {
      key256[28 + i] := key56[i] as Word;
    }
  }

  /** `main` hands expand_key an eight-word buffer: fewer words than the 32 it
      writes, so expand_key's precondition does not hold there. */
  lemma MainKeyBufferTooSmall()
    ensures MainKeyBufferWords < ExpandedKeyWords
  {
  }

  /** The round keys main derives from the words its buffer holds: every one
      of them is below 256, so 24 bits of each 32-bit round key are zero. */
  lemma MainRoundKeysAreBytes(k: seq<Byte>)
    requires |k| == KeyBytes
    ensures forall i :: 0 <= i < RoundKeyCount ==> Schedule(ExpandedWords(k)[..MainKeyBufferWords])[i] < 256
  {
    ExpandedWordsAreBytes(k);
    var held := ExpandedWords(k)[..MainKeyBufferWords];
    forall i | 0 <= i < RoundKeyCount
      ensures Schedule(held)[i] < 256
    {
      if i < 24 {
        assert Schedule(held)[i] == held[i % 8] == ExpandedWords(k)[i % 8];
      } else {
        assert Schedule(held)[i] == held[31 - i] == ExpandedWords(k)[31 - i];
      }
    }
  }

  /** The 256-bit key the comments of expand_key describe: the seven key bytes
      four times over (224 bits), then the first four of them again. */
  function KeyMaterial(k: seq<Byte>): (m: seq<Byte>)
    requires |k| == KeyBytes
    ensures |m| == 4 * KeyWords
    ensures forall p :: 0 <= p < 28 ==> m[p] == k[p % 7]
    ensures forall p :: 28 <= p < 32 ==> m[p] == k[p - 28]
  {
    k + k + k + k + k[..4]
  }

  /** The corrected key expansion: the 32 bytes of key material packed, most
      significant byte first, into the eight words main's buffer holds. */
  function PackedKey(k: seq<Byte>): (r: seq<Word>)
    requires |k| == KeyBytes
    ensures |r| == KeyWords == MainKeyBufferWords
    ensures forall i :: 0 <= i < KeyWords ==> BytesOf(r[i]) == KeyMaterial(k)[4 * i..4 * i + 4]
  {
    var m := KeyMaterial(k);
    var r := seq(KeyWords, i requires 0 <= i < KeyWords => WordOf(m[4 * i..4 * i + 4]));
    forall i | 0 <= i < KeyWords
      ensures BytesOf(r[i]) == m[4 * i..4 * i + 4]
    {
      BytesOfWordOf(m[4 * i..4 * i + 4]);
    }
    r
  }

  /** The corrected round keys: the schedule of the packed key. */
  function RoundKeysOf(k: seq<Byte>): (r: seq<Word>)
    requires |k| == KeyBytes
    ensures |r| == RoundKeyCount
    ensures forall i :: 0 <= i < 24 ==> BytesOf(r[i]) == KeyMaterial(k)[4 * (i % 8)..4 * (i % 8) + 4]
  {
    Schedule(PackedKey(k))
  }

  /** With the corrected expansion, the 256 bits of key material can be read
      back from the first eight round keys. */
  lemma RoundKeysKeepKeyMaterial(k: seq<Byte>)
    requires |k| == KeyBytes
    ensures BytesOf(RoundKeysOf(k)[0]) + BytesOf(RoundKeysOf(k)[1]) + BytesOf(RoundKeysOf(k)[2])
      + BytesOf(RoundKeysOf(k)[3]) + BytesOf(RoundKeysOf(k)[4]) + BytesOf(RoundKeysOf(k)[5])
      + BytesOf(RoundKeysOf(k)[6]) + BytesOf(RoundKeysOf(k)[7]) == KeyMaterial(k)
  {
    var m := KeyMaterial(k);
    assert m == m[0..4] + m[4..8] + m[8..12] + m[12..16] + m[16..20] + m[20..24] + m[24..28] + m[28..32];
  }
}
