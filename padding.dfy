/** The padding of magma.cpp: `pad_block` appends a 0x80 byte and then zero
    bytes up to a whole number of 64-bit blocks (padding method 2 of
    ISO/IEC 7816-4), and `unpad_block` strips it again after decryption. */
module Padding {
  import opened Words

  /** Bytes in a 64-bit block. */
  const BlockBytes: nat := 8

  /** The byte that marks where padding starts: a one bit followed by seven zero bits. */
  const Marker: Byte := 0x80

  /** n zero bytes. */
  function Zeros(n: nat): (z: seq<Byte>)
    ensures |z| == n && forall j :: 0 <= j < n ==> z[j] == 0
  {
    seq(n, _ => 0)
  }

  /** How many zero bytes follow the marker when the data is n bytes long. */
  function PadZeros(n: nat): (z: nat)
    ensures z < BlockBytes && (n + 1 + z) % BlockBytes == 0
  {
    (BlockBytes - (n + 1) % BlockBytes) % BlockBytes
  }

  /** The padded data: the data unchanged, the marker, then zeros up to a multiple of eight bytes. */
  function Pad(data: seq<Byte>): (r: seq<Byte>)
    ensures |r| % BlockBytes == 0
    ensures |data| < |r| <= |data| + BlockBytes
    ensures r[..|data|] == data
    ensures r[|data|] == Marker
    ensures forall j :: |data| < j < |r| ==> r[j] == 0
  {
    data + [Marker] + Zeros(PadZeros(|data|))
  }

  /** Fewer zeros than PadZeros never reach a block boundary. */
  lemma ShortOfBoundary(n: nat, z: nat)
    requires z < PadZeros(n)
    ensures (n + 1 + z) % BlockBytes != 0
  {
    var q := (n + 1) / BlockBytes;
    var rem := (n + 1) % BlockBytes;
    assert n + 1 + z == BlockBytes * q + rem + z;
    assert 0 < rem + z < BlockBytes;
  }

  /** `pad_block`: push the marker, then push zeros while the length is not a multiple of eight. */
  method PadBlock(data: seq<Byte>) returns (padded: seq<Byte>)
    ensures padded == Pad(data)
  {
    padded := data + [Marker];
    var z := 0;
    while |padded| % BlockBytes != 0
      invariant z <= PadZeros(|data|)
      invariant padded == data + [Marker] + Zeros(z)
      decreases PadZeros(|data|) - z
    {
      if z == PadZeros(|data|) {
        assert false;
      }
      padded := padded + [0];
      z := z + 1;
    }
    if z < PadZeros(|data|) {
      ShortOfBoundary(|data|, z);
      assert false;
    }
  }

  /** The data is padded from position p: the marker at p and only zeros after it. */
  predicate PaddedAt(data: seq<Byte>, p: int)
  {
    0 <= p < |data| && data[p] == Marker && forall j :: p < j < |data| ==> data[j] == 0
  }

  /** The loop of unpad_block: from pos, step down over zero bytes, but never below index 0. */
  function ScanDown(data: seq<Byte>, pos: nat): (p: nat)
    requires pos < |data|
    ensures p <= pos
    ensures forall j :: p < j <= pos ==> data[j] == 0
    ensures p == 0 || data[p] != 0
  {
    if pos > 0 && data[pos] == 0 then ScanDown(data, pos - 1) else pos
  }

  /** The data after unpad_block: cut at the last non-zero byte when that byte is
      the marker, left as it is otherwise. */
  function Unpad(data: seq<Byte>): (r: seq<Byte>)
    ensures |r| <= |data| && r == data[..|r|]
    ensures forall p :: PaddedAt(data, p) ==> r == data[..p]
    ensures (forall p :: !PaddedAt(data, p)) ==> r == data
  {
    if |data| == 0 then data
    else
      var p := ScanDown(data, |data| - 1);
      if data[p] == Marker then
        assert PaddedAt(data, p);
        UniquePadding(data, p);
        data[..p]
      else
        assert forall q :: PaddedAt(data, q) ==> q == p by {
          forall q | PaddedAt(data, q) ensures q == p {
            assert q <= p;
          }
        }
        data
  }

  /** The padding start is unique: the marker is not zero. */
  lemma UniquePadding(data: seq<Byte>, p: int)
    requires PaddedAt(data, p)
    ensures forall q :: PaddedAt(data, q) ==> q == p
  {
  }

  /** `unpad_block`: nothing to do on empty data; otherwise scan down from the
      last byte over zeros and cut at the marker if that is where the scan stops. */
  method UnpadBlock(data: seq<Byte>) returns (unpadded: seq<Byte>)
    ensures unpadded == Unpad(data)
  {
    unpadded := data;
    if |data| == 0 {
      return;
    }
    var pos := |data| - 1;
    while pos > 0 && data[pos] == 0
      invariant 0 <= pos < |data|
      invariant ScanDown(data, pos) == ScanDown(data, |data| - 1)
    {
      pos := pos - 1;
    }
    if data[pos] == Marker {
      unpadded := data[..pos];
    }
  }

  /** Unpadding undoes padding, for all data. */
  lemma UnpadPad(data: seq<Byte>)
    ensures Unpad(Pad(data)) == data
  {
    assert PaddedAt(Pad(data), |data|);
  }
}
