/** The `AresToken` account record and its fixed 13-byte layout:
    byte 0 is the initialisation flag, bytes 1..9 the supply in
    little-endian order, bytes 9..13 the symbol copied verbatim. */
module AresTokenCodec {
  import opened LittleEndian
  import opened Runtime

  /** `Pack::LEN`: 1 flag byte + 8 supply bytes + 4 symbol bytes. */
  const LEN: nat := 13

  /** A `[u8; 4]` ticker. */
  type Symbol = s: seq<Byte> | |s| == 4 witness [0, 0, 0, 0]

  datatype AresToken = AresToken(isInitialized: bool, supply: U64, aresSymbol: Symbol)


  /** `unpack_from_slice`: reads the record from the first LEN bytes of src.
      It never fails, and any nonzero flag byte reads as initialised. */
  function UnpackFromSlice(src: seq<Byte>): (r: Result<AresToken>)
    requires |src| >= LEN
    ensures r.Ok?
    ensures r.value.isInitialized <==> src[0] != 0
    ensures forall i :: 1 <= i < 9 ==> (r.value.supply / Pow256(i - 1)) % 256 == src[i]
    ensures r.value.aresSymbol == src[9..LEN]
  {
    EightBytesAreU64();
    FromLeBytesDigits(src[1..9]);
    Ok(AresToken(src[0] != 0, FromLeBytes(src[1..9]), src[9..LEN]))
  }

  /** The LEN bytes `pack_into_slice` writes for t. Reading them back gives t. */
  function Pack(t: AresToken): (b: seq<Byte>)
    ensures |b| == LEN
    ensures UnpackFromSlice(b) == Ok(t)
  {
    var b := [if t.isInitialized then 1 else 0] + ToLeBytes(t.supply, 8) + t.aresSymbol;
    assert b[1..9] == ToLeBytes(t.supply, 8);
    assert b[9..LEN] == t.aresSymbol;
    EightBytesAreU64();
    FromToLeBytes(t.supply, 8);
    assert UnpackFromSlice(b).value == t;
    b
  }

  /** `IsInitialized::is_initialized`: true exactly when the flag byte the
      record packs to is set. */
  predicate IsInitialized(t: AresToken)
    ensures IsInitialized(t) <==> Pack(t)[0] != 0
  {
    t.isInitialized
  }

  /** Only the first LEN bytes of a buffer are read. */
  lemma UnpackReadsWindow(src: seq<Byte>)
    requires |src| >= LEN
    ensures UnpackFromSlice(src) == UnpackFromSlice(src[..LEN])
  {
    assert src[..LEN][1..9] == src[1..9];
    assert src[..LEN][9..LEN] == src[9..LEN];
  }

  /** Packing a decoded record reproduces bytes 1..LEN and writes the flag
      back as 0 or 1. */
  lemma PackUnpack(src: seq<Byte>)
    requires |src| >= LEN
    ensures Pack(UnpackFromSlice(src).value) == [if src[0] == 0 then 0 else 1] + src[1..LEN]
  {
    ToFromLeBytes(src[1..9]);
    assert src[1..LEN] == src[1..9] + src[9..LEN];
  }

  /** `dst[at..at + |src|].copy_from_slice(src)`. */
  method CopyFromSlice(dst: array<Byte>, at: nat, src: seq<Byte>)
    requires at + |src| <= dst.Length
    modifies dst
    ensures dst[at..at + |src|] == src
    ensures forall i :: 0 <= i < dst.Length && !(at <= i < at + |src|) ==> dst[i] == old(dst[i])
  {
    forall i | 0 <= i < |src| {
      dst[at + i] := src[i];
    }
  }

  /** `pack_into_slice`: writes t into the first LEN bytes of dst, in place,
      and leaves every later byte alone. */
  method PackIntoSlice(t: AresToken, dst: array<Byte>)
    requires dst.Length >= LEN
    modifies dst
    ensures dst[0] == if t.isInitialized then 1 else 0
    ensures forall i :: 1 <= i < 9 ==> dst[i] == (t.supply / Pow256(i - 1)) % 256
    ensures dst[9..LEN] == t.aresSymbol
    ensures dst[LEN..] == old(dst[LEN..])
    ensures dst[..LEN] == Pack(t)
    ensures UnpackFromSlice(dst[..]) == Ok(t)
  {
    dst[0] := if t.isInitialized then 1 else 0;
    CopyFromSlice(dst, 1, ToLeBytes(t.supply, 8));
    CopyFromSlice(dst, 9, t.aresSymbol);
    forall i | 1 <= i < 9 ensures dst[i] == (t.supply / Pow256(i - 1)) % 256 {
      assert dst[i] == dst[1..9][i - 1];
      ToLeBytesDigit(t.supply, 8, i - 1);
    }
    assert dst[..LEN] == [dst[0]] + dst[1..9] + dst[9..LEN];
    UnpackReadsWindow(dst[..]);
    assert dst[..][..LEN] == dst[..LEN];
  }
}
