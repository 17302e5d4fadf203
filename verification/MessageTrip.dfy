/** A message written by the C encoder and read by the C decoder. */
module MessageTrip {
  import opened Binary
  import opened BitPacker
  import opened PrimArrays
  import opened Schema
  import opened Blocks
  import opened EncoderSteps
  import opened Decoding
  import Refusals
  import CBackend
  import CDecoder

  /** Whatever the buffer held before, decoding what NAME_encode wrote gives the value back and consumes
      exactly the bytes it reported, if the blocks for its arrays can be allocated; else C defines nothing. */
  method EncodeThenDecode(types: Types, layout: Layout, name: string, hash: int, buf: array<Byte>, offset: nat, maxlen: nat,
                          v: Value, le: bool, depth: nat)
    returns (written: int, how: CDecoder.Ending, consumed: int, decoded: Value)
    requires LegalTypes(types) && name in types && FitsRecord(types, name, v) && Depth(v) <= depth
    requires InType(hash, Storage(64, true)) && |MessageBits(types, name, hash, le, v)| <= MAX_BITS
    requires offset + maxlen <= buf.Length && maxlen < 0x1_0000_0000
    modifies buf
    ensures (written >= 0) == (8 * maxlen >= |MessageBits(types, name, hash, le, v)|)
    ensures written >= 0 && AllocRecord(types, layout, name, v) ==> how.Returns? && decoded == v && consumed == written
    ensures written >= 0 && !AllocRecord(types, layout, name, v) ==> how.RunsWild?
  {
    hide AllocRecord, RecordBits, FitsRecord, InType, ToBits, BeBytes, DecodeMessage, LegalTypes;
    how, consumed, decoded := CDecoder.Returns, -1, Record([]);
    written := CBackend.Encode(types, name, hash, buf, offset, maxlen, v, le);
    if written >= 0 {
      StandsAt(buf[..], offset + maxlen, offset, written, MessageBits(types, name, hash, le, v));
      RoundTrip(types, layout, name, hash, v, depth, buf[..], offset, maxlen, le);
      how, consumed, decoded := CDecoder.Decode(types, layout, name, hash, depth, buf[..], offset, maxlen, le);
    }
  }

  /** Any proper prefix of what NAME_encode wrote, decoded in its place or behind other bytes, is refused. */
  method EncodeThenDecodeCut(types: Types, layout: Layout, name: string, hash: int, buf: array<Byte>, offset: nat, maxlen: nat,
                             v: Value, le: bool, depth: nat, cut: nat, around: seq<Byte>, place: nat)
    returns (written: int, how: CDecoder.Ending, consumed: int)
    requires LegalTypes(types) && name in types && FitsRecord(types, name, v) && Depth(v) <= depth && AllocRecord(types, layout, name, v)
    requires |MessageBits(types, name, hash, le, v)| <= MAX_BITS
    requires offset + maxlen <= buf.Length && maxlen < 0x1_0000_0000 && place <= |around|
    modifies buf
    ensures (written >= 0) == (8 * maxlen >= |MessageBits(types, name, hash, le, v)|)
    ensures written >= 0 && cut < written ==> how.Returns? && consumed < 0
  {
    hide RecordBits, FitsRecord, InType, ToBits, BeBytes, DecodeMessage, LegalTypes, AllocRecord, MessageBits;
    how, consumed := CDecoder.Returns, -1;
    written := CBackend.Encode(types, name, hash, buf, offset, maxlen, v, le);
    if written >= 0 && cut < written {
      ghost var bytes := buf[offset..offset + written];
      var piece := around[..place] + buf[offset..offset + cut];
      var whole := piece + around[place..];
      assert whole[place..place + cut] == bytes[..cut];
      Refusals.CutRefused(types, layout, name, hash, v, depth, bytes, whole, place, cut, le);
      var decoded;
      how, consumed, decoded := CDecoder.Decode(types, layout, name, hash, depth, whole, place, cut, le);
    }
  }

  lemma SliceFrom(s: seq<bool>, pos: nat, n: nat, bits: seq<bool>)
    requires pos + n <= |s| && |bits| == n && s[pos..pos + n] == bits
    ensures SliceIs(s, pos, bits)
  {
  }

  lemma StandsAt(buf: seq<Byte>, limit: nat, at: nat, n: nat, bits: seq<bool>)
    requires at + n <= limit <= |buf| && |bits| == 8 * n && ToBits(buf[at..at + n]) == bits
    ensures At(buf, limit, 8 * at, bits)
  {
    ToBitsSlice(buf, at, n);
    SliceFrom(ToBits(buf), 8 * at, 8 * n, bits);
  }
}
