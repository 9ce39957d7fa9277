/**
 Reading fields back out of a packet buffer: `GetRawData` reinterprets the
 octets at an index as a host integer, `GetRawString` copies a slice out.
 */
module Packet {
  import opened Bytes

  /**
   `GetRawData<Type>(aPacket, aIndex)` for an unsigned `Type` of `width`
   octets: the little-endian value of the octets at that index.
   */
  function GetRawData(packet: seq<byte>, index: nat, width: nat): (r: nat)
    requires index + width <= |packet|
    ensures r < Pow256(width)
    ensures ToLe(r, width) == packet[index..index + width]
  {
    ToFromLe(packet[index..index + width]);
    FromLe(packet[index..index + width])
  }

  /** `GetRawString(aPacket, aIndex, aLength)`: a copy of the `aLength` octets at `aIndex`. */
  function GetRawString(packet: seq<byte>, index: nat, length: nat): (r: seq<byte>)
    requires index + length <= |packet|
    ensures |r| == length
    ensures forall i :: 0 <= i < length ==> r[i] == packet[index + i]
  {
    packet[index..index + length]
  }

  /** Reading an integer where its octets were just copied gives the integer back. */
  lemma RawDataOfWrite(buf: seq<byte>, at: nat, value: nat, width: nat)
    requires value < Pow256(width)
    requires at + width <= |buf|
    ensures GetRawData(Write(buf, at, ToLe(value, width)), at, width) == value
  {
    FromToLe(value, width);
  }

  /** Copying out the slice just written gives the written octets back. */
  lemma RawStringOfWrite(buf: seq<byte>, at: nat, bytes: seq<byte>)
    requires at + |bytes| <= |buf|
    ensures GetRawString(Write(buf, at, bytes), at, |bytes|) == bytes
  {
  }

  /** A field inside a common prefix of two packets reads the same in both. */
  lemma RawDataInPrefix(r: seq<byte>, s: seq<byte>, k: nat, index: nat, width: nat)
    requires k <= |r| && k <= |s| && r[..k] == s[..k]
    requires index + width <= k
    ensures GetRawData(r, index, width) == GetRawData(s, index, width)
  {
    assert r[index..index + width] == r[..k][index..index + width];
    assert s[index..index + width] == s[..k][index..index + width];
  }

  /** A field inside a known slice of a buffer reads as the same field of that slice. */
  lemma RawDataInSlice(r: seq<byte>, start: nat, end: nat, f: seq<byte>, index: nat, width: nat)
    requires start <= end <= |r| && r[start..end] == f
    requires index + width <= |f|
    ensures GetRawData(r, start + index, width) == GetRawData(f, index, width)
  {
    SubSlice(r, start, end, index, index + width);
  }
}
