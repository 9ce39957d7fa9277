/**
 The 802.11 headers the codec builds: the ad-hoc data header (the
 ToDS=0/FromDS=0 address layout of section 9.3.2.1 of IEEE 802.11-2016:
 address 1 the destination, address 2 the source, address 3 the BSSID) and
 the Ack frame of section 9.3.1.4 (frame control, duration, receiver
 address). Fields sit at their standard offsets: frame control at 0,
 duration at 2, then the 6-octet addresses from offset 4; whatever else the
 header structs hold is zero.
 */
module Frames {
  import opened Bytes
  import opened Packet
  import opened Mac
  import opened RadioTap

  const DURATION_OFFSET: nat := 2
  const ADDR1_OFFSET: nat := 4
  const ADDR2_OFFSET: nat := 10
  const ADDR3_OFFSET: nat := 16
  const MAC_SIZE: nat := 6
  /** The "arbitrarily high" duration both headers carry. */
  const MAX_DURATION: nat := 0xffff

  /**
   The `ieee80211_hdr` value: frame control `cWlanFCTypeData`, duration
   0xffff, address 1 and 2 the first six octets of the destination and
   source integers as they lie in memory, address 3 the first six octets
   of the swapped BSSID.
   */
  function Ieee80211Header(c: Constants, source: u64, destination: u64, bssid: u64): (r: seq<byte>)
    requires ValidConstants(c)
    ensures |r| == c.ieee80211HeaderSize
  {
    ToLe(c.wlanFCTypeData, 2) + ToLe(MAX_DURATION, 2)
      + ToLe(destination, 8)[..MAC_SIZE] + ToLe(source, 8)[..MAC_SIZE]
      + ToLe(SwapMacEndian(bssid), 8)[..MAC_SIZE]
      + Zeros(c.ieee80211HeaderSize - ADDR3_OFFSET - MAC_SIZE)
  }

  /**
   `InsertIEEE80211Header`: copy the header into the packet at `index` (a
   `uint8_t`). Only the octets of that slice change.
   */
  function InsertIEEE80211Header(c: Constants, packet: seq<byte>, source: u64, destination: u64,
                                 bssid: u64, index: byte): (r: seq<byte>)
    requires ValidConstants(c)
    requires index + c.ieee80211HeaderSize <= |packet|
    ensures |r| == |packet|
    ensures r[..index] == packet[..index]
    ensures r[index + c.ieee80211HeaderSize..] == packet[index + c.ieee80211HeaderSize..]
  {
    Write(packet, index, Ieee80211Header(c, source, destination, bssid))
  }

  /**
   What the data header holds: the data frame type, duration 0xffff, the
   destination's and the source's low-order octets in host order (not
   swapped), and the BSSID's low-order octets reversed.
   */
  lemma Ieee80211HeaderLayout(c: Constants, source: u64, destination: u64, bssid: u64)
    requires ValidConstants(c)
    ensures var h := Ieee80211Header(c, source, destination, bssid);
            && GetRawData(h, 0, 2) == c.wlanFCTypeData
            && GetRawData(h, DURATION_OFFSET, 2) == MAX_DURATION
            && h[ADDR1_OFFSET..ADDR1_OFFSET + MAC_SIZE] == ToLe(destination, MAC_SIZE)
            && h[ADDR2_OFFSET..ADDR2_OFFSET + MAC_SIZE] == ToLe(source, MAC_SIZE)
            && h[ADDR3_OFFSET..ADDR3_OFFSET + MAC_SIZE] == Reverse(ToLe(bssid, MAC_SIZE))
            && GetRawData(h, ADDR3_OFFSET, MAC_SIZE) == SwapMacEndian(bssid)
  {
    var h := Ieee80211Header(c, source, destination, bssid);
    var fc := ToLe(c.wlanFCTypeData, 2);
    var dur := ToLe(MAX_DURATION, 2);
    var a1 := ToLe(destination, 8)[..MAC_SIZE];
    var a2 := ToLe(source, 8)[..MAC_SIZE];
    var a3 := ToLe(SwapMacEndian(bssid), 8)[..MAC_SIZE];
    var rest := Zeros(c.ieee80211HeaderSize - ADDR3_OFFSET - MAC_SIZE);
    assert h == fc + dur + a1 + a2 + a3 + rest;
    Slices6(fc, dur, a1, a2, a3, rest);
    ToLePrefix(destination, 8, MAC_SIZE);
    ToLePrefix(source, 8, MAC_SIZE);
    ToLePrefix(SwapMacEndian(bssid), 8, MAC_SIZE);
    Pow256Widths();
    FromToLe(c.wlanFCTypeData, 2);
    FromToLe(MAX_DURATION, 2);
    FromToLe(SwapMacEndian(bssid), MAC_SIZE);
  }

  /** The same fields, read at `index` in the packet after `InsertIEEE80211Header`. */
  lemma Ieee80211HeaderFields(c: Constants, packet: seq<byte>, source: u64, destination: u64,
                              bssid: u64, index: byte)
    requires ValidConstants(c)
    requires index + c.ieee80211HeaderSize <= |packet|
    ensures var r := InsertIEEE80211Header(c, packet, source, destination, bssid, index);
            && GetRawData(r, index, 2) == c.wlanFCTypeData
            && GetRawData(r, index + DURATION_OFFSET, 2) == MAX_DURATION
            && r[index + ADDR1_OFFSET..index + ADDR1_OFFSET + MAC_SIZE] == ToLe(destination, MAC_SIZE)
            && r[index + ADDR2_OFFSET..index + ADDR2_OFFSET + MAC_SIZE] == ToLe(source, MAC_SIZE)
            && r[index + ADDR3_OFFSET..index + ADDR3_OFFSET + MAC_SIZE] == Reverse(ToLe(bssid, MAC_SIZE))
            && GetRawData(r, index + ADDR3_OFFSET, MAC_SIZE) == SwapMacEndian(bssid)
  {
    var r := InsertIEEE80211Header(c, packet, source, destination, bssid, index);
    var size := c.ieee80211HeaderSize;
    Ieee80211HeaderLayout(c, source, destination, bssid);
    assert r[index..index + size] == Ieee80211Header(c, source, destination, bssid);
    SubSlice(r, index, index + size, 0, 2);
    SubSlice(r, index, index + size, DURATION_OFFSET, DURATION_OFFSET + 2);
    SubSlice(r, index, index + size, ADDR1_OFFSET, ADDR1_OFFSET + MAC_SIZE);
    SubSlice(r, index, index + size, ADDR2_OFFSET, ADDR2_OFFSET + MAC_SIZE);
    SubSlice(r, index, index + size, ADDR3_OFFSET, ADDR3_OFFSET + MAC_SIZE);
  }

  /**
   The `AcknowledgementHeader` value: frame control `cAcknowledgementType`,
   duration 0xffff, and as receiver address the first six octets of the
   swapped receiver MAC.
   */
  function AcknowledgementHeader(c: Constants, receiver: u64): (r: seq<byte>)
    requires ValidConstants(c)
    ensures |r| == c.acknowledgementHeaderSize
  {
    ToLe(c.acknowledgementType, 2) + ToLe(MAX_DURATION, 2)
      + ToLe(SwapMacEndian(receiver), 8)[..MAC_SIZE]
      + Zeros(c.acknowledgementHeaderSize - ADDR1_OFFSET - MAC_SIZE)
  }

  /** The Ack header's fields read back as its type, duration 0xffff and the reversed receiver octets. */
  lemma AcknowledgementHeaderFields(c: Constants, receiver: u64)
    requires ValidConstants(c)
    ensures var h := AcknowledgementHeader(c, receiver);
            && GetRawData(h, 0, 2) == c.acknowledgementType
            && GetRawData(h, DURATION_OFFSET, 2) == MAX_DURATION
            && h[ADDR1_OFFSET..ADDR1_OFFSET + MAC_SIZE] == Reverse(ToLe(receiver, MAC_SIZE))
  {
    var h := AcknowledgementHeader(c, receiver);
    var fc := ToLe(c.acknowledgementType, 2);
    var dur := ToLe(MAX_DURATION, 2);
    var ra := ToLe(SwapMacEndian(receiver), 8)[..MAC_SIZE];
    var rest := Zeros(c.acknowledgementHeaderSize - ADDR1_OFFSET - MAC_SIZE);
    assert h == fc + dur + ra + rest;
    Slices4(fc, dur, ra, rest);
    ToLePrefix(SwapMacEndian(receiver), 8, MAC_SIZE);
    Pow256Widths();
    FromToLe(c.acknowledgementType, 2);
    FromToLe(MAX_DURATION, 2);
  }

  /**
   `ConstructAcknowledgementFrame` as written: a zeroed buffer of
   `cRadioTapSize + sizeof(AcknowledgementHeader)` octets, the radiotap
   header inserted at its start (its returned length ignored), and the Ack
   header copied in at offset `cRadioTapSize`, with or without MCS.
   */
  function ConstructAcknowledgementFrame(c: Constants, receiver: u64, p: Parameters): (r: seq<byte>)
    requires ValidConstants(c)
    ensures |r| == c.radioTapSize + c.acknowledgementHeaderSize
    ensures r[c.radioTapSize..] == AcknowledgementHeader(c, receiver)
    ensures r[..c.radioTapSize]
            == InsertRadioTapHeader(c, Zeros(c.radioTapSize + c.acknowledgementHeaderSize), p).packet[..c.radioTapSize]
    ensures !HasMcs(p) ==> r[..c.radioTapSize] == InsertRadioTapHeader(c, Zeros(c.radioTapSize), p).packet
  {
    var buffer := Zeros(c.radioTapSize + c.acknowledgementHeaderSize);
    var withRadioTap := InsertRadioTapHeader(c, buffer, p).packet;
    var r := Write(withRadioTap, c.radioTapSize, AcknowledgementHeader(c, receiver));
    if HasMcs(p) then r
    else
      RadioTapPrefix(c, c.radioTapSize + c.acknowledgementHeaderSize, c.radioTapSize, p);
      r
  }

  /**
   Inserting the radiotap header into a longer zeroed buffer gives, in its
   first `n` octets, what inserting it into `n` zeroed octets gives.
   */
  lemma RadioTapPrefix(c: Constants, total: nat, n: nat, p: Parameters)
    requires ValidConstants(c)
    requires WrittenSize(c, p) <= n <= total
    ensures InsertRadioTapHeader(c, Zeros(total), p).packet[..n]
            == InsertRadioTapHeader(c, Zeros(n), p).packet
  {
    var long := InsertRadioTapHeader(c, Zeros(total), p).packet;
    var short := InsertRadioTapHeader(c, Zeros(n), p).packet;
    var w := WrittenSize(c, p);
    assert OptionalFields(c, Zeros(total), p) == OptionalFields(c, Zeros(n), p);
    assert long[..w] == short[..w];
    forall i | w <= i < n
      ensures long[i] == short[i]
    {
      assert long[i] == long[w..][i - w] == Zeros(total)[w..][i - w];
      assert short[i] == short[w..][i - w] == Zeros(n)[w..][i - w];
    }
  }

  /**
   The finding in `ConstructAcknowledgementFrame`: with MCS information the
   radiotap header announces `cRadioTapSize + 3` octets, but the Ack header
   starts at `cRadioTapSize`, so a receiver that trusts the announced
   length skips the first three octets of the Ack frame.
   */
  lemma AcknowledgementFrameLengthMismatch(c: Constants, receiver: u64, p: Parameters)
    requires ValidConstants(c)
    requires HasMcs(p)
    ensures var r := ConstructAcknowledgementFrame(c, receiver, p);
            && GetRawData(r, LENGTH_OFFSET, 2) == c.radioTapSize + MCS_SIZE
            && r[c.radioTapSize..] == AcknowledgementHeader(c, receiver)
  {
    var buffer := Zeros(c.radioTapSize + c.acknowledgementHeaderSize);
    var withRadioTap := InsertRadioTapHeader(c, buffer, p).packet;
    var r := ConstructAcknowledgementFrame(c, receiver, p);
    assert r == Write(withRadioTap, c.radioTapSize, AcknowledgementHeader(c, receiver));
    RadioTapHeaderReadBack(c, buffer, p);
    RawDataInPrefix(r, withRadioTap, c.radioTapSize, LENGTH_OFFSET, 2);
  }

  /**
   The Ack frame with the header length the radiotap code returns: the
   Ack header starts exactly where the announced radiotap header ends, and
   the whole radiotap header, MCS block included, is intact.
   */
  function ConstructAcknowledgementFrameSized(c: Constants, receiver: u64, p: Parameters): (r: seq<byte>)
    requires ValidConstants(c)
    ensures |r| == HeaderLength(c, p) + c.acknowledgementHeaderSize
    ensures GetRawData(r, LENGTH_OFFSET, 2) == HeaderLength(c, p)
    ensures r[HeaderLength(c, p)..] == AcknowledgementHeader(c, receiver)
    ensures r[..HeaderLength(c, p)] == InsertRadioTapHeader(c, Zeros(HeaderLength(c, p)), p).packet
  {
    var size := HeaderLength(c, p);
    var buffer := Zeros(size + c.acknowledgementHeaderSize);
    var inserted := InsertRadioTapHeader(c, buffer, p);
    var r := Write(inserted.packet, inserted.size, AcknowledgementHeader(c, receiver));
    assert inserted.size == size;
    assert r[size..] == AcknowledgementHeader(c, receiver);
    assert r[..size] == inserted.packet[..size];
    assert GetRawData(r, LENGTH_OFFSET, 2) == size by {
      RadioTapHeaderReadBack(c, buffer, p);
      RawDataInPrefix(r, inserted.packet, size, LENGTH_OFFSET, 2);
    }
    assert r[..size] == InsertRadioTapHeader(c, Zeros(size), p).packet by {
      RadioTapPrefix(c, size + c.acknowledgementHeaderSize, size, p);
    }
    r
  }
}
