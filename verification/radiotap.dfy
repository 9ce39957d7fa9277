/**
 The radiotap metadata header placed in front of every injected frame.

 The sizes and flag words come from headers that are not part of this
 model (`RadioTapReader.h` and the constant tables beside it), so they are
 parameters here, collected in `Constants` and constrained only by
 `ValidConstants`. The general header follows the radiotap layout:
 version and pad octets, the 16-bit header length at offset 2, the 32-bit
 present-flags word at offset 4.
 */
module RadioTap {
  import opened Bytes
  import opened Bits
  import opened Packet

  /** The values the codec takes from headers outside this model. */
  datatype Constants = Constants(
    radioTapHeaderSize: nat,         // sizeof(RadioTapHeader)
    radioTapSize: nat,               // RadioTap_Constants::cRadioTapSize
    sendPresentFlags: nat,           // RadioTap_Constants::cSendPresentFlags
    txFlags: nat,                    // RadioTap_Constants::cTXFlags
    wlanFCTypeData: nat,             // Net_80211_Constants::cWlanFCTypeData
    acknowledgementType: nat,        // Net_80211_Constants::cAcknowledgementType
    ieee80211HeaderSize: nat,        // sizeof(ieee80211_hdr)
    acknowledgementHeaderSize: nat)  // sizeof(AcknowledgementHeader)

  /** Offsets inside the general header. */
  const LENGTH_OFFSET: nat := 2
  const PRESENT_OFFSET: nat := 4

  /** Octets written after the general header: flags, rate, channel, channel flags, TX flags. */
  const FIELDS_SIZE: nat := 8
  /** Octets of the MCS block: known, flags, index. */
  const MCS_SIZE: nat := 3

  /** Bit 2 of present flags announces the rate field, bit 19 the MCS block. */
  const RATE_BIT: nat := 2
  const MCS_BIT: nat := 19
  /** Bit 4 of the flags field: the frame ends with an FCS. */
  const FCS_BIT: nat := 4

  predicate ValidConstants(c: Constants)
  {
    // the general header holds version, pad, length and present flags
    && PRESENT_OFFSET + 4 <= c.radioTapHeaderSize
    // the announced radiotap size covers the fields the codec writes
    && c.radioTapHeaderSize + FIELDS_SIZE <= c.radioTapSize
    && c.radioTapSize + MCS_SIZE < U16_LIMIT
    && c.sendPresentFlags < U32_LIMIT
    && c.txFlags < U16_LIMIT
    && c.wlanFCTypeData < U16_LIMIT
    && c.acknowledgementType < U16_LIMIT
    // frame control, duration and three addresses
    && 22 <= c.ieee80211HeaderSize
    // frame control, duration and the receiver address
    && 10 <= c.acknowledgementHeaderSize
  }

  /** `RadioTapReader::PhysicalDeviceParameters`, with one-octet MCS fields. */
  datatype Parameters = Parameters(
    flags: byte,
    dataRate: byte,
    frequency: u16,
    channelFlags: u16,
    knownMcsInfo: byte,
    mcsFlags: byte,
    mcsInfo: byte)

  predicate HasMcs(p: Parameters)
  {
    p.knownMcsInfo != 0
  }

  /**
   The present-flags word: `cSendPresentFlags`, and with MCS information
   `&= ~(1 << 2)` then `|= 1 << 19`.
   */
  function PresentFlags(c: Constants, p: Parameters): (r: nat)
    requires ValidConstants(c)
    ensures r < U32_LIMIT
    ensures Bit(r, RATE_BIT) <==> !HasMcs(p) && Bit(c.sendPresentFlags, RATE_BIT)
    ensures Bit(r, MCS_BIT) <==> HasMcs(p) || Bit(c.sendPresentFlags, MCS_BIT)
    ensures forall k :: k != RATE_BIT && k != MCS_BIT ==> (Bit(r, k) <==> Bit(c.sendPresentFlags, k))
  {
    if HasMcs(p) then
      var cleared := And(c.sendPresentFlags, Not(Pow2(RATE_BIT), 32));
      var r := Or(cleared, Pow2(MCS_BIT));
      Pow2Widths();
      AndBound(c.sendPresentFlags, Not(Pow2(RATE_BIT), 32));
      OrBound(cleared, Pow2(MCS_BIT), 32);
      forall k: nat
        ensures Bit(r, k) <==> if k == RATE_BIT then false
                               else if k == MCS_BIT then true
                               else Bit(c.sendPresentFlags, k)
      {
        OrBit(cleared, Pow2(MCS_BIT), k);
        AndBit(c.sendPresentFlags, Not(Pow2(RATE_BIT), 32), k);
        NotBit(Pow2(RATE_BIT), 32, k);
        PowBit(RATE_BIT, k);
        PowBit(MCS_BIT, k);
        if k >= 32 {
          HighBit(c.sendPresentFlags, 32, k);
        }
      }
      r
    else
      c.sendPresentFlags
  }

  /** `bytes_in_header`: `cRadioTapSize`, plus 3 in its 16-bit field when the MCS block is present. */
  function HeaderLength(c: Constants, p: Parameters): (r: nat)
    requires ValidConstants(c)
    ensures r == c.radioTapSize + (if HasMcs(p) then MCS_SIZE else 0)
  {
    if HasMcs(p) then (c.radioTapSize + MCS_SIZE) % U16_LIMIT else c.radioTapSize
  }

  /** The flags octet: `mFlags & ~0x10`, clearing "FCS at end" and keeping every other bit. */
  function FlagsField(p: Parameters): (r: byte)
    ensures forall k :: Bit(r, k) <==> k != FCS_BIT && Bit(p.flags, k)
  {
    Pow2Widths();
    AndBound(p.flags, Not(Pow2(FCS_BIT), 8));
    var r := And(p.flags, Not(Pow2(FCS_BIT), 8));
    forall k: nat
      ensures Bit(r, k) <==> k != FCS_BIT && Bit(p.flags, k)
    {
      AndBit(p.flags, Not(Pow2(FCS_BIT), 8), k);
      NotBit(Pow2(FCS_BIT), 8, k);
      PowBit(FCS_BIT, k);
      if k >= 8 {
        HighBit(p.flags, 8, k);
      }
    }
    r
  }

  /** The zeroed general header with its length and present-flags fields filled in. */
  function GeneralHeader(c: Constants, p: Parameters): (r: seq<byte>)
    requires ValidConstants(c)
    ensures |r| == c.radioTapHeaderSize
  {
    Zeros(LENGTH_OFFSET) + ToLe(HeaderLength(c, p), 2) + ToLe(PresentFlags(c, p), 4)
      + Zeros(c.radioTapHeaderSize - PRESENT_OFFSET - 4)
  }

  /** How many octets `InsertRadioTapHeader` writes from the start of the packet. */
  function WrittenSize(c: Constants, p: Parameters): nat
  {
    c.radioTapHeaderSize + FIELDS_SIZE + (if HasMcs(p) then MCS_SIZE else 0)
  }

  datatype Inserted = Inserted(packet: seq<byte>, size: nat)

  /**
   `InsertRadioTapHeader`: write the general header at the start of the
   packet and the optional fields after it. Without MCS the rate octet is
   written; with MCS its slot is skipped (left as it was) and the three MCS
   octets follow the TX flags. Returns the announced header length.
   */
  function InsertRadioTapHeader(c: Constants, packet: seq<byte>, p: Parameters): (r: Inserted)
    requires ValidConstants(c)
    requires WrittenSize(c, p) <= |packet|
    ensures |r.packet| == |packet|
    ensures r.size == c.radioTapSize + (if HasMcs(p) then MCS_SIZE else 0)
    ensures r.packet[WrittenSize(c, p)..] == packet[WrittenSize(c, p)..]
    ensures HasMcs(p) ==> r.packet[c.radioTapHeaderSize + 1] == packet[c.radioTapHeaderSize + 1]
  {
    var hs := c.radioTapHeaderSize;
    var fields := OptionalFields(c, packet, p);
    var written := Write(packet, 0, GeneralHeader(c, p) + fields);
    assert written[hs + 1] == (GeneralHeader(c, p) + fields)[hs + 1];
    Inserted(written, HeaderLength(c, p))
  }

  /** The general header's fields read back as the header length and the present flags. */
  lemma GeneralHeaderReadBack(c: Constants, p: Parameters)
    requires ValidConstants(c)
    ensures var h := GeneralHeader(c, p);
            && h[0] == 0 && h[1] == 0
            && GetRawData(h, LENGTH_OFFSET, 2) == HeaderLength(c, p)
            && GetRawData(h, PRESENT_OFFSET, 4) == PresentFlags(c, p)
  {
    var len := ToLe(HeaderLength(c, p), 2);
    var present := ToLe(PresentFlags(c, p), 4);
    var tail := Zeros(c.radioTapHeaderSize - PRESENT_OFFSET - 4);
    assert GeneralHeader(c, p) == Zeros(LENGTH_OFFSET) + len + (present + tail);
    SliceMiddle(Zeros(LENGTH_OFFSET), len, present + tail);
    assert GeneralHeader(c, p) == Zeros(LENGTH_OFFSET) + len + present + tail;
    SliceMiddle(Zeros(LENGTH_OFFSET) + len, present, tail);
    Pow256Widths();
    FromToLe(HeaderLength(c, p), 2);
    FromToLe(PresentFlags(c, p), 4);
  }

  /** The octets after the general header. */
  function OptionalFields(c: Constants, packet: seq<byte>, p: Parameters): (r: seq<byte>)
    requires ValidConstants(c)
    requires WrittenSize(c, p) <= |packet|
    ensures |r| == WrittenSize(c, p) - c.radioTapHeaderSize
  {
    var rate := if HasMcs(p) then packet[c.radioTapHeaderSize + 1] else p.dataRate;
    var mcs := if HasMcs(p) then [p.knownMcsInfo, p.mcsFlags, p.mcsInfo] else [];
    [FlagsField(p), rate] + ToLe(p.frequency, 2) + ToLe(p.channelFlags, 2) + ToLe(c.txFlags, 2) + mcs
  }

  lemma OptionalFieldsReadBack(c: Constants, packet: seq<byte>, p: Parameters)
    requires ValidConstants(c)
    requires WrittenSize(c, p) <= |packet|
    ensures var f := OptionalFields(c, packet, p);
            && f[0] == FlagsField(p)
            && f[1] == (if HasMcs(p) then packet[c.radioTapHeaderSize + 1] else p.dataRate)
            && GetRawData(f, 2, 2) == p.frequency
            && GetRawData(f, 4, 2) == p.channelFlags
            && GetRawData(f, 6, 2) == c.txFlags
            && (HasMcs(p) ==> f[8..11] == [p.knownMcsInfo, p.mcsFlags, p.mcsInfo])
  {
    var f := OptionalFields(c, packet, p);
    var head := f[..2];
    var freq := ToLe(p.frequency, 2);
    var chan := ToLe(p.channelFlags, 2);
    var tx := ToLe(c.txFlags, 2);
    var mcs := f[8..];
    assert f == head + freq + (chan + tx + mcs);
    SliceMiddle(head, freq, chan + tx + mcs);
    assert f == head + freq + chan + (tx + mcs);
    SliceMiddle(head + freq, chan, tx + mcs);
    assert f == head + freq + chan + tx + mcs;
    SliceMiddle(head + freq + chan, tx, mcs);
    Pow256Widths();
    FromToLe(p.frequency, 2);
    FromToLe(p.channelFlags, 2);
    FromToLe(c.txFlags, 2);
  }

  /**
   Every field `InsertRadioTapHeader` writes reads back, at its fixed
   offset, as the value it was given.
   */
  lemma RadioTapHeaderReadBack(c: Constants, packet: seq<byte>, p: Parameters)
    requires ValidConstants(c)
    requires WrittenSize(c, p) <= |packet|
    ensures var r := InsertRadioTapHeader(c, packet, p).packet;
            var hs := c.radioTapHeaderSize;
            && r[0] == 0 && r[1] == 0
            && GetRawData(r, LENGTH_OFFSET, 2) == HeaderLength(c, p)
            && GetRawData(r, PRESENT_OFFSET, 4) == PresentFlags(c, p)
            && r[hs] == FlagsField(p)
            && (!HasMcs(p) ==> r[hs + 1] == p.dataRate)
            && GetRawData(r, hs + 2, 2) == p.frequency
            && GetRawData(r, hs + 4, 2) == p.channelFlags
            && GetRawData(r, hs + 6, 2) == c.txFlags
            && (HasMcs(p) ==> r[hs + 8..hs + 11] == [p.knownMcsInfo, p.mcsFlags, p.mcsInfo])
  {
    var r := InsertRadioTapHeader(c, packet, p).packet;
    InsertedParts(c, packet, p);
    InsertedGeneralHeader(c, p, r);
    InsertedOptionalFields(c, packet, p, r);
  }

  /** The inserted header is the general header followed by the optional fields. */
  lemma InsertedParts(c: Constants, packet: seq<byte>, p: Parameters)
    requires ValidConstants(c)
    requires WrittenSize(c, p) <= |packet|
    ensures var r := InsertRadioTapHeader(c, packet, p).packet;
            && r[..c.radioTapHeaderSize] == GeneralHeader(c, p)
            && r[c.radioTapHeaderSize..WrittenSize(c, p)] == OptionalFields(c, packet, p)
  {
    var h := GeneralHeader(c, p);
    var f := OptionalFields(c, packet, p);
    var w := WrittenSize(c, p);
    assert InsertRadioTapHeader(c, packet, p).packet == h + f + packet[w..];
    SliceMiddle(h, f, packet[w..]);
  }

  lemma InsertedGeneralHeader(c: Constants, p: Parameters, r: seq<byte>)
    requires ValidConstants(c)
    requires c.radioTapHeaderSize <= |r| && r[..c.radioTapHeaderSize] == GeneralHeader(c, p)
    ensures && r[0] == 0 && r[1] == 0
            && GetRawData(r, LENGTH_OFFSET, 2) == HeaderLength(c, p)
            && GetRawData(r, PRESENT_OFFSET, 4) == PresentFlags(c, p)
  {
    var hs := c.radioTapHeaderSize;
    var h := GeneralHeader(c, p);
    GeneralHeaderReadBack(c, p);
    assert r[0] == r[..hs][0] && r[1] == r[..hs][1];
    RawDataInSlice(r, 0, hs, h, LENGTH_OFFSET, 2);
    RawDataInSlice(r, 0, hs, h, PRESENT_OFFSET, 4);
  }

  lemma InsertedOptionalFields(c: Constants, packet: seq<byte>, p: Parameters, r: seq<byte>)
    requires ValidConstants(c)
    requires WrittenSize(c, p) <= |packet| && WrittenSize(c, p) <= |r|
    requires r[c.radioTapHeaderSize..WrittenSize(c, p)] == OptionalFields(c, packet, p)
    ensures var hs := c.radioTapHeaderSize;
            && r[hs] == FlagsField(p)
            && (!HasMcs(p) ==> r[hs + 1] == p.dataRate)
            && GetRawData(r, hs + 2, 2) == p.frequency
            && GetRawData(r, hs + 4, 2) == p.channelFlags
            && GetRawData(r, hs + 6, 2) == c.txFlags
            && (HasMcs(p) ==> r[hs + 8..hs + 11] == [p.knownMcsInfo, p.mcsFlags, p.mcsInfo])
  {
    var hs := c.radioTapHeaderSize;
    var w := WrittenSize(c, p);
    var f := OptionalFields(c, packet, p);
    OptionalFieldsReadBack(c, packet, p);
    assert r[hs] == r[hs..w][0] && r[hs + 1] == r[hs..w][1];
    RawDataInSlice(r, hs, w, f, 2, 2);
    RawDataInSlice(r, hs, w, f, 4, 2);
    RawDataInSlice(r, hs, w, f, 6, 2);
    if HasMcs(p) {
      SubSlice(r, hs, w, 8, 11);
    }
  }
}
