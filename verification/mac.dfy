/**
 MAC addresses as the codec handles them: a `uint64_t` whose six low-order
 octets hold the address, the byte swap between host and wire order, and the
 colon-separated text form.
 */
module Mac {
  import opened Bytes
  import opened Hex
  import opened Text

  /** `bswap_64`: the eight octets of x in the opposite order. */
  function ByteSwap64(x: u64): (r: u64)
    ensures ToLe(r, 8) == Reverse(ToLe(x, 8))
  {
    var swapped := Reverse(ToLe(x, 8));
    assert Pow256(8) == U64_LIMIT;
    ToFromLe(swapped);
    FromLe(swapped)
  }

  /**
   `SwapMacEndian`: byte-swap the whole word, then shift right by 16 bits.
   The result holds the six low-order octets of the input in reverse order.
   */
  function SwapMacEndian(m: u64): (r: u64)
    ensures r < U48_LIMIT
    ensures ToLe(r, 6) == Reverse(ToLe(m, 6))
  {
    SwapMacEndianOctets(m);
    ByteSwap64(m) / 0x1_0000
  }

  lemma SwapMacEndianOctets(m: u64)
    ensures ByteSwap64(m) / 0x1_0000 < U48_LIMIT
    ensures ToLe(ByteSwap64(m) / 0x1_0000, 6) == Reverse(ToLe(m, 6))
  {
    var b := ToLe(m, 8);
    var rb := Reverse(b);
    assert Pow256(8) == U64_LIMIT;
    ToFromLe(rb);
    FromToLe(ByteSwap64(m), 8);
    assert ByteSwap64(m) == FromLe(rb);
    FromLeShift(rb);
    FromLeShift(rb[1..]);
    assert rb[1..][1..] == rb[2..];
    assert FromLe(rb) / 0x1_0000 == FromLe(rb) / 256 / 256;
    ToLePrefix(m, 8, 6);
    assert rb[2..] == Reverse(ToLe(m, 6));
    ToFromLe(rb[2..]);
    assert Pow256(6) == U48_LIMIT;
  }

  /** Swapping twice restores every value that fits in 48 bits. */
  lemma SwapMacEndianInvolution(m: u64)
    requires m < U48_LIMIT
    ensures SwapMacEndian(SwapMacEndian(m)) == m
  {
    var once := SwapMacEndian(m);
    var twice := SwapMacEndian(once);
    ReverseReverse(ToLe(m, 6));
    assert Pow256(6) == U48_LIMIT;
    ToLeInjective(twice, m, 6);
  }

  /**
   The text of the `n` low-order octets of x: each as two lower-case hex
   digits, least significant first, separated by ':'. Each step prints the
   low octet of the value shifted right by another 8 bits.
   */
  function MacGroups(x: nat, n: nat): (r: string)
    requires n >= 1
    ensures |r| == 3 * n - 1
  {
    var group := HexPad(x % 256, 2);
    OctetDigits(x % 256);
    if n == 1 then group else group + ":" + MacGroups(x / 256, n - 1)
  }

  /** Group k of the text sits at characters 3k and 3k+1, a ':' after every group but the last. */
  lemma {:induction false} MacGroupsLayout(x: nat, n: nat, k: nat)
    requires n >= 1 && k < n
    ensures MacGroups(x, n)[3 * k..3 * k + 2] == HexPad(ToLe(x, n)[k], 2)
    ensures k < n - 1 ==> MacGroups(x, n)[3 * k + 2] == ':'
  {
    var group := HexPad(x % 256, 2);
    OctetDigits(x % 256);
    assert ToLe(x, n) == [x % 256] + ToLe(x / 256, n - 1);
    if n == 1 {
      assert MacGroups(x, n) == group;
    } else {
      var rest := MacGroups(x / 256, n - 1);
      var r := MacGroups(x, n);
      assert r == (group + ":") + rest;
      if k == 0 {
        assert r[..2] == group;
      } else {
        MacGroupsLayout(x / 256, n - 1, k - 1);
        GroupAfterFirst(group, rest, k - 1);
        assert ToLe(x, n)[k] == ToLe(x / 256, n - 1)[k - 1];
      }
    }
  }

  /** Past the first group and its ':', group j + 1 of the text is group j of the rest. */
  lemma GroupAfterFirst(group: string, rest: string, j: nat)
    requires |group| == 2 && 3 * j + 2 <= |rest|
    ensures (group + ":" + rest)[3 * (j + 1)..3 * (j + 1) + 2] == rest[3 * j..3 * j + 2]
    ensures 3 * j + 2 < |rest| ==> (group + ":" + rest)[3 * (j + 1) + 2] == rest[3 * j + 2]
  {
    SliceAfter(group + ":", rest, 3 * j, 3 * j + 2);
  }

  /** `IntToMac`: the "xx:xx:xx:xx:xx:xx" text of the six low-order octets of m. */
  function IntToMac(m: u64): (r: string)
    ensures |r| == 17
    ensures forall k :: 0 <= k < 6 ==> r[3 * k..3 * k + 2] == HexPad(ToLe(m, 6)[k], 2)
    ensures forall k :: 0 <= k < 5 ==> r[3 * k + 2] == ':'
  {
    forall k | 0 <= k < 6 {
      MacGroupsLayout(m, 6, k);
    }
    MacGroups(m, 6)
  }

  /** The characters `operator>>` skips before a number (`isspace` in the C locale). */
  predicate IsSpace(c: char)
  {
    c == ' ' || c == '\t' || c == '\n' || c == '\U{0B}' || c == '\U{0C}' || c == '\r'
  }

  function SkipSpace(t: string): (u: string)
    ensures |u| <= |t| && u == t[|t| - |u|..]
    ensures |u| > 0 ==> !IsSpace(u[0])
  {
    if |t| > 0 && IsSpace(t[0]) then SkipSpace(t[1..]) else t
  }

  /** The length of the longest run of hexadecimal digits that starts t. */
  function HexRun(t: string): (n: nat)
    ensures n <= |t|
    ensures forall i :: 0 <= i < n ==> IsHexDigit(t[i])
    ensures n < |t| ==> !IsHexDigit(t[n])
  {
    if |t| > 0 && IsHexDigit(t[0]) then 1 + HexRun(t[1..]) else 0
  }

  /**
   The loop of `MacToInt` over what is left of the stream: extract one
   hexadecimal number (skipping leading white space; no digit, or a value
   too large for `uint64_t`, fails the extraction and ends the loop),
   shift it into the 64-bit accumulator, then `get()` one character.
   */
  function ReadGroups(t: string, acc: u64): u64
    decreases |t|
  {
    var u := SkipSpace(t);
    var n := HexRun(u);
    if n == 0 then acc
    else
      var v := HexValue(u[..n]);
      if v >= U64_LIMIT then acc
      else if n == |u| then ShiftIn(acc, v)
      else ReadGroups(u[n + 1..], ShiftIn(acc, v))
  }

  /** `(acc << 8U) + v` in `uint64_t` arithmetic. */
  function ShiftIn(acc: u64, v: u64): u64
  {
    (acc * 256 + v) % U64_LIMIT
  }

  /**
   `MacToInt`: parse colon-separated hex groups, the first group most
   significant, with no validation. The stream is built from the text as
   a C string, so it ends at the first NUL.
   */
  function MacToInt(text: string): (r: u64)
    ensures |text| == 0 ==> r == 0
    ensures (forall i :: 0 <= i < |text| ==> !IsHexDigit(text[i])) ==> r == 0
  {
    if |text| == 0 then 0 else ReadGroups(CString(text), 0)
  }

  /** What `ReadGroups` computes over a run of well-formed octet groups. */
  function Accumulate(acc: u64, octets: seq<byte>): u64
    decreases octets
  {
    if |octets| == 0 then acc
    else Accumulate(ShiftIn(acc, octets[0]), octets[1..])
  }

  lemma {:induction false} AccumulateSnoc(acc: u64, octets: seq<byte>, b: byte)
    ensures Accumulate(acc, octets + [b]) == ShiftIn(Accumulate(acc, octets), b)
    decreases octets
  {
    if |octets| > 0 {
      assert (octets + [b])[1..] == octets[1..] + [b];
      AccumulateSnoc(ShiftIn(acc, octets[0]), octets[1..], b);
    }
  }

  /** Without wrap-around, accumulating from zero reads the octets most significant first. */
  lemma {:induction false} AccumulateFromZero(octets: seq<byte>)
    requires FromBe(octets) < U64_LIMIT
    ensures Accumulate(0, octets) == FromBe(octets)
  {
    if |octets| > 0 {
      var init := octets[..|octets| - 1];
      assert octets == init + [octets[|octets| - 1]];
      AccumulateFromZero(init);
      AccumulateSnoc(0, init, octets[|octets| - 1]);
    }
  }

  /**
   A text that starts with the two digits of an octet, followed by no
   further digit, is read as that octet: nothing to skip, a run of two.
   */
  lemma ScanGroup(t: string, o: byte)
    requires |t| >= 2 && t[..2] == HexPad(o, 2)
    requires |t| == 2 || !IsHexDigit(t[2])
    ensures SkipSpace(t) == t && HexRun(t) == 2 && HexValue(t[..2]) == o
  {
    assert IsHexDigit(t[0]) && IsHexDigit(t[1]) by {
      OctetDigits(o);
      assert t[0] == HexPad(o, 2)[0] && t[1] == HexPad(o, 2)[1];
    }
    assert SkipSpace(t) == t by {
      assert !IsSpace(t[0]);
    }
    HexRunTwo(t);
    assert HexValue(t[..2]) == o by {
      HexPadValue(o, 2);
    }
  }

  lemma HexRunTwo(t: string)
    requires |t| >= 2 && IsHexDigit(t[0]) && IsHexDigit(t[1])
    requires |t| == 2 || !IsHexDigit(t[2])
    ensures HexRun(t) == 2
  {
    assert t[1..][1..] == t[2..];
    assert HexRun(t[2..]) == 0;
    assert HexRun(t[1..]) == 1;
  }

  /** The last group of the text is read as its octet. */
  lemma ReadLastGroup(o: byte, acc: u64)
    ensures ReadGroups(HexPad(o, 2), acc) == ShiftIn(acc, o)
  {
    var group := HexPad(o, 2);
    OctetDigits(o);
    assert group[..2] == group;
    ScanGroup(group, o);
  }

  /** One group followed by ':' is read as its octet; the ':' is skipped. */
  lemma ReadOneGroup(o: byte, rest: string, acc: u64)
    ensures ReadGroups(HexPad(o, 2) + ":" + rest, acc) == ReadGroups(rest, ShiftIn(acc, o))
  {
    var group := HexPad(o, 2);
    OctetDigits(o);
    var t := group + ":" + rest;
    assert t[..2] == group && t[2] == ':' && t[3..] == rest;
    ScanGroup(t, o);
  }

  /** Parsing the text of n octet groups accumulates those octets in order. */
  lemma {:induction false} ReadMacGroups(x: nat, n: nat, acc: u64)
    requires n >= 1
    ensures ReadGroups(MacGroups(x, n), acc) == Accumulate(acc, ToLe(x, n))
  {
    var o: byte := x % 256;
    var octets := ToLe(x, n);
    assert octets[0] == o && octets[1..] == ToLe(x / 256, n - 1);
    assert Accumulate(acc, octets) == Accumulate(ShiftIn(acc, o), ToLe(x / 256, n - 1));
    if n > 1 {
      var rest := MacGroups(x / 256, n - 1);
      assert MacGroups(x, n) == HexPad(o, 2) + ":" + rest;
      ReadOneGroup(o, rest, acc);
      ReadMacGroups(x / 256, n - 1, ShiftIn(acc, o));
    } else {
      assert MacGroups(x, n) == HexPad(o, 2);
      ReadLastGroup(o, acc);
    }
  }

  /** Two hexadecimal digits of either case: one group of "xx:xx:xx:xx:xx:xx". */
  predicate IsOctetGroup(g: string)
  {
    |g| == 2 && IsHexDigit(g[0]) && IsHexDigit(g[1])
  }

  predicate AllOctetGroups(groups: seq<string>)
  {
    forall i :: 0 <= i < |groups| ==> IsOctetGroup(groups[i])
  }

  /** The octet a group spells, high digit first. */
  function GroupValue(g: string): (o: byte)
    requires IsOctetGroup(g)
    ensures o == HexValue(g)
  {
    assert HexValue(g) == 16 * DigitValue(g[0]) + DigitValue(g[1]) by {
      assert g[..|g| - 1] == [g[0]];
      assert HexValue([g[0]]) == DigitValue(g[0]) by {
        assert [g[0]][..0] == [];
      }
    }
    16 * DigitValue(g[0]) + DigitValue(g[1])
  }

  /** The octets the groups spell, in text order. */
  function GroupValues(groups: seq<string>): (octets: seq<byte>)
    requires AllOctetGroups(groups)
    ensures |octets| == |groups|
  {
    if |groups| == 0 then [] else [GroupValue(groups[0])] + GroupValues(groups[1..])
  }

  /** Groups joined by ':'. */
  function JoinGroups(groups: seq<string>): string
    requires |groups| >= 1
  {
    if |groups| == 1 then groups[0] else groups[0] + ":" + JoinGroups(groups[1..])
  }

  /** Any group followed by ':' is read as its octet, and the ':' is skipped. */
  lemma ReadAnyGroup(g: string, rest: string, acc: u64)
    requires IsOctetGroup(g)
    ensures ReadGroups(g + ":" + rest, acc) == ReadGroups(rest, ShiftIn(acc, GroupValue(g)))
  {
    var t := g + ":" + rest;
    assert t[..2] == g && t[2] == ':' && t[3..] == rest;
    assert SkipSpace(t) == t by {
      assert !IsSpace(t[0]);
    }
    HexRunTwo(t);
  }

  /** A group that ends the text is read as its octet. */
  lemma ReadAnyLastGroup(g: string, acc: u64)
    requires IsOctetGroup(g)
    ensures ReadGroups(g, acc) == ShiftIn(acc, GroupValue(g))
  {
    assert g[..2] == g;
    assert SkipSpace(g) == g by {
      assert !IsSpace(g[0]);
    }
    HexRunTwo(g);
  }

  /** The extraction loop over groups joined by ':' shifts in their octets in text order. */
  lemma {:induction false} ReadJoinedGroups(groups: seq<string>, acc: u64)
    requires |groups| >= 1 && AllOctetGroups(groups)
    ensures ReadGroups(JoinGroups(groups), acc) == Accumulate(acc, GroupValues(groups))
    decreases |groups|
  {
    var o := GroupValue(groups[0]);
    assert IsOctetGroup(groups[0]);
    assert GroupValues(groups)[1..] == GroupValues(groups[1..]);
    if |groups| == 1 {
      ReadAnyLastGroup(groups[0], acc);
    } else {
      assert AllOctetGroups(groups[1..]) by {
        forall i | 0 <= i < |groups[1..]|
          ensures IsOctetGroup(groups[1..][i])
        {
          assert groups[1..][i] == groups[i + 1];
        }
      }
      ReadAnyGroup(groups[0], JoinGroups(groups[1..]), acc);
      ReadJoinedGroups(groups[1..], ShiftIn(acc, o));
    }
  }

  /** Groups joined by ':' hold only hex digits and colons, so never a NUL. */
  lemma {:induction false} JoinGroupsNoNul(groups: seq<string>)
    requires |groups| >= 1 && AllOctetGroups(groups)
    ensures '\0' !in JoinGroups(groups)
    decreases |groups|
  {
    assert IsOctetGroup(groups[0]);
    if |groups| > 1 {
      assert AllOctetGroups(groups[1..]) by {
        forall i | 0 <= i < |groups[1..]|
          ensures IsOctetGroup(groups[1..][i])
        {
          assert groups[1..][i] == groups[i + 1];
        }
      }
      JoinGroupsNoNul(groups[1..]);
    }
  }

  /**
   `MacToInt` on any well-formed "xx:xx:xx:xx:xx:xx" text, in either case:
   the six octets the groups spell, the first group most significant.
   */
  lemma MacTextParse(groups: seq<string>)
    requires |groups| == 6 && AllOctetGroups(groups)
    ensures MacToInt(JoinGroups(groups)) == FromBe(GroupValues(groups))
    ensures MacToInt(JoinGroups(groups)) < U48_LIMIT
  {
    var text := JoinGroups(groups);
    var octets := GroupValues(groups);
    assert |text| > 0 by {
      assert IsOctetGroup(groups[0]);
    }
    assert CString(text) == text by {
      JoinGroupsNoNul(groups);
      CStringWithoutNul(text);
    }
    ReadJoinedGroups(groups, 0);
    assert FromBe(octets) < U48_LIMIT by {
      FromBeReverse(octets);
      assert Pow256(6) == U48_LIMIT;
    }
    AccumulateFromZero(octets);
  }

  /**
   The text form does not round-trip to the same integer: parsing the text
   of m yields m with its six low-order octets reversed.
   */
  lemma MacTextRoundTrip(m: u64)
    ensures MacToInt(IntToMac(m)) == SwapMacEndian(m)
  {
    var octets := ToLe(m, 6);
    var text := IntToMac(m);
    assert CString(text) == text by {
      IntToMacNoNul(m);
      CStringWithoutNul(text);
    }
    ReadMacGroups(m, 6, 0);
    FromBeReverse(octets);
    var swapped := SwapMacEndian(m);
    assert Pow256(6) == U48_LIMIT;
    FromToLe(swapped, 6);
    assert FromBe(octets) == swapped;
    AccumulateFromZero(octets);
  }

  /** The text form holds only hex digits and colons, so never a NUL. */
  lemma IntToMacNoNul(m: u64)
    ensures '\0' !in IntToMac(m)
  {
    var text := IntToMac(m);
    var octets := ToLe(m, 6);
    forall i | 0 <= i < |text|
      ensures text[i] != '\0'
    {
      var k := i / 3;
      if i % 3 == 2 {
        assert text[3 * k + 2] == ':';
      } else {
        assert text[3 * k..3 * k + 2] == HexPad(octets[k], 2);
        assert text[i] == text[3 * k..3 * k + 2][i - 3 * k];
      }
    }
  }

  /**
   The round trip the text form does offer: printing the swapped value
   and parsing it back gives the original 48-bit address.
   */
  lemma MacTextRoundTripSwapped(m: u64)
    requires m < U48_LIMIT
    ensures MacToInt(IntToMac(SwapMacEndian(m))) == m
  {
    MacTextRoundTrip(SwapMacEndian(m));
    SwapMacEndianInvolution(m);
  }

  /**
   So the text form is not an identity on integers: every address whose
   octets do not read the same in both directions comes back changed.
   */
  lemma MacTextNotIdentity(m: u64)
    requires ToLe(m, 6) != Reverse(ToLe(m, 6))
    ensures MacToInt(IntToMac(m)) != m
  {
    MacTextRoundTrip(m);
  }
}
