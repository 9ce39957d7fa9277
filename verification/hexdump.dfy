/**
 `PrettyHexString`: a diagnostic rendering of a buffer, 64 octets per line,
 each line starting with its offset as six hexadecimal digits.
 */
module HexDump {
  import opened Bytes
  import opened Hex

  const OCTETS_PER_LINE: nat := 64
  /** Offsets below this print in exactly six digits. */
  const OFFSET_LIMIT: nat := 0x100_0000

  /** What the loop emits for the octet at index i: its separator, then two hex digits. */
  function Piece(i: nat, b: byte): string
  {
    var separator :=
      if i != 0 && i % OCTETS_PER_LINE == 0 then "\n" + HexPad(i, 6) + " "
      else if i != 0 then " "
      else "";
    separator + HexPad(b, 2)
  }

  /**
   `PrettyHexString`: a newline and the offset "000000 ", then every octet
   in turn as it comes out of the loop.
   */
  function PrettyHexString(data: seq<byte>): (r: string)
    ensures |r| >= 8 && r[..8] == "\n000000 "
  {
    if |data| == 0 then
      assert HexPad(0, 6) == "000000";
      "\n" + HexPad(0, 6) + " "
    else
      var n := |data| - 1;
      PrettyHexString(data[..n]) + Piece(n, data[n])
  }

  /** The dump of n octets spans one line per started 64 octets (one line when empty). */
  lemma {:induction false} PrettyHexStringLines(data: seq<byte>)
    ensures Newlines(PrettyHexString(data)) == Lines(|data|)
  {
    if |data| == 0 {
      assert HexPad(0, 6) == "000000";
      NoNewlines(HexPad(0, 6) + " ");
      NewlineFirst(HexPad(0, 6) + " ");
      assert PrettyHexString(data) == "\n" + (HexPad(0, 6) + " ");
    } else {
      var n := |data| - 1;
      PrettyHexStringLines(data[..n]);
      PieceNewlines(n, data[n]);
      NewlinesAppend(PrettyHexString(data[..n]), Piece(n, data[n]));
    }
  }

  /** Octet i of data is printed as two hex digits at `Position(i)`. */
  predicate DigitsAt(r: string, data: seq<byte>)
  {
    forall i :: 0 <= i < |data| ==>
      Position(i) + 2 <= |r| && r[Position(i)..Position(i) + 2] == HexPad(data[i], 2)
  }

  /** Every octet i < n that continues a line is preceded by a space. */
  predicate SpacesAt(r: string, n: nat)
  {
    forall i :: 0 < i < n && i % OCTETS_PER_LINE != 0 ==>
      Position(i) - 1 < |r| && r[Position(i) - 1] == ' '
  }

  /** Every octet i < n that opens a line is preceded by a newline, its offset and a space. */
  predicate BreaksAt(r: string, n: nat)
  {
    forall i :: 0 < i < n && i % OCTETS_PER_LINE == 0 ==>
      Position(i) <= |r| && r[Position(i) - 8..Position(i)] == "\n" + HexPad(i, 6) + " "
  }

  /**
   While offsets fit in six digits, octet i is printed as two hex digits at
   `Position(i)`, preceded by a space, or by a newline and its offset when
   it opens a line, and the dump ends right after the last octet.
   */
  lemma {:induction false} PrettyHexStringLayout(data: seq<byte>)
    requires |data| <= OFFSET_LIMIT
    ensures var r := PrettyHexString(data);
            && |r| == DumpLength(|data|)
            && DigitsAt(r, data) && SpacesAt(r, |data|) && BreaksAt(r, |data|)
  {
    if |data| > 0 {
      var n := |data| - 1;
      var init := data[..n];
      var prefix := PrettyHexString(init);
      assert data == init + [data[n]];
      PrettyHexStringLayout(init);
      PieceLayout(prefix, n, data[n]);
      ExtendDigits(prefix, init, data[n]);
      ExtendSpaces(prefix, n, data[n]);
      ExtendBreaks(prefix, n, data[n]);
    }
  }

  lemma ExtendDigits(prefix: string, init: seq<byte>, b: byte)
    requires |init| < OFFSET_LIMIT && |prefix| == DumpLength(|init|)
    requires DigitsAt(prefix, init)
    ensures DigitsAt(prefix + Piece(|init|, b), init + [b])
  {
    var n := |init|;
    var r := prefix + Piece(n, b);
    var data := init + [b];
    PieceLayout(prefix, n, b);
    forall i | 0 <= i < |data|
      ensures Position(i) + 2 <= |r| && r[Position(i)..Position(i) + 2] == HexPad(data[i], 2)
    {
      if i < n {
        assert data[i] == init[i];
        PositionBelow(i, n);
        SlicePrefix(prefix, Piece(n, b), Position(i), Position(i) + 2);
      }
    }
  }

  /** A slice within the first part of a concatenation is a slice of that part. */
  lemma SlicePrefix(a: string, b: string, i: nat, j: nat)
    requires i <= j <= |a|
    ensures (a + b)[i..j] == a[i..j]
  {
    assert (a + b)[..|a|] == a;
    SubSlice(a + b, 0, |a|, i, j);
  }

  lemma ExtendSpaces(prefix: string, n: nat, b: byte)
    requires n < OFFSET_LIMIT && |prefix| == DumpLength(n)
    requires SpacesAt(prefix, n)
    ensures SpacesAt(prefix + Piece(n, b), n + 1)
  {
    PieceLayout(prefix, n, b);
    forall i | 0 < i < n && i % OCTETS_PER_LINE != 0
      ensures Position(i) - 1 < |prefix|
    {
      PositionBelow(i, n);
    }
  }

  lemma ExtendBreaks(prefix: string, n: nat, b: byte)
    requires n < OFFSET_LIMIT && |prefix| == DumpLength(n)
    requires BreaksAt(prefix, n)
    ensures BreaksAt(prefix + Piece(n, b), n + 1)
  {
    var r := prefix + Piece(n, b);
    PieceLayout(prefix, n, b);
    forall i | 0 < i < n && i % OCTETS_PER_LINE == 0
      ensures r[Position(i) - 8..Position(i)] == "\n" + HexPad(i, 6) + " "
    {
      PositionBelow(i, n);
      SlicePrefix(prefix, Piece(n, b), Position(i) - 8, Position(i));
    }
  }

  /** Earlier octets end before the dump of the first n octets does. */
  lemma PositionBelow(i: nat, n: nat)
    requires i < n
    ensures Position(i) + 2 <= DumpLength(n)
  {
    assert i / OCTETS_PER_LINE <= (n - 1) / OCTETS_PER_LINE;
  }

  /** Where the two digits of octet i start, while offsets print in six digits. */
  function Position(i: nat): nat
  {
    8 + 3 * i + 7 * (i / OCTETS_PER_LINE)
  }

  function DumpLength(n: nat): nat
  {
    if n == 0 then 8 else Position(n - 1) + 2
  }

  /** The number of lines the dump of n octets spans. */
  function Lines(n: nat): nat
  {
    if n == 0 then 1 else 1 + (n - 1) / OCTETS_PER_LINE
  }

  function Newlines(s: string): nat
  {
    if |s| == 0 then 0 else Newlines(s[..|s| - 1]) + (if s[|s| - 1] == '\n' then 1 else 0)
  }

  lemma {:induction false} NewlinesAppend(a: string, b: string)
    ensures Newlines(a + b) == Newlines(a) + Newlines(b)
  {
    if |b| > 0 {
      assert (a + b)[..|a + b| - 1] == a + b[..|b| - 1];
      assert (a + b)[|a + b| - 1] == b[|b| - 1];
      NewlinesAppend(a, b[..|b| - 1]);
    } else {
      assert a + b == a;
    }
  }

  lemma {:induction false} NoNewlines(s: string)
    requires forall i :: 0 <= i < |s| ==> IsHexDigit(s[i]) || s[i] == ' '
    ensures Newlines(s) == 0
  {
    if |s| > 0 {
      NoNewlines(s[..|s| - 1]);
    }
  }

  /** A newline followed by text without one holds one newline. */
  lemma NewlineFirst(s: string)
    requires Newlines(s) == 0
    ensures Newlines("\n" + s) == 1
  {
    NewlinesAppend("\n", s);
    assert "\n"[..0] == "";
  }

  /** Only the octets that open a new line bring a newline with them. */
  lemma PieceNewlines(i: nat, b: byte)
    ensures Newlines(Piece(i, b)) == if i != 0 && i % OCTETS_PER_LINE == 0 then 1 else 0
  {
    var digits := HexPad(b, 2);
    NoNewlines(digits);
    if i != 0 && i % OCTETS_PER_LINE == 0 {
      var rest := HexPad(i, 6) + " " + digits;
      NoNewlines(rest);
      NewlineFirst(rest);
      assert Piece(i, b) == "\n" + rest;
    } else if i != 0 {
      NoNewlines(" " + digits);
      assert Piece(i, b) == " " + digits;
    } else {
      assert Piece(i, b) == digits;
    }
  }

  /** Appending the piece of octet n to the dump of the first n octets puts it where `Position` says. */
  lemma PieceLayout(prefix: string, n: nat, b: byte)
    requires 0 < n + 1 <= OFFSET_LIMIT
    requires |prefix| == DumpLength(n)
    ensures var r := prefix + Piece(n, b);
            && |r| == DumpLength(n + 1)
            && r[Position(n)..Position(n) + 2] == HexPad(b, 2)
            && (0 < n && n % OCTETS_PER_LINE != 0 ==> r[Position(n) - 1] == ' ')
            && (0 < n && n % OCTETS_PER_LINE == 0 ==> r[Position(n) - 8..Position(n)] == "\n" + HexPad(n, 6) + " ")
  {
    OctetDigits(b);
    if n > 0 {
      assert Position(n) == Position(n - 1) + 3 + (if n % OCTETS_PER_LINE == 0 then 7 else 0);
      if n % OCTETS_PER_LINE == 0 {
        HexDigitsLength(n, 6);
        assert Pow16(6) == OFFSET_LIMIT;
      }
    }
  }

  /** A 65-octet buffer prints as two lines, the second opening with offset 000040. */
  lemma SixtyFiveOctets(data: seq<byte>)
    requires |data| == 65
    ensures var r := PrettyHexString(data);
            && Newlines(r) == 2
            && r[..8] == "\n000000 "
            && |r| == DumpLength(65)
            && r[Position(64) - 8..Position(64)] == "\n000040 "
  {
    var r := PrettyHexString(data);
    assert Newlines(r) == 2 by {
      PrettyHexStringLines(data);
    }
    assert |r| == DumpLength(65) && r[Position(64) - 8..Position(64)] == "\n" + HexPad(64, 6) + " " by {
      PrettyHexStringLayout(data);
      assert 0 < 64 < |data| && 64 % OCTETS_PER_LINE == 0;
    }
    assert HexPad(64, 6) == "000040" by {
      assert HexDigits(4) == "4";
      assert HexDigits(64) == "40";
    }
  }
}
