/** Hexadecimal literals: `is_hexadecimal` and `parse_hexadecimal` of
    src/formats/hexadecimal.rs. */
module Hexadecimal {
  import opened Digits
  import opened Chunking

  /** The pattern `^(0x|0X)[a-fA-F0-9]+$` as a character predicate: a `0`, an
      `x` of either case, then one or more hexadecimal digits of either case
      and nothing else. */
  predicate IsHexadecimal(s: string) {
    && |s| >= 3
    && s[0] == '0'
    && (s[1] == 'x' || s[1] == 'X')
    && forall i :: 2 <= i < |s| ==> IsHexDigit(s[i])
  }

  /** Read as prefix plus body, a token is hexadecimal exactly when the prefix
      is `0x` or `0X` and the body is one or more base-16 digits. */
  lemma IsHexadecimalShape(prefix: string, body: string)
    requires |prefix| == 2
    ensures IsHexadecimal(prefix + body) <==>
      (prefix == "0x" || prefix == "0X") && |body| >= 1 && AllDigits(body, 16)
  {
    var s := prefix + body;
    assert s[..2] == prefix;
    assert forall i :: 0 <= i < |body| ==> s[i + 2] == body[i];
    if IsHexadecimal(s) {
      assert prefix == [s[0], s[1]];
    }
  }

  /** The verdicts the crate's documentation and unit tests assert for the
      classifier; a bare decimal number such as `13` is not hexadecimal. */
  lemma IsHexadecimalExamples()
    ensures IsHexadecimal("0xAB") && IsHexadecimal("0Xab") && IsHexadecimal("0x00")
    ensures IsHexadecimal("0XFF") && IsHexadecimal("0XFf") && IsHexadecimal("0xFf")
    ensures IsHexadecimal("0x0") && IsHexadecimal("0x01") && IsHexadecimal("0xf")
    ensures !IsHexadecimal("0x") && !IsHexadecimal("0X") && !IsHexadecimal("")
    ensures IsHexadecimal("0xff01938422749abdef13131fee3")
    ensures !IsHexadecimal("13")
  {
  }

  lemma HexDigitsAreDigits(s: string)
    requires IsHexadecimal(s)
    ensures AllDigits(s[2..], 16)
  {
    assert forall i :: 0 <= i < |s[2..]| ==> s[2..][i] == s[i + 2];
  }

  /** `parse_hexadecimal`: drop the two-character prefix, cut the digits into
      pairs from the left, a lone last digit left unpadded, and read each
      group in base 16. With d digits there are ceil(d / 2) bytes, so never
      none. */
  function ParseHexadecimal(s: string): (r: seq<Byte>)
    requires IsHexadecimal(s)
    ensures |r| == (|s| - 2 + 1) / 2 && |r| >= 1
  {
    var digits := s[2..];
    HexDigitsAreDigits(s);
    ParseGroupsCount(digits, 2, 16);
    ParseGroups(digits, 2, 16)
  }

  /** Byte i of the output is the base-16 value of digits [2i, min(2i + 2, d)),
      a lone last digit read as its own value. */
  lemma ParseHexadecimalAt(s: string, i: nat)
    requires IsHexadecimal(s) && i < |ParseHexadecimal(s)|
    ensures 2 * i < |s| - 2
    ensures AllDigits(s[2..][2 * i .. Min(2 * i + 2, |s| - 2)], 16)
    ensures ParseHexadecimal(s)[i] == ValueOf(s[2..][2 * i .. Min(2 * i + 2, |s| - 2)], 16)
  {
    HexDigitsAreDigits(s);
    ParseGroupAt(s[2..], 2, 16, i);
  }

  /** The lower-case form of a character; other characters are unchanged. */
  function ToLower(c: char): char {
    if 'A' <= c <= 'Z' then (c as int - 'A' as int + 'a' as int) as char else c
  }

  /** The token with every letter lower-cased. */
  function Lower(s: string): string {
    seq(|s|, i requires 0 <= i < |s| => ToLower(s[i]))
  }

  /** Case does not matter: lower-casing a hexadecimal token, prefix included,
      keeps it hexadecimal and leaves every byte unchanged. */
  lemma ParseHexadecimalLower(s: string)
    requires IsHexadecimal(s)
    ensures IsHexadecimal(Lower(s))
    ensures ParseHexadecimal(Lower(s)) == ParseHexadecimal(s)
  {
    var t := Lower(s);
    assert IsHexadecimal(t);
    HexDigitsAreDigits(s);
    HexDigitsAreDigits(t);
    assert forall i :: 0 <= i < |s| - 2 ==> DigitValue(s[2..][i]) == DigitValue(t[2..][i]);
    ParseGroupsSameDigits(s[2..], t[2..], 2, 16);
  }

  /** Test vectors with one group: `0x6` is [6], a lone digit read as itself. */
  lemma ParseHexadecimalOneGroup(s: string)
    requires IsHexadecimal(s) && |s| <= 4
    ensures ParseHexadecimal(s) == [ValueOf(s[2..], 16)]
  {
    ParseHexadecimalAt(s, 0);
    assert s[2..][0 .. |s| - 2] == s[2..];
  }

  lemma ParseHexadecimalLoneDigit()
    ensures ParseHexadecimal("0x6") == [6]
  {
    ValueOfOne('6', 16);
    ParseHexadecimalOneGroup("0x6");
    assert "0x6"[2..] == ['6'];
  }

  /** Test vector: `0xab` is [0xab]. */
  lemma ParseHexadecimalPair()
    ensures ParseHexadecimal("0xab") == [0xab]
  {
    ValueOfTwo('a', 'b', 16);
    ParseHexadecimalOneGroup("0xab");
    assert "0xab"[2..] == ['a', 'b'];
  }

  /** Test vector: `0xff` is [0xff]; it is also the first word of the
      dispatcher's test. */
  lemma ParseHexadecimalFF()
    ensures IsHexadecimal("0xff") && ParseHexadecimal("0xff") == [0xff]
  {
    ValueOfTwo('f', 'f', 16);
    ParseHexadecimalOneGroup("0xff");
    assert "0xff"[2..] == ['f', 'f'];
  }

  /** The second word of the dispatcher's test: `0xfa` is [0xfa]. */
  lemma ParseHexadecimalFA()
    ensures IsHexadecimal("0xfa") && ParseHexadecimal("0xfa") == [0xfa]
  {
    ValueOfTwo('f', 'a', 16);
    ParseHexadecimalOneGroup("0xfa");
    assert "0xfa"[2..] == ['f', 'a'];
  }

  /** Bytes written as two-digit lower-case hexadecimal groups behind `0x`. */
  function RenderHexadecimal(bytes: seq<Byte>): (r: string)
    requires |bytes| >= 1
    ensures IsHexadecimal(r) && |r| == 2 + 2 * |bytes|
  {
    var body := RenderGroups(bytes, 2, 16);
    IsHexadecimalShape("0x", body);
    "0x" + body
  }

  /** Round trip: parsing the two-digit rendering of any bytes gives them back. */
  lemma ParseRenderHexadecimal(bytes: seq<Byte>)
    requires |bytes| >= 1
    ensures ParseHexadecimal(RenderHexadecimal(bytes)) == bytes
  {
    var body := RenderGroups(bytes, 2, 16);
    assert RenderHexadecimal(bytes)[2..] == body;
    ParseRenderGroups(bytes, 2, 16);
  }

  /** Six digits make three bytes, one per pair. */
  lemma ParseHexadecimalThreeGroups(s: string)
    requires IsHexadecimal(s) && |s| == 8
    ensures ParseHexadecimal(s) == [16 * DigitValue(s[2]) + DigitValue(s[3]),
                                    16 * DigitValue(s[4]) + DigitValue(s[5]),
                                    16 * DigitValue(s[6]) + DigitValue(s[7])]
  {
    ParseHexadecimalAt(s, 0);
    assert s[2..][0..2] == [s[2], s[3]];
    ValueOfTwo(s[2], s[3], 16);
    ParseHexadecimalAt(s, 1);
    assert s[2..][2..4] == [s[4], s[5]];
    ValueOfTwo(s[4], s[5], 16);
    ParseHexadecimalAt(s, 2);
    assert s[2..][4..6] == [s[6], s[7]];
    ValueOfTwo(s[6], s[7], 16);
  }

  /** Test vector: `0xff00ff` is [255, 0, 255]. */
  lemma ParseHexadecimalThreeBytes()
    ensures ParseHexadecimal("0xff00ff") == [255, 0, 255]
  {
    ParseHexadecimalThreeGroups("0xff00ff");
  }

  /** Test vector: `0xabcdef` is [0xab, 0xcd, 0xef]. */
  lemma ParseHexadecimalAbcdef()
    ensures ParseHexadecimal("0xabcdef") == [0xab, 0xcd, 0xef]
  {
    ParseHexadecimalThreeGroups("0xabcdef");
  }

  /** Appending the digits of one token to a token with an even number of
      digits appends the bytes. */
  lemma ParseHexadecimalJoin(a: string, b: string)
    requires IsHexadecimal(a) && IsHexadecimal(b) && |a| % 2 == 0
    ensures IsHexadecimal(a + b[2..])
    ensures ParseHexadecimal(a + b[2..]) == ParseHexadecimal(a) + ParseHexadecimal(b)
  {
    var x, y := a[2..], b[2..];
    HexDigitsAreDigits(a);
    HexDigitsAreDigits(b);
    AllDigitsAppend(x, y, 16);
    assert (a + y)[2..] == x + y;
    assert a + y == a[..2] + (x + y);
    IsHexadecimalShape(a[..2], x + y);
    assert a[..2] == [a[0], a[1]];
    ParseGroupsAppend(x, y, 2, 16, |x| / 2);
  }

  /** Splitting the digits after a whole number of bytes splits the output there. */
  lemma ParseHexadecimalAppend(s: string, t: string)
    requires |s| >= 1 && |t| >= 1 && |s| % 2 == 0
    requires AllDigits(s, 16) && AllDigits(t, 16)
    ensures IsHexadecimal("0x" + s) && IsHexadecimal("0x" + t) && IsHexadecimal("0x" + s + t)
    ensures ParseHexadecimal("0x" + s + t) == ParseHexadecimal("0x" + s) + ParseHexadecimal("0x" + t)
  {
    AllDigitsAppend(s, t, 16);
    IsHexadecimalShape("0x", s);
    IsHexadecimalShape("0x", t);
    IsHexadecimalShape("0x", s + t);
    assert "0x" + s + t == "0x" + (s + t);
    assert ("0x" + (s + t))[2..] == s + t;
    assert ("0x" + s)[2..] == s;
    assert ("0x" + t)[2..] == t;
    ParseGroupsAppend(s, t, 2, 16, |s| / 2);
  }
}
