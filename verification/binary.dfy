/** Binary literals: `is_binary` and `parse_binary` of src/formats/binary.rs. */
module Binary {
  import opened Digits
  import opened Chunking

  /** The pattern `^(0b|0B)[10]+$` as a character predicate: a `0`, a `b` of
      either case, then one or more bits and nothing else. */
  predicate IsBinary(s: string) {
    && |s| >= 3
    && s[0] == '0'
    && (s[1] == 'b' || s[1] == 'B')
    && forall i :: 2 <= i < |s| ==> IsBit(s[i])
  }

  /** Read as prefix plus body, a token is binary exactly when the prefix is
      `0b` or `0B` and the body is one or more base-2 digits. */
  lemma IsBinaryShape(prefix: string, body: string)
    requires |prefix| == 2
    ensures IsBinary(prefix + body) <==>
      (prefix == "0b" || prefix == "0B") && |body| >= 1 && AllDigits(body, 2)
  {
    var s := prefix + body;
    assert s[..2] == prefix;
    assert forall i :: 0 <= i < |body| ==> s[i + 2] == body[i];
    if IsBinary(s) {
      assert prefix == [s[0], s[1]];
    }
  }

  /** The verdicts the crate's documentation and unit tests assert for the classifier. */
  lemma IsBinaryExamples()
    ensures IsBinary("0b11") && IsBinary("0B11") && IsBinary("0B01")
    ensures IsBinary("0b0") && IsBinary("0b1") && IsBinary("0b01")
    ensures !IsBinary("0b") && !IsBinary("0B") && !IsBinary("")
    ensures IsBinary("0b0101010010011010010100101001")
    ensures !IsBinary("0b123")
  {
    assert !IsBit("0b123"[3]);
  }

  lemma BitsAreDigits(s: string)
    requires IsBinary(s)
    ensures AllDigits(s[2..], 2)
  {
    assert forall i :: 0 <= i < |s[2..]| ==> s[2..][i] == s[i + 2];
  }

  /** `parse_binary`: drop the two-character prefix, cut the bits into
      groups of 8 from the left, the last group possibly shorter and never
      padded, and read each group in base 2. With n bits there are
      ceil(n / 8) bytes, so never none. */
  function ParseBinary(s: string): (r: seq<Byte>)
    requires IsBinary(s)
    ensures |r| == (|s| - 2 + 7) / 8 && |r| >= 1
  {
    var bits := s[2..];
    BitsAreDigits(s);
    ParseGroupsCount(bits, 8, 2);
    ParseGroups(bits, 8, 2)
  }

  /** Byte i of the output is the base-2 value of bits [8i, min(8i + 8, n)),
      a short last group read as its own value. */
  lemma ParseBinaryAt(s: string, i: nat)
    requires IsBinary(s) && i < |ParseBinary(s)|
    ensures 8 * i < |s| - 2
    ensures AllDigits(s[2..][8 * i .. Min(8 * i + 8, |s| - 2)], 2)
    ensures ParseBinary(s)[i] == ValueOf(s[2..][8 * i .. Min(8 * i + 8, |s| - 2)], 2)
  {
    BitsAreDigits(s);
    ParseGroupAt(s[2..], 8, 2, i);
  }

  /** The value of eight one-bits. */
  lemma AllOnesByte()
    ensures AllDigits("11111111", 2) && ValueOf("11111111", 2) == 255
  {
    ValueOfTwo('1', '1', 2);
    assert ['1', '1'] == "11";
    ValueAppend("11", "11", 2);
    assert "11" + "11" == "1111";
    ValueAppend("1111", "1111", 2);
    assert "1111" + "1111" == "11111111";
  }

  /** The value of eight zero-bits. */
  lemma AllZerosByte()
    ensures AllDigits("00000000", 2) && ValueOf("00000000", 2) == 0
  {
    ZerosValue("00000000", 2);
  }

  /** Up to eight bits make one byte, their value. */
  lemma ParseBinaryOneGroup(s: string)
    requires IsBinary(s) && |s| <= 10
    ensures AllDigits(s[2..], 2) && ParseBinary(s) == [ValueOf(s[2..], 2)]
  {
    ParseBinaryAt(s, 0);
    assert s[2..][0 .. |s| - 2] == s[2..];
  }

  /** Nine to sixteen bits make two bytes: the first eight bits, then the
      rest read as their own value. */
  lemma ParseBinaryTwoGroups(s: string)
    requires IsBinary(s) && 10 < |s| <= 18
    ensures AllDigits(s[2..10], 2) && AllDigits(s[10..], 2)
    ensures ParseBinary(s) == [ValueOf(s[2..10], 2), ValueOf(s[10..], 2)]
  {
    ParseBinaryAt(s, 0);
    assert s[2..][0..8] == s[2..10];
    ParseBinaryAt(s, 1);
    assert s[2..][8 .. |s| - 2] == s[10..];
  }

  /** Test vector: a two-bit group is a two-bit number, `0b10` is [2]. */
  lemma ParseBinaryTwoBits()
    ensures ParseBinary("0b10") == [2]
  {
    ValueOfTwo('1', '0', 2);
    ParseBinaryOneGroup("0b10");
    assert "0b10"[2..] == ['1', '0'];
  }

  /** The third word of the dispatcher's test: `0b11` is [3]. */
  lemma ParseBinaryThree()
    ensures IsBinary("0b11") && ParseBinary("0b11") == [0x03]
  {
    ValueOfTwo('1', '1', 2);
    ParseBinaryOneGroup("0b11");
    assert "0b11"[2..] == ['1', '1'];
  }

  /** Test vector: `0b11111111` is [0xff]. */
  lemma ParseBinaryFullByte()
    ensures ParseBinary("0b11111111") == [0xff]
  {
    AllOnesByte();
    ParseBinaryOneGroup("0b11111111");
    assert "0b11111111"[2..] == "11111111";
  }

  /** Test vector: the ninth bit forms a group of its own, read as 1 and
      not as 0x80: `0b000000001` is [0, 1]. */
  lemma ParseBinaryShortLastGroup()
    ensures ParseBinary("0b000000001") == [0, 1]
  {
    AllZerosByte();
    ValueOfOne('1', 2);
    ParseBinaryTwoGroups("0b000000001");
    assert "0b000000001"[2..10] == "00000000" && "0b000000001"[10..] == ['1'];
  }

  /** Test vector: `0b1111111100` is [0xff, 0]. */
  lemma ParseBinaryTwoBitTail()
    ensures ParseBinary("0b1111111100") == [0xff, 0]
  {
    AllOnesByte();
    ValueOfTwo('0', '0', 2);
    ParseBinaryTwoGroups("0b1111111100");
    assert "0b1111111100"[2..10] == "11111111" && "0b1111111100"[10..] == ['0', '0'];
  }

  /** Bytes written as eight-digit binary groups behind `0b`. */
  function RenderBinary(bytes: seq<Byte>): (r: string)
    requires |bytes| >= 1
    ensures IsBinary(r) && |r| == 2 + 8 * |bytes|
  {
    var body := RenderGroups(bytes, 8, 2);
    IsBinaryShape("0b", body);
    "0b" + body
  }

  /** Round trip: parsing the eight-digit rendering of any bytes gives them back. */
  lemma ParseRenderBinary(bytes: seq<Byte>)
    requires |bytes| >= 1
    ensures ParseBinary(RenderBinary(bytes)) == bytes
  {
    var body := RenderGroups(bytes, 8, 2);
    assert RenderBinary(bytes)[2..] == body;
    ParseRenderGroups(bytes, 8, 2);
  }

  /** Round trip the other way: writing byte i back as bits at the width
      of the group it came from gives that group, so a short last group is
      read unpadded and nothing of the bit string is lost. */
  lemma ReflattenBinary(s: string, i: nat)
    requires IsBinary(s) && i < |ParseBinary(s)|
    ensures 8 * i < |s| - 2
    ensures var g := s[2..][8 * i .. Min(8 * i + 8, |s| - 2)];
      AllDigits(g, 2) && ParseBinary(s)[i] < Pow(2, |g|) &&
      Render(ParseBinary(s)[i], 2, |g|) == g
  {
    ParseBinaryAt(s, i);
    RenderOfBits(s[2..][8 * i .. Min(8 * i + 8, |s| - 2)]);
  }

  /** Splitting the bits after a whole number of bytes splits the output there. */
  lemma ParseBinaryAppend(s: string, t: string)
    requires |s| >= 1 && |t| >= 1 && |s| % 8 == 0
    requires AllDigits(s, 2) && AllDigits(t, 2)
    ensures IsBinary("0b" + s) && IsBinary("0b" + t) && IsBinary("0b" + s + t)
    ensures ParseBinary("0b" + s + t) == ParseBinary("0b" + s) + ParseBinary("0b" + t)
  {
    AllDigitsAppend(s, t, 2);
    IsBinaryShape("0b", s);
    IsBinaryShape("0b", t);
    IsBinaryShape("0b", s + t);
    assert "0b" + s + t == "0b" + (s + t);
    assert ("0b" + (s + t))[2..] == s + t;
    assert ("0b" + s)[2..] == s;
    assert ("0b" + t)[2..] == t;
    ParseGroupsAppend(s, t, 8, 2, |s| / 8);
  }
}
