/** Decimal literals: `is_decimal` and `parse_decimal` of src/formats/decimal.rs. */
module Decimal {
  import opened Wrappers
  import opened Digits

  /** The pattern `^[0-9]+$` as a character predicate: one or more decimal
      digits and nothing else. */
  predicate IsDecimal(s: string) {
    |s| >= 1 && forall i :: 0 <= i < |s| ==> IsDecDigit(s[i])
  }

  /** The verdicts the crate's documentation and unit tests assert for the classifier. */
  lemma IsDecimalExamples()
    ensures IsDecimal("0") && IsDecimal("1") && IsDecimal("11") && IsDecimal("12")
    ensures IsDecimal("31") && IsDecimal("1424")
    ensures IsDecimal("18130184813") && IsDecimal("189120931130184813")
    ensures !IsDecimal("") && !IsDecimal("0x33")
  {
    assert !IsDecDigit("0x33"[1]);
  }

  /** One past the largest `u64`. */
  const U64Limit: nat := 0x1_0000_0000_0000_0000

  lemma U64LimitIsPow()
    ensures Pow(256, 8) == U64Limit
  {
  }

  /** The number a decimal token denotes, before any range check. */
  function DecimalValue(s: string): nat
    requires IsDecimal(s)
  {
    assert AllDigits(s, 10);
    ValueOf(s, 10)
  }

  /** The number big-endian bytes denote: the first byte is the most significant. */
  function BeValue(bytes: seq<Byte>): nat {
    if |bytes| == 0 then 0 else BeValue(bytes[..|bytes| - 1]) * 256 + bytes[|bytes| - 1]
  }

  lemma BeValueSnoc(p: seq<Byte>, b: Byte)
    ensures BeValue(p + [b]) == BeValue(p) * 256 + b
  {
    assert (p + [b])[..|p|] == p;
  }

  /** `to_be_bytes`: v as exactly `width` bytes, most significant first. */
  function ToBeBytes(v: nat, width: nat): (r: seq<Byte>)
    requires v < Pow(256, width)
    ensures |r| == width && BeValue(r) == v
  {
    if width == 0 then []
    else
      var p := ToBeBytes(v / 256, width - 1);
      BeValueSnoc(p, v % 256);
      p + [v % 256]
  }

  /** A leading zero byte adds nothing to the value. */
  lemma {:induction false} BeValueLeadingZero(x: seq<Byte>)
    ensures BeValue([0] + x) == BeValue(x)
    decreases |x|
  {
    if |x| > 0 {
      var p := x[..|x| - 1];
      BeValueLeadingZero(p);
      assert ([0] + x)[..|x|] == [0] + p;
    }
  }

  /** The trimming loop: drop zero bytes from the front while more than one
      byte is left. Only leading zero bytes go, so the value is kept and at
      least one byte remains. */
  function StripLeadingZeros(bytes: seq<Byte>): (r: seq<Byte>)
    requires |bytes| >= 1
    ensures 1 <= |r| <= |bytes| && r == bytes[|bytes| - |r|..]
    ensures forall i :: 0 <= i < |bytes| - |r| ==> bytes[i] == 0
    ensures r[0] == 0 ==> |r| == 1
    ensures BeValue(r) == BeValue(bytes)
  {
    if |bytes| > 1 && bytes[0] == 0 then
      BeValueLeadingZero(bytes[1..]);
      assert bytes == [0] + bytes[1..];
      StripLeadingZeros(bytes[1..])
    else bytes
  }

  /** `parse_decimal`: read the token as a `u64` (which panics, here `None`,
      at 2^64 or more), take its eight big-endian bytes, and strip leading
      zero bytes down to at least one. The result is the shortest big-endian
      encoding of the token's value: one to eight bytes, the first non-zero
      unless the whole result is [0]. */
  function ParseDecimal(s: string): (r: Option<seq<Byte>>)
    requires IsDecimal(s)
    ensures r.None? <==> DecimalValue(s) >= U64Limit
    ensures r.Some? ==> 1 <= |r.value| <= 8
    ensures r.Some? ==> BeValue(r.value) == DecimalValue(s)
    ensures r.Some? ==> (r.value[0] == 0 ==> r.value == [0])
  {
    var v := DecimalValue(s);
    if v >= U64Limit then None
    else
      U64LimitIsPow();
      Some(StripLeadingZeros(ToBeBytes(v, 8)))
  }

  /** Shortest big-endian form: at least one byte, no leading zero byte
      unless it is the only one. */
  predicate IsMinimal(bytes: seq<Byte>) {
    |bytes| >= 1 && (bytes[0] == 0 ==> |bytes| == 1)
  }

  /** An independent definition of the shortest big-endian encoding, built
      from the low byte up rather than by trimming a fixed-width one. */
  function MinimalBytes(v: nat): (r: seq<Byte>)
    ensures IsMinimal(r) && BeValue(r) == v
  {
    if v < 256 then [v]
    else
      var p := MinimalBytes(v / 256);
      BeValueSnoc(p, v % 256);
      p + [v % 256]
  }

  /** A non-empty encoding is worth at least its first byte. */
  lemma {:induction false} BeValueAtLeastFirst(x: seq<Byte>)
    requires |x| >= 1
    ensures BeValue(x) >= x[0]
    decreases |x|
  {
    if |x| > 1 {
      BeValueAtLeastFirst(x[..|x| - 1]);
    }
  }

  /** Every shortest encoding is the one MinimalBytes builds. */
  lemma {:induction false} MinimalIsCanonical(x: seq<Byte>)
    requires IsMinimal(x)
    ensures x == MinimalBytes(BeValue(x))
    decreases |x|
  {
    if |x| > 1 {
      var p, b := x[..|x| - 1], x[|x| - 1];
      assert p[0] == x[0];
      BeValueAtLeastFirst(p);
      MinimalIsCanonical(p);
      assert BeValue(x) == BeValue(p) * 256 + b;
      assert x == p + [b];
    }
  }

  /** Two shortest encodings of one number are the same bytes: the contract
      of ParseDecimal determines its output. */
  lemma MinimalUnique(a: seq<Byte>, b: seq<Byte>)
    requires IsMinimal(a) && IsMinimal(b) && BeValue(a) == BeValue(b)
    ensures a == b
  {
    MinimalIsCanonical(a);
    MinimalIsCanonical(b);
  }

  /** Rendering eight bytes and trimming gives the shortest encoding. */
  lemma ParseDecimalIsMinimal(s: string)
    requires IsDecimal(s) && DecimalValue(s) < U64Limit
    ensures ParseDecimal(s) == Some(MinimalBytes(DecimalValue(s)))
  {
    MinimalUnique(ParseDecimal(s).value, MinimalBytes(DecimalValue(s)));
  }

  /** A token's output depends only on the number it denotes. */
  lemma ParseDecimalOfValue(s: string, v: nat)
    requires IsDecimal(s) && DecimalValue(s) == v && v < U64Limit
    ensures ParseDecimal(s) == Some(MinimalBytes(v))
  {
    ParseDecimalIsMinimal(s);
  }

  /** Leading zeros in the token do not change the output: only the value
      is read. */
  lemma ParseDecimalLeadingZeros(z: string, s: string)
    requires AllZeros(z) && IsDecimal(s)
    ensures IsDecimal(z + s)
    ensures ParseDecimal(z + s) == ParseDecimal(s)
  {
    assert AllDigits(s, 10);
    LeadingZeros(z, s, 10);
    assert forall i :: 0 <= i < |z + s| ==> (z + s)[i] == if i < |z| then z[i] else s[i - |z|];
  }

  /** Appending a digit multiplies the value by ten and adds the digit. */
  lemma DecimalValueSnoc(p: string, c: char)
    requires IsDecimal(p) && IsDecDigit(c)
    ensures IsDecimal(p + [c])
    ensures DecimalValue(p + [c]) == 10 * DecimalValue(p) + DigitValue(c)
  {
    assert AllDigits(p, 10);
    ValueOfSnoc(p, c, 10);
  }

  /** The decimal value of the literals the test vectors use. */
  lemma DecimalValue256()
    ensures IsDecimal("256") && DecimalValue("256") == 256
  {
    assert DecimalValue("2") == 2;
    DecimalValueSnoc("2", '5');
    assert "2" + ['5'] == "25";
    DecimalValueSnoc("25", '6');
    assert "25" + ['6'] == "256";
  }

  lemma DecimalValue1024()
    ensures IsDecimal("1024") && DecimalValue("1024") == 1024
  {
    assert DecimalValue("10") == 10 by {
      assert DecimalValue("1") == 1;
      DecimalValueSnoc("1", '0');
      assert "1" + ['0'] == "10";
    }
    DecimalValueSnoc("10", '2');
    assert "10" + ['2'] == "102";
    DecimalValueSnoc("102", '4');
    assert "102" + ['4'] == "1024";
  }

  lemma DecimalValue1234()
    ensures IsDecimal("1234") && DecimalValue("1234") == 1234
  {
    assert DecimalValue("12") == 12 by {
      assert DecimalValue("1") == 1;
      DecimalValueSnoc("1", '2');
      assert "1" + ['2'] == "12";
    }
    DecimalValueSnoc("12", '3');
    assert "12" + ['3'] == "123";
    DecimalValueSnoc("123", '4');
    assert "123" + ['4'] == "1234";
  }

  lemma DecimalValue123456789()
    ensures IsDecimal("123456789") && DecimalValue("123456789") == 123456789
  {
    DecimalValue1234();
    DecimalValueSnoc("1234", '5');
    assert "1234" + ['5'] == "12345";
    DecimalValueSnoc("12345", '6');
    assert "12345" + ['6'] == "123456";
    DecimalValueSnoc("123456", '7');
    assert "123456" + ['7'] == "1234567";
    DecimalValueSnoc("1234567", '8');
    assert "1234567" + ['8'] == "12345678";
    DecimalValueSnoc("12345678", '9');
    assert "12345678" + ['9'] == "123456789";
  }

  /** The shortest encodings the test vectors expect. */
  lemma MinimalBytesVectors()
    ensures MinimalBytes(0) == [0]
    ensures MinimalBytes(256) == [1, 0]
    ensures MinimalBytes(1024) == [4, 0]
    ensures MinimalBytes(123456789) == [0x07, 0x5b, 0xcd, 0x15]
  {
  }

  /** A number below 256 is one byte. */
  lemma ParseDecimalOneByte(s: string)
    requires IsDecimal(s) && DecimalValue(s) < 256
    ensures ParseDecimal(s) == Some([DecimalValue(s)])
  {
    ParseDecimalIsMinimal(s);
  }

  /** Test vector: `10` is [10]. */
  lemma ParseDecimalTen()
    ensures ParseDecimal("10") == Some([10])
  {
    assert DecimalValue("1") == 1;
    DecimalValueSnoc("1", '0');
    assert "1" + ['0'] == "10";
    ParseDecimalOfValue("10", 10);
  }

  /** Test vector: `6` is [6]. */
  lemma ParseDecimalSix()
    ensures ParseDecimal("6") == Some([6])
  {
    assert DecimalValue("6") == 6;
    ParseDecimalOfValue("6", 6);
  }

  /** The fourth word of the dispatcher's test: `89` is [89]. */
  lemma ParseDecimal89()
    ensures IsDecimal("89") && DecimalValue("89") < U64Limit && ParseDecimal("89") == Some([89])
  {
    ValueOfTwo('8', '9', 10);
    assert "89" == ['8', '9'];
    ParseDecimalOfValue("89", 89);
    assert MinimalBytes(89) == [89];
  }

  /** Test vector: `256` is [1, 0]. */
  lemma ParseDecimal256()
    ensures ParseDecimal("256") == Some([1, 0])
  {
    DecimalValue256();
    ParseDecimalOfValue("256", 256);
    MinimalBytesVectors();
  }

  /** Test vector: `1024` is [4, 0]. */
  lemma ParseDecimal1024()
    ensures ParseDecimal("1024") == Some([4, 0])
  {
    DecimalValue1024();
    ParseDecimalOfValue("1024", 1024);
    MinimalBytesVectors();
  }

  /** Test vector: `123456789` is [0x07, 0x5b, 0xcd, 0x15]. */
  lemma ParseDecimal123456789()
    ensures ParseDecimal("123456789") == Some([0x07, 0x5b, 0xcd, 0x15])
  {
    DecimalValue123456789();
    ParseDecimalOfValue("123456789", 123456789);
    MinimalBytesVectors();
  }

  /** Test vector: `0` is [0], the one case where the first byte may be zero. */
  lemma ParseDecimalZero()
    ensures ParseDecimal("0") == Some([0])
  {
    assert DecimalValue("0") == 0;
    ParseDecimalOfValue("0", 0);
    MinimalBytesVectors();
  }
}
