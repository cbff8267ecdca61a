/** The entry point `str_to_bytes` of src/lib.rs: split the payload into
    shell-style words, convert each word by the first format that claims it,
    and concatenate the results in order. */
module StrToBytes {
  import opened Wrappers
  import opened Digits
  import opened Binary
  import opened Hexadecimal
  import opened Decimal
  import opened StrAscii

  /** The ways a call can fail. The first two are the error values the
      function returns; the third is the panic of `parse_decimal` on a
      decimal word worth 2^64 or more, which ends the call just as surely. */
  datatype Failure = InvalidPayload | EmptyPayload | DecimalOutOfRange

  /** Only the decimal classifier's words can overflow, and no decimal word
      is a binary or hexadecimal literal: its second character is a digit,
      not `b` or `x`. */
  lemma ClassifiersDisjoint(t: string)
    ensures !(IsBinary(t) && IsHexadecimal(t))
    ensures !(IsBinary(t) && IsDecimal(t))
    ensures !(IsHexadecimal(t) && IsDecimal(t))
  {
  }

  /** One iteration of the loop: binary first, then hexadecimal, then
      decimal; a word none of them claims adds nothing. */
  function ConvertWord(t: string): (r: Result<seq<Byte>, Failure>)
    ensures r.Err? ==> r.error == DecimalOutOfRange
  {
    if IsBinary(t) then Ok(ParseBinary(t))
    else if IsHexadecimal(t) then Ok(ParseHexadecimal(t))
    else if IsDecimal(t) then
      match ParseDecimal(t)
      case None => Err(DecimalOutOfRange)
      case Some(bytes) => Ok(bytes)
    else Ok([])
  }

  /** A word fails exactly when it is a decimal literal out of the `u64`
      range, and adds no bytes exactly when no format claims it. */
  lemma ConvertWordOutcome(t: string)
    ensures ConvertWord(t).Err? <==> IsDecimal(t) && DecimalValue(t) >= U64Limit
    ensures ConvertWord(t).Ok? && |ConvertWord(t).value| == 0 <==>
      !IsBinary(t) && !IsHexadecimal(t) && !IsDecimal(t)
  {
    ClassifiersDisjoint(t);
  }

  /** Each format's words are handed to that format's parser: the order of
      the tests does not matter, because no word passes two of them. */
  lemma ConvertWordFormats(t: string)
    ensures IsBinary(t) ==> ConvertWord(t) == Ok(ParseBinary(t))
    ensures IsHexadecimal(t) ==> ConvertWord(t) == Ok(ParseHexadecimal(t))
    ensures IsDecimal(t) && DecimalValue(t) < U64Limit ==> ConvertWord(t) == Ok(ParseDecimal(t).value)
    ensures !IsBinary(t) && !IsHexadecimal(t) && !IsDecimal(t) ==> ConvertWord(t) == Ok([])
  {
    ClassifiersDisjoint(t);
  }

  /** An `ASCII(...)` word is not converted: the loop has no branch for it,
      and it passes none of the three tests. */
  lemma AsciiMarkerSkipped(t: string)
    requires IsStrAscii(t)
    ensures ConvertWord(t) == Ok([])
  {
    var i, j :| 0 <= i < j < |t| && MatchAt(t, i, j);
    assert t[i .. i + 6][1] == 'S';
    assert t[i + 1] == 'S';
  }

  /** The loop over all words for a given conversion of one word, as the
      state after the last one: the bytes so far, or the failure that ended
      it. */
  function Fold(convert: string -> Result<seq<Byte>, Failure>, words: seq<string>): Result<seq<Byte>, Failure> {
    if |words| == 0 then Ok([])
    else
      match Fold(convert, words[..|words| - 1])
      case Err(e) => Err(e)
      case Ok(bytes) =>
        match convert(words[|words| - 1])
        case Err(e) => Err(e)
        case Ok(more) => Ok(bytes + more)
  }

  /** The loop fails exactly when some word fails, and then with that
      word's failure. */
  lemma {:induction false} FoldFails(convert: string -> Result<seq<Byte>, Failure>, words: seq<string>)
    ensures Fold(convert, words).Err? <==> exists t :: t in words && convert(t).Err?
    ensures Fold(convert, words).Err? ==> exists t :: t in words && convert(t) == Fold(convert, words)
    decreases |words|
  {
    if |words| > 0 {
      var init := words[..|words| - 1];
      assert words == init + [words[|words| - 1]];
      FoldFails(convert, init);
    }
  }

  /** One word is converted on its own. */
  lemma FoldOne(convert: string -> Result<seq<Byte>, Failure>, t: string)
    ensures Fold(convert, [t]) == convert(t)
  {
    assert [t][..0] == [];
    if convert(t).Ok? {
      assert [] + convert(t).value == convert(t).value;
    }
  }

  /** Appending a converted word to a converted list. */
  lemma FoldSnoc(convert: string -> Result<seq<Byte>, Failure>, ws: seq<string>, t: string, x: seq<Byte>, y: seq<Byte>)
    requires Fold(convert, ws) == Ok(x) && convert(t) == Ok(y)
    ensures Fold(convert, ws + [t]) == Ok(x + y)
  {
    assert (ws + [t])[..|ws|] == ws;
  }

  /** The output for a list of words is the outputs for its two halves, one
      after the other, and it fails if either half fails. */
  lemma {:induction false} FoldAppend(convert: string -> Result<seq<Byte>, Failure>, a: seq<string>, b: seq<string>)
    ensures Fold(convert, a + b).Err? <==> Fold(convert, a).Err? || Fold(convert, b).Err?
    ensures Fold(convert, a + b).Ok? ==>
      Fold(convert, a + b).value == Fold(convert, a).value + Fold(convert, b).value
    decreases |b|
  {
    if |b| == 0 {
      assert a + b == a;
    } else {
      var b0, t := b[..|b| - 1], b[|b| - 1];
      assert (a + b)[..|a + b| - 1] == a + b0;
      assert (a + b)[|a + b| - 1] == t;
      FoldAppend(convert, a, b0);
      if Fold(convert, a + b).Ok? {
        var x, y, z := Fold(convert, a).value, Fold(convert, b0).value, convert(t).value;
        assert Fold(convert, a + b).value == (x + y) + z;
        assert Fold(convert, b).value == y + z;
      }
    }
  }

  /** The loop of `str_to_bytes` over all words. */
  function Dispatch(words: seq<string>): Result<seq<Byte>, Failure> {
    Fold(ConvertWord, words)
  }

  /** The loop fails exactly when some word is a decimal literal out of
      the `u64` range. */
  lemma DispatchFails(words: seq<string>)
    ensures Dispatch(words).Err? <==> exists t :: t in words && ConvertWord(t).Err?
    ensures Dispatch(words).Err? ==> Dispatch(words) == Err(DecimalOutOfRange)
  {
    FoldFails(ConvertWord, words);
  }

  /** One failing word makes the whole loop fail. */
  lemma DispatchWordFails(words: seq<string>, k: nat)
    requires k < |words| && ConvertWord(words[k]).Err?
    ensures Dispatch(words) == Err(DecimalOutOfRange)
  {
    DispatchFails(words);
  }

  /** One word is converted on its own. */
  lemma DispatchOne(t: string)
    ensures Dispatch([t]) == ConvertWord(t)
  {
    FoldOne(ConvertWord, t);
  }

  /** Appending a converted word to a converted list. */
  lemma DispatchSnoc(ws: seq<string>, t: string, x: seq<Byte>, y: seq<Byte>)
    requires Dispatch(ws) == Ok(x) && ConvertWord(t) == Ok(y)
    ensures Dispatch(ws + [t]) == Ok(x + y)
  {
    FoldSnoc(ConvertWord, ws, t, x, y);
  }

  /** The output for a list of words is the outputs for its two halves, one
      after the other, and it fails if either half fails. */
  lemma DispatchAppend(a: seq<string>, b: seq<string>)
    ensures Dispatch(a + b).Err? <==> Dispatch(a).Err? || Dispatch(b).Err?
    ensures Dispatch(a + b).Ok? ==> Dispatch(a + b).value == Dispatch(a).value + Dispatch(b).value
  {
    FoldAppend(ConvertWord, a, b);
  }

  /** A word that no format claims can be dropped without changing the
      result. */
  lemma DispatchSkip(a: seq<string>, t: string, b: seq<string>)
    requires !IsBinary(t) && !IsHexadecimal(t) && !IsDecimal(t)
    ensures Dispatch(a + [t] + b) == Dispatch(a + b)
  {
    ConvertWordFormats(t);
    FoldAppend(ConvertWord, a, [t]);
    FoldAppend(ConvertWord, a + [t], b);
    FoldAppend(ConvertWord, a, b);
    FoldOne(ConvertWord, t);
    DispatchFails(a + [t] + b);
    DispatchFails(a + b);
    assert Fold(ConvertWord, a + [t]) == Fold(ConvertWord, a) by {
      if Fold(ConvertWord, a).Ok? {
        assert Fold(ConvertWord, a).value + [] == Fold(ConvertWord, a).value;
      }
    }
  }

  /** `str_to_bytes`, with the shell-style word splitter as a parameter: no
      words on a split failure, and an error on no words at all. */
  function Convert(split: string -> Option<seq<string>>, payload: string): (r: Result<seq<Byte>, Failure>)
    ensures r == Err(InvalidPayload) <==> split(payload).None?
    ensures r == Err(EmptyPayload) <==> split(payload) == Some([])
    ensures r == Err(DecimalOutOfRange) <==>
      split(payload).Some? && (exists t :: t in split(payload).value && ConvertWord(t).Err?)
  {
    match split(payload)
    case None => Err(InvalidPayload)
    case Some(words) =>
      DispatchFails(words);
      if |words| == 0 then Err(EmptyPayload) else Dispatch(words)
  }

  /** Splitting a payload into two payloads whose words add up splits the
      output the same way. */
  lemma ConvertAppend(split: string -> Option<seq<string>>, p: string, q: string, pq: string)
    requires split(p).Some? && split(q).Some? && split(p).value != [] && split(q).value != []
    requires split(pq) == Some(split(p).value + split(q).value)
    ensures Convert(split, pq).Err? <==> Convert(split, p).Err? || Convert(split, q).Err?
    ensures Convert(split, pq).Ok? ==>
      Convert(split, pq).value == Convert(split, p).value + Convert(split, q).value
  {
    DispatchAppend(split(p).value, split(q).value);
  }

  /** The loop of `str_to_bytes` as written: append each converted word to
      the output, stopping at the first panic. */
  method ConvertLoop(split: string -> Option<seq<string>>, payload: string) returns (r: Result<seq<Byte>, Failure>)
    ensures r == Convert(split, payload)
  {
    var args := split(payload);
    if args.None? {
      return Err(InvalidPayload);
    }
    var words := args.value;
    if |words| == 0 {
      return Err(EmptyPayload);
    }
    var bytes: seq<Byte> := [];
    var i := 0;
    while i < |words|
      invariant 0 <= i <= |words|
      invariant Dispatch(words[..i]) == Ok(bytes)
    {
      var a := words[i];
      assert words[..i + 1] == words[..i] + [a];
      ConvertWordFormats(a);
      var more: seq<Byte> := [];
      if IsBinary(a) {
        more := ParseBinary(a);
      } else if IsHexadecimal(a) {
        more := ParseHexadecimal(a);
      } else if IsDecimal(a) {
        var parsed := ParseDecimal(a);
        if parsed.None? {
          ConvertWordOutcome(a);
          DispatchWordFails(words, i);
          return Err(DecimalOutOfRange);
        }
        more := parsed.value;
      }
      DispatchSnoc(words[..i], a, bytes, more);
      bytes := bytes + more;
      i := i + 1;
    }
    assert words[..i] == words;
    return Ok(bytes);
  }

  /** Four words that convert to one byte each, converted together. */
  lemma FoldFour(convert: string -> Result<seq<Byte>, Failure>, a: string, b: string, c: string, d: string,
                 x: Byte, y: Byte, z: Byte, w: Byte)
    requires convert(a) == Ok([x]) && convert(b) == Ok([y])
    requires convert(c) == Ok([z]) && convert(d) == Ok([w])
    ensures Fold(convert, [a, b, c, d]) == Ok([x, y, z, w])
  {
    FoldOne(convert, a);
    FoldSnoc(convert, [a], b, [x], [y]);
    assert [a] + [b] == [a, b] && [x] + [y] == [x, y];
    FoldSnoc(convert, [a, b], c, [x, y], [z]);
    assert [a, b] + [c] == [a, b, c] && [x, y] + [z] == [x, y, z];
    FoldSnoc(convert, [a, b, c], d, [x, y, z], [w]);
    assert [a, b, c] + [d] == [a, b, c, d] && [x, y, z] + [w] == [x, y, z, w];
  }

  /** The words of the library's test vector, one at a time. */
  lemma ExampleWords()
    ensures ConvertWord("0xff") == Ok([0xff]) && ConvertWord("0xfa") == Ok([0xfa])
    ensures ConvertWord("0b11") == Ok([0x03]) && ConvertWord("89") == Ok([89])
  {
    assert ConvertWord("0xff") == Ok([0xff]) by {
      ParseHexadecimalFF();
      ConvertWordFormats("0xff");
    }
    assert ConvertWord("0xfa") == Ok([0xfa]) by {
      ParseHexadecimalFA();
      ConvertWordFormats("0xfa");
    }
    assert ConvertWord("0b11") == Ok([0x03]) by {
      ParseBinaryThree();
      ConvertWordFormats("0b11");
    }
    assert ConvertWord("89") == Ok([89]) by {
      ParseDecimal89();
      ConvertWordFormats("89");
    }
  }

  /** The words of the library's test vector, together. */
  lemma DispatchExample()
    ensures Dispatch(["0xff", "0xfa", "0b11", "89"]) == Ok([0xff, 0xfa, 0x03, 89])
  {
    ExampleWords();
    FoldFour(ConvertWord, "0xff", "0xfa", "0b11", "89", 0xff, 0xfa, 0x03, 89);
  }

  /** The library's test vector: a payload that splits into `0xff 0xfa
      0b11 89` converts to [0xff, 0xfa, 0x03, 89]. */
  lemma ConvertExample(split: string -> Option<seq<string>>)
    requires split("0xff 0xfa 0b11 89") == Some(["0xff", "0xfa", "0b11", "89"])
    ensures Convert(split, "0xff 0xfa 0b11 89") == Ok([0xff, 0xfa, 0x03, 89])
  {
    DispatchExample();
  }
}
