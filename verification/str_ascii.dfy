/** The `ASCII(...)` marker: `is_str_ascii` and `parse_str_ascii` of
    src/formats/str.rs. Text is a sequence of Unicode scalar values; the
    parser works on its UTF-8 bytes, as a Rust `&str` does. */
module StrAscii {
  import opened Wrappers
  import opened Digits

  const Marker: string := "ASCII("

  /** The regular expression `ASCII\(.+\)`, unanchored: the marker at i, a
      `)` at j with at least one character between, and no line feed in
      between (the regex `.` matches any character but `\n`). */
  predicate MatchAt(s: string, i: int, j: int) {
    0 <= i && i + 6 <= |s| && s[i .. i + 6] == Marker && Closes(s, i + 6, j)
  }

  /** A `)` at j can end a match whose content starts at `start`: it comes
      after at least one content character, with no line feed before it. */
  predicate Closes(s: string, start: int, j: int) {
    0 <= start < j < |s| && s[j] == ')' && forall k :: start <= k < j ==> s[k] != '\n'
  }

  /** `is_str_ascii`: the pattern matches somewhere in the text. */
  predicate IsStrAscii(s: string) {
    exists i, j :: 0 <= i < j < |s| && MatchAt(s, i, j)
  }

  /** A marker with a non-empty, single-line content is a match from the
      first character to the last. */
  lemma MarkerMatch(m: string)
    requires |m| >= 1 && forall k :: 0 <= k < |m| ==> m[k] != '\n'
    ensures MatchAt(Marker + m + ")", 0, 6 + |m|)
    ensures (Marker + m + ")")[6 .. 6 + |m|] == m
  {
    var s := Marker + m + ")";
    assert s[6 .. 6 + |m|] == m;
    assert s[0 .. 6] == Marker;
    forall k | 6 <= k < 6 + |m|
      ensures s[k] != '\n'
    {
      assert s[k] == s[6 .. 6 + |m|][k - 6];
    }
  }

  /** A marker with a non-empty, single-line content is recognised. */
  lemma MarkerIsStrAscii(m: string)
    requires |m| >= 1 && forall k :: 0 <= k < |m| ==> m[k] != '\n'
    ensures IsStrAscii(Marker + m + ")")
  {
    MarkerMatch(m);
  }

  /** The unanchored pattern also matches inside longer text. */
  lemma IsStrAsciiAround(p: string, s: string, q: string)
    requires IsStrAscii(s)
    ensures IsStrAscii(p + s + q)
  {
    var i, j :| 0 <= i < j < |s| && MatchAt(s, i, j);
    var t := p + s + q;
    assert t[|p| + i .. |p| + i + 6] == s[i .. i + 6];
    assert forall k :: 0 <= k < |s| ==> t[|p| + k] == s[k];
    assert MatchAt(t, |p| + i, |p| + j);
  }

  /** The verdicts the crate's documentation and unit tests assert for the classifier. */
  lemma IsStrAsciiExamples()
    ensures IsStrAscii("ASCII(Hello)") && IsStrAscii("ASCII(world)")
    ensures IsStrAscii("ASCII(hello)") && IsStrAscii("ASCII(12)") && IsStrAscii("ASCII(1)")
    ensures IsStrAscii("ASCII(0x44)") && IsStrAscii("ASCII(Hi mom)") && IsStrAscii("ASCII(1234)")
    ensures !IsStrAscii("Hi mom")
  {
    MarkerIsStrAscii("Hello");
    assert Marker + "Hello" + ")" == "ASCII(Hello)";
    MarkerIsStrAscii("world");
    assert Marker + "world" + ")" == "ASCII(world)";
    MarkerIsStrAscii("hello");
    assert Marker + "hello" + ")" == "ASCII(hello)";
    MarkerIsStrAscii("12");
    assert Marker + "12" + ")" == "ASCII(12)";
    MarkerIsStrAscii("1");
    assert Marker + "1" + ")" == "ASCII(1)";
    MarkerIsStrAscii("0x44");
    assert Marker + "0x44" + ")" == "ASCII(0x44)";
    MarkerIsStrAscii("Hi mom");
    assert Marker + "Hi mom" + ")" == "ASCII(Hi mom)";
    MarkerIsStrAscii("1234");
    assert Marker + "1234" + ")" == "ASCII(1234)";
    assert forall i, j :: !MatchAt("Hi mom", i, j);
  }

  /** Two rejections that follow from the pattern itself rather than from
      any example of the crate: `.+` needs at least one character between
      the parentheses, and `.` does not match a line feed. */
  lemma IsStrAsciiRejects()
    ensures !IsStrAscii("ASCII()") && !IsStrAscii("ASCII(\n)")
  {
    assert forall i, j :: !MatchAt("ASCII()", i, j);
    var t := "ASCII(\n)";
    assert t[6] == '\n';
    assert forall i, j :: !MatchAt(t, i, j);
  }

  /** The regex search as a scan: try every start of the marker, and from
      each read forward to the first line feed looking for a `)` at least
      one character past the marker. */
  method IsStrAsciiScan(s: string) returns (found: bool)
    ensures found <==> IsStrAscii(s)
  {
    var i := 0;
    while i + 6 <= |s|
      invariant 0 <= i
      invariant forall i', j :: 0 <= i' < i ==> !MatchAt(s, i', j)
    {
      if s[i .. i + 6] == Marker {
        var j := i + 6;
        while j < |s| && s[j] != '\n'
          invariant i + 6 <= j <= |s|
          invariant forall k :: i + 6 <= k < j ==> s[k] != '\n'
          invariant forall j' :: j' < j ==> !MatchAt(s, i, j')
        {
          if j > i + 6 && s[j] == ')' {
            assert MatchAt(s, i, j);
            return true;
          }
          j := j + 1;
        }
      }
      i := i + 1;
    }
    return false;
  }

  /** The UTF-8 encoding of one character: one byte below 0x80, then two,
      three or four bytes. */
  function Utf8(c: char): (r: seq<Byte>)
    ensures 1 <= |r| <= 4
    ensures |r| == 1 <==> c as int < 0x80
    ensures c as int < 0x80 ==> r == [c as int]
  {
    var v := c as int;
    if v < 0x80 then [v]
    else if v < 0x800 then [0xC0 + v / 64, 0x80 + v % 64]
    else if v < 0x10000 then [0xE0 + v / 4096, 0x80 + (v / 64) % 64, 0x80 + v % 64]
    else [0xF0 + v / 262144, 0x80 + (v / 4096) % 64, 0x80 + (v / 64) % 64, 0x80 + v % 64]
  }

  /** The UTF-8 bytes of a text: `as_bytes`. */
  function Encode(s: string): seq<Byte> {
    if |s| == 0 then [] else Utf8(s[0]) + Encode(s[1..])
  }

  lemma {:induction false} EncodeAppend(a: string, b: string)
    ensures Encode(a + b) == Encode(a) + Encode(b)
    decreases |a|
  {
    if |a| > 0 {
      assert (a + b)[0] == a[0] && (a + b)[1..] == a[1..] + b;
      EncodeAppend(a[1..], b);
      calc {
        Encode(a + b);
        Utf8(a[0]) + Encode(a[1..] + b);
        Utf8(a[0]) + (Encode(a[1..]) + Encode(b));
        Encode(a) + Encode(b);
      }
    } else {
      assert a + b == b;
    }
  }

  lemma EncodeOne(c: char)
    ensures Encode([c]) == Utf8(c)
  {
    assert [c][1..] == [];
  }

  predicate IsAscii(s: string) {
    forall k :: 0 <= k < |s| ==> s[k] as int < 0x80
  }

  /** ASCII text encodes to its character codes, one byte each. */
  lemma {:induction false} EncodeAscii(s: string)
    requires IsAscii(s)
    ensures |Encode(s)| == |s|
    ensures forall k :: 0 <= k < |s| ==> Encode(s)[k] == s[k] as int
    decreases |s|
  {
    if |s| > 0 {
      EncodeAscii(s[1..]);
    }
  }

  /** The number of characters whose encoding is exactly n bytes, if n falls
      on a character boundary: the condition under which `&s[n..]` does not
      panic. */
  function CharBoundary(s: string, n: nat): (r: Option<nat>)
    ensures r.Some? ==> r.value <= |s| && |Encode(s[..r.value])| == n
  {
    if n == 0 then
      assert s[..0] == [];
      Some(0)
    else if |s| == 0 then None
    else
      var w := |Utf8(s[0])|;
      if w > n then None
      else match CharBoundary(s[1..], n - w)
        case None => None
        case Some(k) =>
          assert s[..k + 1] == [s[0]] + s[1..][..k];
          EncodeAppend([s[0]], s[1..][..k]);
          assert Encode([s[0]]) == Utf8(s[0]) + Encode([s[0]][1..]);
          Some(k + 1)
  }

  /** CharBoundary finds a boundary whenever there is one. */
  lemma {:induction false} CharBoundaryComplete(s: string, n: nat, k: nat)
    requires k <= |s| && |Encode(s[..k])| == n
    ensures CharBoundary(s, n) == Some(k)
    decreases k
  {
    if k > 0 {
      assert s[..k] == [s[0]] + s[1..][..k - 1];
      EncodeAppend([s[0]], s[1..][..k - 1]);
      assert Encode([s[0]]) == Utf8(s[0]) + Encode([s[0]][1..]);
      CharBoundaryComplete(s[1..], n - |Utf8(s[0])|, k - 1);
    }
  }

  /** `parse_str_ascii`: drop the first six bytes, drop the last remaining
      character if there is one, and return the UTF-8 bytes left. `None`
      stands for the panic of the slice when byte 6 is past the end or inside
      a character. Otherwise the result is the encoding with the first six
      bytes and the last character's bytes cut off. */
  function ParseStrAscii(s: string): (r: Option<seq<Byte>>)
    ensures r.None? <==> CharBoundary(s, 6).None?
    ensures r.Some? && CharBoundary(s, 6).value == |s| ==> r.value == [] && |Encode(s)| == 6
    ensures r.Some? && CharBoundary(s, 6).value < |s| ==>
      |Encode(s)| >= 6 + |Utf8(s[|s| - 1])| &&
      Encode(s) == Encode(s)[..6] + r.value + Utf8(s[|s| - 1])
  {
    match CharBoundary(s, 6)
    case None => None
    case Some(k) =>
      var rest := s[k..];
      if |rest| == 0 then
        assert s[..k] == s;
        Some([])
      else
        var body, last := rest[..|rest| - 1], rest[|rest| - 1];
        assert s == s[..k] + body + [last];
        EncodeAppend(s[..k] + body, [last]);
        EncodeAppend(s[..k], body);
        assert Encode([last]) == Utf8(last) + Encode([last][1..]);
        Some(Encode(body))
  }

  /** The marker form: for any content m, the parse is the UTF-8 encoding
      of m. */
  lemma ParseMarker(m: string)
    ensures ParseStrAscii(Marker + m + ")") == Some(Encode(m))
  {
    var s := Marker + m + ")";
    assert s[..6] == Marker;
    EncodeAscii(Marker);
    CharBoundaryComplete(s, 6, 6);
    assert s[6..][..|m|] == m;
  }

  /** For ASCII text of six characters or more the parse succeeds, with one
      byte per character and seven fewer than the token: the marker and the
      closing character are dropped. */
  lemma ParseStrAsciiLength(s: string)
    requires |s| >= 6 && IsAscii(s)
    ensures ParseStrAscii(s).Some?
    ensures |ParseStrAscii(s).value| == if |s| == 6 then 0 else |s| - 7
    ensures forall k :: 0 <= k < |ParseStrAscii(s).value| ==>
      ParseStrAscii(s).value[k] == s[6 + k] as int
  {
    EncodeAscii(s);
    EncodeAscii(s[..6]);
    CharBoundaryComplete(s, 6, 6);
    if |s| > 6 {
      var r := ParseStrAscii(s).value;
      assert Encode(s) == Encode(s)[..6] + r + Utf8(s[|s| - 1]);
      forall k | 0 <= k < |r|
        ensures r[k] == s[6 + k] as int
      {
        assert Encode(s)[6 + k] == r[k];
      }
    }
  }

  /** ASCII text parses to the codes of its characters after the sixth,
      without the last. */
  lemma ParseAsciiText(s: string, codes: seq<Byte>)
    requires |s| > 6 && IsAscii(s) && |codes| == |s| - 7
    requires forall k :: 0 <= k < |codes| ==> codes[k] == s[6 + k] as int
    ensures ParseStrAscii(s) == Some(codes)
  {
    ParseStrAsciiLength(s);
    assert ParseStrAscii(s).value == codes;
  }

  /** Text of fewer than six bytes makes the slice panic. */
  lemma ParseStrAsciiShort(s: string)
    requires |Encode(s)| < 6
    ensures ParseStrAscii(s).None?
  {
    if CharBoundary(s, 6).Some? {
      var k := CharBoundary(s, 6).value;
      assert s == s[..k] + s[k..];
      EncodeAppend(s[..k], s[k..]);
    }
  }

  /** ASCII content comes out as its character codes. */
  lemma ParseAsciiMarker(m: string, codes: seq<Byte>)
    requires IsAscii(m) && |codes| == |m|
    requires forall k :: 0 <= k < |m| ==> codes[k] == m[k] as int
    ensures ParseStrAscii(Marker + m + ")") == Some(codes)
  {
    ParseMarker(m);
    EncodeAscii(m);
    assert Encode(m) == codes;
  }

  /** Test vector: `ASCII(a)` is [0x61]. */
  lemma ParseStrAsciiOneLetter()
    ensures ParseStrAscii("ASCII(a)") == Some([0x61])
  {
    ParseAsciiMarker("a", [0x61]);
    assert Marker + "a" + ")" == "ASCII(a)";
  }

  /** Test vector: `ASCII(abc)` is [0x61, 0x62, 0x63]. */
  lemma ParseStrAsciiThreeLetters()
    ensures ParseStrAscii("ASCII(abc)") == Some([0x61, 0x62, 0x63])
  {
    ParseAsciiMarker("abc", [0x61, 0x62, 0x63]);
    assert Marker + "abc" + ")" == "ASCII(abc)";
  }

  /** Test vector: `ASCII(0)` is the character code [0x30], not the number 0. */
  lemma ParseStrAsciiDigit()
    ensures ParseStrAscii("ASCII(0)") == Some([0x30])
  {
    ParseAsciiMarker("0", [0x30]);
    assert Marker + "0" + ")" == "ASCII(0)";
  }

  /** A single character of content comes out as its UTF-8 bytes. */
  lemma ParseMarkerChar(c: char)
    ensures ParseStrAscii(Marker + [c] + ")") == Some(Utf8(c))
  {
    ParseMarker([c]);
    EncodeOne(c);
  }

  /** Content outside ASCII comes out as its UTF-8 bytes: `ASCII(é)` is
      [0xc3, 0xa9]. */
  lemma ParseStrAsciiUtf8()
    ensures ParseStrAscii("ASCII(\U{e9})") == Some([0xc3, 0xa9])
  {
    ParseMarkerChar('\U{e9}');
    assert Marker + ['\U{e9}'] + ")" == "ASCII(\U{e9})";
    assert Utf8('\U{e9}') == [0xc3, 0xa9];
  }

  /** The classifier looks anywhere in the text, the parser only at fixed
      positions: `xASCII(a)` is accepted ... */
  lemma ShiftedMarkerAccepted()
    ensures IsStrAscii("xASCII(a)")
  {
    MarkerIsStrAscii("a");
    assert Marker + "a" + ")" == "ASCII(a)";
    IsStrAsciiAround("x", "ASCII(a)", "");
    assert "x" + "ASCII(a)" + "" == "xASCII(a)";
  }

  /** ... and parses to the bytes of `(a`, not of `a`. */
  lemma ShiftedMarkerParse()
    ensures ParseStrAscii("xASCII(a)") == Some([0x28, 0x61])
  {
    ParseAsciiText("xASCII(a)", [0x28, 0x61]);
  }

  /** The end of the regex's greedy `.+\)` once the content starts at
      `start`: the last `)` before the first line feed or the end of the
      text. `last` is the best candidate found before position k. */
  function LastClose(s: string, start: nat, k: nat, last: Option<nat>): (r: Option<nat>)
    requires start <= k <= |s|
    requires forall m :: start <= m < k ==> s[m] != '\n'
    requires last.Some? ==> Closes(s, start, last.value)
    requires forall j :: start <= j < k && Closes(s, start, j) ==> last.Some? && j <= last.value
    ensures r.Some? ==> Closes(s, start, r.value)
    ensures forall j :: Closes(s, start, j) ==> r.Some? && j <= r.value
    decreases |s| - k
  {
    if k == |s| || s[k] == '\n' then last
    else LastClose(s, start, k + 1, if k > start && s[k] == ')' then Some(k) else last)
  }

  /** The regex search from position i: the leftmost start of a match, and
      the greedy end of the match from there. */
  function FindMarker(s: string, i: nat): (r: Option<(nat, nat)>)
    ensures r.Some? ==> i <= r.value.0 && MatchAt(s, r.value.0, r.value.1)
    ensures forall i', j :: i <= i' && MatchAt(s, i', j) ==> r.Some? && r.value.0 <= i'
    ensures r.Some? ==> forall j :: MatchAt(s, r.value.0, j) ==> j <= r.value.1
    decreases |s| - i
  {
    if i + 6 > |s| then None
    else if s[i .. i + 6] == Marker && LastClose(s, i + 6, i + 6, None).Some? then
      Some((i, LastClose(s, i + 6, i + 6, None).value))
    else FindMarker(s, i + 1)
  }

  /** The parser the classifier calls for: the UTF-8 bytes of the content
      of the match `is_str_ascii` finds, wherever it lies in the text. */
  function ParseMarkerContent(s: string): (r: Option<seq<Byte>>)
    ensures r.Some? <==> IsStrAscii(s)
  {
    match FindMarker(s, 0)
    case None => None
    case Some((i, j)) => Some(Encode(s[i + 6 .. j]))
  }

  /** The content is that of the leftmost match, taken to its last `)`. */
  lemma ParseMarkerContentAt(s: string, i: int, j: int)
    requires MatchAt(s, i, j)
    requires forall i', j' :: MatchAt(s, i', j') ==> i <= i'
    requires forall j' :: MatchAt(s, i, j') ==> j' <= j
    ensures ParseMarkerContent(s) == Some(Encode(s[i + 6 .. j]))
  {
    var r := FindMarker(s, 0);
    assert r.Some? && r.value.0 <= i;
    assert r.value == (i, j);
  }

  /** On a token that starts with the marker, the corrected parser agrees
      with `parse_str_ascii`. */
  lemma ParseMarkerContentPrefixed(m: string)
    requires |m| >= 1 && forall k :: 0 <= k < |m| ==> m[k] != '\n'
    ensures ParseMarkerContent(Marker + m + ")") == Some(Encode(m))
    ensures ParseMarkerContent(Marker + m + ")") == ParseStrAscii(Marker + m + ")")
  {
    var s := Marker + m + ")";
    var j := 6 + |m|;
    MarkerMatch(m);
    assert |s| == j + 1;
    forall j' | MatchAt(s, 0, j')
      ensures j' <= j
    {
      assert Closes(s, 6, j');
    }
    ParseMarkerContentAt(s, 0, j);
    ParseMarker(m);
  }

  /** The corrected parser reads `xASCII(a)` as [0x61]. */
  lemma ParseMarkerContentShifted()
    ensures ParseMarkerContent("xASCII(a)") == Some([0x61])
  {
    var s := "xASCII(a)";
    assert s[1 .. 7] == Marker;
    assert MatchAt(s, 1, 8);
    assert s[0 .. 6] != Marker by { assert s[0] != Marker[0]; }
    ParseMarkerContentAt(s, 1, 8);
    assert s[7 .. 8] == "a";
    EncodeOne('a');
  }
}
