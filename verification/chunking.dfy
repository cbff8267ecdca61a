/** The regroup-then-parse scheme that binary.rs and hexadecimal.rs share:
    cut the digits after the prefix into groups of at most `w` characters,
    left to right and without padding, then read each group with
    `u8::from_str_radix`. */
module Chunking {
  import opened Digits

  function Min(a: int, b: int): int { if a <= b then a else b }

  /** The groups the regrouping loop collects: each step takes the first
      min(w, |s|) characters and keeps the rest. Joined back they give s;
      every group holds 1 to w characters, all but the last exactly w; and
      there are ceil(|s| / w) of them. */
  function Chunks(s: string, w: nat): (r: seq<string>)
    requires w > 0
    ensures Concat(r) == s
    ensures forall i :: 0 <= i < |r| ==> 1 <= |r[i]| <= w
    ensures forall i :: 0 <= i < |r| - 1 ==> |r[i]| == w
    ensures |s| == 0 <==> |r| == 0
    decreases |s|
  {
    if |s| == 0 then []
    else
      var n := Min(w, |s|);
      var rest := Chunks(s[n..], w);
      var r := [s[..n]] + rest;
      assert r[1..] == rest;
      assert s[..n] + s[n..] == s;
      r
  }

  /** There are ceil(|s| / w) groups: the fewest groups of w that cover s. */
  lemma {:induction false} ChunkCount(s: string, w: nat)
    requires w > 0 && |s| > 0
    ensures w * (|Chunks(s, w)| - 1) < |s| <= w * |Chunks(s, w)|
    decreases |s|
  {
    var n := Min(w, |s|);
    var rest := Chunks(s[n..], w);
    assert Chunks(s, w) == [s[..n]] + rest;
    if |s| > w {
      ChunkCount(s[n..], w);
      MulSucc(w, |rest|);
      MulSucc(w, |rest| - 1);
    }
  }

  /** Joins groups back into one string. */
  function Concat(groups: seq<string>): string {
    if |groups| == 0 then "" else groups[0] + Concat(groups[1..])
  }

  /** The index arithmetic of ChunkAt: group i - 1 of s[w..] is group i of s. */
  lemma ShiftedSlice(s: string, w: nat, i: nat, x: string)
    requires 0 < w < |s| && i > 0
    requires w * (i - 1) < |s| - w
    requires x == s[w..][w * (i - 1) .. Min(w * (i - 1) + w, |s| - w)]
    ensures w * i < |s| && x == s[w * i .. Min(w * i + w, |s|)]
  {
    var a := w * (i - 1);
    var b := Min(a + w, |s| - w);
    MulSucc(w, i - 1);
    assert s[w..][a..b] == s[w + a .. w + b];
  }

  /** Group i is the slice [w*i, min(w*i + w, |s|)) of the input. */
  lemma {:induction false} ChunkAt(s: string, w: nat, i: nat)
    requires w > 0 && i < |Chunks(s, w)|
    ensures w * i < |s|
    ensures Chunks(s, w)[i] == s[w * i .. Min(w * i + w, |s|)]
    decreases i
  {
    var n := Min(w, |s|);
    var rest := Chunks(s[n..], w);
    assert Chunks(s, w) == [s[..n]] + rest;
    if i > 0 {
      assert |rest| > 0;
      assert n == w;
      ChunkAt(s[n..], w, i - 1);
      ShiftedSlice(s, w, i, rest[i - 1]);
    }
  }

  /** Regrouping commutes with concatenation when the left part fills
      exactly k whole groups. */
  lemma {:induction false} ChunksAppend(s: string, t: string, w: nat, k: nat)
    requires w > 0 && |s| == w * k
    ensures Chunks(s + t, w) == Chunks(s, w) + Chunks(t, w)
    decreases k
  {
    if k > 0 {
      MulSucc(w, k - 1);
      assert (s + t)[..w] == s[..w];
      assert (s + t)[w..] == s[w..] + t;
      ChunksAppend(s[w..], t, w, k - 1);
    } else {
      assert s + t == t;
    }
  }

  /** Each group is a valid `from_str_radix` input of at most w digits. */
  predicate GroupsParse(groups: seq<string>, w: nat, base: nat) {
    forall i :: 0 <= i < |groups| ==> 1 <= |groups[i]| <= w && AllDigits(groups[i], base)
  }

  /** The groups of a digit string are digit strings of 1 to w characters. */
  lemma {:induction false} ChunksParse(s: string, w: nat, base: nat)
    requires w > 0 && AllDigits(s, base)
    ensures GroupsParse(Chunks(s, w), w, base)
    decreases |s|
  {
    if |s| > 0 {
      var n := Min(w, |s|);
      ChunksParse(s[n..], w, base);
      var r := Chunks(s, w);
      assert r == [s[..n]] + Chunks(s[n..], w);
      assert AllDigits(s[..n], base);
    }
  }

  /** The parsing loop: `u8::from_str_radix` on every group, in order. A
      group is never empty and its value is below base^w <= 256, so the
      `expect` on that call never fires. */
  function GroupValues(groups: seq<string>, w: nat, base: nat): (r: seq<Byte>)
    requires Pow(base, w) <= 256 && base >= 2
    requires GroupsParse(groups, w, base)
    ensures |r| == |groups|
    ensures forall i :: 0 <= i < |r| ==> r[i] == ValueOf(groups[i], base)
  {
    if |groups| == 0 then []
    else
      ValueBound(groups[0], base);
      PowMonotone(base, |groups[0]|, w);
      [ValueOf(groups[0], base)] + GroupValues(groups[1..], w, base)
  }

  /** The whole parser body: regroup the digits, then parse every group. */
  function ParseGroups(digits: string, w: nat, base: nat): (r: seq<Byte>)
    requires w > 0 && base >= 2 && Pow(base, w) <= 256 && AllDigits(digits, base)
    ensures |r| == |Chunks(digits, w)|
  {
    ChunksParse(digits, w, base);
    GroupValues(Chunks(digits, w), w, base)
  }

  /** A digit string of n > 0 digits parses to ceil(n / w) bytes, and
      only the empty one to none. */
  lemma ParseGroupsCount(digits: string, w: nat, base: nat)
    requires w > 0 && base >= 2 && Pow(base, w) <= 256 && AllDigits(digits, base)
    ensures |digits| == 0 <==> |ParseGroups(digits, w, base)| == 0
    ensures |digits| > 0 ==>
      w * (|ParseGroups(digits, w, base)| - 1) < |digits| <= w * |ParseGroups(digits, w, base)|
  {
    if |digits| > 0 { ChunkCount(digits, w); }
  }

  /** Byte i of the parse is the value of digits [w*i, min(w*i + w, n)): a
      short last group is read as its own value, not padded. */
  lemma ParseGroupAt(digits: string, w: nat, base: nat, i: nat)
    requires w > 0 && base >= 2 && Pow(base, w) <= 256 && AllDigits(digits, base)
    requires i < |ParseGroups(digits, w, base)|
    ensures w * i < |digits|
    ensures AllDigits(digits[w * i .. Min(w * i + w, |digits|)], base)
    ensures ParseGroups(digits, w, base)[i] == ValueOf(digits[w * i .. Min(w * i + w, |digits|)], base)
  {
    ChunksParse(digits, w, base);
    ChunkAt(digits, w, i);
  }

  lemma GroupValuesAppend(g1: seq<string>, g2: seq<string>, w: nat, base: nat)
    requires Pow(base, w) <= 256 && base >= 2
    requires GroupsParse(g1, w, base) && GroupsParse(g2, w, base)
    ensures GroupsParse(g1 + g2, w, base)
    ensures GroupValues(g1 + g2, w, base) == GroupValues(g1, w, base) + GroupValues(g2, w, base)
  {
    assert forall i :: 0 <= i < |g1 + g2| ==> (g1 + g2)[i] == if i < |g1| then g1[i] else g2[i - |g1|];
  }

  /** Parsing a digit string that fills k whole groups, followed by more
      digits, gives the two parses one after the other. */
  lemma ParseGroupsAppend(s: string, t: string, w: nat, base: nat, k: nat)
    requires w > 0 && base >= 2 && Pow(base, w) <= 256
    requires AllDigits(s, base) && AllDigits(t, base) && |s| == w * k
    ensures AllDigits(s + t, base)
    ensures ParseGroups(s + t, w, base) == ParseGroups(s, w, base) + ParseGroups(t, w, base)
  {
    AllDigitsAppend(s, t, base);
    ChunksAppend(s, t, w, k);
    ChunksParse(s, w, base);
    ChunksParse(t, w, base);
    GroupValuesAppend(Chunks(s, w), Chunks(t, w), w, base);
  }

  /** A single full group parses to its own value. */
  lemma ParseOneGroup(g: string, w: nat, base: nat)
    requires w > 0 && base >= 2 && Pow(base, w) <= 256 && AllDigits(g, base) && |g| == w
    ensures ParseGroups(g, w, base) == [ValueOf(g, base)]
  {
    assert Min(w, |g|) == w;
    assert g[..w] == g;
    assert Chunks(g[w..], w) == [];
    assert Chunks(g, w) == [g];
  }

  /** Each byte written as exactly w digits of the base, one group per byte. */
  function RenderGroups(bytes: seq<Byte>, w: nat, base: nat): (r: string)
    requires 2 <= base <= 16 && Pow(base, w) == 256
    ensures |r| == w * |bytes| && AllDigits(r, base)
  {
    if |bytes| == 0 then ""
    else
      var head := Render(bytes[0], base, w);
      var tail := RenderGroups(bytes[1..], w, base);
      AllDigitsAppend(head, tail, base);
      MulSucc(w, |bytes| - 1);
      head + tail
  }

  /** Parsing the fixed-width rendering of any bytes gives the bytes back. */
  lemma {:induction false} ParseRenderGroups(bytes: seq<Byte>, w: nat, base: nat)
    requires w > 0 && 2 <= base <= 16 && Pow(base, w) == 256
    ensures ParseGroups(RenderGroups(bytes, w, base), w, base) == bytes
    decreases |bytes|
  {
    if |bytes| > 0 {
      var head := Render(bytes[0], base, w);
      var tail := RenderGroups(bytes[1..], w, base);
      assert RenderGroups(bytes, w, base) == head + tail;
      ParseGroupsAppend(head, tail, w, base, 1);
      assert ParseGroups(head, w, base) == [bytes[0]] by {
        RenderValue(bytes[0], base, w);
        ParseOneGroup(head, w, base);
      }
      assert ParseGroups(tail, w, base) == bytes[1..] by {
        ParseRenderGroups(bytes[1..], w, base);
      }
      assert [bytes[0]] + bytes[1..] == bytes;
    }
  }

  /** The parse peels one group off the front, as the regrouping loop does. */
  lemma ParseGroupsCons(digits: string, w: nat, base: nat)
    requires w > 0 && base >= 2 && Pow(base, w) <= 256 && AllDigits(digits, base) && |digits| > 0
    ensures AllDigits(digits[..Min(w, |digits|)], base) && AllDigits(digits[Min(w, |digits|)..], base)
    ensures ParseGroups(digits, w, base) ==
      [ValueOf(digits[..Min(w, |digits|)], base)] + ParseGroups(digits[Min(w, |digits|)..], w, base)
  {
    var n := Min(w, |digits|);
    var groups := Chunks(digits, w);
    assert groups == [digits[..n]] + Chunks(digits[n..], w);
    assert groups[1..] == Chunks(digits[n..], w);
    ChunksParse(digits, w, base);
  }

  /** Only digit values matter: strings whose digits have equal values parse alike. */
  lemma {:induction false} ParseGroupsSameDigits(a: string, b: string, w: nat, base: nat)
    requires w > 0 && base >= 2 && Pow(base, w) <= 256
    requires AllDigits(a, base) && AllDigits(b, base) && |a| == |b|
    requires forall i :: 0 <= i < |a| ==> DigitValue(a[i]) == DigitValue(b[i])
    ensures ParseGroups(a, w, base) == ParseGroups(b, w, base)
    decreases |a|
  {
    if |a| > 0 {
      var n := Min(w, |a|);
      ParseGroupsCons(a, w, base);
      ParseGroupsCons(b, w, base);
      ValueOfSameDigits(a[..n], b[..n], base);
      ParseGroupsSameDigits(a[n..], b[n..], w, base);
    }
  }
}
