/** UTF-8: the bytes that are the encoding of a string of Unicode scalar values, recognised byte by byte. */
module Utf8 {
  import opened Base

  // ---------------------------------------------------------------------------------------------
  // Recognition
  // ---------------------------------------------------------------------------------------------

  /** The well-formed code points by their first byte: the range of the second byte and the length. */
  datatype Rows = NoRow | Row(lo: byte, hi: byte, lo2: byte, hi2: byte, len: nat, more: Rows)

  /** The table of well-formed byte sequences of the Unicode standard. */
  const WELL_FORMED :=
    Row(0x00, 0x7f, 0x00, 0x00, 1,
    Row(0xc2, 0xdf, 0x80, 0xbf, 2,
    Row(0xe0, 0xe0, 0xa0, 0xbf, 3,
    Row(0xe1, 0xec, 0x80, 0xbf, 3,
    Row(0xed, 0xed, 0x80, 0x9f, 3,
    Row(0xee, 0xef, 0x80, 0xbf, 3,
    Row(0xf0, 0xf0, 0x90, 0xbf, 4,
    Row(0xf1, 0xf3, 0x80, 0xbf, 4,
    Row(0xf4, 0xf4, 0x80, 0x8f, 4,
    NoRow)))))))))

  /** Byte `i` lies in the range. */
  predicate Between(s: Bytes, i: nat, lo: byte, hi: byte) {
    i < |s| && lo <= s[i] <= hi
  }

  function LenBy(rows: Rows, s: Bytes): (n: nat)
    requires s != []
    ensures n <= |s|
  {
    if rows.NoRow? then 0
    else if !Between(s, 0, rows.lo, rows.hi) then LenBy(rows.more, s)
    else if && |s| >= rows.len
            && (rows.len > 1 ==> Between(s, 1, rows.lo2, rows.hi2))
            && (rows.len > 2 ==> Between(s, 2, 0x80, 0xbf))
            && (rows.len > 3 ==> Between(s, 3, 0x80, 0xbf)) then rows.len
    else 0
  }

  /** The length of the code point at the start of `s`, or 0 if there is none. */
  function CodePointLen(s: Bytes): (n: nat)
    requires s != []
    ensures n <= |s|
  {
    LenBy(WELL_FORMED, s)
  }

  predicate ValidUtf8(s: Bytes) {
    s == [] || (CodePointLen(s) > 0 && ValidUtf8(s[CodePointLen(s)..]))
  }

  // ---------------------------------------------------------------------------------------------
  // Encoding
  // ---------------------------------------------------------------------------------------------

  /** Every code point but the surrogates. */
  predicate IsScalar(c: nat) {
    c <= 0x10_ffff && !(0xd800 <= c <= 0xdfff)
  }

  function Continuation(bits: nat): byte {
    (0x80 + bits % 0x40) as byte
  }

  function EncodeScalar(c: nat): (s: Bytes)
    requires IsScalar(c)
    ensures 1 <= |s| <= 4
  {
    if c < 0x80 then [c as byte]
    else if c < 0x800 then [(0xc0 + c / 0x40) as byte, Continuation(c)]
    else if c < 0x1_0000 then [(0xe0 + c / 0x1000) as byte, Continuation(c / 0x40), Continuation(c)]
    else [(0xf0 + c / 0x4_0000) as byte, Continuation(c / 0x1000), Continuation(c / 0x40), Continuation(c)]
  }

  ghost predicate AllScalars(cs: seq<nat>) {
    forall i :: 0 <= i < |cs| ==> IsScalar(cs[i])
  }

  ghost function EncodeScalars(cs: seq<nat>): Bytes
    requires AllScalars(cs)
  {
    if cs == [] then [] else EncodeScalar(cs[0]) + EncodeScalars(cs[1..])
  }

  // ---------------------------------------------------------------------------------------------
  // Exactly the encodings are recognised
  // ---------------------------------------------------------------------------------------------

  lemma PassesRow(rows: Rows, s: Bytes)
    requires s != [] && rows.Row? && !Between(s, 0, rows.lo, rows.hi)
    ensures LenBy(rows, s) == LenBy(rows.more, s)
  {
  }

  /** The table read by the first byte. */
  lemma CodePointLens(s: Bytes)
    requires s != []
    ensures var a := s[0];
            CodePointLen(s) ==
            if a <= 0x7f then 1
            else if 0xc2 <= a <= 0xdf && Between(s, 1, 0x80, 0xbf) then 2
            else if && 0xe0 <= a <= 0xef && Between(s, 1, 0x80, 0xbf) && Between(s, 2, 0x80, 0xbf)
                    && (a == 0xe0 ==> s[1] >= 0xa0) && (a == 0xed ==> s[1] <= 0x9f) then 3
            else if && 0xf0 <= a <= 0xf4 && Between(s, 1, 0x80, 0xbf) && Between(s, 2, 0x80, 0xbf)
                    && Between(s, 3, 0x80, 0xbf)
                    && (a == 0xf0 ==> s[1] >= 0x90) && (a == 0xf4 ==> s[1] <= 0x8f) then 4
            else 0
  {
    var a, w := s[0], WELL_FORMED;
    if a > 0x7f { PassesRow(w, s); }
    if a > 0x7f && !(0xc2 <= a <= 0xdf) { PassesRow(w.more, s); }
    if a > 0x7f && !(0xc2 <= a <= 0xe0) { PassesRow(w.more.more, s); }
    if a > 0x7f && !(0xc2 <= a <= 0xec) { PassesRow(w.more.more.more, s); }
    if a > 0x7f && !(0xc2 <= a <= 0xed) { PassesRow(w.more.more.more.more, s); }
    if a > 0x7f && !(0xc2 <= a <= 0xef) { PassesRow(w.more.more.more.more.more, s); }
    if a > 0x7f && !(0xc2 <= a <= 0xf0) { PassesRow(w.more.more.more.more.more.more, s); }
    if a > 0x7f && !(0xc2 <= a <= 0xf3) { PassesRow(w.more.more.more.more.more.more.more, s); }
    if a > 0x7f && !(0xc2 <= a <= 0xf4) { PassesRow(w.more.more.more.more.more.more.more.more, s); }
  }

  lemma ScalarIsRecognised(c: nat, rest: Bytes)
    requires IsScalar(c)
    ensures CodePointLen(EncodeScalar(c) + rest) == |EncodeScalar(c)|
  {
    CodePointLens(EncodeScalar(c) + rest);
  }

  function Bits(b: byte): nat {
    b as nat % 0x40
  }

  lemma LastDigit(high: nat, low: nat)
    requires low < 0x40
    ensures (high * 0x40 + low) / 0x40 == high && (high * 0x40 + low) % 0x40 == low
  {
  }

  lemma Digits(a: nat, x: nat, y: nat, z: nat)
    requires x < 0x40 && y < 0x40 && z < 0x40
    ensures var c := a * 0x4_0000 + x * 0x1000 + y * 0x40 + z;
            && c / 0x4_0000 == a && c / 0x1000 % 0x40 == x && c / 0x40 % 0x40 == y && c % 0x40 == z
            && c / 0x1000 == a * 0x40 + x
  {
    var ax := a * 0x40 + x;
    var axy := ax * 0x40 + y;
    var c := axy * 0x40 + z;
    LastDigit(a, x);
    LastDigit(ax, y);
    LastDigit(axy, z);
    assert c / 0x1000 == ax;
    assert c / 0x4_0000 == a;
  }

  lemma TwoBytes(s: Bytes) returns (c: nat)
    requires s != [] && CodePointLen(s) == 2
    ensures IsScalar(c) && EncodeScalar(c) == s[..2]
  {
    CodePointLens(s);
    c := (s[0] as nat - 0xc0) * 0x40 + Bits(s[1]);
    assert s[..2] == [s[0], s[1]];
  }

  lemma ThreeBytes(s: Bytes) returns (c: nat)
    requires s != [] && CodePointLen(s) == 3
    ensures IsScalar(c) && EncodeScalar(c) == s[..3]
  {
    CodePointLens(s);
    var a := s[0] as nat - 0xe0;
    c := a * 0x1000 + Bits(s[1]) * 0x40 + Bits(s[2]);
    Digits(0, a, Bits(s[1]), Bits(s[2]));
    assert s[..3] == [s[0], s[1], s[2]];
  }

  lemma FourBytes(s: Bytes) returns (c: nat)
    requires s != [] && CodePointLen(s) == 4
    ensures IsScalar(c) && EncodeScalar(c) == s[..4]
  {
    CodePointLens(s);
    var a := s[0] as nat - 0xf0;
    c := a * 0x4_0000 + Bits(s[1]) * 0x1000 + Bits(s[2]) * 0x40 + Bits(s[3]);
    Digits(a, Bits(s[1]), Bits(s[2]), Bits(s[3]));
    assert s[..4] == [s[0], s[1], s[2], s[3]];
  }

  /** The scalar value of a recognised code point. */
  lemma RecognisedIsScalar(s: Bytes) returns (c: nat)
    requires s != [] && CodePointLen(s) > 0
    ensures IsScalar(c) && EncodeScalar(c) == s[..CodePointLen(s)]
  {
    var n := CodePointLen(s);
    CodePointLens(s);
    if n == 1 {
      c := s[0] as nat;
    } else if n == 2 {
      c := TwoBytes(s);
    } else if n == 3 {
      c := ThreeBytes(s);
    } else {
      c := FourBytes(s);
    }
  }

  lemma {:induction false} EncodingIsValid(cs: seq<nat>)
    requires AllScalars(cs)
    ensures ValidUtf8(EncodeScalars(cs))
  {
    if cs != [] {
      EncodingIsValid(cs[1..]);
      var first, rest := EncodeScalar(cs[0]), EncodeScalars(cs[1..]);
      ScalarIsRecognised(cs[0], rest);
      assert (first + rest)[|first|..] == rest;
    }
  }

  lemma {:induction false} ValidIsEncoding(s: Bytes) returns (cs: seq<nat>)
    requires ValidUtf8(s)
    ensures AllScalars(cs) && EncodeScalars(cs) == s
  {
    if s == [] {
      cs := [];
    } else {
      var n := CodePointLen(s);
      var c := RecognisedIsScalar(s);
      var rest := ValidIsEncoding(s[n..]);
      cs := [c] + rest;
      assert cs[1..] == rest && s == s[..n] + s[n..];
    }
  }

  /** A byte string is recognised exactly if it is the encoding of a string of scalar values. */
  lemma ValidExactlyTheEncodings(s: Bytes)
    ensures ValidUtf8(s) <==> exists cs :: AllScalars(cs) && EncodeScalars(cs) == s
  {
    if ValidUtf8(s) {
      var cs := ValidIsEncoding(s);
    }
    forall cs | AllScalars(cs) && EncodeScalars(cs) == s ensures ValidUtf8(s) {
      EncodingIsValid(cs);
    }
  }
}
