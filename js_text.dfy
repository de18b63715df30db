/**
 * JavaScript strings as the key sanitiser sees them: sequences of UTF-16
 * code units. A regular expression without the `u` flag matches one code
 * unit at a time, so a character outside the Basic Multilingual Plane is two
 * units (a surrogate pair) to it. Dafny's `char` is a Unicode scalar value,
 * so `Utf16` translates Dafny string literals into this representation.
 */
module JsText {

  /** One UTF-16 code unit, the element type of a JavaScript string. */
  newtype CodeUnit = x: int | 0 <= x < 0x1_0000

  /** A JavaScript string value. */
  type JsString = seq<CodeUnit>

  predicate IsHighSurrogate(u: CodeUnit) { 0xD800 <= u <= 0xDBFF }

  predicate IsLowSurrogate(u: CodeUnit) { 0xDC00 <= u <= 0xDFFF }

  predicate IsSurrogate(u: CodeUnit) { IsHighSurrogate(u) || IsLowSurrogate(u) }

  /**
   * The UTF-16 encoding of one character: a single unit inside the Basic
   * Multilingual Plane, a high/low surrogate pair above it. The last
   * ensures is the decoding formula, so the pair determines the character.
   */
  function EncodeChar(c: char): (r: JsString)
    ensures |r| == 1 <==> c as int < 0x1_0000
    ensures |r| == 1 || |r| == 2
    ensures |r| == 1 ==> r[0] as int == c as int && !IsSurrogate(r[0])
    ensures |r| == 2 ==>
              IsHighSurrogate(r[0]) && IsLowSurrogate(r[1]) &&
              c as int == 0x1_0000 + (r[0] as int - 0xD800) * 0x400 + (r[1] as int - 0xDC00)
  {
    if c as int < 0x1_0000 then
      [c as int as CodeUnit]
    else
      var v := c as int - 0x1_0000;
      [(0xD800 + v / 0x400) as CodeUnit, (0xDC00 + v % 0x400) as CodeUnit]
  }

  /** No two characters share an encoding. */
  lemma EncodeCharInjective(c: char, d: char)
    requires EncodeChar(c) == EncodeChar(d)
    ensures c == d
  {
    var e := EncodeChar(c);
    if |e| == 2 {
      assert c as int == 0x1_0000 + (e[0] as int - 0xD800) * 0x400 + (e[1] as int - 0xDC00);
    }
  }

  predicate InBasicPlane(s: string) {
    forall i :: 0 <= i < |s| ==> s[i] as int < 0x1_0000
  }

  /** The JavaScript string a Dafny string denotes. */
  function Utf16(s: string): (r: JsString)
    ensures |r| >= |s|
    ensures InBasicPlane(s) ==> |r| == |s| && forall i :: 0 <= i < |s| ==> r[i] as int == s[i] as int
  {
    if s == [] then [] else EncodeChar(s[0]) + Utf16(s[1..])
  }

  /** Encoding distributes over concatenation. */
  lemma {:induction false} Utf16Append(a: string, b: string)
    ensures Utf16(a + b) == Utf16(a) + Utf16(b)
  {
    if a == [] {
      assert a + b == b;
    } else {
      assert (a + b)[0] == a[0];
      assert (a + b)[1..] == a[1..] + b;
      Utf16Append(a[1..], b);
    }
  }

  /** Distinct Dafny strings denote distinct JavaScript strings. */
  lemma {:induction false} Utf16Injective(a: string, b: string)
    requires Utf16(a) == Utf16(b)
    ensures a == b
  {
    if a != [] && b != [] {
      var ea, eb := EncodeChar(a[0]), EncodeChar(b[0]);
      var u := Utf16(a);
      assert u == ea + Utf16(a[1..]) && u == eb + Utf16(b[1..]);
      assert u[0] == ea[0] == eb[0];
      // The first unit tells a single unit from a surrogate pair.
      assert |ea| == |eb|;
      assert ea == u[..|ea|] && eb == u[..|eb|];
      EncodeCharInjective(a[0], b[0]);
      assert Utf16(a[1..]) == u[|ea|..] == Utf16(b[1..]);
      Utf16Injective(a[1..], b[1..]);
    }
  }
}
