/** What UTF-8 validity means: a byte string is valid exactly if it encodes a list of Unicode scalar values. */
module Utf8 {
  import opened Prelude
  import opened CborValue

  /** Code points up to U+10FFFF without the surrogates. */
  type Scalar = c: nat | c < 0xD800 || 0xE000 <= c < 0x11_0000

  /** One to four bytes by the size of the scalar: the bit patterns of RFC 3629, section 3. */
  function ScalarBytes(c: Scalar): Bytes {
    if c < 0x80 then [c]
    else if c < 0x800 then [0xC0 + c / 64, 0x80 + c % 64]
    else if c < 0x1_0000 then [0xE0 + c / 4096, 0x80 + c / 64 % 64, 0x80 + c % 64]
    else [0xF0 + c / 262144, 0x80 + c / 4096 % 64, 0x80 + c / 64 % 64, 0x80 + c % 64]
  }

  function TextBytes(cs: seq<Scalar>): Bytes {
    if cs == [] then [] else ScalarBytes(cs[0]) + TextBytes(cs[1..])
  }

  /** A scalar in front of a text keeps it valid or invalid. */
  lemma ScalarValid(c: Scalar, s: Bytes)
    ensures ValidUtf8(ScalarBytes(c) + s) <==> ValidUtf8(s)
  {
    var b, t := ScalarBytes(c), ScalarBytes(c) + s;
    assert t[|b|..] == s;
    if 0x800 <= c < 0x1_0000 {
      ThreeBytes(c);
    } else if c >= 0x1_0000 {
      FourBytes(c);
    }
  }

  lemma ThreeBytes(c: Scalar)
    requires 0x800 <= c < 0x1_0000
    ensures var b := ScalarBytes(c); (b[0] == 0xE0 ==> b[1] >= 0xA0) && (b[0] == 0xED ==> b[1] <= 0x9F)
  {
  }

  lemma FourBytes(c: Scalar)
    requires c >= 0x1_0000
    ensures var b := ScalarBytes(c); b[0] <= 0xF4 && (b[0] == 0xF0 ==> b[1] >= 0x90) && (b[0] == 0xF4 ==> b[1] <= 0x8F)
  {
  }

  lemma {:induction false} TextValid(cs: seq<Scalar>)
    ensures ValidUtf8(TextBytes(cs))
  {
    if cs != [] {
      TextValid(cs[1..]);
      ScalarValid(cs[0], TextBytes(cs[1..]));
    }
  }

  /** A valid text starts with a scalar. */
  lemma FirstScalar(s: Bytes) returns (c: Scalar)
    requires ValidUtf8(s) && s != []
    ensures ScalarBytes(c) <= s
  {
    var a: nat := s[0];
    if a <= 0x7F {
      c := a;
    } else if a <= 0xDF {
      var b: nat := s[1];
      c := 64 * (a - 0xC0) + (b - 0x80);
      assert s[..2] == [a, b];
    } else if a <= 0xEF {
      c := ThreeJoined(s);
    } else {
      c := FourJoined(s);
    }
  }

  /** Base-64 digits are read back. */
  lemma Digits64(x: nat, y: nat, z: nat)
    requires y < 64 && z < 64
    ensures var c := 4096 * x + 64 * y + z; c / 4096 == x && c / 64 % 64 == y && c % 64 == z
  {
    var c := 4096 * x + 64 * y + z;
    assert c / 64 == 64 * x + y;
  }

  lemma ThreeJoined(s: Bytes) returns (c: Scalar)
    requires ValidUtf8(s) && s != [] && 0xE0 <= s[0] <= 0xEF
    ensures ScalarBytes(c) <= s
  {
    hide ValidUtf8;
    ThreeValid(s);
    var x: nat, y: nat, z: nat := s[0] - 0xE0, s[1] - 0x80, s[2] - 0x80;
    c := 4096 * x + 64 * y + z;
    Digits64(x, y, z);
    assert s[..3] == [0xE0 + x, 0x80 + y, 0x80 + z];
  }

  lemma ThreeValid(s: Bytes)
    requires ValidUtf8(s) && s != [] && 0xE0 <= s[0] <= 0xEF
    ensures |s| >= 3 && 0x80 <= s[1] <= 0xBF && 0x80 <= s[2] <= 0xBF
    ensures (s[0] == 0xE0 ==> s[1] >= 0xA0) && (s[0] == 0xED ==> s[1] <= 0x9F)
  {
  }

  lemma FourJoined(s: Bytes) returns (c: Scalar)
    requires ValidUtf8(s) && s != [] && 0xF0 <= s[0]
    ensures ScalarBytes(c) <= s
  {
    hide ValidUtf8;
    FourValid(s);
    var w: nat, x: nat, y: nat, z: nat := s[0] - 0xF0, s[1] - 0x80, s[2] - 0x80, s[3] - 0x80;
    c := 4096 * (64 * w + x) + 64 * y + z;
    Digits64(64 * w + x, y, z);
    assert c / 262144 == w && c / 4096 % 64 == x;
    assert s[..4] == [0xF0 + w, 0x80 + x, 0x80 + y, 0x80 + z];
  }

  lemma FourValid(s: Bytes)
    requires ValidUtf8(s) && s != [] && 0xF0 <= s[0]
    ensures |s| >= 4 && s[0] <= 0xF4
    ensures 0x80 <= s[1] <= 0xBF && 0x80 <= s[2] <= 0xBF && 0x80 <= s[3] <= 0xBF
    ensures (s[0] == 0xF0 ==> s[1] >= 0x90) && (s[0] == 0xF4 ==> s[1] <= 0x8F)
  {
  }

  lemma {:induction false} ValidText(s: Bytes) returns (cs: seq<Scalar>)
    requires ValidUtf8(s)
    ensures TextBytes(cs) == s
    decreases |s|
  {
    if s == [] {
      cs := [];
    } else {
      var c := FirstScalar(s);
      var b := ScalarBytes(c);
      var rest := s[|b|..];
      assert s == b + rest;
      ScalarValid(c, rest);
      var ds := ValidText(rest);
      cs := [c] + ds;
    }
  }

  /** Validity is being the encoding of some list of scalar values. */
  lemma ValidIff(s: Bytes)
    ensures ValidUtf8(s) <==> exists cs :: s == TextBytes(cs)
  {
    if ValidUtf8(s) {
      var cs := ValidText(s);
    }
    if cs :| s == TextBytes(cs) {
      TextValid(cs);
    }
  }
}
