/** Well-formed UTF-8 by the byte table of section 4 of RFC 3629, and the encoding of section 3. */
module Utf8 {
  import opened Bytes

  predicate Tail(s: seq<byte>, k: nat) {
    k < |s| && 0x80 <= s[k] <= 0xBF
  }

  predicate InRange(s: seq<byte>, k: nat, low: byte, high: byte) {
    k < |s| && low <= s[k] <= high
  }

  /** The length of the character that `s` begins with, zero when it begins with none. */
  function CharacterLength(s: seq<byte>): (n: nat)
    requires s != []
    ensures n <= |s|
  {
    if s[0] <= 0x7F then 1
    else if 0xC2 <= s[0] <= 0xDF then (if Tail(s, 1) then 2 else 0)
    else if 0xE0 <= s[0] <= 0xEF then
      (if (if s[0] == 0xE0 then InRange(s, 1, 0xA0, 0xBF)
           else if s[0] == 0xED then InRange(s, 1, 0x80, 0x9F)
           else Tail(s, 1)) && Tail(s, 2)
       then 3 else 0)
    else if 0xF0 <= s[0] <= 0xF4 then
      (if (if s[0] == 0xF0 then InRange(s, 1, 0x90, 0xBF)
           else if s[0] == 0xF4 then InRange(s, 1, 0x80, 0x8F)
           else Tail(s, 1)) && Tail(s, 2) && Tail(s, 3)
       then 4 else 0)
    else 0
  }

  predicate ValidUtf8(s: seq<byte>) {
    s == [] || (CharacterLength(s) > 0 && ValidUtf8(s[CharacterLength(s)..]))
  }

  /** `t` is `s` with some single-byte characters exchanged for others. */
  ghost predicate SameShape(s: seq<byte>, t: seq<byte>) {
    && |s| == |t|
    && forall k :: 0 <= k < |s| ==> s[k] == t[k] || (s[k] <= 0x7F && t[k] <= 0x7F)
  }

  lemma SameCharacterLength(s: seq<byte>, t: seq<byte>)
    requires SameShape(s, t) && s != []
    ensures CharacterLength(s) == CharacterLength(t)
  {
    assert s[0] == t[0] || (s[0] <= 0x7F && t[0] <= 0x7F);
    assert |s| > 1 ==> s[1] == t[1] || (s[1] <= 0x7F && t[1] <= 0x7F);
    assert |s| > 2 ==> s[2] == t[2] || (s[2] <= 0x7F && t[2] <= 0x7F);
    assert |s| > 3 ==> s[3] == t[3] || (s[3] <= 0x7F && t[3] <= 0x7F);
  }

  lemma {:induction false} SameShapeSameValidity(s: seq<byte>, t: seq<byte>)
    requires SameShape(s, t)
    ensures ValidUtf8(s) <==> ValidUtf8(t)
  {
    if s != [] {
      SameCharacterLength(s, t);
      var n := CharacterLength(s);
      if n > 0 {
        SameShapeSameValidity(s[n..], t[n..]);
      }
    }
  }

  // ---------- Encoding ----------

  /** The bytes of a character, by section 3 of RFC 3629: its bits in groups of six behind the leading ones. */
  function Encode(c: char): (bytes: seq<byte>)
    ensures 1 <= |bytes| <= 4
  {
    var n := c as int;
    if n < 0x80 then [n as byte]
    else if n < 0x800 then [(0xC0 + n / 0x40) as byte, Continuation(n)]
    else if n < 0x10000 then [(0xE0 + n / 0x1000) as byte, Continuation(n / 0x40), Continuation(n)]
    else [(0xF0 + n / 0x40000) as byte, Continuation(n / 0x1000), Continuation(n / 0x40), Continuation(n)]
  }

  function Continuation(n: nat): byte {
    (0x80 + n % 0x40) as byte
  }

  function Encoded(text: string): seq<byte> {
    if text == "" then [] else Encode(text[0]) + Encoded(text[1..])
  }

  lemma {:induction false} EncodedConcat(a: string, b: string)
    ensures Encoded(a + b) == Encoded(a) + Encoded(b)
  {
    if a == "" {
      assert a + b == b;
    } else {
      assert (a + b)[1..] == a[1..] + b;
      EncodedConcat(a[1..], b);
      assert Encode(a[0]) + (Encoded(a[1..]) + Encoded(b)) == Encode(a[0]) + Encoded(a[1..]) + Encoded(b);
    }
  }

  /** Every character, with whatever behind it, is one that the table reads. */
  lemma EncodeIsRead(c: char, rest: seq<byte>)
    ensures CharacterLength(Encode(c) + rest) == |Encode(c)|
  {
  }

  lemma TwoBytes(a: byte, b: byte) returns (c: char)
    requires 0xC2 <= a <= 0xDF && 0x80 <= b <= 0xBF
    ensures Encode(c) == [a, b]
  {
    var x, y := a as int - 0xC0, b as int - 0x80;
    assert (x * 0x40 + y) / 0x40 == x && (x * 0x40 + y) % 0x40 == y;
    c := (x * 0x40 + y) as char;
  }

  lemma ThreeDigits(x: nat, y: nat, z: nat)
    requires y < 0x40 && z < 0x40
    ensures var n := x * 0x1000 + y * 0x40 + z;
      n / 0x1000 == x && n / 0x40 % 0x40 == y && n % 0x40 == z
  {
    var n := x * 0x1000 + y * 0x40 + z;
    assert n / 0x40 == x * 0x40 + y;
  }

  lemma ThreeBytes(a: byte, b: byte, d: byte) returns (c: char)
    requires 0xE0 <= a <= 0xEF && 0x80 <= b <= 0xBF && 0x80 <= d <= 0xBF
    requires (a == 0xE0 ==> 0xA0 <= b) && (a == 0xED ==> b <= 0x9F)
    ensures Encode(c) == [a, b, d]
  {
    var x, y, z := a as int - 0xE0, b as int - 0x80, d as int - 0x80;
    ThreeDigits(x, y, z);
    c := (x * 0x1000 + y * 0x40 + z) as char;
  }

  lemma FourDigits(w: nat, x: nat, y: nat, z: nat)
    requires x < 0x40 && y < 0x40 && z < 0x40
    ensures var n := w * 0x40000 + x * 0x1000 + y * 0x40 + z;
      n / 0x40000 == w && n / 0x1000 % 0x40 == x && n / 0x40 % 0x40 == y && n % 0x40 == z
  {
    var n := w * 0x40000 + x * 0x1000 + y * 0x40 + z;
    assert n / 0x40 == w * 0x1000 + x * 0x40 + y;
    assert n / 0x1000 == w * 0x40 + x;
  }

  lemma FourBytes(a: byte, b: byte, d: byte, e: byte) returns (c: char)
    requires 0xF0 <= a <= 0xF4 && 0x80 <= b <= 0xBF && 0x80 <= d <= 0xBF && 0x80 <= e <= 0xBF
    requires (a == 0xF0 ==> 0x90 <= b) && (a == 0xF4 ==> b <= 0x8F)
    ensures Encode(c) == [a, b, d, e]
  {
    var w, x, y, z := a as int - 0xF0, b as int - 0x80, d as int - 0x80, e as int - 0x80;
    FourDigits(w, x, y, z);
    c := (w * 0x40000 + x * 0x1000 + y * 0x40 + z) as char;
  }

  /** What the table reads is the encoding of a character. */
  lemma ReadIsEncoded(s: seq<byte>) returns (c: char)
    requires s != [] && CharacterLength(s) > 0
    ensures Encode(c) == s[..CharacterLength(s)]
  {
    var n := CharacterLength(s);
    if n == 1 {
      c := s[0] as char;
      assert s[..1] == [s[0]];
    } else if n == 2 {
      c := TwoBytes(s[0], s[1]);
      assert s[..2] == [s[0], s[1]];
    } else if n == 3 {
      c := ThreeBytes(s[0], s[1], s[2]);
      assert s[..3] == [s[0], s[1], s[2]];
    } else {
      c := FourBytes(s[0], s[1], s[2], s[3]);
      assert s[..4] == [s[0], s[1], s[2], s[3]];
    }
  }

  lemma {:induction false} EncodedIsValid(text: string)
    ensures ValidUtf8(Encoded(text))
  {
    if text != "" {
      EncodeIsRead(text[0], Encoded(text[1..]));
      EncodedIsValid(text[1..]);
      assert Encoded(text)[|Encode(text[0])|..] == Encoded(text[1..]);
    }
  }

  lemma {:induction false} ValidIsEncoded(s: seq<byte>) returns (text: string)
    requires ValidUtf8(s)
    ensures Encoded(text) == s
  {
    if s == [] {
      text := "";
    } else {
      var n := CharacterLength(s);
      var c := ReadIsEncoded(s);
      var rest := ValidIsEncoded(s[n..]);
      text := [c] + rest;
      assert text[0] == c && text[1..] == rest;
      assert s == s[..n] + s[n..];
    }
  }

  /** The table admits exactly the encodings of texts. */
  lemma ValidExactly(s: seq<byte>)
    ensures ValidUtf8(s) <==> exists text: string :: Encoded(text) == s
  {
    if ValidUtf8(s) {
      var text := ValidIsEncoded(s);
    }
    if text: string :| Encoded(text) == s {
      EncodedIsValid(text);
    }
  }
}
