/** UTF-8 as the environment's text getter sees it: the byte-string grammar of
    section 4 of RFC 3629, the encoding of Unicode scalar values into it, the
    decoding back, and a validator shaped like the standard library's
    table-driven check (width by lead byte, then a range for the second byte,
    then continuation bytes).

    A Rust `String` is modelled as a Dafny `string`, i.e. a sequence of
    Unicode scalar values; its bytes are `Encode` of it. */
module Utf8 {
  import opened Wrappers

  /** One byte of an OS string. */
  newtype uint8 = b: int | 0 <= b < 0x100

  /** A Unicode scalar value: any code point except the surrogates. */
  predicate IsScalarValue(n: int) {
    0 <= n < 0xD800 || 0xE000 <= n < 0x11_0000
  }

  // ---------------------------------------------------------------------------
  // The grammar of section 4 of RFC 3629
  // ---------------------------------------------------------------------------

  /** UTF8-tail = %x80-BF */
  predicate IsTail(b: uint8) {
    0x80 <= b <= 0xBF
  }

  /** UTF8-3 = %xE0 %xA0-BF UTF8-tail / %xE1-EC 2( UTF8-tail ) /
                %xED %x80-9F UTF8-tail / %xEE-EF 2( UTF8-tail ) */
  predicate IsUtf8Char3(c: seq<uint8>)
    requires |c| == 3
  {
    || (c[0] == 0xE0 && 0xA0 <= c[1] <= 0xBF && IsTail(c[2]))
    || (0xE1 <= c[0] <= 0xEC && IsTail(c[1]) && IsTail(c[2]))
    || (c[0] == 0xED && 0x80 <= c[1] <= 0x9F && IsTail(c[2]))
    || (0xEE <= c[0] <= 0xEF && IsTail(c[1]) && IsTail(c[2]))
  }

  /** UTF8-4 = %xF0 %x90-BF 2( UTF8-tail ) / %xF1-F3 3( UTF8-tail ) /
                %xF4 %x80-8F 2( UTF8-tail ) */
  predicate IsUtf8Char4(c: seq<uint8>)
    requires |c| == 4
  {
    || (c[0] == 0xF0 && 0x90 <= c[1] <= 0xBF && IsTail(c[2]) && IsTail(c[3]))
    || (0xF1 <= c[0] <= 0xF3 && IsTail(c[1]) && IsTail(c[2]) && IsTail(c[3]))
    || (c[0] == 0xF4 && 0x80 <= c[1] <= 0x8F && IsTail(c[2]) && IsTail(c[3]))
  }

  /** UTF8-char = UTF8-1 / UTF8-2 / UTF8-3 / UTF8-4, where
      UTF8-1 = %x00-7F and UTF8-2 = %xC2-DF UTF8-tail. */
  predicate IsUtf8Char(c: seq<uint8>) {
    || (|c| == 1 && c[0] <= 0x7F)
    || (|c| == 2 && 0xC2 <= c[0] <= 0xDF && IsTail(c[1]))
    || (|c| == 3 && IsUtf8Char3(c))
    || (|c| == 4 && IsUtf8Char4(c))
  }

  /** UTF8-octets = *( UTF8-char ): `s` splits into grammar characters. The
      split point is left open here; `CharWidthOfUtf8Char` shows it is unique
      and `ValidUtf8Step` that the lead byte decides it. */
  predicate ValidUtf8(s: seq<uint8>)
    decreases |s|
  {
    || |s| == 0
    || (|s| >= 1 && IsUtf8Char(s[..1]) && ValidUtf8(s[1..]))
    || (|s| >= 2 && IsUtf8Char(s[..2]) && ValidUtf8(s[2..]))
    || (|s| >= 3 && IsUtf8Char(s[..3]) && ValidUtf8(s[3..]))
    || (|s| >= 4 && IsUtf8Char(s[..4]) && ValidUtf8(s[4..]))
  }

  // ---------------------------------------------------------------------------
  // Scalar values <-> byte sequences
  // ---------------------------------------------------------------------------

  /** How many bytes the UTF-8 form of code point `n` takes. */
  function EncodedWidth(n: int): nat {
    if n < 0x80 then 1
    else if n < 0x800 then 2
    else if n < 0x1_0000 then 3
    else 4
  }

  /** Splitting off the low six bits of `q * 64 + r` gives `q` and `r` back. */
  lemma DivMod64(q: int, r: int)
    requires 0 <= r < 0x40
    ensures (q * 0x40 + r) / 0x40 == q
    ensures (q * 0x40 + r) % 0x40 == r
  {
  }

  /** The two-byte form of a code point in 0x80-0x7FF. */
  function EncodeChar2(n: int): (c: seq<uint8>)
    requires 0x80 <= n < 0x800
    ensures |c| == 2 && 0xC2 <= c[0] <= 0xDF && IsTail(c[1])
  {
    [(0xC0 + n / 0x40) as uint8, (0x80 + n % 0x40) as uint8]
  }

  /** The three-byte form of a scalar value in 0x800-0xFFFF. */
  function EncodeChar3(n: int): (c: seq<uint8>)
    requires 0x800 <= n < 0x1_0000 && IsScalarValue(n)
    ensures |c| == 3 && IsUtf8Char3(c)
  {
    var q := n / 0x40;
    [(0xE0 + q / 0x40) as uint8, (0x80 + q % 0x40) as uint8, (0x80 + n % 0x40) as uint8]
  }

  /** The four-byte form of a scalar value in 0x10000-0x10FFFF. */
  function EncodeChar4(n: int): (c: seq<uint8>)
    requires 0x1_0000 <= n < 0x11_0000
    ensures |c| == 4 && IsUtf8Char4(c)
  {
    var q := n / 0x40;
    var p := q / 0x40;
    [(0xF0 + p / 0x40) as uint8, (0x80 + p % 0x40) as uint8,
     (0x80 + q % 0x40) as uint8, (0x80 + n % 0x40) as uint8]
  }

  /** The UTF-8 form of one scalar value. */
  function EncodeChar(ch: char): (c: seq<uint8>)
    ensures IsUtf8Char(c)
    ensures |c| == EncodedWidth(ch as int)
  {
    var n := ch as int;
    if n < 0x80 then [n as uint8]
    else if n < 0x800 then EncodeChar2(n)
    else if n < 0x1_0000 then EncodeChar3(n)
    else EncodeChar4(n)
  }

  /** The code point a three-byte grammar character stands for. */
  function CodePoint3(c: seq<uint8>): (n: int)
    requires |c| == 3 && IsUtf8Char3(c)
    ensures 0x800 <= n < 0x1_0000 && IsScalarValue(n)
  {
    ((c[0] as int - 0xE0) * 0x40 + (c[1] as int - 0x80)) * 0x40 + (c[2] as int - 0x80)
  }

  /** The code point a four-byte grammar character stands for. */
  function CodePoint4(c: seq<uint8>): (n: int)
    requires |c| == 4 && IsUtf8Char4(c)
    ensures 0x1_0000 <= n < 0x11_0000
  {
    (((c[0] as int - 0xF0) * 0x40 + (c[1] as int - 0x80)) * 0x40
     + (c[2] as int - 0x80)) * 0x40 + (c[3] as int - 0x80)
  }

  /** The code point a grammar character stands for. The grammar's excluded
      ranges are exactly what makes the result a scalar value whose shortest
      encoding has the character's length (no overlong forms). */
  function CodePoint(c: seq<uint8>): (n: int)
    requires IsUtf8Char(c)
    ensures IsScalarValue(n)
    ensures EncodedWidth(n) == |c|
  {
    if |c| == 1 then c[0] as int
    else if |c| == 2 then (c[0] as int - 0xC0) * 0x40 + (c[1] as int - 0x80)
    else if |c| == 3 then CodePoint3(c)
    else CodePoint4(c)
  }

  /** Decoding one encoded scalar value gives it back. */
  lemma CodePointOfEncodeChar(ch: char)
    ensures CodePoint(EncodeChar(ch)) == ch as int
  {
  }

  /** Encoding the code point of a three-byte character gives it back. */
  lemma EncodeChar3OfCodePoint3(c: seq<uint8>)
    requires |c| == 3 && IsUtf8Char3(c)
    ensures EncodeChar3(CodePoint3(c)) == c
  {
    var p := (c[0] as int - 0xE0) * 0x40 + (c[1] as int - 0x80);
    DivMod64(p, c[2] as int - 0x80);
    DivMod64(c[0] as int - 0xE0, c[1] as int - 0x80);
  }

  /** Encoding the code point of a four-byte character gives it back. */
  lemma EncodeChar4OfCodePoint4(c: seq<uint8>)
    requires |c| == 4 && IsUtf8Char4(c)
    ensures EncodeChar4(CodePoint4(c)) == c
  {
    var p := (c[0] as int - 0xF0) * 0x40 + (c[1] as int - 0x80);
    var q := p * 0x40 + (c[2] as int - 0x80);
    DivMod64(q, c[3] as int - 0x80);
    DivMod64(p, c[2] as int - 0x80);
    DivMod64(c[0] as int - 0xF0, c[1] as int - 0x80);
  }

  /** Encoding the code point of a grammar character gives the character back. */
  lemma EncodeCharOfCodePoint(c: seq<uint8>)
    requires IsUtf8Char(c)
    ensures EncodeChar(CodePoint(c) as char) == c
  {
    if |c| == 2 {
      DivMod64(c[0] as int - 0xC0, c[1] as int - 0x80);
    } else if |c| == 3 {
      EncodeChar3OfCodePoint3(c);
    } else if |c| == 4 {
      EncodeChar4OfCodePoint4(c);
    }
  }

  /** The UTF-8 form of a string: its characters' forms, concatenated. */
  function Encode(t: string): seq<uint8>
  {
    if |t| == 0 then [] else EncodeChar(t[0]) + Encode(t[1..])
  }

  /** The form of a string that starts with `ch` starts with the form of `ch`. */
  lemma EncodeCons(ch: char, rest: string)
    ensures Encode([ch] + rest) == EncodeChar(ch) + Encode(rest)
  {
  }

  // ---------------------------------------------------------------------------
  // Deterministic reading: the lead byte fixes the width
  // ---------------------------------------------------------------------------

  /** The character width announced by a lead byte (0 for a byte that cannot
      start a character: a continuation byte, 0xC0, 0xC1 or 0xF5-0xFF). */
  function CharWidth(lead: uint8): nat {
    if lead <= 0x7F then 1
    else if 0xC2 <= lead <= 0xDF then 2
    else if 0xE0 <= lead <= 0xEF then 3
    else if 0xF0 <= lead <= 0xF4 then 4
    else 0
  }

  /** The grammar is prefix-free: a character's length is the one its lead
      byte announces. */
  lemma CharWidthOfUtf8Char(c: seq<uint8>)
    requires IsUtf8Char(c)
    ensures |c| == CharWidth(c[0])
  {
  }

  /** `s` is valid exactly when the character its lead byte announces is a
      grammar character and the rest is valid: the open split point of
      `ValidUtf8` is always the announced width. */
  lemma ValidUtf8Step(s: seq<uint8>)
    requires |s| > 0
    ensures ValidUtf8(s) <==>
              var w := CharWidth(s[0]);
              0 < w <= |s| && IsUtf8Char(s[..w]) && ValidUtf8(s[w..])
  {
  }

  /** Reads `s` as text, or `None` when it is not valid UTF-8 (the model of
      Rust's `OsStr::to_str` on a Unix byte string). */
  function Decode(s: seq<uint8>): (r: Option<string>)
    ensures r.Some? <==> ValidUtf8(s)
    ensures r.Some? ==> Encode(r.value) == s
    decreases |s|
  {
    if |s| == 0 then
      Some([])
    else
      ValidUtf8Step(s);
      var w := CharWidth(s[0]);
      if w == 0 || |s| < w || !IsUtf8Char(s[..w]) then
        None
      else
        match Decode(s[w..])
        case None => None
        case Some(rest) =>
          var c := s[..w];
          EncodeCharOfCodePoint(c);
          EncodeCons(CodePoint(c) as char, rest);
          assert s == c + s[w..];
          Some([CodePoint(c) as char] + rest)
  }

  /** Decoding an encoded string gives it back. */
  lemma {:induction false} DecodeEncode(t: string)
    ensures Decode(Encode(t)) == Some(t)
  {
    if |t| > 0 {
      var c := EncodeChar(t[0]);
      var s := Encode(t);
      assert s == c + Encode(t[1..]);
      CharWidthOfUtf8Char(c);
      assert s[0] == c[0];
      assert s[..|c|] == c;
      assert s[|c|..] == Encode(t[1..]);
      CodePointOfEncodeChar(t[0]);
      DecodeEncode(t[1..]);
      assert [t[0]] + t[1..] == t;
    }
  }

  /** Different strings have different encodings. */
  lemma EncodeInjective(t1: string, t2: string)
    ensures Encode(t1) == Encode(t2) ==> t1 == t2
  {
    DecodeEncode(t1);
    DecodeEncode(t2);
  }

  /** The grammar accepts exactly the encodings of strings. */
  lemma ValidUtf8IffEncoding(s: seq<uint8>)
    ensures ValidUtf8(s) <==> exists t :: Encode(t) == s
  {
    if ValidUtf8(s) {
      assert Encode(Decode(s).value) == s;
    }
    forall t | Encode(t) == s
      ensures ValidUtf8(s)
    {
      DecodeEncode(t);
    }
  }

  // ---------------------------------------------------------------------------
  // The table-driven validator
  // ---------------------------------------------------------------------------

  /** Whether `second` may follow lead byte `first` of a three- or four-byte
      character, as the validator's per-lead match arms say. */
  predicate SecondByteAllowed(first: uint8, second: uint8) {
    match CharWidth(first)
    case 3 =>
      || (first == 0xE0 && 0xA0 <= second <= 0xBF)
      || (0xE1 <= first <= 0xEC && 0x80 <= second <= 0xBF)
      || (first == 0xED && 0x80 <= second <= 0x9F)
      || (0xEE <= first <= 0xEF && 0x80 <= second <= 0xBF)
    case 4 =>
      || (first == 0xF0 && 0x90 <= second <= 0xBF)
      || (0xF1 <= first <= 0xF3 && 0x80 <= second <= 0xBF)
      || (first == 0xF4 && 0x80 <= second <= 0x8F)
    case _ => IsTail(second)
  }

  /** For a byte string as long as its lead byte announces, the validator's
      byte-by-byte checks accept exactly the grammar characters. */
  lemma ValidatorChecksMatchGrammar(c: seq<uint8>)
    requires 0 < |c| == CharWidth(c[0])
    ensures IsUtf8Char(c) <==>
              && (|c| < 2 || SecondByteAllowed(c[0], c[1]))
              && (|c| < 3 || IsTail(c[2]))
              && (|c| < 4 || IsTail(c[3]))
  {
  }

  /** Scans `v` left to right, one character per step, and stops at the first
      byte that cannot continue a valid character. */
  method Validate(v: seq<uint8>) returns (ok: bool)
    ensures ok <==> ValidUtf8(v)
    ensures ok <==> Decode(v).Some?
  {
    var i := 0;
    while i < |v|
      invariant 0 <= i <= |v|
      invariant ValidUtf8(v) <==> ValidUtf8(v[i..])
    {
      ValidUtf8Step(v[i..]);
      var w := CharWidth(v[i]);
      if w == 0 || |v| - i < w {
        return false;
      }
      var c := v[i..i + w];
      assert v[i..][..w] == c;
      ValidatorChecksMatchGrammar(c);
      if w >= 2 && !SecondByteAllowed(c[0], c[1]) {
        return false;
      }
      if w >= 3 && !IsTail(c[2]) {
        return false;
      }
      if w == 4 && !IsTail(c[3]) {
        return false;
      }
      assert v[i..][w..] == v[i + w..];
      i := i + w;
    }
    return true;
  }
}
