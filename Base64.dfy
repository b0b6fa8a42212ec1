/**
 * The browser's `btoa` and `atob`, which the compact grid codec applies to
 * the grid's flattened text.
 *
 * `btoa` reads each character as one byte (it throws for a code unit
 * above 255) and writes the base64 encoding of RFC 4648, section 4:
 * every three bytes become four characters of the 64-character alphabet,
 * and a final group of one or two bytes is padded with `=`.
 *
 * `atob` is the "forgiving-base64 decode" of the WHATWG HTML standard:
 * ASCII white space is dropped, one or two trailing `=` are dropped when
 * the length is a multiple of four, a length of 1 modulo 4 or any
 * character outside the alphabet makes it throw, and the bits left over
 * at the end are discarded.
 */
module Base64 {
  import opened JsText

  predicate IsBase64Char(c: char) {
    ('A' <= c <= 'Z') || ('a' <= c <= 'z') || ('0' <= c <= '9') || c == '+' || c == '/'
  }

  predicate AllBase64(t: string) {
    forall i :: 0 <= i < |t| ==> IsBase64Char(t[i])
  }

  /** Every code unit fits in one byte, as `btoa` demands. */
  predicate IsLatin1(s: string) {
    forall i :: 0 <= i < |s| ==> (s[i] as int) < 256
  }

  /** The position of a character in the alphabet `A-Z a-z 0-9 + /`. */
  function SextetValue(c: char): (v: nat)
    requires IsBase64Char(c)
    ensures v < 64
  {
    if 'A' <= c <= 'Z' then (c as int) - ('A' as int)
    else if 'a' <= c <= 'z' then (c as int) - ('a' as int) + 26
    else if '0' <= c <= '9' then (c as int) - ('0' as int) + 52
    else if c == '+' then 62
    else 63
  }

  /** The character at position `v` of the alphabet. */
  function SextetChar(v: nat): (c: char)
    requires v < 64
    ensures IsBase64Char(c) && SextetValue(c) == v
  {
    if v < 26 then (('A' as int) + v) as char
    else if v < 52 then (('a' as int) + v - 26) as char
    else if v < 62 then (('0' as int) + v - 52) as char
    else if v == 62 then '+'
    else '/'
  }

  function ByteOf(c: char): nat { c as int }

  function ByteChar(b: nat): (c: char)
    requires b < 256
    ensures ByteOf(c) == b
  {
    b as char
  }

  // The four sextets of a group of three bytes, and back.
  function Sextet0(b0: nat): (v: nat) requires b0 < 256 ensures v < 64 { b0 / 4 }
  function Sextet1(b0: nat, b1: nat): (v: nat) requires b0 < 256 && b1 < 256 ensures v < 64 { (b0 % 4) * 16 + b1 / 16 }
  function Sextet2(b1: nat, b2: nat): (v: nat) requires b1 < 256 && b2 < 256 ensures v < 64 { (b1 % 16) * 4 + b2 / 64 }
  function Sextet3(b2: nat): (v: nat) requires b2 < 256 ensures v < 64 { b2 % 64 }
  function Byte0(v0: nat, v1: nat): (b: nat) requires v0 < 64 && v1 < 64 ensures b < 256 { v0 * 4 + v1 / 16 }
  function Byte1(v1: nat, v2: nat): (b: nat) requires v1 < 64 && v2 < 64 ensures b < 256 { (v1 % 16) * 16 + v2 / 4 }
  function Byte2(v2: nat, v3: nat): (b: nat) requires v2 < 64 && v3 < 64 ensures b < 256 { (v2 % 4) * 64 + v3 }

  predicate AllSextets(vs: seq<nat>) {
    forall i :: 0 <= i < |vs| ==> vs[i] < 64
  }

  /** The number of unpadded base64 characters for `n` bytes. */
  function EncodedLength(n: nat): (len: nat)
    ensures len % 4 != 1 && (len + |Padding(n)|) % 4 == 0
    ensures len == (4 * n + 2) / 3
  {
    if n == 0 then 0 else if n == 1 then 2 else if n == 2 then 3
    else
      var rest := EncodedLength(n - 3);
      ThirdStep(n - 3);
      QuarterStep(rest, |Padding(n)|);
      4 + rest
  }

  /** Three more bytes add four characters: twelve more quarters, four more thirds. */
  lemma ThirdStep(k: nat)
    ensures (4 * (k + 3) + 2) / 3 == (4 * k + 2) / 3 + 4 && (k + 3) % 3 == k % 3
  {
    assert 4 * (k + 3) + 2 == (4 * k + 2) + 4 * 3;
  }

  /** Four more characters leave the count modulo four unchanged. */
  lemma QuarterStep(len: nat, pad: nat)
    ensures (4 + len) % 4 == len % 4 && (4 + len + pad) % 4 == (len + pad) % 4
  {
  }

  /** The sextets of a byte string: four per full group of three bytes,
      then three for a final pair, two for a final byte; the bits that
      complete the last sextet are zero. */
  function Sextets(s: string): (vs: seq<nat>)
    requires IsLatin1(s)
    ensures AllSextets(vs) && |vs| == EncodedLength(|s|)
  {
    if |s| == 0 then []
    else
      var b0 := ByteOf(s[0]);
      if |s| == 1 then [Sextet0(b0), Sextet1(b0, 0)]
      else
        var b1 := ByteOf(s[1]);
        if |s| == 2 then [Sextet0(b0), Sextet1(b0, b1), Sextet2(b1, 0)]
        else
          var b2 := ByteOf(s[2]);
          [Sextet0(b0), Sextet1(b0, b1), Sextet2(b1, b2), Sextet3(b2)] + Sextets(s[3..])
  }

  /** The bytes a run of sextets stands for, leftover bits discarded. */
  function Bytes(vs: seq<nat>): (s: string)
    requires AllSextets(vs) && |vs| % 4 != 1
    ensures IsLatin1(s)
  {
    if |vs| == 0 then ""
    else
      var c0 := ByteChar(Byte0(vs[0], vs[1]));
      if |vs| == 2 then [c0]
      else
        var c1 := ByteChar(Byte1(vs[1], vs[2]));
        if |vs| == 3 then [c0, c1]
        else
          assert |vs[4..]| % 4 == |vs| % 4;
          [c0, c1, ByteChar(Byte2(vs[2], vs[3]))] + Bytes(vs[4..])
  }

  /** The unpadded base64 text of a byte string. */
  function EncodeCore(s: string): (e: string)
    requires IsLatin1(s)
    ensures AllBase64(e) && |e| == EncodedLength(|s|)
  {
    var vs := Sextets(s);
    seq(|vs|, i requires 0 <= i < |vs| => SextetChar(vs[i]))
  }

  /** The `=` characters that complete the last group of four. */
  function Padding(n: nat): string {
    if n % 3 == 1 then "==" else if n % 3 == 2 then "=" else ""
  }

  /** `btoa(s)`, or `None` where `btoa` throws. */
  function Btoa(s: string): (r: Option<string>)
    ensures r.Some? <==> IsLatin1(s)
    ensures r.Some? ==> |r.value| % 4 == 0
  {
    if IsLatin1(s) then Some(EncodeCore(s) + Padding(|s|)) else None
  }

  predicate IsAsciiWhitespace(c: char) {
    c == '\t' || c == '\n' || c == '\U{C}' || c == '\r' || c == ' '
  }

  function RemoveAsciiWhitespace(s: string): (t: string)
    ensures forall i :: 0 <= i < |t| ==> !IsAsciiWhitespace(t[i])
  {
    if s == [] then ""
    else if IsAsciiWhitespace(s[0]) then RemoveAsciiWhitespace(s[1..])
    else [s[0]] + RemoveAsciiWhitespace(s[1..])
  }

  /** Drops one or two final `=` when the length is a multiple of four. */
  function StripPadding(t: string): string {
    if |t| % 4 == 0 && |t| >= 2 && t[|t| - 2] == '=' && t[|t| - 1] == '=' then t[..|t| - 2]
    else if |t| % 4 == 0 && |t| >= 1 && t[|t| - 1] == '=' then t[..|t| - 1]
    else t
  }

  /** The bytes of unpadded base64 text. */
  function DecodeCore(t: string): (s: string)
    requires AllBase64(t) && |t| % 4 != 1
    ensures IsLatin1(s)
  {
    Bytes(seq(|t|, i requires 0 <= i < |t| => SextetValue(t[i])))
  }

  /** `atob(t)`, or `None` where `atob` throws. */
  function Atob(t: string): (r: Option<string>)
    ensures r.Some? ==> IsLatin1(r.value)
  {
    var u := StripPadding(RemoveAsciiWhitespace(t));
    if |u| % 4 == 1 || !AllBase64(u) then None else Some(DecodeCore(u))
  }

  // ---------------------------------------------------------------- round trip

  lemma SplitDigits(a: nat, d: nat, r: nat)
    requires d == 4 || d == 16
    requires r < d
    ensures (a * d + r) / d == a && (a * d + r) % d == r
  {
    if d == 4 {
      assert a * d + r == 4 * a + r;
    } else {
      assert a * d + r == 16 * a + r;
    }
  }

  /** Three bytes survive a trip through four sextets. */
  lemma GroupRoundTrip(b0: nat, b1: nat, b2: nat)
    requires b0 < 256 && b1 < 256 && b2 < 256
    ensures Byte0(Sextet0(b0), Sextet1(b0, b1)) == b0
    ensures Byte1(Sextet1(b0, b1), Sextet2(b1, b2)) == b1
    ensures Byte2(Sextet2(b1, b2), Sextet3(b2)) == b2
  {
    SplitDigits(b0 % 4, 16, b1 / 16);
    SplitDigits(b1 % 16, 4, b2 / 64);
  }

  lemma BytesOfGroup(g: seq<nat>, rest: seq<nat>)
    requires |g| == 4 && AllSextets(g) && AllSextets(rest) && |rest| % 4 != 1
    ensures AllSextets(g + rest)
    ensures Bytes(g + rest)
         == [ByteChar(Byte0(g[0], g[1])), ByteChar(Byte1(g[1], g[2])), ByteChar(Byte2(g[2], g[3]))] + Bytes(rest)
  {
    assert (g + rest)[4..] == rest;
  }

  lemma ByteCharOf(c: char)
    requires ByteOf(c) < 256
    ensures ByteChar(ByteOf(c)) == c
  {
  }

  lemma SextetsOfOneByte(s: string)
    requires IsLatin1(s) && |s| == 1
    ensures Sextets(s) == [Sextet0(ByteOf(s[0])), Sextet1(ByteOf(s[0]), 0)]
  {
  }

  lemma BytesOfTwoSextets(vs: seq<nat>)
    requires AllSextets(vs) && |vs| == 2
    ensures Bytes(vs) == [ByteChar(Byte0(vs[0], vs[1]))]
  {
  }

  lemma BytesOfOneByte(s: string)
    requires IsLatin1(s) && |s| == 1
    ensures Bytes(Sextets(s)) == s
  {
    var b0 := ByteOf(s[0]);
    var vs := [Sextet0(b0), Sextet1(b0, 0)];
    calc {
      Bytes(Sextets(s));
    == { SextetsOfOneByte(s); }
      Bytes(vs);
    == { BytesOfTwoSextets(vs); }
      [ByteChar(Byte0(vs[0], vs[1]))];
    == { GroupRoundTrip(b0, 0, 0); }
      [ByteChar(b0)];
    == { ByteCharOf(s[0]); }
      s;
    }
  }

  lemma BytesOfTwoBytes(s: string)
    requires IsLatin1(s) && |s| == 2
    ensures Bytes(Sextets(s)) == s
  {
    var b0, b1 := ByteOf(s[0]), ByteOf(s[1]);
    var vs := [Sextet0(b0), Sextet1(b0, b1), Sextet2(b1, 0)];
    assert Sextets(s) == vs;
    assert Bytes(vs) == [ByteChar(Byte0(vs[0], vs[1])), ByteChar(Byte1(vs[1], vs[2]))];
    GroupRoundTrip(b0, b1, 0);
    ByteCharOf(s[0]);
    ByteCharOf(s[1]);
  }

  lemma BytesOfFullGroup(s: string)
    requires IsLatin1(s) && |s| >= 3
    ensures Bytes(Sextets(s)) == [s[0], s[1], s[2]] + Bytes(Sextets(s[3..]))
  {
    SextetsOfFullGroup(s);
    BytesOfGroupChars(s[0], s[1], s[2], Sextets(s[3..]));
  }

  /** The sextets of three characters, followed by any others, decode to
      the three characters followed by what the others decode to. */
  lemma BytesOfGroupChars(c0: char, c1: char, c2: char, rest: seq<nat>)
    requires ByteOf(c0) < 256 && ByteOf(c1) < 256 && ByteOf(c2) < 256
    requires AllSextets(rest) && |rest| % 4 != 1
    ensures AllSextets([Sextet0(ByteOf(c0)), Sextet1(ByteOf(c0), ByteOf(c1)),
                        Sextet2(ByteOf(c1), ByteOf(c2)), Sextet3(ByteOf(c2))] + rest)
    ensures Bytes([Sextet0(ByteOf(c0)), Sextet1(ByteOf(c0), ByteOf(c1)),
                   Sextet2(ByteOf(c1), ByteOf(c2)), Sextet3(ByteOf(c2))] + rest)
         == [c0, c1, c2] + Bytes(rest)
  {
    var b0, b1, b2 := ByteOf(c0), ByteOf(c1), ByteOf(c2);
    var g := [Sextet0(b0), Sextet1(b0, b1), Sextet2(b1, b2), Sextet3(b2)];
    BytesOfGroup(g, rest);
    GroupChars(c0, c1, c2);
  }

  lemma SextetsOfFullGroup(s: string)
    requires IsLatin1(s) && |s| >= 3
    ensures Sextets(s)
         == [Sextet0(ByteOf(s[0])), Sextet1(ByteOf(s[0]), ByteOf(s[1])),
             Sextet2(ByteOf(s[1]), ByteOf(s[2])), Sextet3(ByteOf(s[2]))] + Sextets(s[3..])
  {
  }

  /** Three Latin-1 characters come back from the sextets of their group. */
  lemma GroupChars(c0: char, c1: char, c2: char)
    requires ByteOf(c0) < 256 && ByteOf(c1) < 256 && ByteOf(c2) < 256
    ensures ByteChar(Byte0(Sextet0(ByteOf(c0)), Sextet1(ByteOf(c0), ByteOf(c1)))) == c0
    ensures ByteChar(Byte1(Sextet1(ByteOf(c0), ByteOf(c1)), Sextet2(ByteOf(c1), ByteOf(c2)))) == c1
    ensures ByteChar(Byte2(Sextet2(ByteOf(c1), ByteOf(c2)), Sextet3(ByteOf(c2)))) == c2
  {
    GroupRoundTrip(ByteOf(c0), ByteOf(c1), ByteOf(c2));
    ByteCharOf(c0);
    ByteCharOf(c1);
    ByteCharOf(c2);
  }

  /** Decoding the sextets of a byte string gives the bytes back. */
  lemma {:induction false} BytesOfSextets(s: string)
    requires IsLatin1(s)
    ensures Bytes(Sextets(s)) == s
    decreases |s|
  {
    if |s| == 1 {
      BytesOfOneByte(s);
    } else if |s| == 2 {
      BytesOfTwoBytes(s);
    } else if |s| >= 3 {
      BytesOfFullGroup(s);
      BytesOfSextets(s[3..]);
      assert s == [s[0], s[1], s[2]] + s[3..];
    }
  }

  lemma DecodeEncodeCore(s: string)
    requires IsLatin1(s)
    ensures DecodeCore(EncodeCore(s)) == s
  {
    var vs := Sextets(s);
    var e := EncodeCore(s);
    assert seq(|e|, i requires 0 <= i < |e| => SextetValue(e[i])) == vs;
    BytesOfSextets(s);
  }

  lemma {:induction false} NoWhitespaceToRemove(t: string)
    requires forall i :: 0 <= i < |t| ==> !IsAsciiWhitespace(t[i])
    ensures RemoveAsciiWhitespace(t) == t
  {
    if t != [] {
      NoWhitespaceToRemove(t[1..]);
    }
  }

  /** `atob` undoes `btoa`: decoding the encoding of a Latin-1 string gives
      the string back. */
  lemma AtobBtoa(s: string)
    requires IsLatin1(s)
    ensures Btoa(s).Some? && Atob(Btoa(s).value) == Some(s)
  {
    var core := EncodeCore(s);
    var e := core + Padding(|s|);
    assert Btoa(s).value == e;
    NoWhitespaceToRemove(e);
    StripPaddingOfEncoding(s);
    DecodeEncodeCore(s);
  }

  /** Dropping the padding of an encoding leaves the unpadded text. */
  lemma StripPaddingOfEncoding(s: string)
    requires IsLatin1(s)
    ensures StripPadding(EncodeCore(s) + Padding(|s|)) == EncodeCore(s)
  {
    var core := EncodeCore(s);
    var e := core + Padding(|s|);
    if |s| % 3 == 0 {
      assert e == core;
      assert |core| > 0 ==> IsBase64Char(core[|core| - 1]);
    } else if |s| % 3 == 1 {
      assert e[..|e| - 2] == core;
    } else {
      assert IsBase64Char(core[|core| - 1]);
      assert e[..|e| - 1] == core;
    }
  }
}
