/**
 * The JavaScript string and number built-ins that the grid editor's logic
 * depends on: `trim`, `split`, `join`, `substring`, `split('')`,
 * `parseInt(s, 10)`, `Number.prototype.toString` on integers, and the
 * length limit of `Array(n)`.
 *
 * A JavaScript string is a sequence of UTF-16 code units; here a string is
 * a `seq<char>` of Unicode scalar values, so the two agree on characters of
 * the Basic Multilingual Plane and a character outside it is one `char` here
 * but two code units in JavaScript.
 */
module JsText {

  datatype Option<+T> = None | Some(value: T)

  /** The WhiteSpace and LineTerminator code points of ECMAScript, the set
      that both `String.prototype.trim` and `parseInt` skip. */
  predicate IsJsSpace(c: char) {
    || c == '\t' || c == '\n' || c == '\U{B}' || c == '\U{C}' || c == '\r' || c == ' '
    || c == '\U{A0}' || c == '\U{1680}' || ('\U{2000}' <= c <= '\U{200A}')
    || c == '\U{2028}' || c == '\U{2029}' || c == '\U{202F}' || c == '\U{205F}'
    || c == '\U{3000}' || c == '\U{FEFF}'
  }

  predicate IsDigit(c: char) {
    '0' <= c <= '9'
  }

  // ---------------------------------------------------------------- trim

  /** `s` without its leading white space. */
  function TrimStart(s: string): (t: string)
    ensures |t| <= |s| && t == s[|s| - |t|..]
    ensures t == [] || !IsJsSpace(t[0])
    ensures forall i :: 0 <= i < |s| - |t| ==> IsJsSpace(s[i])
  {
    if s != [] && IsJsSpace(s[0]) then TrimStart(s[1..]) else s
  }

  /** `s` without its trailing white space. */
  function TrimEnd(s: string): (t: string)
    ensures |t| <= |s| && t == s[..|t|]
    ensures t == [] || !IsJsSpace(t[|t| - 1])
    ensures forall i :: |t| <= i < |s| ==> IsJsSpace(s[i])
  {
    if s != [] && IsJsSpace(s[|s| - 1]) then TrimEnd(s[..|s| - 1]) else s
  }

  /** `String.prototype.trim`. */
  function Trim(s: string): string {
    TrimEnd(TrimStart(s))
  }

  /** Trimming a string that starts with a non-space and is followed only by
      white space gives back the string. */
  lemma {:induction false} TrimOfPadded(s: string, tail: string)
    requires s != [] && !IsJsSpace(s[0]) && !IsJsSpace(s[|s| - 1])
    requires forall i :: 0 <= i < |tail| ==> IsJsSpace(tail[i])
    ensures Trim(s + tail) == s
  {
    assert TrimStart(s + tail) == s + tail;
    TrimEndOfPadded(s, tail);
  }

  lemma {:induction false} TrimEndOfPadded(s: string, tail: string)
    requires s != [] && !IsJsSpace(s[|s| - 1])
    requires forall i :: 0 <= i < |tail| ==> IsJsSpace(tail[i])
    ensures TrimEnd(s + tail) == s
    decreases |tail|
  {
    if tail == [] {
      assert s + tail == s;
    } else {
      var shorter := tail[..|tail| - 1];
      assert (s + tail)[..|s + tail| - 1] == s + shorter;
      TrimEndOfPadded(s, shorter);
    }
  }

  // ---------------------------------------------------------------- split and join

  /** Index of the first occurrence of `d` in `s`. */
  function FirstIndex(s: string, d: char): (k: nat)
    requires d in s
    ensures k < |s| && s[k] == d && d !in s[..k]
  {
    if s[0] == d then 0 else
      assert d in s[1..] by { var i :| 0 <= i < |s| && s[i] == d; assert s[1..][i - 1] == d; }
      var k := 1 + FirstIndex(s[1..], d);
      assert s[..k] == [s[0]] + s[1..][..k - 1];
      k
  }

  /** `parts.join(sep)`; the join of no parts is the empty string. */
  function Join(parts: seq<string>, sep: char): string {
    if |parts| == 0 then ""
    else if |parts| == 1 then parts[0]
    else parts[0] + [sep] + Join(parts[1..], sep)
  }

  /** `s.split(sep)` for a one-character separator: the pieces between the
      separators, at least one of them. */
  function Split(s: string, sep: char): (parts: seq<string>)
    ensures |parts| >= 1
    ensures forall i :: 0 <= i < |parts| ==> sep !in parts[i]
    ensures Join(parts, sep) == s
    decreases |s|
  {
    if sep in s then
      var k := FirstIndex(s, sep);
      var rest := Split(s[k + 1..], sep);
      assert s == s[..k] + [sep] + s[k + 1..];
      [s[..k]] + rest
    else
      [s]
  }

  /** Splitting a join of pieces free of the separator gives the pieces back. */
  lemma {:induction false} SplitJoin(parts: seq<string>, sep: char)
    requires |parts| >= 1
    requires forall i :: 0 <= i < |parts| ==> sep !in parts[i]
    ensures Split(Join(parts, sep), sep) == parts
  {
    if |parts| > 1 {
      var s := Join(parts, sep);
      var p := parts[0];
      assert s == p + [sep] + Join(parts[1..], sep);
      assert s[|p|] == sep;
      FirstOccurrence(p, sep, Join(parts[1..], sep));
      assert s[..|p|] == p;
      assert s[|p| + 1..] == Join(parts[1..], sep);
      SplitJoin(parts[1..], sep);
    }
  }

  lemma FirstOccurrence(p: string, sep: char, rest: string)
    requires sep !in p
    ensures sep in p + [sep] + rest && FirstIndex(p + [sep] + rest, sep) == |p|
  {
    var s := p + [sep] + rest;
    assert s[|p|] == sep;
    var k := FirstIndex(s, sep);
    assert forall i :: 0 <= i < |p| ==> s[i] == p[i];
  }

  // ---------------------------------------------------------------- characters

  /** `s.split('')`: one single-character string per code unit. */
  function Chars(s: string): (cells: seq<string>)
    ensures |cells| == |s|
    ensures forall i :: 0 <= i < |s| ==> cells[i] == [s[i]]
  {
    seq(|s|, i requires 0 <= i < |s| => [s[i]])
  }

  /** `cells.join('')`. */
  function Concat(cells: seq<string>): string {
    if cells == [] then "" else cells[0] + Concat(cells[1..])
  }

  /** Concatenating the characters of a string gives the string back. */
  lemma {:induction false} ConcatChars(s: string)
    ensures Concat(Chars(s)) == s
  {
    if s != [] {
      assert Chars(s)[1..] == Chars(s[1..]);
      ConcatChars(s[1..]);
    }
  }

  /** A row of single characters is split back into its cells. */
  lemma {:induction false} CharsConcat(cells: seq<string>)
    requires forall i :: 0 <= i < |cells| ==> |cells[i]| == 1
    ensures |Concat(cells)| == |cells|
    ensures Chars(Concat(cells)) == cells
  {
    if cells != [] {
      CharsConcat(cells[1..]);
      var s := Concat(cells);
      assert s == cells[0] + Concat(cells[1..]);
      forall i | 0 <= i < |cells| ensures Chars(s)[i] == cells[i] {
        if i > 0 {
          assert s[i] == Concat(cells[1..])[i - 1];
          assert Chars(Concat(cells[1..]))[i - 1] == cells[1..][i - 1];
        } else {
          assert cells[0] == [cells[0][0]];
        }
      }
    }
  }

  function Min(a: int, b: int): int { if a <= b then a else b }
  function Max(a: int, b: int): int { if a <= b then b else a }
  function Clamp(a: int, len: nat): (r: nat) ensures r <= len { if a < 0 then 0 else if a > len then len else a }

  /** `s.substring(a, b)`: both ends are clamped to `[0, |s|]` and swapped
      when the first exceeds the second. */
  function Substring(s: string, a: int, b: int): (t: string)
    ensures 0 <= a <= b <= |s| ==> t == s[a..b]
    ensures 0 <= a <= |s| <= b ==> t == s[a..]
    ensures |s| <= a ==> b >= a ==> t == []
  {
    var x, y := Clamp(a, |s|), Clamp(b, |s|);
    s[Min(x, y)..Max(x, y)]
  }

  // ---------------------------------------------------------------- numbers

  function DigitValue(c: char): nat requires IsDigit(c) { (c as int) - ('0' as int) }

  function Digit(d: nat): (c: char)
    requires d < 10
    ensures IsDigit(c) && DigitValue(c) == d
  {
    (('0' as int) + d) as char
  }

  /** The longest prefix of `s` made of decimal digits. */
  function DigitPrefix(s: string): (ds: string)
    ensures |ds| <= |s| && ds == s[..|ds|]
    ensures forall i :: 0 <= i < |ds| ==> IsDigit(ds[i])
    ensures |ds| == |s| || !IsDigit(s[|ds|])
  {
    if s != [] && IsDigit(s[0]) then
      var rest := DigitPrefix(s[1..]);
      assert s[..|rest| + 1] == [s[0]] + s[1..][..|rest|];
      [s[0]] + rest
    else []
  }

  /** The value of a string of decimal digits, most significant first. */
  function DigitsValue(ds: string): nat
    requires forall i :: 0 <= i < |ds| ==> IsDigit(ds[i])
  {
    if ds == [] then 0 else DigitsValue(ds[..|ds| - 1]) * 10 + DigitValue(ds[|ds| - 1])
  }

  /** `parseInt(s, 10)`, with `None` for NaN: leading white space is skipped,
      an optional sign is read, then the longest run of digits; anything
      after it is ignored. */
  function ParseInt(s: string): (n: Option<int>)
    ensures n.None? <==> DigitPrefix(UnsignedPart(TrimStart(s))) == []
  {
    var t := TrimStart(s);
    var ds := DigitPrefix(UnsignedPart(t));
    var magnitude: int := if ds == [] then 0 else DigitsValue(ds);
    if ds == [] then None
    else if |t| > 0 && t[0] == '-' then Some(-magnitude)
    else Some(magnitude)
  }

  /** What follows an optional leading `+` or `-`. */
  function UnsignedPart(t: string): string {
    if |t| > 0 && (t[0] == '-' || t[0] == '+') then t[1..] else t
  }

  /** `n.toString()` for a non-negative integer: its decimal digits with no
      leading zero. */
  function NatToString(n: nat): (s: string)
    ensures s != [] && (forall i :: 0 <= i < |s| ==> IsDigit(s[i]))
    ensures DigitsValue(s) == n
    ensures |s| > 1 ==> s[0] != '0'
  {
    if n < 10 then [Digit(n)]
    else
      var s := NatToString(n / 10) + [Digit(n % 10)];
      assert s[..|s| - 1] == NatToString(n / 10);
      s
  }

  /** `String(x)` for an integer-valued JavaScript number, NaN included. */
  function NumberToString(x: Option<int>): (s: string)
    ensures x == Some(0) ==> s == "0"
  {
    match x
    case None => "NaN"
    case Some(v) => if v < 0 then "-" + NatToString(-v) else NatToString(v)
  }

  /** `parseInt` reads back what `toString` writes. */
  lemma ParseIntOfToString(n: nat)
    ensures ParseInt(NatToString(n)) == Some(n)
  {
    var s := NatToString(n);
    assert !IsJsSpace(s[0]);
    assert TrimStart(s) == s;
    assert UnsignedPart(s) == s;
    AllDigitsPrefix(s);
  }

  lemma {:induction false} AllDigitsPrefix(s: string)
    requires forall i :: 0 <= i < |s| ==> IsDigit(s[i])
    ensures DigitPrefix(s) == s
  {
    if s != [] {
      AllDigitsPrefix(s[1..]);
    }
  }

  /** `parseInt` is lenient: it stops at the first non-digit, and gives
      NaN when no digit starts the text. */
  lemma ParseIntReadsDigitPrefix()
    ensures ParseInt("3x") == Some(3)
    ensures ParseInt("x3") == None
  {
    ParseIntOfThreeX();
    ParseIntOfXThree();
  }

  lemma ParseIntOfThreeX()
    ensures ParseInt("3x") == Some(3)
  {
    var s := "3x";
    assert s[0] == '3' && !IsJsSpace(s[0]);
    assert TrimStart(s) == s;
    assert UnsignedPart(s) == s;
    assert s[1..] == "x" && !IsDigit('x');
    assert DigitPrefix(s[1..]) == [];
    assert DigitPrefix(s) == "3";
    assert "3"[..0] == [];
    assert DigitsValue("3") == 3;
  }

  lemma ParseIntOfXThree()
    ensures ParseInt("x3") == None
  {
    var s := "x3";
    assert s[0] == 'x' && !IsJsSpace(s[0]) && !IsDigit(s[0]);
    assert TrimStart(s) == s;
    assert UnsignedPart(s) == s;
    assert DigitPrefix(s) == [];
  }

  /** A leading zero does not change the value `parseInt` reads. */
  lemma ParseIntLeadingZero()
    ensures ParseInt("06") == Some(6)
  {
    assert !IsJsSpace('0') && TrimStart("06") == "06" && UnsignedPart("06") == "06";
    AllDigitsPrefix("06");
    assert DigitsValue("06") == 6 by { assert "06"[..1] == "0"; }
  }

  /** `parseInt` skips leading blanks and reads a sign, and a sign with no
      digit after it is NaN. */
  lemma ParseIntSkipsBlanksAndSign()
    ensures ParseInt(" -12") == Some(-12)
    ensures ParseInt("-") == None
  {
    assert " -12"[1..] == "-12";
    assert !IsJsSpace('-') && TrimStart("-12") == "-12";
    assert TrimStart(" -12") == "-12";
    assert UnsignedPart("-12") == "12";
    AllDigitsPrefix("12");
    assert DigitsValue("12") == 12 by { assert "12"[..1] == "1"; }
    assert TrimStart("-") == "-" && UnsignedPart("-") == "";
  }

  /** The largest length `Array(n)` accepts; any other length (NaN,
      negative, larger) throws a RangeError. */
  const MaxArrayLength: int := 0xFFFF_FFFF

  /** A parsed number that is neither NaN nor at most 0. */
  predicate IsPositive(n: Option<int>) {
    n.Some? && n.value > 0
  }

  /** An optional string that JavaScript treats as true: present and not
      empty (`URLSearchParams.get` gives `null` for a missing parameter). */
  predicate Truthy(p: Option<string>) {
    p.Some? && p.value != ""
  }

  predicate ArrayLengthOk(n: Option<int>) {
    n.Some? && 0 <= n.value <= MaxArrayLength
  }
}
