/** String primitives the mocks rely on: ASCII lower-casing, splitting on a character or on
    runs of white space, `parseInt(s, 10)`, and the UTF-8 encoding `Buffer.from(string)` uses. */
module Text {

  type byte = x: int | 0 <= x < 256

  // ---------------------------------------------------------------- lower case

  function LowerChar(c: char): char {
    if 'A' <= c <= 'Z' then (c as int + 32) as char else c
  }

  /** `String.prototype.toLowerCase`, restricted to ASCII letters. */
  function Lower(s: string): (r: string)
    ensures |r| == |s|
  {
    if s == [] then [] else [LowerChar(s[0])] + Lower(s[1..])
  }

  predicate IsLower(s: string) {
    forall i :: 0 <= i < |s| ==> !('A' <= s[i] <= 'Z')
  }

  lemma {:induction false} LowerAt(s: string, i: nat)
    requires i < |s|
    ensures Lower(s)[i] == LowerChar(s[i])
  {
    if i > 0 {
      LowerAt(s[1..], i - 1);
    }
  }

  lemma LowerIsLower(s: string)
    ensures IsLower(Lower(s))
  {
    forall i | 0 <= i < |s| ensures !('A' <= Lower(s)[i] <= 'Z') {
      LowerAt(s, i);
    }
  }

  lemma LowerOfLower(s: string)
    requires IsLower(s)
    ensures Lower(s) == s
  {
    forall i | 0 <= i < |s| ensures Lower(s)[i] == s[i] {
      LowerAt(s, i);
    }
  }

  /** Lower-casing twice is lower-casing once: a key normalised by `setHeader` is found
      again by a lookup that normalises its argument. */
  lemma LowerIdempotent(s: string)
    ensures Lower(Lower(s)) == Lower(s)
  {
    LowerIsLower(s);
    LowerOfLower(Lower(s));
  }

  // ---------------------------------------------------------------- white space

  /** The characters of the `\s` class of JavaScript regular expressions, which are also
      the white space `parseInt` skips. */
  predicate IsSpace(c: char) {
    c == ' ' || c == '\t' || c == '\n' || c == '\r' || c == '\U{000B}' || c == '\U{000C}'
    || c == '\U{00A0}' || c == '\U{1680}' || ('\U{2000}' <= c <= '\U{200A}')
    || c == '\U{2028}' || c == '\U{2029}' || c == '\U{202F}' || c == '\U{205F}'
    || c == '\U{3000}' || c == '\U{FEFF}'
  }

  predicate NoSpace(s: string) {
    forall i :: 0 <= i < |s| ==> !IsSpace(s[i])
  }

  // ---------------------------------------------------------------- split and join

  /** `parts.join([sep])`. */
  function Join(parts: seq<string>, sep: char): string
    requires |parts| >= 1
  {
    if |parts| == 1 then parts[0] else parts[0] + [sep] + Join(parts[1..], sep)
  }

  function Count(s: string, c: char): nat {
    if s == [] then 0 else (if s[0] == c then 1 else 0) + Count(s[1..], c)
  }

  /** `s.split(c)` for a one-character separator: every field, empty ones included. */
  function SplitOn(s: string, c: char): (parts: seq<string>)
    ensures |parts| == Count(s, c) + 1
    ensures forall i :: 0 <= i < |parts| ==> c !in parts[i]
  {
    if s == [] then [""]
    else
      var rest := SplitOn(s[1..], c);
      if s[0] == c then [""] + rest
      else
        var parts := [[s[0]] + rest[0]] + rest[1..];
        assert forall i :: 1 <= i < |parts| ==> parts[i] == rest[i];
        parts
  }

  /** Joining the fields with the separator gives back the string. */
  lemma {:induction false} JoinSplitOn(s: string, c: char)
    ensures Join(SplitOn(s, c), c) == s
  {
    if s != [] {
      var rest := SplitOn(s[1..], c);
      JoinSplitOn(s[1..], c);
      if s[0] != c {
        var parts := [[s[0]] + rest[0]] + rest[1..];
        assert SplitOn(s, c) == parts;
        if |rest| > 1 {
          assert parts[1..] == rest[1..];
          assert Join(rest, c) == rest[0] + [c] + Join(rest[1..], c);
        }
      } else {
        assert SplitOn(s, c) == [""] + rest;
        assert ([""] + rest)[1..] == rest;
      }
    }
  }

  /** Splitting a join of separator-free fields gives back the fields. */
  lemma {:induction false} SplitOnJoin(parts: seq<string>, c: char)
    requires |parts| >= 1
    requires forall i :: 0 <= i < |parts| ==> c !in parts[i]
    ensures SplitOn(Join(parts, c), c) == parts
  {
    if |parts| == 1 {
      SplitOnField(parts[0], [], c);
      assert parts[0] + [] == parts[0];
    } else {
      SplitOnJoin(parts[1..], c);
      var tail := Join(parts[1..], c);
      assert Join(parts, c) == parts[0] + ([c] + tail);
      SplitOnField(parts[0], [c] + tail, c);
      assert ([c] + tail)[1..] == tail;
      var tp := SplitOn([c] + tail, c);
      assert tp == [""] + SplitOn(tail, c);
      assert tp[0] == "" && tp[1..] == parts[1..];
      assert parts[0] + "" == parts[0];
      assert [parts[0]] + parts[1..] == parts;
    }
  }

  /** A separator-free field in front of `t` extends the first field of `t`. */
  lemma {:induction false} SplitOnField(f: string, t: string, c: char)
    requires c !in f
    ensures var tp := SplitOn(t, c); SplitOn(f + t, c) == [f + tp[0]] + tp[1..]
  {
    var tp := SplitOn(t, c);
    if f != [] {
      SplitOnField(f[1..], t, c);
      assert (f + t)[1..] == f[1..] + t;
      assert (f + t)[0] == f[0] && f[0] != c;
      var rest := SplitOn(f[1..] + t, c);
      assert rest == [f[1..] + tp[0]] + tp[1..];
      assert rest[0] == f[1..] + tp[0] && rest[1..] == tp[1..];
      assert SplitOn(f + t, c) == [[f[0]] + rest[0]] + rest[1..];
      assert [f[0]] + (f[1..] + tp[0]) == f + tp[0];
    } else {
      assert f + t == t;
      assert f + tp[0] == tp[0];
      assert tp == [tp[0]] + tp[1..];
    }
  }

  /** `s.split(/\s+/)`: the fields between maximal runs of white space; a leading or a
      trailing run gives an empty first or last field. */
  function SplitSpace(s: string): (words: seq<string>)
    ensures |words| >= 1
    ensures forall i :: 0 <= i < |words| ==> NoSpace(words[i])
  {
    if s == [] then [""]
    else
      var rest := SplitSpace(s[1..]);
      if IsSpace(s[0]) then
        (if |s| > 1 && IsSpace(s[1]) then rest else [""] + rest)
      else
        var words := [[s[0]] + rest[0]] + rest[1..];
        assert forall i :: 1 <= i < |words| ==> words[i] == rest[i];
        words
  }

  /** `s` with every maximal run of white space replaced by one space. */
  function Squeeze(s: string): string {
    if s == [] then []
    else if IsSpace(s[0]) then
      (if |s| > 1 && IsSpace(s[1]) then Squeeze(s[1..]) else [' '] + Squeeze(s[1..]))
    else [s[0]] + Squeeze(s[1..])
  }

  /** The words of `s`, joined by single spaces, are `s` with its white space runs squeezed:
      together with the words holding no white space, this pins `SplitSpace` down. */
  lemma {:induction false} JoinSplitSpace(s: string)
    ensures Join(SplitSpace(s), ' ') == Squeeze(s)
  {
    if s != [] {
      var rest := SplitSpace(s[1..]);
      JoinSplitSpace(s[1..]);
      if IsSpace(s[0]) {
        if !(|s| > 1 && IsSpace(s[1])) {
          assert SplitSpace(s) == [""] + rest;
          assert ([""] + rest)[1..] == rest;
        }
      } else {
        var words := [[s[0]] + rest[0]] + rest[1..];
        assert SplitSpace(s) == words;
        if |rest| > 1 {
          assert words[1..] == rest[1..];
          assert Join(rest, ' ') == rest[0] + [' '] + Join(rest[1..], ' ');
        }
      }
    }
  }

  // ---------------------------------------------------------------- parseInt

  /** A JavaScript number as `parseInt` can produce it. */
  datatype IntOrNaN = NaN | Int(value: int)

  predicate IsDigit(c: char) {
    '0' <= c <= '9'
  }

  function DigitValue(c: char): nat
    requires IsDigit(c)
  {
    c as int - '0' as int
  }

  function DigitChar(d: nat): (c: char)
    requires d < 10
    ensures IsDigit(c) && DigitValue(c) == d
  {
    ('0' as int + d) as char
  }

  function TrimSpace(s: string): (t: string)
    ensures t == [] || !IsSpace(t[0])
  {
    if s != [] && IsSpace(s[0]) then TrimSpace(s[1..]) else s
  }

  /** The longest prefix of decimal digits. */
  function DigitPrefix(s: string): (d: string)
    ensures |d| <= |s| && d == s[..|d|]
    ensures forall i :: 0 <= i < |d| ==> IsDigit(d[i])
    ensures |d| < |s| ==> !IsDigit(s[|d|])
  {
    if s != [] && IsDigit(s[0]) then [s[0]] + DigitPrefix(s[1..]) else []
  }

  /** The value of a string of decimal digits, most significant first. */
  function DecimalValue(d: string): nat
    requires forall i :: 0 <= i < |d| ==> IsDigit(d[i])
  {
    if d == [] then 0 else 10 * DecimalValue(d[..|d| - 1]) + DigitValue(d[|d| - 1])
  }

  /** `parseInt(s, 10)`: skip white space, read an optional sign and the longest run of
      digits after it; no digits at all give NaN. */
  function ParseInt(s: string): IntOrNaN {
    var t := TrimSpace(s);
    var negative := t != [] && t[0] == '-';
    var body := if t != [] && (t[0] == '-' || t[0] == '+') then t[1..] else t;
    var digits := DigitPrefix(body);
    if digits == [] then NaN
    else if negative then Int(0 - DecimalValue(digits) as int)
    else Int(DecimalValue(digits))
  }

  /** The decimal numeral of `n` without leading zeros, as `String(n)` writes it. */
  function Decimal(n: nat): (d: string)
    ensures |d| >= 1 && forall i :: 0 <= i < |d| ==> IsDigit(d[i])
  {
    if n < 10 then [DigitChar(n)] else Decimal(n / 10) + [DigitChar(n % 10)]
  }

  lemma {:induction false} DecimalValueOfDecimal(n: nat)
    ensures DecimalValue(Decimal(n)) == n
  {
    if n >= 10 {
      var d := Decimal(n);
      assert d[..|d| - 1] == Decimal(n / 10);
      DecimalValueOfDecimal(n / 10);
    }
  }

  lemma {:induction false} DigitPrefixOfDigits(d: string, rest: string)
    requires forall i :: 0 <= i < |d| ==> IsDigit(d[i])
    requires rest == [] || !IsDigit(rest[0])
    ensures DigitPrefix(d + rest) == d
  {
    if d != [] {
      assert (d + rest)[1..] == d[1..] + rest;
      DigitPrefixOfDigits(d[1..], rest);
    } else {
      assert d + rest == rest;
    }
  }

  /** `parseInt` reads back what `String(n)` writes, for either sign. */
  lemma ParseIntDecimal(n: nat)
    ensures ParseInt(Decimal(n)) == Int(n)
    ensures ParseInt("-" + Decimal(n)) == Int(0 - n as int)
  {
    var d := Decimal(n);
    DecimalValueOfDecimal(n);
    DigitPrefixOfDigits(d, []);
    assert d + [] == d;
    assert TrimSpace(d) == d;
    var m := "-" + d;
    assert TrimSpace(m) == m;
    assert m[1..] == d;
  }

  /** `parseInt` stops at the first character that is not a digit: `parseInt('1a') == 1`. */
  lemma ParseIntStopsAtNonDigit(n: nat, rest: string)
    requires rest == [] || !IsDigit(rest[0])
    ensures ParseInt(Decimal(n) + rest) == Int(n)
  {
    var d := Decimal(n);
    DecimalValueOfDecimal(n);
    DigitPrefixOfDigits(d, rest);
    assert (d + rest)[0] == d[0];
    assert TrimSpace(d + rest) == d + rest;
  }

  // ---------------------------------------------------------------- UTF-8

  /** The UTF-8 bytes of one Unicode scalar value. */
  function EncodeChar(c: char): (bs: seq<byte>)
    ensures 1 <= |bs| <= 4
    ensures |bs| == 1 <==> c as int < 0x80
  {
    var cp := c as int;
    if cp < 0x80 then [cp]
    else if cp < 0x800 then [0xC0 + cp / 64, 0x80 + cp % 64]
    else if cp < 0x10000 then [0xE0 + cp / 4096, 0x80 + (cp / 64) % 64, 0x80 + cp % 64]
    else [0xF0 + cp / 262144, 0x80 + (cp / 4096) % 64, 0x80 + (cp / 64) % 64, 0x80 + cp % 64]
  }

  /** `Buffer.from(s)`: the UTF-8 encoding of `s`. */
  function Utf8(s: string): seq<byte> {
    if s == [] then [] else EncodeChar(s[0]) + Utf8(s[1..])
  }

  lemma {:induction false} Utf8Concat(a: string, b: string)
    ensures Utf8(a + b) == Utf8(a) + Utf8(b)
  {
    if a != [] {
      assert (a + b)[1..] == a[1..] + b;
      Utf8Concat(a[1..], b);
    } else {
      assert a + b == b;
    }
  }

  predicate IsAscii(s: string) {
    forall i :: 0 <= i < |s| ==> s[i] as int < 0x80
  }

  /** An ASCII string is encoded one byte per character, each byte its code. */
  lemma {:induction false} Utf8Ascii(s: string)
    requires IsAscii(s)
    ensures |Utf8(s)| == |s|
    ensures forall i :: 0 <= i < |s| ==> Utf8(s)[i] == s[i] as int
  {
    if s != [] {
      Utf8Ascii(s[1..]);
    }
  }
}
