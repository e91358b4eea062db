/** Small shared vocabulary: an option type, bytes, ASCII text, the decimal
    form of `usize` values, and UTF-8 as the Rust standard library checks and
    produces it. */
module Common {

  datatype Option<+T> = None | Some(value: T)

  /** A `u8`. */
  type byte = x: int | 0 <= x < 256

  /** `usize::MAX` on the 64-bit targets the interpreter is built for. */
  const USIZE_MAX: nat := 0xFFFF_FFFF_FFFF_FFFF

  predicate IsAscii(s: string) {
    forall i :: 0 <= i < |s| ==> (s[i] as int) < 128
  }

  /** The bytes of an ASCII string (`str::as_bytes`). */
  function AsciiBytes(s: string): (r: seq<byte>)
    requires IsAscii(s)
    ensures |r| == |s|
    ensures forall i :: 0 <= i < |s| ==> r[i] == s[i] as int && r[i] < 128
  {
    seq(|s|, i requires 0 <= i < |s| => s[i] as int)
  }

  predicate IsDigit(c: char) {
    '0' <= c <= '9'
  }

  predicate AllDigits(s: string) {
    forall i :: 0 <= i < |s| ==> IsDigit(s[i])
  }

  /** The number a string of decimal digits denotes. */
  function DigitsValue(s: string): nat
    requires AllDigits(s)
  {
    if |s| == 0 then 0
    else DigitsValue(s[..|s| - 1]) * 10 + ((s[|s| - 1] as int) - ('0' as int))
  }

  /** `str::parse::<usize>`: an optional leading `+`, then at least one
      decimal digit and nothing else, and a value that fits in `usize`. */
  function ParseUsize(s: string): (r: Option<nat>)
    ensures r.Some? ==> r.value <= USIZE_MAX
    ensures r.Some? && |s| > 0 && s[0] != '+' ==> AllDigits(s) && r.value == DigitsValue(s)
    ensures |s| == 0 ==> r == None
    ensures AllDigits(s) && |s| > 0 && DigitsValue(s) > USIZE_MAX ==> r == None
    ensures AllDigits(s) && |s| > 0 && DigitsValue(s) <= USIZE_MAX ==> r == Some(DigitsValue(s))
    ensures |s| > 1 && s[0] == '+' && AllDigits(s[1..]) && DigitsValue(s[1..]) <= USIZE_MAX ==>
      r == Some(DigitsValue(s[1..]))
    ensures r.Some? && |s| > 0 && s[0] == '+' ==> AllDigits(s[1..]) && r.value == DigitsValue(s[1..])
  {
    var digits := if |s| > 0 && s[0] == '+' then s[1..] else s;
    if |digits| == 0 || !AllDigits(digits) then None
    else if DigitsValue(digits) > USIZE_MAX then None
    else Some(DigitsValue(digits))
  }

  function DigitChar(d: nat): (c: char)
    requires d < 10
    ensures IsDigit(c) && (c as int) - ('0' as int) == d
  {
    (('0' as int) + d) as char
  }

  /** The decimal rendering of an unsigned integer (`usize::to_string`). */
  function Decimal(n: nat): (r: string)
    ensures |r| > 0 && AllDigits(r)
    decreases n
  {
    if n < 10 then [DigitChar(n)] else Decimal(n / 10) + [DigitChar(n % 10)]
  }

  /** Rendering a number in decimal and reading it back gives the number. */
  lemma {:induction false} DecimalValue(n: nat)
    ensures DigitsValue(Decimal(n)) == n
    decreases n
  {
    if n >= 10 {
      var s := Decimal(n);
      assert s[..|s| - 1] == Decimal(n / 10);
      DecimalValue(n / 10);
    }
  }

  /** The number literal parser reads back exactly what the printer writes
      for every value a `usize` can hold. */
  lemma DecimalRoundTrip(n: nat)
    requires n <= USIZE_MAX
    ensures ParseUsize(Decimal(n)) == Some(n)
  {
    DecimalValue(n);
  }

  /** A UTF-8 continuation byte. */
  predicate Cont(b: byte) {
    0x80 <= b <= 0xBF
  }

  /** How many bytes the character starting with lead byte `b` takes;
      0 for a byte that cannot start a character. */
  function Width(b: byte): nat {
    if b < 0x80 then 1
    else if 0xC2 <= b <= 0xDF then 2
    else if 0xE0 <= b <= 0xEF then 3
    else if 0xF0 <= b <= 0xF4 then 4
    else 0
  }

  /** The first character of `s` is well formed, following the table of
      well-formed byte sequences in section 3.9 of the Unicode Standard. */
  predicate HeadOk(s: seq<byte>)
    requires |s| > 0
  {
    var w := Width(s[0]);
    w > 0 && |s| >= w &&
    (w >= 2 ==> Cont(s[1])) && (w >= 3 ==> Cont(s[2])) && (w == 4 ==> Cont(s[3])) &&
    (s[0] == 0xE0 ==> 0xA0 <= s[1]) &&
    (s[0] == 0xED ==> s[1] <= 0x9F) &&
    (s[0] == 0xF0 ==> 0x90 <= s[1]) &&
    (s[0] == 0xF4 ==> s[1] <= 0x8F)
  }

  /** Well-formed UTF-8 (the check behind `str::from_utf8`). */
  predicate ValidUtf8(s: seq<byte>)
    decreases |s|
  {
    |s| == 0 || (HeadOk(s) && ValidUtf8(s[Width(s[0])..]))
  }

  /** Every byte sequence below 0x80 is well-formed UTF-8. */
  lemma {:induction false} AsciiIsUtf8(s: seq<byte>)
    requires forall i :: 0 <= i < |s| ==> s[i] < 0x80
    ensures ValidUtf8(s)
    decreases |s|
  {
    if |s| > 0 {
      AsciiIsUtf8(s[1..]);
    }
  }

  /** The UTF-8 encoding of one Unicode scalar value. */
  function EncodeChar(c: char): (r: seq<byte>)
    ensures 1 <= |r| <= 4
  {
    var n := c as int;
    if n < 0x80 then [n]
    else if n < 0x800 then [0xC0 + n / 64, 0x80 + n % 64]
    else if n < 0x10000 then [0xE0 + n / 4096, 0x80 + (n / 64) % 64, 0x80 + n % 64]
    else [0xF0 + n / 262144, 0x80 + (n / 4096) % 64, 0x80 + (n / 64) % 64, 0x80 + n % 64]
  }

  /** The UTF-8 encoding of a string (`String::as_bytes`). */
  function EncodeUtf8(s: string): (r: seq<byte>)
    ensures IsAscii(s) ==> r == AsciiBytes(s)
  {
    if |s| == 0 then [] else EncodeChar(s[0]) + EncodeUtf8(s[1..])
  }

  lemma EncodeCharValid(c: char, rest: seq<byte>)
    requires ValidUtf8(rest)
    ensures ValidUtf8(EncodeChar(c) + rest)
  {
    var n := c as int;
    var e := EncodeChar(c);
    var s := e + rest;
    if n < 0x80 {
      assert s[1..] == rest;
    } else if n < 0x800 {
      assert s[2..] == rest;
    } else if n < 0x10000 {
      assert s[3..] == rest;
      assert n / 4096 == 13 ==> n < 0xD800;
    } else {
      assert s[4..] == rest;
    }
  }

  /** Whatever the encoder produces passes the decoder's check. */
  lemma {:induction false} EncodeUtf8Valid(s: string)
    ensures ValidUtf8(EncodeUtf8(s))
    decreases |s|
  {
    if |s| > 0 {
      EncodeUtf8Valid(s[1..]);
      EncodeCharValid(s[0], EncodeUtf8(s[1..]));
    }
  }
}
