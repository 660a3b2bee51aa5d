/** Bytes and the lowercase hexadecimal text form produced by Java's
    `HexFormat.of().formatHex`: two characters per byte, high nibble first,
    digits `0-9a-f`. `ParseHex` is the inverse used to state what a checksum
    string means. */
module Hex {
  import opened Wrappers

  /** A byte as an unsigned value. Java's `byte` is signed, but `HexFormat`
      prints its two's-complement bits, which is this value. */
  newtype byte = x: int | 0 <= x < 256

  const Digits: string := "0123456789abcdef"

  function DigitChar(n: int): char
    requires 0 <= n < 16
  {
    Digits[n]
  }

  /** The value of one lowercase hex digit, or None for any other character. */
  function DigitValue(c: char): Option<int>
  {
    if '0' <= c <= '9' then Some(c as int - '0' as int)
    else if 'a' <= c <= 'f' then Some(c as int - 'a' as int + 10)
    else None
  }

  /** `HexFormat.of().formatHex(bytes)`. */
  function FormatHex(bs: seq<byte>): (s: string)
    ensures |s| == 2 * |bs|
  {
    if bs == [] then []
    else
      var b := bs[0] as int;
      [DigitChar(b / 16), DigitChar(b % 16)] + FormatHex(bs[1..])
  }

  /** Reads an even-length string of lowercase hex digits back into bytes. */
  function ParseHex(s: string): (r: Option<seq<byte>>)
    ensures r.Some? ==> |s| == 2 * |r.value|
  {
    if s == [] then Some([])
    else if |s| == 1 then None
    else
      var hi, lo, rest := DigitValue(s[0]), DigitValue(s[1]), ParseHex(s[2..]);
      if hi.None? || lo.None? || rest.None? then None
      else
        DigitValueRange(s[0]);
        DigitValueRange(s[1]);
        Some([(hi.value * 16 + lo.value) as byte] + rest.value)
  }

  lemma DigitCharValue(n: int)
    requires 0 <= n < 16
    ensures DigitValue(DigitChar(n)) == Some(n)
  {
    assert Digits == ['0', '1', '2', '3', '4', '5', '6', '7', '8', '9', 'a', 'b', 'c', 'd', 'e', 'f'];
  }

  lemma DigitValueRange(c: char)
    ensures DigitValue(c).Some? ==> 0 <= DigitValue(c).value < 16
    ensures DigitValue(c).Some? ==> DigitChar(DigitValue(c).value) == c
  {
    assert Digits == ['0', '1', '2', '3', '4', '5', '6', '7', '8', '9', 'a', 'b', 'c', 'd', 'e', 'f'];
  }

  /** Parsing a formatted byte string gives the bytes back. */
  lemma {:induction false} ParseFormatHex(bs: seq<byte>)
    ensures ParseHex(FormatHex(bs)) == Some(bs)
  {
    if bs != [] {
      var b := bs[0] as int;
      var hi, lo := b / 16, b % 16;
      NibbleSplit(hi, lo);
      assert hi * 16 + lo == b;
      DigitCharValue(hi);
      DigitCharValue(lo);
      var rest := FormatHex(bs[1..]);
      var s := [DigitChar(hi), DigitChar(lo)] + rest;
      assert FormatHex(bs) == s;
      assert s[0] == DigitChar(hi) && s[1] == DigitChar(lo) && s[2..] == rest;
      ParseFormatHex(bs[1..]);
      assert ParseHex(s) == Some([(hi * 16 + lo) as byte] + bs[1..]);
      assert [bs[0]] + bs[1..] == bs;
    }
  }

  /** Every string that parses is the formatting of what it parses to: the
      lowercase hex form of a byte string is unique. */
  lemma {:induction false} FormatParseHex(s: string)
    requires ParseHex(s).Some?
    ensures FormatHex(ParseHex(s).value) == s
  {
    if s != [] {
      var hi, lo := DigitValue(s[0]).value, DigitValue(s[1]).value;
      DigitValueRange(s[0]);
      DigitValueRange(s[1]);
      var bs := ParseHex(s).value;
      var rest := ParseHex(s[2..]).value;
      assert bs == [(hi * 16 + lo) as byte] + rest;
      NibbleSplit(hi, lo);
      FormatParseHex(s[2..]);
      assert bs[1..] == rest;
      assert FormatHex(bs) == [DigitChar(hi), DigitChar(lo)] + FormatHex(rest);
      assert s == [s[0], s[1]] + s[2..];
    }
  }

  lemma NibbleSplit(hi: int, lo: int)
    requires 0 <= hi < 16 && 0 <= lo < 16
    ensures (hi * 16 + lo) / 16 == hi && (hi * 16 + lo) % 16 == lo
  {
  }

  /** Two byte strings with the same hex form are equal. */
  lemma FormatHexInjective(a: seq<byte>, b: seq<byte>)
    ensures FormatHex(a) == FormatHex(b) <==> a == b
  {
    if FormatHex(a) == FormatHex(b) {
      ParseFormatHex(a);
      ParseFormatHex(b);
    }
  }

  /** A string parses to `bs` exactly when it is the hex form of `bs`. */
  lemma ParseHexIff(s: string, bs: seq<byte>)
    ensures ParseHex(s) == Some(bs) <==> s == FormatHex(bs)
  {
    if ParseHex(s) == Some(bs) {
      FormatParseHex(s);
    }
    if s == FormatHex(bs) {
      ParseFormatHex(bs);
    }
  }
}
