/**
 * Text as the server handles it.
 *
 * A Rust `str` is a sequence of UTF-8 code units, and every operation the
 * server applies to one (`lines`, `split`, `contains`, `strip_prefix`,
 * slicing from a byte offset, `parse`) works on those bytes.  A text is
 * therefore modelled as a `string` holding one `char` per byte: `Chars` turns
 * received bytes into such a text and `Bytes` turns it back.
 */
module Text {
  import opened Wrappers

  /** One byte, as `u8`. */
  type Byte = b: int | 0 <= b < 256

  /** The byte that a character of a byte-per-char text stands for. */
  function ByteOf(c: char): Byte
  {
    c as int % 256
  }

  /** The bytes of a text, as `String::into_bytes` gives them. */
  function Bytes(s: string): (bs: seq<Byte>)
    ensures |bs| == |s|
  {
    seq(|s|, i requires 0 <= i < |s| => ByteOf(s[i]))
  }

  /** The text whose code units are `bs`. */
  function Chars(bs: seq<Byte>): (s: string)
    ensures |s| == |bs|
  {
    seq(|bs|, i requires 0 <= i < |bs| => bs[i] as char)
  }

  lemma BytesOfChars(bs: seq<Byte>)
    ensures Bytes(Chars(bs)) == bs
  {
  }

  /** A text whose characters are all below 256 survives the trip to bytes and back. */
  lemma CharsOfBytes(s: string)
    requires forall i :: 0 <= i < |s| ==> s[i] as int < 256
    ensures Chars(Bytes(s)) == s
  {
  }

  lemma BytesAppend(a: string, b: string)
    ensures Bytes(a + b) == Bytes(a) + Bytes(b)
  {
  }

  // ---------------------------------------------------------------------
  // Decimal numbers: `format!("{}", n)` and `str::parse::<uN>()`

  const U8_MAX: nat := 0xFF
  const U32_MAX: nat := 0xFFFF_FFFF
  /** `usize::MAX` on the 64-bit targets the server is built for. */
  const USIZE_MAX: nat := 0xFFFF_FFFF_FFFF_FFFF

  predicate IsDigit(c: char)
  {
    '0' <= c <= '9'
  }

  predicate AllDigits(s: string)
  {
    forall i :: 0 <= i < |s| ==> IsDigit(s[i])
  }

  function DigitChar(d: nat): (c: char)
    requires d < 10
    ensures IsDigit(c) && c as int - '0' as int == d
  {
    ('0' as int + d) as char
  }

  /** The value of a string of decimal digits, most significant first. */
  function DigitsValue(s: string): nat
    requires AllDigits(s)
    decreases |s|
  {
    if s == [] then 0 else DigitsValue(s[..|s| - 1]) * 10 + (s[|s| - 1] as int - '0' as int)
  }

  /** The decimal rendering of `n`, as `format!("{}", n)` writes it. */
  function Decimal(n: nat): (s: string)
    ensures |s| >= 1 && AllDigits(s)
    decreases n
  {
    if n < 10 then [DigitChar(n)] else Decimal(n / 10) + [DigitChar(n % 10)]
  }

  /** Number of decimal digits of `n`. */
  function NumDigits(n: nat): (k: nat)
    decreases n
  {
    if n < 10 then 1 else 1 + NumDigits(n / 10)
  }

  lemma {:induction false} DecimalLength(n: nat)
    ensures |Decimal(n)| == NumDigits(n)
    decreases n
  {
    if n >= 10 {
      DecimalLength(n / 10);
    }
  }

  lemma {:induction false} DecimalValue(n: nat)
    ensures DigitsValue(Decimal(n)) == n
    decreases n
  {
    if n >= 10 {
      DecimalValue(n / 10);
      var s := Decimal(n);
      assert s[..|s| - 1] == Decimal(n / 10);
    }
  }

  /** A decimal rendering holds digits only. */
  lemma DecimalHasNo(n: nat, c: char)
    requires !IsDigit(c)
    ensures c !in Decimal(n)
  {
    var s := Decimal(n);
    forall i | 0 <= i < |s|
      ensures s[i] != c
    {
      assert IsDigit(s[i]);
    }
  }

  /**
   * `str::parse::<uN>()`, where `max` is the largest value of the unsigned
   * type: an optional leading '+', then one or more ASCII digits and nothing
   * else, with a value no larger than `max`.
   */
  function ParseUnsigned(s: string, max: nat): (r: Option<nat>)
    ensures r.Some? ==> r.value <= max
    ensures r.Some? ==> |s| >= 1 && (IsDigit(s[0]) || s[0] == '+')
  {
    var digits := if |s| > 0 && s[0] == '+' then s[1..] else s;
    if |digits| == 0 || !AllDigits(digits) then None
    else if DigitsValue(digits) <= max then Some(DigitsValue(digits))
    else None
  }

  /** Reading back what `Decimal` writes gives the number again. */
  lemma ParseDecimal(n: nat, max: nat)
    requires n <= max
    ensures ParseUnsigned(Decimal(n), max) == Some(n)
  {
    DecimalValue(n);
  }

  // ---------------------------------------------------------------------
  // Searching and splitting

  /** The position of the first `c` in `s`. */
  function IndexOf(s: string, c: char): (i: nat)
    requires c in s
    ensures i < |s| && s[i] == c && c !in s[..i]
    decreases |s|
  {
    if s[0] == c then 0
    else
      var j := IndexOf(s[1..], c);
      assert s[..j + 1] == [s[0]] + s[1..][..j];
      1 + j
  }

  /** The position of the last `c` in `s`. */
  function LastIndexOf(s: string, c: char): (i: nat)
    requires c in s
    ensures i < |s| && s[i] == c && c !in s[i + 1..]
    decreases |s|
  {
    if s[|s| - 1] == c then |s| - 1
    else
      assert c in s[..|s| - 1] by {
        var k :| 0 <= k < |s| && s[k] == c;
        assert s[..|s| - 1][k] == c;
      }
      var j := LastIndexOf(s[..|s| - 1], c);
      assert s[j + 1..] == s[..|s| - 1][j + 1..] + [s[|s| - 1]];
      j
  }

  predicate StartsWith(s: string, prefix: string)
  {
    |prefix| <= |s| && s[..|prefix|] == prefix
  }

  /** `str::strip_prefix`: the rest of `s` after `prefix`, if `s` starts with it. */
  function StripPrefix(s: string, prefix: string): (r: Option<string>)
    ensures r.Some? <==> StartsWith(s, prefix)
    ensures r.Some? ==> s == prefix + r.value
  {
    if StartsWith(s, prefix) then Some(s[|prefix|..]) else None
  }

  lemma StripPrefixOf(prefix: string, rest: string)
    ensures StripPrefix(prefix + rest, prefix) == Some(rest)
  {
    assert (prefix + rest)[..|prefix|] == prefix;
  }

  /** Concatenation regrouped: what follows `a` may be appended piece by piece. */
  lemma Regroup<T>(a: seq<T>, b: seq<T>, c: seq<T>, d: seq<T>)
    ensures a + (b + c + d) == a + b + c + d
  {
  }

  /** Three elements put in front one at a time. */
  lemma ConsThree<T>(a: T, b: T, c: T, t: seq<T>)
    ensures [a] + ([b] + ([c] + t)) == [a, b, c] + t
  {
  }

  /** A common front does not change whether one text starts with another. */
  lemma StartsWithAfter(a: string, b: string, c: string)
    requires StartsWith(b, c)
    ensures StartsWith(a + b, a + c)
  {
    assert (a + b)[..|a| + |c|] == a + b[..|c|];
  }

  /** `str::contains` with a text pattern. */
  predicate Contains(s: string, pattern: string)
    ensures Contains(s, pattern) ==> |pattern| <= |s|
    decreases |s|
  {
    StartsWith(s, pattern) || (|s| > 0 && Contains(s[1..], pattern))
  }

  /** `pattern` occurs in `s` starting at offset `i`. */
  predicate OccursAt(s: string, pattern: string, i: nat)
  {
    i + |pattern| <= |s| && s[i..i + |pattern|] == pattern
  }

  /** `Contains` holds exactly when the pattern occurs at some offset. */
  lemma {:induction false} ContainsAt(s: string, pattern: string)
    ensures Contains(s, pattern) <==> exists i: nat :: OccursAt(s, pattern, i)
    decreases |s|
  {
    if StartsWith(s, pattern) {
      assert OccursAt(s, pattern, 0);
    } else if |s| > 0 {
      ContainsAt(s[1..], pattern);
      if Contains(s[1..], pattern) {
        var i: nat :| OccursAt(s[1..], pattern, i);
        assert s[i + 1..i + 1 + |pattern|] == s[1..][i..i + |pattern|];
        assert OccursAt(s, pattern, i + 1);
      }
      if exists i: nat :: OccursAt(s, pattern, i) {
        var i: nat :| OccursAt(s, pattern, i);
        assert i != 0;
        assert s[1..][i - 1..i - 1 + |pattern|] == s[i..i + |pattern|];
        assert OccursAt(s[1..], pattern, i - 1);
      }
    }
  }

  /** The pieces joined back together with `sep` between them. */
  function Join(parts: seq<string>, sep: char): string
    decreases |parts|
  {
    if |parts| == 0 then []
    else if |parts| == 1 then parts[0]
    else parts[0] + [sep] + Join(parts[1..], sep)
  }

  /**
   * `str::split` on one character: every piece between two separators,
   * empty pieces included, so there is always at least one piece.
   */
  function Split(s: string, sep: char): (parts: seq<string>)
    ensures |parts| >= 1
    ensures forall i :: 0 <= i < |parts| ==> sep !in parts[i]
    ensures Join(parts, sep) == s
    decreases |s|
  {
    if sep !in s then [s]
    else
      var i := IndexOf(s, sep);
      var rest := Split(s[i + 1..], sep);
      assert s == s[..i] + [sep] + s[i + 1..];
      [s[..i]] + rest
  }

  /** Splitting text that was put together from separator-free pieces gives those pieces back. */
  lemma {:induction false} SplitJoin(parts: seq<string>, sep: char)
    requires |parts| >= 1
    requires forall i :: 0 <= i < |parts| ==> sep !in parts[i]
    ensures Split(Join(parts, sep), sep) == parts
    decreases |parts|
  {
    if |parts| > 1 {
      var s := Join(parts, sep);
      var rest := Join(parts[1..], sep);
      assert s == parts[0] + [sep] + rest;
      assert sep in s by { assert s[|parts[0]|] == sep; }
      var i := IndexOf(s, sep);
      assert s[..i] == parts[0];
      assert s[i + 1..] == rest;
      SplitJoin(parts[1..], sep);
    }
  }

  /** Joining starts with the first piece. */
  lemma {:induction false} JoinStartsWithFirst(parts: seq<string>, sep: char)
    requires |parts| >= 1
    ensures StartsWith(Join(parts, sep), parts[0])
  {
  }

  /** Joining with one more piece at the end appends the separator and that piece. */
  lemma {:induction false} JoinSnoc(parts: seq<string>, last: string, sep: char)
    requires |parts| >= 1
    ensures Join(parts + [last], sep) == Join(parts, sep) + [sep] + last
    decreases |parts|
  {
    if |parts| > 1 {
      assert (parts + [last])[1..] == parts[1..] + [last];
      JoinSnoc(parts[1..], last, sep);
    }
  }

  /** The first piece of a split is the text before the first separator. */
  lemma SplitFirst(a: string, b: string, sep: char)
    requires sep !in a
    ensures Split(a + [sep] + b, sep) == [a] + Split(b, sep)
  {
    var s := a + [sep] + b;
    assert s[|a|] == sep;
    var i := IndexOf(s, sep);
    assert s[..i] == a && s[i + 1..] == b;
  }

  /** The last piece of a split is the text after the last separator. */
  lemma SplitLast(a: string, b: string, sep: char)
    requires sep !in b
    ensures Split(a + [sep] + b, sep) == Split(a, sep) + [b]
  {
    var parts := Split(a, sep) + [b];
    JoinSnoc(Split(a, sep), b, sep);
    SplitJoin(parts, sep);
  }

  /** Drop one trailing '\r'. */
  function StripCR(line: string): (r: string)
    ensures r == line || (r + "\r" == line)
  {
    if |line| > 0 && line[|line| - 1] == '\r' then line[..|line| - 1] else line
  }

  /**
   * `str::lines`: the text cut after every '\n'; each piece loses its '\n'
   * and then one '\r' before it. A last piece without '\n' is kept as it is,
   * and text ending in '\n' has no empty last piece.
   */
  function Lines(s: string): (lines: seq<string>)
    ensures (lines == []) == (s == [])
    ensures forall i :: 0 <= i < |lines| ==> '\n' !in lines[i]
    decreases |s|
  {
    if s == [] then []
    else if '\n' !in s then [s]
    else
      var i := IndexOf(s, '\n');
      var line := StripCR(s[..i]);
      [line] + Lines(s[i + 1..])
  }

  /** The first line of `line + "\r\n" + rest` is `line`, the others are those of `rest`. */
  lemma LinesCRLF(line: string, rest: string)
    requires '\n' !in line
    ensures Lines(line + "\r\n" + rest) == [line] + Lines(rest)
  {
    var s := line + "\r\n" + rest;
    assert s[|line| + 1] == '\n';
    var i := IndexOf(s, '\n');
    assert s[..i] == line + "\r";
    assert s[i + 1..] == rest;
  }

  // ---------------------------------------------------------------------
  // UTF-8

  predicate IsContinuation(b: Byte)
  {
    0x80 <= b <= 0xBF
  }

  /**
   * The length of the well-formed UTF-8 character at the front of `bs` (the
   * table of well-formed byte sequences of the Unicode standard), or 0 if
   * it does not start with one.
   */
  function CharWidth(bs: seq<Byte>): (w: nat)
    requires bs != []
    ensures w <= |bs| && w <= 4
    ensures w == 1 <==> bs[0] < 0x80
  {
    var b := bs[0];
    if b < 0x80 then 1
    else if 0xC2 <= b <= 0xDF then
      if |bs| >= 2 && IsContinuation(bs[1]) then 2 else 0
    else if 0xE0 <= b <= 0xEF then
      if && |bs| >= 3
         && (if b == 0xE0 then 0xA0 <= bs[1] <= 0xBF
             else if b == 0xED then 0x80 <= bs[1] <= 0x9F
             else IsContinuation(bs[1]))
         && IsContinuation(bs[2])
      then 3 else 0
    else if 0xF0 <= b <= 0xF4 then
      if && |bs| >= 4
         && (if b == 0xF0 then 0x90 <= bs[1] <= 0xBF
             else if b == 0xF4 then 0x80 <= bs[1] <= 0x8F
             else IsContinuation(bs[1]))
         && IsContinuation(bs[2])
         && IsContinuation(bs[3])
      then 4 else 0
    else 0
  }

  /** Well-formed UTF-8, as `String::from_utf8` checks it: a sequence of well-formed characters. */
  predicate ValidUtf8(bs: seq<Byte>)
    decreases |bs|
  {
    bs == [] || (CharWidth(bs) > 0 && ValidUtf8(bs[CharWidth(bs)..]))
  }

  predicate IsAscii(bs: seq<Byte>)
  {
    forall i :: 0 <= i < |bs| ==> bs[i] < 0x80
  }

  /** Every ASCII byte sequence is well-formed UTF-8. */
  lemma {:induction false} AsciiIsUtf8(bs: seq<Byte>)
    requires IsAscii(bs)
    ensures ValidUtf8(bs)
    decreases |bs|
  {
    if bs != [] {
      assert IsAscii(bs[1..]) by {
        forall i | 0 <= i < |bs[1..]| ensures bs[1..][i] < 0x80 {
          assert bs[1..][i] == bs[i + 1];
        }
      }
      AsciiIsUtf8(bs[1..]);
    }
  }

  /** `str::is_char_boundary` on well-formed text: the end, or a byte that does not continue a character. */
  predicate IsCharBoundary(s: string, k: nat)
  {
    k == |s| || (k < |s| && !IsContinuation(ByteOf(s[k])))
  }
}
