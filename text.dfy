/** Bytes, Go string helpers and their laws: `strings.Split` on a one-byte
    separator, joining with "", `%d` formatting, `strconv.Atoi`, UTF-8
    encoding of a rune and `utf8.RuneCount`. */
module Text {
  import opened Wrappers

  /** A Go `byte`. */
  type byte = b: int | 0 <= b < 256

  const NEWLINE: byte := 10
  const COMMA: byte := 44

  /** Go's `math.MinInt64` and `math.MaxInt64`: the range of `int` on a 64-bit target. */
  const MIN_INT: int := -0x8000_0000_0000_0000
  const MAX_INT: int := 0x7FFF_FFFF_FFFF_FFFF

  /** Number of occurrences of `x` in `s`. */
  function Count(s: seq<byte>, x: byte): (n: nat)
    ensures n <= |s|
  {
    if s == [] then 0 else (if s[0] == x then 1 else 0) + Count(s[1..], x)
  }

  /** A byte occurs exactly when its count is positive. */
  lemma {:induction false} CountPositive(s: seq<byte>, x: byte)
    ensures (Count(s, x) > 0) == (x in s)
  {
    if s != [] {
      CountPositive(s[1..], x);
      assert x in s <==> s[0] == x || x in s[1..];
    }
  }

  /** Counts add up over a concatenation. */
  lemma {:induction false} CountAppend(a: seq<byte>, b: seq<byte>, x: byte)
    ensures Count(a + b, x) == Count(a, x) + Count(b, x)
    decreases |a|
  {
    if a == [] {
      assert a + b == b;
    } else {
      assert (a + b)[1..] == a[1..] + b;
      CountAppend(a[1..], b, x);
    }
  }

  /** Appending one byte adds one to its own count and nothing to the others. */
  lemma {:induction false} CountSnoc(s: seq<byte>, y: byte, x: byte)
    ensures Count(s + [y], x) == Count(s, x) + (if y == x then 1 else 0)
  {
    if s != [] {
      assert (s + [y])[1..] == s[1..] + [y];
      CountSnoc(s[1..], y, x);
    }
  }

  // ---------------------------------------------------------------------
  // strings.Split(s, sep) and strings.Join(parts, "")
  // ---------------------------------------------------------------------

  /** `strings.Split(s, string(sep))`: the pieces between occurrences of `sep`;
      the empty input gives one empty piece. */
  function Split(s: seq<byte>, sep: byte): (r: seq<seq<byte>>)
    ensures |r| == Count(s, sep) + 1
    ensures forall k :: 0 <= k < |r| ==> sep !in r[k]
    decreases |s|
  {
    if s == [] then [[]]
    else
      var rest := Split(s[1..], sep);
      if s[0] == sep then [[]] + rest
      else [[s[0]] + rest[0]] + rest[1..]
  }

  /** The last piece is empty exactly when the input is empty or ends in
      the separator. */
  lemma {:induction false} SplitLastEmpty(s: seq<byte>, sep: byte)
    ensures var r := Split(s, sep); (r[|r| - 1] == []) == (s == [] || s[|s| - 1] == sep)
    decreases |s|
  {
    if s != [] {
      var t := s[1..];
      var rest := Split(t, sep);
      if t != [] {
        assert s[|s| - 1] == t[|t| - 1];
      }
      if s[0] == sep {
        SplitLastEmpty(t, sep);
      } else if |rest| >= 2 {
        SplitLastEmpty(t, sep);
      } else {
        CountPositive(t, sep);
        assert sep !in t;
        if t != [] {
          assert t[|t| - 1] in t;
        }
      }
    }
  }

  /** `strings.Join(parts, "")`. */
  function Join(parts: seq<seq<byte>>): seq<byte>
  {
    if parts == [] then [] else parts[0] + Join(parts[1..])
  }

  lemma {:induction false} SplitNoSeparator(s: seq<byte>, sep: byte)
    requires sep !in s
    ensures Split(s, sep) == [s]
    decreases |s|
  {
    if s != [] {
      SplitNoSeparator(s[1..], sep);
      assert [s[0]] + s[1..] == s;
    }
  }

  /** Splitting a piece followed by the separator peels that piece off. */
  lemma {:induction false} SplitCons(a: seq<byte>, sep: byte, b: seq<byte>)
    requires sep !in a
    ensures Split(a + [sep] + b, sep) == [a] + Split(b, sep)
    decreases |a|
  {
    if a == [] {
      assert a + [sep] + b == [sep] + b;
      assert ([sep] + b)[1..] == b;
    } else {
      var s := a + [sep] + b;
      assert s[0] == a[0] && s[1..] == a[1..] + [sep] + b;
      SplitCons(a[1..], sep, b);
      assert [a[0]] + a[1..] == a;
    }
  }

  /** Joining a single piece gives that piece. */
  lemma {:induction false} JoinSingle(s: seq<byte>)
    ensures Join([s]) == s
  {
    assert [s][1..] == [];
  }

  /** `s` with every occurrence of `x` deleted. */
  function Remove(s: seq<byte>, x: byte): (r: seq<byte>)
    ensures x !in r && |r| == |s| - Count(s, x)
  {
    if s == [] then [] else (if s[0] == x then [] else [s[0]]) + Remove(s[1..], x)
  }

  /** Deleting a byte from a sequence it ends, and does not otherwise hold,
      leaves the rest. */
  lemma {:induction false} RemoveLast(s: seq<byte>, x: byte)
    requires x !in s
    ensures Remove(s + [x], x) == s
    decreases |s|
  {
    if s == [] {
      assert Remove([x], x) == [] + Remove([], x);
    } else {
      assert (s + [x])[1..] == s[1..] + [x];
      RemoveLast(s[1..], x);
      assert [s[0]] + s[1..] == s;
    }
  }

  /** Splitting on a byte and joining the pieces with "" deletes that byte. */
  lemma {:induction false} JoinSplit(s: seq<byte>, sep: byte)
    ensures Join(Split(s, sep)) == Remove(s, sep)
    decreases |s|
  {
    if s == [] {
      assert Join([[]]) == [] + Join([]);
    } else {
      JoinSplit(s[1..], sep);
      var rest := Split(s[1..], sep);
      if s[0] == sep {
        assert ([[]] + rest)[1..] == rest;
      } else {
        assert ([[s[0]] + rest[0]] + rest[1..])[1..] == rest[1..];
        assert Join(rest) == rest[0] + Join(rest[1..]);
      }
    }
  }

  // ---------------------------------------------------------------------
  // fmt "%d" and strconv.Atoi
  // ---------------------------------------------------------------------

  predicate IsDigit(b: byte) { 48 <= b <= 57 }

  /** `fmt.Sprintf("%d", n)` for a non-negative `n`. */
  function Decimal(n: nat): (r: seq<byte>)
    ensures |r| >= 1 && forall k :: 0 <= k < |r| ==> IsDigit(r[k])
  {
    if n < 10 then [48 + n] else Decimal(n / 10) + [48 + n % 10]
  }

  /** The value of a string of decimal digits, most significant first. */
  function DigitsValue(d: seq<byte>): nat
    requires forall k :: 0 <= k < |d| ==> IsDigit(d[k])
  {
    if d == [] then 0
    else
      assert IsDigit(d[|d| - 1]);
      DigitsValue(d[..|d| - 1]) * 10 + (d[|d| - 1] - 48)
  }

  /** `strconv.Atoi` on a 64-bit target: an optional sign, then one or more
      decimal digits, whose value must fit in an `int`. Anything else
      (empty, a lone sign, another byte, out of range) is an error. */
  function Atoi(s: seq<byte>): (r: Option<int>)
    ensures r.Some? ==> MIN_INT <= r.value <= MAX_INT
    ensures r.Some? ==> |s| >= 1 && IsDigit(s[|s| - 1])
  {
    if s == [] then None
    else
      var negative := s[0] == 45;
      var digits := if s[0] == 43 || s[0] == 45 then s[1..] else s;
      if digits == [] || exists k :: 0 <= k < |digits| && !IsDigit(digits[k]) then None
      else
        var v := DigitsValue(digits);
        var n: int := if negative then -(v as int) else v;
        if MIN_INT <= n <= MAX_INT then Some(n) else None
  }

  lemma {:induction false} DigitsOfDecimal(n: nat)
    ensures DigitsValue(Decimal(n)) == n
  {
    if n >= 10 {
      DigitsOfDecimal(n / 10);
      var d := Decimal(n);
      assert d[..|d| - 1] == Decimal(n / 10);
    }
  }

  /** `%d` followed by `strconv.Atoi` gives the number back. */
  lemma AtoiDecimal(n: nat)
    requires n <= MAX_INT
    ensures Atoi(Decimal(n)) == Some(n)
  {
    DigitsOfDecimal(n);
  }

  // ---------------------------------------------------------------------
  // UTF-8
  // ---------------------------------------------------------------------

  /** The UTF-8 encoding of one rune (what `%c` and `%s` write). */
  function Utf8(c: char): (r: seq<byte>)
    ensures 1 <= |r| <= 4
    ensures (|r| == 1) == (c as int < 0x80)
    ensures |r| == 1 ==> r[0] == c as int
  {
    var n := c as int;
    if n < 0x80 then [n]
    else if n < 0x800 then [0xC0 + n / 64, 0x80 + n % 64]
    else if n < 0x10000 then [0xE0 + n / 4096, 0x80 + (n / 64) % 64, 0x80 + n % 64]
    else [0xF0 + n / 0x40000, 0x80 + (n / 4096) % 64, 0x80 + (n / 64) % 64, 0x80 + n % 64]
  }

  /** The bytes of a Go string whose runes are `s`. */
  function Utf8String(s: string): seq<byte>
  {
    if s == [] then [] else Utf8(s[0]) + Utf8String(s[1..])
  }

  predicate IsAscii(s: string) { forall k :: 0 <= k < |s| ==> s[k] as int < 0x80 }

  /** The bytes of a string read back one byte per character; for ASCII
      text this undoes `Utf8String`. */
  function Latin1(b: seq<byte>): (s: string)
    ensures |s| == |b| && forall k :: 0 <= k < |b| ==> s[k] as int == b[k]
  {
    if b == [] then [] else [b[0] as char] + Latin1(b[1..])
  }

  lemma {:induction false} AsciiUtf8(s: string)
    requires IsAscii(s)
    ensures |Utf8String(s)| == |s|
    ensures forall k :: 0 <= k < |s| ==> Utf8String(s)[k] == s[k] as int
    ensures Latin1(Utf8String(s)) == s
  {
    if s != [] {
      assert IsAscii(s[1..]) by {
        assert forall k :: 0 <= k < |s[1..]| ==> s[1..][k] == s[k + 1];
      }
      AsciiUtf8(s[1..]);
      var b, rest := Utf8String(s), Utf8String(s[1..]);
      assert b == [s[0] as int] + rest;
      assert b[1..] == rest;
      forall k | 0 <= k < |s|
        ensures b[k] == s[k] as int
      {
        if k > 0 {
          assert b[k] == rest[k - 1];
        }
      }
      assert Latin1(b) == [s[0]] + Latin1(rest);
    }
  }

  /** The length of the rune that `utf8.DecodeRune` reads at the front of a
      non-empty byte string: 1 for ASCII and for every invalid or truncated
      sequence, otherwise 2, 3 or 4, following Go's first-byte table and
      accept ranges for the second byte. */
  function RuneSize(s: seq<byte>): (n: nat)
    requires |s| >= 1
    ensures 1 <= n <= |s| && n <= 4
  {
    var b0 := s[0];
    if b0 < 0xC2 || b0 > 0xF4 then 1
    else
      var size := if b0 < 0xE0 then 2 else if b0 < 0xF0 then 3 else 4;
      var lo := if b0 == 0xE0 then 0xA0 else if b0 == 0xF0 then 0x90 else 0x80;
      var hi := if b0 == 0xED then 0x9F else if b0 == 0xF4 then 0x8F else 0xBF;
      if |s| < size then 1
      else if s[1] < lo || s[1] > hi then 1
      else if size == 2 then 2
      else if s[2] < 0x80 || s[2] > 0xBF then 1
      else if size == 3 then 3
      else if s[3] < 0x80 || s[3] > 0xBF then 1
      else 4
  }

  /** `utf8.RuneCount`, the length of `bytes.Runes`: the number of decode
      steps needed to consume the bytes. */
  function RuneCount(s: seq<byte>): (n: nat)
    ensures n <= |s|
    ensures (n == 0) == (s == [])
    decreases |s|
  {
    if s == [] then 0 else 1 + RuneCount(s[RuneSize(s)..])
  }

  /** Go decodes the UTF-8 encoding of a rune in exactly as many bytes as it has. */
  lemma RuneSizeOfUtf8(c: char, rest: seq<byte>)
    ensures RuneSize(Utf8(c) + rest) == |Utf8(c)|
  {
    var n := c as int;
    assert n < 0xD800 || 0xE000 <= n <= 0x10FFFF;
  }

  /** Counting the runes of a string's UTF-8 bytes gives its length. */
  lemma {:induction false} RuneCountOfUtf8(s: string)
    ensures RuneCount(Utf8String(s)) == |s|
  {
    if s != [] {
      var b := Utf8String(s);
      RuneSizeOfUtf8(s[0], Utf8String(s[1..]));
      assert b[|Utf8(s[0])|..] == Utf8String(s[1..]);
      RuneCountOfUtf8(s[1..]);
    }
  }
}
