/**
 * String helpers the handlers rely on: Rust's `str::split` / `join` over a
 * one-character separator, `starts_with`, `find`, decimal formatting of
 * integers (`format!("{}", n)`) and the two decimal parsers in play
 * (SQLite comparing a text id with an integer column, and `str::parse::<i32>`).
 */
module Text {
  import opened Basics

  predicate StartsWith(s: string, prefix: string) {
    |prefix| <= |s| && s[..|prefix|] == prefix
  }

  /** `sub` occurs in `s` starting at index `i`. */
  predicate OccursAt(s: string, sub: string, i: int) {
    0 <= i && i + |sub| <= |s| && s[i..i + |sub|] == sub
  }

  /** `s.find(sub).is_some()` */
  predicate Contains(s: string, sub: string) {
    exists i | 0 <= i <= |s| - |sub| :: OccursAt(s, sub, i)
  }

  // ---------------------------------------------------------------------
  // split / join
  // ---------------------------------------------------------------------

  /**
   * `s.split(sep)`: the pieces between separators, in order. Like Rust's,
   * it never yields an empty list (the empty string splits into `[""]`).
   */
  function Split(s: string, sep: char): (r: seq<string>)
    ensures |r| >= 1
    ensures forall i :: 0 <= i < |r| ==> sep !in r[i]
  {
    if s == [] then [""]
    else
      var rest := Split(s[1..], sep);
      if s[0] == sep then [""] + rest
      else [[s[0]] + rest[0]] + rest[1..]
  }

  /** `xs.join(sep)` */
  function Join(xs: seq<string>, sep: char): string {
    if xs == [] then ""
    else if |xs| == 1 then xs[0]
    else xs[0] + [sep] + Join(xs[1..], sep)
  }

  /** Joining the pieces of a split gives back the string. */
  lemma {:induction false} JoinSplit(s: string, sep: char)
    ensures Join(Split(s, sep), sep) == s
  {
    if s != [] {
      JoinSplit(s[1..], sep);
      var rest := Split(s[1..], sep);
      if s[0] == sep {
        assert Split(s, sep) == [""] + rest;
        assert ([""] + rest)[1..] == rest;
      } else {
        if |rest| > 1 {
          assert Join(rest, sep) == rest[0] + [sep] + Join(rest[1..], sep);
        }
        assert s == [s[0]] + s[1..];
      }
    }
  }

  /** A piece free of the separator splits into itself. */
  lemma {:induction false} SplitNoSep(x: string, sep: char)
    requires sep !in x
    ensures Split(x, sep) == [x]
  {
    if x != [] {
      SplitNoSep(x[1..], sep);
      assert x == [x[0]] + x[1..];
    }
  }

  /** Splitting `x + sep + t` peels `x` off the front when `x` holds no separator. */
  lemma {:induction false} SplitAfterPiece(x: string, t: string, sep: char)
    requires sep !in x
    ensures Split(x + [sep] + t, sep) == [x] + Split(t, sep)
  {
    if x == [] {
      assert [] + [sep] + t == [sep] + t;
      assert ([sep] + t)[1..] == t;
    } else {
      SplitAfterPiece(x[1..], t, sep);
      var s := x + [sep] + t;
      assert s[1..] == x[1..] + [sep] + t;
      assert [x[0]] + x[1..] == x;
    }
  }

  /** Splitting a join of separator-free pieces gives back the pieces. */
  lemma {:induction false} SplitJoin(xs: seq<string>, sep: char)
    requires |xs| >= 1
    requires forall i :: 0 <= i < |xs| ==> sep !in xs[i]
    ensures Split(Join(xs, sep), sep) == xs
  {
    if |xs| == 1 {
      SplitNoSep(xs[0], sep);
    } else {
      SplitJoin(xs[1..], sep);
      SplitAfterPiece(xs[0], Join(xs[1..], sep), sep);
      assert [xs[0]] + xs[1..] == xs;
    }
  }

  /** Appending `sep + t` to a string adds exactly one piece, `t`, at the end. */
  lemma {:induction false} SplitAppend(s: string, t: string, sep: char)
    requires sep !in t
    ensures Split(s + [sep] + t, sep) == Split(s, sep) + [t]
  {
    if s == [] {
      SplitAfterPiece([], t, sep);
      SplitNoSep(t, sep);
    } else {
      var u := s + [sep] + t;
      assert u[0] == s[0] && u[1..] == s[1..] + [sep] + t;
      SplitAppend(s[1..], t, sep);
      var rest := Split(s[1..], sep);
      if s[0] == sep {
        assert Split(u, sep) == [""] + (rest + [t]);
      } else {
        assert (rest + [t])[0] == rest[0];
        assert (rest + [t])[1..] == rest[1..] + [t];
        assert Split(u, sep) == [[s[0]] + rest[0]] + (rest[1..] + [t]);
      }
    }
  }

  /**
   * The first piece of a split is the longest separator-free prefix: it is a
   * prefix of `s`, followed either by the end of `s` or by a separator.
   */
  lemma {:induction false} SplitHead(s: string, sep: char)
    ensures StartsWith(s, Split(s, sep)[0])
    ensures var h := Split(s, sep)[0]; |h| == |s| || s[|h|] == sep
  {
    if s != [] && s[0] != sep {
      SplitHead(s[1..], sep);
    }
  }

  /** The text before the first separator: the first piece of a split, computed directly. */
  function FirstPiece(s: string, sep: char): string {
    if s == [] || s[0] == sep then [] else [s[0]] + FirstPiece(s[1..], sep)
  }

  /** `FirstPiece` is the first piece `split` yields. */
  lemma {:induction false} FirstPieceOfSplit(s: string, sep: char)
    ensures FirstPiece(s, sep) == Split(s, sep)[0]
  {
    if s != [] && s[0] != sep {
      FirstPieceOfSplit(s[1..], sep);
    }
  }

  /** `FirstPiece` is a separator-free prefix, followed by the end or by the separator. */
  lemma FirstPieceSpec(s: string, sep: char)
    ensures StartsWith(s, FirstPiece(s, sep))
    ensures sep !in FirstPiece(s, sep)
    ensures |FirstPiece(s, sep)| == |s| || s[|FirstPiece(s, sep)|] == sep
  {
    FirstPieceOfSplit(s, sep);
    SplitHead(s, sep);
  }

  // ---------------------------------------------------------------------
  // decimal integers
  // ---------------------------------------------------------------------

  const I32Max: int := 0x7fff_ffff
  const I32Min: int := -0x8000_0000

  predicate IsDigit(c: char) {
    '0' <= c <= '9'
  }

  predicate AllDigits(s: string) {
    forall i :: 0 <= i < |s| ==> IsDigit(s[i])
  }

  function DigitValue(c: char): (d: nat)
    requires IsDigit(c)
    ensures d < 10
  {
    c as int - '0' as int
  }

  function DigitChar(d: nat): (c: char)
    requires d < 10
    ensures IsDigit(c) && DigitValue(c) == d
  {
    ('0' as int + d) as char
  }

  /** `format!("{}", n)` for a non-negative integer: no sign, no leading zero. */
  function NatToString(n: nat): (r: string)
    ensures |r| >= 1 && AllDigits(r)
    ensures |r| > 1 ==> r[0] != '0'
  {
    if n < 10 then [DigitChar(n)] else NatToString(n / 10) + [DigitChar(n % 10)]
  }

  /** `format!("{}", n)` for any integer. */
  function IntToString(n: int): (r: string)
    ensures |r| >= 1
    ensures n >= 0 ==> r == NatToString(n)
    ensures n < 0 ==> r == "-" + NatToString(-n)
  {
    if n < 0 then "-" + NatToString(-n) else NatToString(n)
  }

  /** The value of a run of decimal digits, most significant first. */
  function DigitsValue(s: string): nat
    requires AllDigits(s)
  {
    if s == [] then 0 else DigitsValue(s[..|s| - 1]) * 10 + DigitValue(s[|s| - 1])
  }

  /** Formatting a number in decimal and reading it back gives the number. */
  lemma {:induction false} NatToStringRoundTrip(n: nat)
    ensures DigitsValue(NatToString(n)) == n
  {
    if n >= 10 {
      NatToStringRoundTrip(n / 10);
      var s := NatToString(n);
      assert s[..|s| - 1] == NatToString(n / 10);
    }
  }

  /** A formatted id is a single piece of a comma-joined list. */
  lemma DigitsHaveNoComma(s: string)
    requires AllDigits(s)
    ensures ',' !in s
  {
  }

  /**
   * A text value compared with an integer column: SQLite turns a well-formed
   * unsigned decimal literal into the integer it denotes; any other text
   * matches no integer id.
   */
  function ParseDecimal(s: string): (r: Option<nat>)
    ensures r.Some? <==> |s| >= 1 && AllDigits(s)
    ensures r.Some? ==> r.value == DigitsValue(s)
  {
    if |s| >= 1 && AllDigits(s) then Some(DigitsValue(s)) else None
  }

  /** The id written by `format!("{}", id)` is found again by the lookup. */
  lemma ParseDecimalRoundTrip(n: nat)
    ensures ParseDecimal(NatToString(n)) == Some(n)
  {
    NatToStringRoundTrip(n);
  }

  /**
   * `s.parse::<i32>()`: an optional `+` or `-`, then one or more decimal
   * digits, whose value must lie in the 32-bit signed range.
   */
  function ParseI32(s: string): (r: Option<int>)
    ensures r.Some? ==> I32Min <= r.value <= I32Max
    ensures |s| >= 1 && AllDigits(s) ==>
              r == if DigitsValue(s) <= I32Max then Some(DigitsValue(s)) else None
    ensures |s| >= 2 && s[0] == '+' && AllDigits(s[1..]) ==>
              r == if DigitsValue(s[1..]) <= I32Max then Some(DigitsValue(s[1..])) else None
    ensures |s| >= 2 && s[0] == '-' && AllDigits(s[1..]) ==>
              r == if DigitsValue(s[1..]) <= -I32Min then Some(-(DigitsValue(s[1..]) as int)) else None
    ensures r.Some? ==> |s| >= 1 && IsDigit(s[|s| - 1]) && forall i | 1 <= i < |s| :: IsDigit(s[i])
  {
    var negative := |s| >= 1 && s[0] == '-';
    var digits := if |s| >= 1 && (s[0] == '+' || s[0] == '-') then s[1..] else s;
    if |digits| == 0 || !AllDigits(digits) then None
    else
      var v: int := if negative then -(DigitsValue(digits) as int) else DigitsValue(digits);
      if I32Min <= v <= I32Max then Some(v) else None
  }

  /** An i32 written by `format!("{}", n)` parses back to itself. */
  lemma ParseI32RoundTrip(n: int)
    requires I32Min <= n <= I32Max
    ensures ParseI32(IntToString(n)) == Some(n)
  {
    if n < 0 {
      NatToStringRoundTrip(-n);
      assert IntToString(n)[1..] == NatToString(-n);
    } else {
      NatToStringRoundTrip(n);
    }
  }
}
