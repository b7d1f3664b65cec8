/**
 * The pieces of the Java class library that the student record store relies on:
 * `String.split` with a one-character pattern, the `%d` conversion of `String.format`,
 * `Integer.parseInt` and `String.isBlank`.
 */
module JavaText {
  import opened Results

  /** Java's `int`. */
  type Int32 = x: int | -0x8000_0000 <= x < 0x8000_0000

  // ---------------------------------------------------------------------------
  // String.split
  // ---------------------------------------------------------------------------

  /** Glues parts back together with `d` between consecutive parts. */
  function Join(parts: seq<string>, d: char): string
  {
    if parts == [] then ""
    else if |parts| == 1 then parts[0]
    else parts[0] + [d] + Join(parts[1..], d)
  }

  /** Every piece of `s` between occurrences of `d`, empty pieces included. */
  function Pieces(s: string, d: char): (parts: seq<string>)
    ensures |parts| >= 1
    ensures forall i :: 0 <= i < |parts| ==> d !in parts[i]
    ensures Join(parts, d) == s
  {
    if s == [] then [""]
    else
      var rest := Pieces(s[1..], d);
      if s[0] == d then
        assert s == [d] + s[1..];
        [""] + rest
      else
        var parts := [[s[0]] + rest[0]] + rest[1..];
        assert |rest| > 1 ==> rest == [rest[0]] + rest[1..] && Join(rest, d) == rest[0] + [d] + Join(rest[1..], d);
        assert s == [s[0]] + s[1..];
        parts
  }

  /** Removes the empty strings at the end of `parts`. */
  function DropTrailingEmpty(parts: seq<string>): (r: seq<string>)
    ensures r <= parts
    ensures r == [] || r[|r| - 1] != ""
    ensures forall i :: |r| <= i < |parts| ==> parts[i] == ""
  {
    if parts != [] && parts[|parts| - 1] == "" then DropTrailingEmpty(parts[..|parts| - 1])
    else parts
  }

  /**
   * `s.split(d)` for a pattern that is one ordinary character: when `d` does not occur
   * the result is `s` alone (so `""` gives one empty part); otherwise it is the pieces
   * between occurrences of `d` with the trailing empty ones removed.
   */
  function Split(s: string, d: char): (parts: seq<string>)
    ensures forall i :: 0 <= i < |parts| ==> d !in parts[i]
    ensures d !in s ==> parts == [s]
    ensures d in s ==> parts == [] || parts[|parts| - 1] != ""
  {
    if d !in s then [s] else DropTrailingEmpty(Pieces(s, d))
  }

  lemma {:induction false} PiecesWithoutDelimiter(s: string, d: char)
    requires d !in s
    ensures Pieces(s, d) == [s]
  {
    if s != [] {
      PiecesWithoutDelimiter(s[1..], d);
      assert s == [s[0]] + s[1..];
    }
  }

  /** Pieces of two strings joined by the delimiter are the pieces of each, in order. */
  lemma {:induction false} PiecesConcat(t: string, e: string, d: char)
    ensures Pieces(t + [d] + e, d) == Pieces(t, d) + Pieces(e, d)
  {
    var s := t + [d] + e;
    if t == [] {
      assert s == [d] + e && s[1..] == e;
    } else {
      assert s[0] == t[0] && s[1..] == t[1..] + [d] + e;
      PiecesConcat(t[1..], e, d);
      var front := Pieces(t[1..], d);
      var rest := Pieces(s[1..], d);
      if t[0] == d {
        assert Pieces(s, d) == [""] + rest;
        assert Pieces(t, d) == [""] + front;
      } else {
        assert Pieces(s, d) == [[t[0]] + rest[0]] + rest[1..];
        assert Pieces(t, d) == [[t[0]] + front[0]] + front[1..];
        assert rest[0] == front[0] && rest[1..] == front[1..] + Pieces(e, d);
      }
    }
  }

  /** A string holding the delimiter splits into at least two pieces. */
  lemma PiecesOfDelimited(s: string, d: char)
    requires d in s
    ensures |Pieces(s, d)| >= 2
  {
  }

  /** Concatenation of four sequences regrouped to the left. */
  lemma Regroup<T>(w: seq<T>, x: seq<T>, y: seq<T>, z: seq<T>)
    ensures w + (x + (y + z)) == w + x + y + z
  {
  }

  /** The pieces of four strings joined by the delimiter are the pieces of each, in order. */
  lemma PiecesOfFourFields(a: string, b: string, c: string, e: string, d: char)
    ensures Pieces(a + [d] + b + [d] + c + [d] + e, d) == Pieces(a, d) + Pieces(b, d) + Pieces(c, d) + Pieces(e, d)
  {
    var fromC := c + [d] + e;
    var fromB := b + [d] + fromC;
    var whole := a + [d] + fromB;
    assert a + [d] + b + [d] + c + [d] + e == whole;
    var pa, pb, pc, pe := Pieces(a, d), Pieces(b, d), Pieces(c, d), Pieces(e, d);
    Regroup(pa, pb, pc, pe);
    assert Pieces(fromC, d) == pc + pe by { PiecesConcat(c, e, d); }
    assert Pieces(fromB, d) == pb + (pc + pe) by { PiecesConcat(b, fromC, d); }
    assert Pieces(whole, d) == pa + (pb + (pc + pe)) by { PiecesConcat(a, fromB, d); }
  }

  /**
   * The four comma-free fields `a`, `b`, `c`, `e` (the last one non-empty) joined by the
   * delimiter split back into exactly those fields.
   */
  lemma SplitFourFields(a: string, b: string, c: string, e: string, d: char)
    requires d !in a && d !in b && d !in c && d !in e && e != ""
    ensures Split(a + [d] + b + [d] + c + [d] + e, d) == [a, b, c, e]
  {
    var s := a + [d] + b + [d] + c + [d] + e;
    PiecesOfFourFields(a, b, c, e, d);
    PiecesWithoutDelimiter(a, d);
    PiecesWithoutDelimiter(b, d);
    PiecesWithoutDelimiter(c, d);
    PiecesWithoutDelimiter(e, d);
    assert Pieces(s, d) == [a, b, c, e];
    assert d in s by { assert s[|a|] == d; }
  }

  /**
   * A delimiter appended to a non-empty string changes nothing: the empty piece it
   * creates at the end is dropped.
   */
  lemma TrailingDelimiterIgnored(s: string, d: char)
    requires s != ""
    ensures Split(s + [d], d) == Split(s, d)
  {
    PiecesConcat(s, "", d);
    assert s + [d] + "" == s + [d];
    var ps := Pieces(s, d);
    assert Pieces(s + [d], d) == ps + [""];
    assert (ps + [""])[..|ps|] == ps;
    assert d in s + [d] by { assert (s + [d])[|s|] == d; }
    if d !in s {
      PiecesWithoutDelimiter(s, d);
    }
  }

  // ---------------------------------------------------------------------------
  // Decimal text: %d and Integer.parseInt
  // ---------------------------------------------------------------------------

  predicate IsDigit(c: char)
  {
    '0' <= c <= '9'
  }

  predicate AllDigits(s: string)
  {
    forall i :: 0 <= i < |s| ==> IsDigit(s[i])
  }

  function DigitChar(n: nat): (c: char)
    requires n < 10
    ensures IsDigit(c)
  {
    ('0' as int + n) as char
  }

  function DigitValue(c: char): nat
    requires IsDigit(c)
  {
    c as int - '0' as int
  }

  /** The digits of `n` in base 10, most significant first, without leading zeros. */
  function NatToDecimal(n: nat): (s: string)
    ensures |s| >= 1 && AllDigits(s)
    ensures s[0] == '0' ==> n == 0
  {
    if n < 10 then [DigitChar(n)] else NatToDecimal(n / 10) + [DigitChar(n % 10)]
  }

  /** The number written by a string of decimal digits. */
  function DecimalValue(s: string): nat
    requires AllDigits(s)
  {
    if s == [] then 0 else DecimalValue(s[..|s| - 1]) * 10 + DigitValue(s[|s| - 1])
  }

  /** The `%d` conversion: a minus sign for negative numbers, then the digits. */
  function FormatInt(n: int): (s: string)
    ensures s != "" && ',' !in s
    ensures s[0] == '-' <==> n < 0
    ensures var digits := if n < 0 then s[1..] else s;
            digits != "" && AllDigits(digits) && (digits[0] == '0' ==> n == 0)
  {
    if n < 0 then "-" + NatToDecimal(-n) else NatToDecimal(n)
  }

  /**
   * `Integer.parseInt(s)`: an optional `+` or `-`, then at least one decimal digit, and a
   * value that fits in an `int`; `None` stands for the NumberFormatException thrown otherwise.
   */
  function ParseInt(s: string): Option<Int32>
  {
    if |s| == 0 then None
    else
      var digits := if s[0] == '-' || s[0] == '+' then s[1..] else s;
      if |digits| == 0 || !AllDigits(digits) then None
      else
        var magnitude: int := DecimalValue(digits);
        var n := if s[0] == '-' then -magnitude else magnitude;
        if -0x8000_0000 <= n < 0x8000_0000 then Some(n) else None
  }

  lemma {:induction false} DecimalValueOfNatToDecimal(n: nat)
    ensures DecimalValue(NatToDecimal(n)) == n
  {
    var s := NatToDecimal(n);
    if n >= 10 {
      DecimalValueOfNatToDecimal(n / 10);
      assert s[..|s| - 1] == NatToDecimal(n / 10);
    }
  }

  /** Reading back what `%d` wrote gives the same `int`. */
  lemma ParseIntFormatInt(n: Int32)
    ensures ParseInt(FormatInt(n)) == Some(n)
  {
    var s := FormatInt(n);
    if n < 0 {
      var m: nat := -(n as int);
      DecimalValueOfNatToDecimal(m);
      assert s[1..] == NatToDecimal(m);
    } else {
      DecimalValueOfNatToDecimal(n);
      assert IsDigit(s[0]);
    }
  }

  /** `parseInt` rejects the empty string, a lone sign, and any other non-digit. */
  lemma ParseIntRejects(s: string)
    requires || s == "" || s == "-" || s == "+"
             || (|s| > 0 && !IsDigit(s[0]) && s[0] != '-' && s[0] != '+')
             || (exists i :: 0 < i < |s| && !IsDigit(s[i]))
    ensures ParseInt(s) == None
  {
    if |s| > 0 && (s[0] == '-' || s[0] == '+') && |s| > 1 && exists i :: 0 < i < |s| && !IsDigit(s[i]) {
      var i :| 0 < i < |s| && !IsDigit(s[i]);
      assert !IsDigit(s[1..][i - 1]);
    }
  }

  // ---------------------------------------------------------------------------
  // String.isBlank
  // ---------------------------------------------------------------------------

  /**
   * `Character.isWhitespace`: the controls TAB to CR and FS to US, and the Unicode space,
   * line and paragraph separators other than the no-break spaces U+00A0, U+2007, U+202F.
   */
  predicate IsWhitespace(c: char)
  {
    || ('\t' <= c <= '\r')
    || ('\U{1C}' <= c <= ' ')
    || c == '\U{1680}'
    || ('\U{2000}' <= c <= '\U{2006}')
    || ('\U{2008}' <= c <= '\U{200A}')
    || c == '\U{2028}' || c == '\U{2029}'
    || c == '\U{205F}' || c == '\U{3000}'
  }

  /** `s.isBlank()`, scanning from the front for a character that is not white space. */
  function IsBlank(s: string): (b: bool)
    ensures b <==> forall i :: 0 <= i < |s| ==> IsWhitespace(s[i])
  {
    if s == [] then true
    else if !IsWhitespace(s[0]) then false
    else
      var rest := IsBlank(s[1..]);
      assert forall i :: 1 <= i < |s| ==> s[i] == s[1..][i - 1];
      rest
  }
}
