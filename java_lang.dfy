/**
 * The pieces of java.lang that the link builder relies on, stated as
 * functions: 32-bit `int` arithmetic, `Integer.toString`, and the
 * `String` operations `split`, `String.join`, `toLowerCase` and `trim`
 * (letters restricted to ASCII).
 */
module JavaLang {
  import opened Wrappers

  const INT_MIN: int := -0x8000_0000
  const INT_MAX: int := 0x7fff_ffff

  /** A Java `int`. */
  type Int32 = x: int | -0x8000_0000 <= x <= 0x7fff_ffff

  /** A Java `long`. */
  type Int64 = x: int | -0x8000_0000_0000_0000 <= x <= 0x7fff_ffff_ffff_ffff

  // ---------------------------------------------------------------------
  // int arithmetic
  // ---------------------------------------------------------------------

  /** Two's-complement wrap-around of a mathematical integer into an `int`. */
  function Wrap32(x: int): (r: Int32)
    ensures INT_MIN <= x <= INT_MAX ==> r == x
    ensures (x - r) % 0x1_0000_0000 == 0
  {
    var m := (x + 0x8000_0000) % 0x1_0000_0000;
    assert x - (m - 0x8000_0000) == ((x + 0x8000_0000) / 0x1_0000_0000) * 0x1_0000_0000;
    m - 0x8000_0000
  }

  /** Java's `a + b` on `int`: an overflow wraps around by 2^32. */
  function Add32(a: Int32, b: Int32): (r: Int32)
    ensures INT_MIN <= a + b <= INT_MAX ==> r == a + b
  {
    if a + b > INT_MAX then a + b - 0x1_0000_0000
    else if a + b < INT_MIN then a + b + 0x1_0000_0000
    else a + b
  }

  /** Java's `a - b` on `int`: an overflow wraps around by 2^32. */
  function Sub32(a: Int32, b: Int32): (r: Int32)
    ensures INT_MIN <= a - b <= INT_MAX ==> r == a - b
  {
    if a - b > INT_MAX then a - b - 0x1_0000_0000
    else if a - b < INT_MIN then a - b + 0x1_0000_0000
    else a - b
  }

  /** Both operations are two's-complement wrap-around of the exact result. */
  lemma WrapAround(a: Int32, b: Int32)
    ensures Add32(a, b) == Wrap32(a + b)
    ensures Sub32(a, b) == Wrap32(a - b)
  {
    WrapUnique(a + b, Add32(a, b));
    WrapUnique(a - b, Sub32(a, b));
  }

  /** An `int` that differs from `x` by a multiple of 2^32 is the wrap-around of `x`. */
  lemma WrapUnique(x: int, r: Int32)
    requires r == x || r == x - 0x1_0000_0000 || r == x + 0x1_0000_0000
    ensures r == Wrap32(x)
  {
    var w := Wrap32(x);
    assert (x - w) % 0x1_0000_0000 == 0;
  }

  // ---------------------------------------------------------------------
  // Integer.toString and its inverse
  // ---------------------------------------------------------------------

  predicate IsDigit(c: char) {
    '0' <= c <= '9'
  }

  predicate AllDigits(s: string) {
    forall i :: 0 <= i < |s| ==> IsDigit(s[i])
  }

  function DigitChar(d: int): (c: char)
    requires 0 <= d < 10
    ensures IsDigit(c) && c as int - '0' as int == d
  {
    ('0' as int + d) as char
  }

  /** The decimal digits of `n`, most significant first, without leading zeros. */
  function NatToDecimal(n: nat): (s: string)
    ensures |s| >= 1 && AllDigits(s)
    ensures s[0] == '0' ==> n == 0
    decreases n
  {
    if n < 10 then [DigitChar(n)] else NatToDecimal(n / 10) + [DigitChar(n % 10)]
  }

  /** `Integer.toString(n)`: a minus sign for negative values, then the digits. */
  function IntToString(n: int): (s: string)
    ensures |s| >= 1 && (s[0] == '-' <==> n < 0)
    ensures forall i :: 0 <= i < |s| ==> IsDigit(s[i]) || (i == 0 && s[i] == '-')
  {
    if n < 0 then "-" + NatToDecimal(-n) else NatToDecimal(n)
  }

  /** The value of a string of decimal digits. */
  function DigitsValue(s: string): nat
    requires AllDigits(s)
  {
    if |s| == 0 then 0 else DigitsValue(s[..|s| - 1]) * 10 + (s[|s| - 1] as int - '0' as int)
  }

  /** Reads back an optional minus sign followed by one or more decimal digits. */
  function ParseDecimal(s: string): (r: Option<int>)
    ensures r.Some? && 0 < |s| && s[0] != '-' ==> r.value >= 0
  {
    if |s| > 0 && s[0] == '-' then
      (if |s| > 1 && AllDigits(s[1..]) then Some(-(DigitsValue(s[1..]) as int)) else None)
    else if |s| > 0 && AllDigits(s) then Some(DigitsValue(s))
    else None
  }

  lemma {:induction false} NatToDecimalValue(n: nat)
    ensures DigitsValue(NatToDecimal(n)) == n
    decreases n
  {
    if n >= 10 {
      var s := NatToDecimal(n);
      NatToDecimalValue(n / 10);
      assert s[..|s| - 1] == NatToDecimal(n / 10);
    }
  }

  /** `Integer.toString` loses nothing: the decimal text reads back as the same integer. */
  lemma IntToStringRoundTrip(n: int)
    ensures ParseDecimal(IntToString(n)) == Some(n)
  {
    if n < 0 {
      var digits := NatToDecimal(-n);
      NatToDecimalValue(-n);
      var s := "-" + digits;
      assert s[0] == '-' && |s| > 1;
      assert s[1..] == digits;
      assert ParseDecimal(s) == Some(-(DigitsValue(digits) as int));
    } else {
      var digits := NatToDecimal(n);
      NatToDecimalValue(n);
      assert digits[0] != '-';
    }
  }

  // ---------------------------------------------------------------------
  // splitting and joining on a one-character separator
  // ---------------------------------------------------------------------

  /** Every piece between separators, empty pieces included; one piece more than there are separators. */
  function SplitAll(s: string, sep: char): (parts: seq<string>)
    ensures |parts| >= 1
    ensures forall i :: 0 <= i < |parts| ==> sep !in parts[i]
    ensures forall i, c :: 0 <= i < |parts| && c in parts[i] ==> c in s
  {
    if s == [] then [""]
    else
      var rest := SplitAll(s[1..], sep);
      assert forall c :: c in s[1..] ==> c in s;
      if s[0] == sep then [""] + rest
      else [[s[0]] + rest[0]] + rest[1..]
  }

  /** `String.join` with a one-character delimiter. */
  function Join(parts: seq<string>, sep: char): (r: string)
    ensures forall c :: c in r ==> c == sep || exists i :: 0 <= i < |parts| && c in parts[i]
  {
    if |parts| == 0 then ""
    else if |parts| == 1 then parts[0]
    else parts[0] + [sep] + Join(parts[1..], sep)
  }

  /** Joining the pieces again gives back the string that was split. */
  lemma {:induction false} JoinSplitAll(s: string, sep: char)
    ensures Join(SplitAll(s, sep), sep) == s
  {
    if s != [] {
      var rest := SplitAll(s[1..], sep);
      JoinSplitAll(s[1..], sep);
      if s[0] == sep {
        assert ([""] + rest)[1..] == rest;
      } else if |rest| > 1 {
        assert ([[s[0]] + rest[0]] + rest[1..])[1..] == rest[1..];
      }
    }
  }

  /** Splitting a piece without separators glued to a string extends that string's first piece. */
  lemma {:induction false} SplitAllPrefix(p: string, t: string, sep: char)
    requires sep !in p
    ensures SplitAll(p + t, sep) == [p + SplitAll(t, sep)[0]] + SplitAll(t, sep)[1..]
  {
    if p == [] {
      var parts := SplitAll(t, sep);
      assert p + t == t;
      assert p + parts[0] == parts[0];
      assert [parts[0]] + parts[1..] == parts;
    } else {
      assert (p + t)[0] == p[0];
      assert (p + t)[1..] == p[1..] + t;
      SplitAllPrefix(p[1..], t, sep);
      assert [p[0]] + (p[1..] + SplitAll(t, sep)[0]) == p + SplitAll(t, sep)[0];
    }
  }

  /** A leading separator contributes one empty piece. */
  lemma SplitAllSeparator(t: string, sep: char)
    ensures SplitAll([sep] + t, sep) == [""] + SplitAll(t, sep)
  {
    assert ([sep] + t)[1..] == t;
  }

  /** Splitting the joined pieces gives the pieces back, when none contains the separator. */
  lemma {:induction false} SplitAllJoin(parts: seq<string>, sep: char)
    requires |parts| >= 1
    requires forall i :: 0 <= i < |parts| ==> sep !in parts[i]
    ensures SplitAll(Join(parts, sep), sep) == parts
  {
    if |parts| == 1 {
      SplitAllPrefix(parts[0], "", sep);
      assert parts[0] + "" == parts[0];
    } else {
      var tail := Join(parts[1..], sep);
      SplitAllJoin(parts[1..], sep);
      assert Join(parts, sep) == parts[0] + ([sep] + tail);
      SplitAllPrefix(parts[0], [sep] + tail, sep);
      SplitAllSeparator(tail, sep);
      assert parts[0] + "" == parts[0];
      assert parts == [parts[0]] + parts[1..];
    }
  }

  /** Removes the empty strings at the end of a list of tokens. */
  function DropTrailingEmpty(parts: seq<string>): (r: seq<string>)
    ensures |r| <= |parts| && r == parts[..|r|]
    ensures r == [] || r[|r| - 1] != ""
    ensures forall k :: |r| <= k < |parts| ==> parts[k] == ""
  {
    if |parts| == 0 then []
    else if parts[|parts| - 1] == "" then DropTrailingEmpty(parts[..|parts| - 1])
    else parts
  }

  /**
   * `s.split(String.valueOf(sep))` for a separator that is not a regular
   * expression metacharacter: without any separator the result is `[s]`;
   * otherwise it is the list of pieces with the trailing empty ones removed
   * (leading empty pieces are kept).
   */
  function Split(s: string, sep: char): (tokens: seq<string>)
    ensures forall i :: 0 <= i < |tokens| ==> sep !in tokens[i]
    ensures forall i, c :: 0 <= i < |tokens| && c in tokens[i] ==> c in s
  {
    var parts := SplitAll(s, sep);
    if |parts| == 1 then parts else DropTrailingEmpty(parts)
  }

  /** Some character of `s` is not the separator. */
  predicate HasOther(s: string, sep: char) {
    exists j :: 0 <= j < |s| && s[j] != sep
  }

  /** Some separator of `s` is followed, somewhere later, by a character that is not the separator. */
  predicate SeparatorThenOther(s: string, sep: char) {
    exists i, j :: 0 <= i < j < |s| && s[i] == sep && s[j] != sep
  }

  /** Some piece at position `from` or later is non-empty. */
  predicate NonEmptyFrom(parts: seq<string>, from: nat) {
    exists k :: from <= k < |parts| && parts[k] != ""
  }

  lemma HasOtherCons(s: string, sep: char)
    requires s != []
    ensures HasOther(s, sep) <==> s[0] != sep || HasOther(s[1..], sep)
  {
    if HasOther(s, sep) && s[0] == sep {
      var j :| 0 <= j < |s| && s[j] != sep;
      assert s[1..][j - 1] != sep;
    }
    if HasOther(s[1..], sep) {
      var j :| 0 <= j < |s[1..]| && s[1..][j] != sep;
      assert s[j + 1] != sep;
    }
  }

  lemma SeparatorThenOtherCons(s: string, sep: char)
    requires s != []
    ensures SeparatorThenOther(s, sep) <==> (s[0] == sep && HasOther(s[1..], sep)) || SeparatorThenOther(s[1..], sep)
  {
    var t := s[1..];
    if SeparatorThenOther(s, sep) {
      var i, j :| 0 <= i < j < |s| && s[i] == sep && s[j] != sep;
      assert t[j - 1] != sep;
      if i > 0 {
        assert t[i - 1] == sep;
      }
    }
    if s[0] == sep && HasOther(t, sep) {
      var j :| 0 <= j < |t| && t[j] != sep;
      assert s[j + 1] != sep;
    }
    if SeparatorThenOther(t, sep) {
      var i, j :| 0 <= i < j < |t| && t[i] == sep && t[j] != sep;
      assert s[i + 1] == sep && s[j + 1] != sep;
    }
  }

  /** Putting a piece in front shifts the positions of the others by one. */
  lemma NonEmptyFromCons(x: string, rest: seq<string>, from: nat)
    ensures NonEmptyFrom([x] + rest, from + 1) <==> NonEmptyFrom(rest, from)
  {
    var parts := [x] + rest;
    if NonEmptyFrom(parts, from + 1) {
      var k :| from + 1 <= k < |parts| && parts[k] != "";
      assert rest[k - 1] != "";
    }
    if NonEmptyFrom(rest, from) {
      var k :| from <= k < |rest| && rest[k] != "";
      assert parts[k + 1] != "";
    }
  }

  /** Replacing the first piece does not change the later ones. */
  lemma NonEmptyFromReplaceFirst(x: string, rest: seq<string>)
    requires |rest| >= 1
    ensures NonEmptyFrom([x] + rest[1..], 1) <==> NonEmptyFrom(rest, 1)
  {
    NonEmptyFromCons(x, rest[1..], 0);
    NonEmptyFromCons(rest[0], rest[1..], 0);
    assert [rest[0]] + rest[1..] == rest;
  }

  /** Some piece is non-empty exactly when some character is not the separator. */
  lemma {:induction false} SplitAllSomeNonEmpty(s: string, sep: char)
    ensures NonEmptyFrom(SplitAll(s, sep), 0) <==> HasOther(s, sep)
  {
    if s == [] {
      assert SplitAll(s, sep) == [""];
    } else {
      var t := s[1..];
      var parts, rest := SplitAll(s, sep), SplitAll(t, sep);
      HasOtherCons(s, sep);
      if s[0] == sep {
        SplitAllSomeNonEmpty(t, sep);
        NonEmptyFromCons("", rest, 0);
        assert parts == [""] + rest;
        assert NonEmptyFrom(parts, 0) <==> NonEmptyFrom(parts, 1);
      } else {
        assert parts[0] == [s[0]] + rest[0];
        assert parts[0] != "";
      }
    }
  }

  /** A piece after the first is non-empty exactly when a separator is followed, somewhere later, by another character. */
  lemma {:induction false} SplitAllLaterNonEmpty(s: string, sep: char)
    ensures NonEmptyFrom(SplitAll(s, sep), 1) <==> SeparatorThenOther(s, sep)
  {
    if s == [] {
      assert SplitAll(s, sep) == [""];
    } else {
      var t := s[1..];
      var parts, rest := SplitAll(s, sep), SplitAll(t, sep);
      SeparatorThenOtherCons(s, sep);
      if s[0] == sep {
        SplitAllSomeNonEmpty(t, sep);
        NonEmptyFromCons("", rest, 0);
        assert parts == [""] + rest;
        if SeparatorThenOther(t, sep) {
          var i, j :| 0 <= i < j < |t| && t[i] == sep && t[j] != sep;
          assert HasOther(t, sep);
        }
      } else {
        SplitAllLaterNonEmpty(t, sep);
        NonEmptyFromReplaceFirst([s[0]] + rest[0], rest);
        assert parts == [[s[0]] + rest[0]] + rest[1..];
      }
    }
  }

  /**
   * `split` yields at least two tokens exactly when a separator is
   * followed, somewhere later, by a character other than the separator.
   */
  lemma SplitHasSecondToken(s: string, sep: char)
    ensures |Split(s, sep)| >= 2 <==> exists i, j :: 0 <= i < j < |s| && s[i] == sep && s[j] != sep
  {
    var parts := SplitAll(s, sep);
    SplitAllLaterNonEmpty(s, sep);
    if |parts| > 1 {
      var r := DropTrailingEmpty(parts);
      if |r| >= 2 {
        assert parts[|r| - 1] != "";
      }
      if NonEmptyFrom(parts, 1) {
        var k :| 1 <= k < |parts| && parts[k] != "";
        assert k < |r|;
      }
    }
  }

  // ---------------------------------------------------------------------
  // toLowerCase and trim
  // ---------------------------------------------------------------------

  predicate IsUpper(c: char) {
    'A' <= c <= 'Z'
  }

  /** `Character.toLowerCase` on ASCII: upper-case letters map to lower case, everything else is kept. */
  function LowerChar(c: char): (d: char)
    ensures !IsUpper(d)
    ensures !IsUpper(c) ==> d == c
    ensures IsUpper(c) ==> d as int == c as int + 32
  {
    if IsUpper(c) then (c as int + 32) as char else c
  }

  /** `String.toLowerCase`, letters restricted to ASCII. */
  function ToLower(s: string): (r: string)
    ensures |r| == |s|
    ensures forall i :: 0 <= i < |r| ==> !IsUpper(r[i])
    ensures forall i :: 0 <= i < |s| && !IsUpper(s[i]) ==> r[i] == s[i]
    ensures forall i :: 0 <= i < |s| && IsUpper(s[i]) ==> r[i] as int == s[i] as int + 32
  {
    seq(|s|, i requires 0 <= i < |s| => LowerChar(s[i]))
  }

  /** `String.trim` treats every character up to and including the space as white space. */
  predicate IsTrimmable(c: char) {
    c <= ' '
  }

  /** The number of white-space characters at the start of `s`. */
  function LeadingBlanks(s: string): (n: nat)
    ensures n <= |s|
    ensures forall k :: 0 <= k < n ==> IsTrimmable(s[k])
    ensures n == |s| || !IsTrimmable(s[n])
  {
    if |s| > 0 && IsTrimmable(s[0]) then 1 + LeadingBlanks(s[1..]) else 0
  }

  /** The number of white-space characters at the end of `s`. */
  function TrailingBlanks(s: string): (n: nat)
    ensures n <= |s|
    ensures forall k :: |s| - n <= k < |s| ==> IsTrimmable(s[k])
    ensures n == |s| || !IsTrimmable(s[|s| - n - 1])
  {
    if |s| > 0 && IsTrimmable(s[|s| - 1]) then 1 + TrailingBlanks(s[..|s| - 1]) else 0
  }

  /**
   * `String.trim`: the infix of `s` left after removing white space (every
   * character up to the space) at both ends. The infix is not empty only if
   * it starts and ends with a character that is not white space, which pins
   * it down.
   */
  function Trim(s: string): (r: string)
    ensures exists i, j :: 0 <= i <= j <= |s| && r == s[i..j]
                           && (forall k :: 0 <= k < i ==> IsTrimmable(s[k]))
                           && (forall k :: j <= k < |s| ==> IsTrimmable(s[k]))
    ensures r == "" || (!IsTrimmable(r[0]) && !IsTrimmable(r[|r| - 1]))
    ensures forall c :: c in r ==> c in s
    ensures (forall k :: 0 <= k < |s| ==> !IsTrimmable(s[k])) ==> r == s
    ensures (forall k :: 0 <= k < |s| ==> IsTrimmable(s[k])) ==> r == ""
  {
    var start := LeadingBlanks(s);
    var end := |s| - TrailingBlanks(s);
    if end <= start then
      assert s[|s|..|s|] == "";
      ""
    else
      assert s[0..|s|] == s;
      s[start..end]
  }

  /** `" ASC".toLowerCase()` is `" asc"`. */
  lemma ToLowerExample()
    ensures ToLower(" ASC") == " asc"
  {
    var lowered := ToLower(" ASC");
    assert |lowered| == 4;
    assert lowered[0] == ' ' && lowered[1] == 'a' && lowered[2] == 's' && lowered[3] == 'c';
  }

  /** `" asc".trim()` is `"asc"`. */
  lemma TrimExample()
    ensures Trim(" asc") == "asc"
  {
    assert " asc"[1..] == "asc";
    assert "asc"[2] == 'c';
  }
}
