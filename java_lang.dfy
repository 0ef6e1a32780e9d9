/**
 * The parts of java.lang that the chat core leans on, stated in Dafny's terms:
 * references that may be null, the 32-bit `int`, and the `String` methods
 * `length`, `contains`, `trim`, `split("\\s+")`, `toUpperCase` and `Integer.toString`.
 */
module JavaLang {

  /** A Java reference that may be null: `None` is `null`. */
  datatype Option<+T> = None | Some(value: T)

  /** String concatenation renders a null reference as the four characters `null`. */
  function ValueOf(s: Option<string>): (r: string)
    ensures s.Some? ==> r == s.value
    ensures r == "null" <==> s.None? || s.value == "null"
  {
    if s.None? then "null" else s.value
  }

  // ---------------------------------------------------------------------
  // int
  // ---------------------------------------------------------------------

  const INT_MIN: int := -0x8000_0000
  const INT_MAX: int := 0x7fff_ffff

  /** Java's `int`: 32-bit two's complement. */
  newtype int32 = x: int | -0x8000_0000 <= x < 0x8000_0000

  /** `x++` on an `int`: two's-complement addition of one, so INT_MAX wraps to INT_MIN. */
  function Increment(x: int32): (r: int32)
    ensures r as int == (x as int + 1 - INT_MIN) % 0x1_0000_0000 + INT_MIN
  {
    if x == 0x7fff_ffff then -0x8000_0000 else x + 1
  }

  // ---------------------------------------------------------------------
  // String.length
  // ---------------------------------------------------------------------

  /** A character outside the Basic Multilingual Plane, which UTF-16 stores as a surrogate pair. */
  predicate IsSupplementary(c: char)
  {
    c > '\U{FFFF}'
  }

  /** No character of `s` needs a surrogate pair. */
  predicate InBasicPlane(s: string)
  {
    forall k :: 0 <= k < |s| ==> !IsSupplementary(s[k])
  }

  /**
   * `s.length()`: the number of UTF-16 code units, one per character of the
   * Basic Multilingual Plane and two per supplementary character.
   */
  function Utf16Length(s: string): (n: nat)
    ensures |s| <= n <= 2 * |s|
    decreases |s|
  {
    if s == [] then 0 else (if IsSupplementary(s[0]) then 2 else 1) + Utf16Length(s[1..])
  }

  /** `length()` counts the characters exactly when none of them needs a surrogate pair. */
  lemma {:induction false} Utf16LengthBasicPlane(s: string)
    ensures Utf16Length(s) == |s| <==> InBasicPlane(s)
    decreases |s|
  {
    if s != [] {
      Utf16LengthBasicPlane(s[1..]);
      if !IsSupplementary(s[0]) && InBasicPlane(s[1..]) {
        forall k | 0 < k < |s| ensures !IsSupplementary(s[k]) {
          assert s[k] == s[1..][k - 1];
        }
      }
    }
  }

  // ---------------------------------------------------------------------
  // String.contains
  // ---------------------------------------------------------------------

  /** `t` occurs in `s` starting at index `i`. */
  predicate OccursAt(s: string, t: string, i: int)
  {
    0 <= i && i + |t| <= |s| && s[i..i + |t|] == t
  }

  /** `s.contains(t)`. */
  predicate Contains(s: string, t: string): (c: bool)
    ensures c ==> |t| <= |s|
    ensures t <= s ==> c
  {
    assert t <= s ==> OccursAt(s, t, 0);
    exists i :: 0 <= i <= |s| - |t| && OccursAt(s, t, i)
  }

  /** `s.contains(String.valueOf(c))` holds exactly when `c` is one of the characters of `s`. */
  lemma ContainsChar(s: string, c: char)
    ensures Contains(s, [c]) <==> c in s
  {
    if c in s {
      var i :| 0 <= i < |s| && s[i] == c;
      assert s[i..i + 1] == [c];
      assert OccursAt(s, [c], i);
    }
    if Contains(s, [c]) {
      var i :| 0 <= i <= |s| - 1 && OccursAt(s, [c], i);
      assert s[i..i + 1] == [c];
      assert s[i] == c;
    }
  }

  /** A string contains every string it is built around. */
  lemma ContainsInfix(p: string, t: string, q: string)
    ensures Contains(p + t + q, t)
  {
    var s := p + t + q;
    assert s[|p|..|p| + |t|] == t;
    assert OccursAt(s, t, |p|);
  }

  /** Containment is transitive. */
  lemma ContainsTransitive(s: string, t: string, u: string)
    requires Contains(s, t) && Contains(t, u)
    ensures Contains(s, u)
  {
    var i :| 0 <= i <= |s| - |t| && OccursAt(s, t, i);
    var j :| 0 <= j <= |t| - |u| && OccursAt(t, u, j);
    forall k | 0 <= k < |u|
      ensures s[i + j + k] == u[k]
    {
      assert t[j + k] == u[k];
      assert s[i + (j + k)] == t[j + k];
    }
    assert s[i + j..i + j + |u|] == u;
    assert OccursAt(s, u, i + j);
  }

  /** Whatever contains `t + x` contains `t`. */
  lemma ContainsPrefixOfNeedle(s: string, t: string, x: string)
    requires Contains(s, t + x)
    ensures Contains(s, t)
  {
    var i :| 0 <= i <= |s| - |t + x| && OccursAt(s, t + x, i);
    assert s[i..i + |t|] == s[i..i + |t + x|][..|t|];
    assert OccursAt(s, t, i);
  }

  /** `s` cannot contain `t` when some character of `t` is missing from `s`. */
  lemma NotContainsMissingChar(s: string, t: string, c: char)
    requires c in t && c !in s
    ensures !Contains(s, t)
  {
    var k :| 0 <= k < |t| && t[k] == c;
    forall i | 0 <= i <= |s| - |t|
      ensures !OccursAt(s, t, i)
    {
      assert s[i..i + |t|][k] == s[i + k] != c;
    }
  }

  /**
   * When the first character of `t` appears in `s` only at index 0, and `s`
   * does not start with `t`, then `t` does not occur in `s` at all.
   */
  lemma NotContainsLeadingCharOnlyAtStart(s: string, t: string)
    requires t != [] && s != []
    requires t[0] !in s[1..]
    requires !(|t| <= |s| && s[..|t|] == t)
    ensures !Contains(s, t)
  {
    forall i | 0 <= i <= |s| - |t|
      ensures !OccursAt(s, t, i)
    {
      if i == 0 {
        assert s[i..i + |t|] == s[..|t|];
      } else {
        assert s[i..i + |t|][0] == s[i] == s[1..][i - 1] != t[0];
      }
    }
  }

  /**
   * A string free of `sep` that occurs in neither of two parts does not occur in
   * them joined by `sep`: it cannot span the separator.
   */
  lemma NotContainsAcrossSeparator(a: string, sep: char, b: string, t: string)
    requires sep !in t && !Contains(a, t) && !Contains(b, t)
    ensures !Contains(a + [sep] + b, t)
  {
    var s := a + [sep] + b;
    forall i | 0 <= i <= |s| - |t|
      ensures !OccursAt(s, t, i)
    {
      if i + |t| <= |a| {
        assert s[i..i + |t|] == a[i..i + |t|];
        assert !OccursAt(a, t, i);
      } else if i > |a| {
        var j := i - |a| - 1;
        assert s[i..i + |t|] == b[j..j + |t|];
        assert !OccursAt(b, t, j);
      } else {
        assert s[i..i + |t|][|a| - i] == sep;
      }
    }
  }

  // ---------------------------------------------------------------------
  // String.trim
  // ---------------------------------------------------------------------

  /** The characters `String.trim` removes: every code point up to U+0020. */
  predicate IsTrimmed(c: char)
  {
    c <= ' '
  }

  /** The first index at or after `i` whose character `trim` keeps, or `|s|`. */
  function TrimStartIndex(s: string, i: nat): (st: nat)
    requires i <= |s|
    ensures i <= st <= |s|
    ensures st < |s| ==> !IsTrimmed(s[st])
    ensures forall k :: i <= k < st ==> IsTrimmed(s[k])
    decreases |s| - i
  {
    if i < |s| && IsTrimmed(s[i]) then TrimStartIndex(s, i + 1) else i
  }

  /** Lowers `len` past the trailing characters `trim` removes, never below `st`. */
  function TrimEndIndex(s: string, st: nat, len: nat): (e: nat)
    requires st <= len <= |s|
    ensures st <= e <= len
    ensures st < e ==> !IsTrimmed(s[e - 1])
    ensures forall k :: e <= k < len ==> IsTrimmed(s[k])
    decreases len
  {
    if st < len && IsTrimmed(s[len - 1]) then TrimEndIndex(s, st, len - 1) else len
  }

  /**
   * `s.trim()`: the infix of `s` left after dropping the characters up to
   * U+0020 at both ends; it neither starts nor ends with such a character.
   */
  function Trim(s: string): (r: string)
    ensures r == [] || (!IsTrimmed(r[0]) && !IsTrimmed(r[|r| - 1]))
    ensures var st := TrimStartIndex(s, 0);
            && st + |r| <= |s| && r == s[st..st + |r|]
            && (forall k :: 0 <= k < st ==> IsTrimmed(s[k]))
            && (forall k :: st + |r| <= k < |s| ==> IsTrimmed(s[k]))
  {
    var st := TrimStartIndex(s, 0);
    var len := TrimEndIndex(s, st, |s|);
    s[st..len]
  }

  /** `trim` leaves a string alone when its first and last characters are above U+0020. */
  lemma TrimKeeps(s: string)
    requires s == [] || (!IsTrimmed(s[0]) && !IsTrimmed(s[|s| - 1]))
    ensures Trim(s) == s
  {
    assert TrimStartIndex(s, 0) == 0;
    assert s[0..|s|] == s;
  }

  /** `trim` of a string made only of characters up to U+0020 is empty. */
  lemma TrimBlank(s: string)
    requires forall k :: 0 <= k < |s| ==> IsTrimmed(s[k])
    ensures Trim(s) == []
  {
  }

  // ---------------------------------------------------------------------
  // String.split("\\s+")
  // ---------------------------------------------------------------------

  /** The regular-expression class `\s`: space, tab, newline, vertical tab, form feed, carriage return. */
  predicate IsWhitespace(c: char)
  {
    c == ' ' || c == '\t' || c == '\n' || c == '\U{000B}' || c == '\U{000C}' || c == '\r'
  }

  predicate NoWhitespace(s: string)
  {
    forall k :: 0 <= k < |s| ==> !IsWhitespace(s[k])
  }

  /** Index of the first `\s` character of `s`, or `|s|` when there is none. */
  function FirstWhitespace(s: string): (i: nat)
    ensures i <= |s|
    ensures i < |s| ==> IsWhitespace(s[i])
    ensures forall k :: 0 <= k < i ==> !IsWhitespace(s[k])
    decreases |s|
  {
    if s == [] then 0
    else if IsWhitespace(s[0]) then 0
    else 1 + FirstWhitespace(s[1..])
  }

  /** Index just past the run of `\s` characters that starts at `i`. */
  function EndOfRun(s: string, i: nat): (j: nat)
    requires i <= |s|
    ensures i <= j <= |s|
    ensures forall k :: i <= k < j ==> IsWhitespace(s[k])
    ensures j < |s| ==> !IsWhitespace(s[j])
    decreases |s| - i
  {
    if i < |s| && IsWhitespace(s[i]) then EndOfRun(s, i + 1) else i
  }

  /** The pieces between the maximal runs of `\s`, empty pieces included. */
  function SplitPieces(s: string): (r: seq<string>)
    ensures |r| >= 1
    ensures forall k :: 0 <= k < |r| ==> NoWhitespace(r[k])
    decreases |s|
  {
    var i := FirstWhitespace(s);
    if i == |s| then [s]
    else [s[..i]] + SplitPieces(s[EndOfRun(s, i)..])
  }

  /** What `split` does with a limit of zero: trailing empty strings are removed. */
  function DropTrailingEmpty(r: seq<string>): (q: seq<string>)
    ensures |q| <= |r| && q == r[..|q|]
    ensures q == [] || q[|q| - 1] != []
  {
    if r == [] then []
    else if r[|r| - 1] == [] then DropTrailingEmpty(r[..|r| - 1])
    else r
  }

  /**
   * `s.split("\\s+")`: when nothing matches the whole string comes back as the
   * one element; otherwise the pieces between the runs, less trailing empty ones.
   */
  function SplitOnWhitespace(s: string): (words: seq<string>)
    ensures forall k :: 0 <= k < |words| ==> NoWhitespace(words[k])
    ensures NoWhitespace(s) ==> words == [s]
    ensures !NoWhitespace(s) ==> words == [] || words[|words| - 1] != []
  {
    if FirstWhitespace(s) == |s| then [s]
    else DropTrailingEmpty(SplitPieces(s))
  }

  /** A string that neither starts nor ends with `\s`, and is not empty. */
  predicate IsWordRun(s: string)
  {
    s != [] && !IsWhitespace(s[0]) && !IsWhitespace(s[|s| - 1])
  }

  /** The first piece is the text before the first whitespace character. */
  lemma FirstPiece(s: string)
    ensures SplitPieces(s)[0] == s[..FirstWhitespace(s)]
  {
  }

  /** After the run of whitespace inside a word run, what remains is again a word run. */
  lemma RestOfWordRun(s: string)
    requires IsWordRun(s) && FirstWhitespace(s) < |s|
    ensures 0 < FirstWhitespace(s) < EndOfRun(s, FirstWhitespace(s)) < |s|
    ensures IsWordRun(s[EndOfRun(s, FirstWhitespace(s))..])
  {
    var i := FirstWhitespace(s);
    var j := EndOfRun(s, i);
  }

  /** Splitting a word run gives non-empty pieces free of whitespace. */
  lemma {:induction false} PiecesOfWordRun(s: string)
    requires IsWordRun(s)
    ensures forall k :: 0 <= k < |SplitPieces(s)| ==> SplitPieces(s)[k] != [] && NoWhitespace(SplitPieces(s)[k])
    decreases |s|
  {
    var i := FirstWhitespace(s);
    if i < |s| {
      RestOfWordRun(s);
      var rest := s[EndOfRun(s, i)..];
      PiecesOfWordRun(rest);
      assert SplitPieces(s) == [s[..i]] + SplitPieces(rest);
    } else {
      assert s[..i] == s;
    }
  }

  /** `w` is a suffix of `s` that is either all of `s` or preceded by a whitespace character. */
  predicate IsTrailingWord(w: string, s: string)
  {
    |w| <= |s| && w == s[|s| - |w|..] && (|w| == |s| || IsWhitespace(s[|s| - |w| - 1]))
  }

  /** A trailing word of what follows a whitespace character is a trailing word of the whole. */
  lemma TrailingWordOfRest(s: string, j: nat, w: string)
    requires 0 < j <= |s| && IsWhitespace(s[j - 1])
    requires IsTrailingWord(w, s[j..])
    ensures IsTrailingWord(w, s)
  {
    var rest := s[j..];
    assert rest[|rest| - |w|..] == s[|s| - |w|..];
    if |w| < |rest| {
      assert s[|s| - |w| - 1] == rest[|rest| - |w| - 1];
    }
  }

  /** Splitting at the first whitespace run: the piece before it, then the pieces of the rest. */
  lemma SplitPiecesStep(s: string)
    requires FirstWhitespace(s) < |s|
    ensures SplitPieces(s) == [s[..FirstWhitespace(s)]] + SplitPieces(s[EndOfRun(s, FirstWhitespace(s))..])
  {
  }

  /** The last piece of a word run is a trailing word of it. */
  lemma {:induction false} LastPieceOfWordRun(s: string)
    requires IsWordRun(s)
    ensures IsTrailingWord(SplitPieces(s)[|SplitPieces(s)| - 1], s)
    decreases |s|
  {
    var i := FirstWhitespace(s);
    if i < |s| {
      var j := EndOfRun(s, i);
      assert 0 < i < j < |s| && IsWordRun(s[j..]) by { RestOfWordRun(s); }
      var rest := s[j..];
      var last := SplitPieces(rest)[|SplitPieces(rest)| - 1];
      assert IsTrailingWord(last, rest) by { LastPieceOfWordRun(rest); }
      assert SplitPieces(s)[|SplitPieces(s)| - 1] == last by { SplitPiecesStep(s); }
      assert IsWhitespace(s[j - 1]);
      TrailingWordOfRest(s, j, last);
    } else {
      assert SplitPieces(s) == [s];
      assert s[|s| - |s|..] == s;
    }
  }

  /** For a string as `trim` leaves it, `split("\\s+")` returns exactly the pieces between whitespace runs. */
  lemma SplitOfWordRun(s: string)
    requires IsWordRun(s)
    ensures SplitOnWhitespace(s) == SplitPieces(s)
  {
    PiecesOfWordRun(s);
  }

  /** `"".split("\\s+")` is the one-element array holding `""`. */
  lemma SplitOfEmpty()
    ensures SplitOnWhitespace("") == [""]
  {
  }

  // ---------------------------------------------------------------------
  // String.toUpperCase (ASCII letters)
  // ---------------------------------------------------------------------

  predicate IsAsciiLower(c: char)
  {
    'a' <= c <= 'z'
  }

  function UpperChar(c: char): char
  {
    if IsAsciiLower(c) then (c as int - 'a' as int + 'A' as int) as char else c
  }

  /** `s.toUpperCase()` restricted to ASCII: `a`-`z` become `A`-`Z`, everything else is kept. */
  function ToUpper(s: string): (r: string)
    ensures |r| == |s|
    ensures forall k :: 0 <= k < |s| ==> !IsAsciiLower(r[k])
    ensures forall k :: 0 <= k < |s| && !IsAsciiLower(s[k]) ==> r[k] == s[k]
  {
    seq(|s|, k requires 0 <= k < |s| => UpperChar(s[k]))
  }

  /** Upper-casing works character by character, so it distributes over concatenation. */
  lemma ToUpperConcat(a: string, b: string)
    ensures ToUpper(a + b) == ToUpper(a) + ToUpper(b)
  {
  }

  // ---------------------------------------------------------------------
  // Integer.toString
  // ---------------------------------------------------------------------

  predicate IsAsciiDigit(c: char)
  {
    '0' <= c <= '9'
  }

  predicate AllAsciiDigits(s: string)
  {
    forall k :: 0 <= k < |s| ==> IsAsciiDigit(s[k])
  }

  function DigitChar(d: nat): char
    requires d < 10
  {
    ('0' as int + d) as char
  }

  /** Decimal notation of a natural number, without leading zeros. */
  function NatToDecimal(n: nat): (r: string)
    ensures r != [] && AllAsciiDigits(r)
    ensures n < 10 <==> |r| == 1
    decreases n
  {
    if n < 10 then [DigitChar(n)] else NatToDecimal(n / 10) + [DigitChar(n % 10)]
  }

  /** `Integer.toString(n)`: a minus sign for negative numbers, then the decimal digits of the magnitude. */
  function IntToDecimal(n: int): (r: string)
    ensures r != [] && (r[0] == '-' <==> n < 0)
    ensures forall k :: 0 <= k < |r| ==> IsAsciiDigit(r[k]) || (k == 0 && n < 0)
  {
    if n < 0 then "-" + NatToDecimal(-n) else NatToDecimal(n)
  }

  /** The value of a string of decimal digits. */
  function DecimalValue(s: string): nat
    requires AllAsciiDigits(s)
  {
    if s == [] then 0 else 10 * DecimalValue(s[..|s| - 1]) + (s[|s| - 1] as int - '0' as int)
  }

  /** Reads back what `IntToDecimal` writes (the inverse of `Integer.toString`). */
  function ParseDecimal(s: string): int
  {
    if s != [] && s[0] == '-' && AllAsciiDigits(s[1..]) then -(DecimalValue(s[1..]) as int)
    else if AllAsciiDigits(s) then DecimalValue(s)
    else 0
  }

  lemma {:induction false} NatToDecimalRoundTrip(n: nat)
    ensures DecimalValue(NatToDecimal(n)) == n
    decreases n
  {
    if n >= 10 {
      NatToDecimalRoundTrip(n / 10);
      var r := NatToDecimal(n);
      assert r[..|r| - 1] == NatToDecimal(n / 10);
    }
  }

  /** `Integer.toString` loses nothing: parsing its output gives the number back. */
  lemma IntToDecimalRoundTrip(n: int)
    ensures ParseDecimal(IntToDecimal(n)) == n
    ensures forall k :: 0 <= k < |IntToDecimal(n)| ==> IntToDecimal(n)[k] != ':'
  {
    if n < 0 {
      var d := NatToDecimal(-n);
      assert DecimalValue(d) == -n by { NatToDecimalRoundTrip(-n); }
      var s := "-" + d;
      assert s[0] == '-' && s[1..] == d;
      assert IntToDecimal(n) == s;
      assert forall k :: 0 < k < |s| ==> s[k] == d[k - 1];
    } else {
      var d := NatToDecimal(n);
      assert DecimalValue(d) == n by { NatToDecimalRoundTrip(n); }
      assert IsAsciiDigit(d[0]);
      assert IntToDecimal(n) == d;
    }
  }
}
