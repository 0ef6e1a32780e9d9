/**
 * Whole-string matching as `String.matches` does it, for the small fragment of
 * java.util.regex the validators use: literal characters, bracket classes,
 * `\d`, `.`, the anchors `^` and `$`, and the quantifiers `*` and `+` applied
 * to a single character class. Matching backtracks, like Java's engine.
 */
module JavaRegex {
  import opened JavaLang

  /** A set of characters a single pattern position accepts. */
  datatype CharClass =
    | Exactly(c: char)                                    // a literal character, e.g. `\+`
    | Bracket(ranges: seq<(char, char)>, singles: string)  // `[a-zA-Z0-9_]`, `[!@#_$%^&*()]`, `\d`
    | AnyButLineTerminator                                 // `.` without DOTALL

  /** One element of a pattern. */
  datatype Term =
    | Begin            // `^`
    | End              // `$`
    | One(c: CharClass)
    | Star(c: CharClass)
    | Plus(c: CharClass)

  type Pattern = seq<Term>

  /** The characters `.` refuses by default: `\n`, `\r`, U+0085, U+2028 and U+2029. */
  predicate IsLineTerminator(ch: char)
  {
    ch == '\n' || ch == '\r' || ch == '\U{0085}' || ch == '\U{2028}' || ch == '\U{2029}'
  }

  predicate InRanges(ranges: seq<(char, char)>, ch: char)
  {
    exists k :: 0 <= k < |ranges| && ranges[k].0 <= ch <= ranges[k].1
  }

  predicate InClass(c: CharClass, ch: char)
  {
    match c
    case Exactly(x) => ch == x
    case Bracket(ranges, singles) => InRanges(ranges, ch) || ch in singles
    case AnyButLineTerminator => !IsLineTerminator(ch)
  }

  /** `$` without MULTILINE: at the end of the input, or before one final line terminator. */
  predicate AtEnd(s: string)
  {
    s == [] || s == "\r\n" || (|s| == 1 && IsLineTerminator(s[0]))
  }

  /**
   * Does pattern `p` match all of `s`? `atStart` says whether `s` begins at the
   * start of the input, which is where `^` matches.
   */
  function Match(p: Pattern, s: string, atStart: bool): bool
    decreases |p|, 1, |s|
  {
    if p == [] then s == []
    else match p[0]
      case Begin => atStart && Match(p[1..], s, atStart)
      case End => AtEnd(s) && Match(p[1..], s, atStart)
      case One(c) => s != [] && InClass(c, s[0]) && Match(p[1..], s[1..], false)
      case Star(c) => MatchStar(c, p[1..], s, atStart)
      case Plus(c) => s != [] && InClass(c, s[0]) && MatchStar(c, p[1..], s[1..], false)
  }

  /** `c*` followed by `rest` matches all of `s`: try every number of repetitions. */
  function MatchStar(c: CharClass, rest: Pattern, s: string, atStart: bool): bool
    decreases |rest| + 1, 0, |s|
  {
    Match(rest, s, atStart) || (s != [] && InClass(c, s[0]) && MatchStar(c, rest, s[1..], false))
  }

  /**
   * `s.matches(regex)`: the whole input must match. A pattern of single
   * character positions therefore accepts exactly the strings of its own
   * length whose every character is in the class at the same position.
   */
  predicate Matches(p: Pattern, s: string): (m: bool)
    ensures (forall k :: 0 <= k < |p| ==> p[k].One?) ==>
              (m <==> |s| == |p| && forall k :: 0 <= k < |s| ==> InClass(p[k].c, s[k]))
  {
    FixedLengthMatch(p, s, true);
    Match(p, s, true)
  }

  /** A pattern of single character positions matches character by character, and only the whole input. */
  lemma {:induction false} FixedLengthMatch(p: Pattern, s: string, atStart: bool)
    ensures (forall k :: 0 <= k < |p| ==> p[k].One?) ==>
              (Match(p, s, atStart) <==> |s| == |p| && forall k :: 0 <= k < |s| ==> InClass(p[k].c, s[k]))
    decreases |p|
  {
    if p != [] && (forall k :: 0 <= k < |p| ==> p[k].One?) {
      FixedLengthMatch(p[1..], if s == [] then s else s[1..], false);
      assert forall k :: 0 <= k < |p| - 1 ==> p[1..][k] == p[k + 1];
      if s != [] {
        assert forall k :: 0 <= k < |s| - 1 ==> s[1..][k] == s[k + 1];
        if |s| == |p| && InClass(p[0].c, s[0]) && forall k :: 0 <= k < |s| - 1 ==> InClass(p[1..][k].c, s[1..][k]) {
          forall k | 0 <= k < |s| ensures InClass(p[k].c, s[k]) {
            if k > 0 { assert InClass(p[1..][k - 1].c, s[1..][k - 1]); }
          }
        }
      }
    }
  }

  /** `n` copies of one term: the `{n}` quantifier. */
  function Repeat(t: Term, n: nat): (p: Pattern)
    ensures |p| == n && forall k :: 0 <= k < n ==> p[k] == t
  {
    if n == 0 then [] else [t] + Repeat(t, n - 1)
  }

  predicate AllIn(c: CharClass, s: string)
  {
    forall k :: 0 <= k < |s| ==> InClass(c, s[k])
  }

  /** What remains after `$` can only be matched by the empty input. */
  lemma EndThenNothing(s: string, atStart: bool)
    ensures Match([End], s, atStart) <==> s == []
  {
  }

  /** `c*` at the end of a pattern (or just before `$`) matches exactly the strings made of `c`. */
  lemma {:induction false} StarToEnd(c: CharClass, rest: Pattern, s: string, atStart: bool)
    requires rest == [] || rest == [End]
    ensures MatchStar(c, rest, s, atStart) <==> AllIn(c, s)
    decreases |s|
  {
    EndThenNothing(s, atStart);
    if s != [] {
      StarToEnd(c, rest, s[1..], false);
      assert AllIn(c, s) <==> InClass(c, s[0]) && AllIn(c, s[1..]) by {
        if InClass(c, s[0]) && AllIn(c, s[1..]) {
          forall k | 0 <= k < |s| ensures InClass(c, s[k]) {
            if k > 0 { assert s[k] == s[1..][k - 1]; }
          }
        }
      }
    }
  }

  /** `^c+$` matches exactly the non-empty strings made of `c`. */
  lemma OneOrMore(c: CharClass, s: string)
    ensures Matches([Begin, Plus(c), End], s) <==> s != [] && AllIn(c, s)
  {
    assert [Begin, Plus(c), End][1..] == [Plus(c), End];
    assert [Plus(c), End][1..] == [End];
    assert Matches([Begin, Plus(c), End], s) == Match([Plus(c), End], s, true);
    if s != [] {
      assert Match([Plus(c), End], s, true) == (InClass(c, s[0]) && MatchStar(c, [End], s[1..], false));
      StarToEnd(c, [End], s[1..], false);
      assert AllIn(c, s) <==> InClass(c, s[0]) && AllIn(c, s[1..]) by {
        if InClass(c, s[0]) && AllIn(c, s[1..]) {
          forall k | 0 <= k < |s| ensures InClass(c, s[k]) {
            if k > 0 { assert s[k] == s[1..][k - 1]; }
          }
        }
      }
    }
  }

  /** `s` has no line terminator: every character is accepted by `.`. */
  predicate SingleLine(s: string)
  {
    AllIn(AnyButLineTerminator, s)
  }

  /** Some character of `s` is in `c`. */
  predicate SomeIn(c: CharClass, s: string)
  {
    exists k :: 0 <= k < |s| && InClass(c, s[k])
  }

  /** `c.*` (the tail of `.*c.*`) matches exactly the single-line strings that start with a character of `c`. */
  lemma ClassThenDots(c: CharClass, s: string, atStart: bool)
    requires forall ch :: InClass(c, ch) ==> !IsLineTerminator(ch)
    ensures Match([One(c), Star(AnyButLineTerminator)], s, atStart)
            <==> s != [] && InClass(c, s[0]) && SingleLine(s)
  {
    var p := [One(c), Star(AnyButLineTerminator)];
    assert p[1..] == [Star(AnyButLineTerminator)];
    assert [Star(AnyButLineTerminator)][1..] == [];
    assert Match(p, s, atStart) == (s != [] && InClass(c, s[0]) && Match(p[1..], s[1..], false));
    if s != [] {
      assert Match(p[1..], s[1..], false) == MatchStar(AnyButLineTerminator, [], s[1..], false);
      StarToEnd(AnyButLineTerminator, [], s[1..], false);
      if InClass(c, s[0]) && SingleLine(s[1..]) {
        forall k | 0 <= k < |s| ensures !IsLineTerminator(s[k]) {
          if k > 0 { assert s[k] == s[1..][k - 1]; }
        }
      }
      if SingleLine(s) {
        forall k | 0 <= k < |s[1..]| ensures !IsLineTerminator(s[1..][k]) {
          assert s[1..][k] == s[k + 1];
        }
      }
    }
  }

  /** `.*c.*` matches exactly the single-line strings that hold a character of `c`. */
  lemma {:induction false} DotsClassDots(c: CharClass, s: string, atStart: bool)
    requires forall ch :: InClass(c, ch) ==> !IsLineTerminator(ch)
    ensures MatchStar(AnyButLineTerminator, [One(c), Star(AnyButLineTerminator)], s, atStart)
            <==> SingleLine(s) && SomeIn(c, s)
    decreases |s|
  {
    var tail := [One(c), Star(AnyButLineTerminator)];
    ClassThenDots(c, s, atStart);
    if s != [] {
      DotsClassDots(c, s[1..], false);
      if SingleLine(s) {
        forall k | 0 <= k < |s[1..]| ensures !IsLineTerminator(s[1..][k]) {
          assert s[1..][k] == s[k + 1];
        }
      }
      if SingleLine(s[1..]) && !IsLineTerminator(s[0]) {
        forall k | 0 <= k < |s| ensures !IsLineTerminator(s[k]) {
          if k > 0 { assert s[k] == s[1..][k - 1]; }
        }
      }
      if SomeIn(c, s[1..]) {
        var k :| 0 <= k < |s[1..]| && InClass(c, s[1..][k]);
        assert s[k + 1] == s[1..][k];
      }
      if SomeIn(c, s) && !InClass(c, s[0]) {
        var k :| 0 <= k < |s| && InClass(c, s[k]);
        assert k > 0 && s[1..][k - 1] == s[k];
      }
    }
  }

  /** `s.matches(".*c.*")` holds exactly for single-line strings holding a character of `c`. */
  lemma ContainsClass(c: CharClass, s: string)
    requires forall ch :: InClass(c, ch) ==> !IsLineTerminator(ch)
    ensures Matches([Star(AnyButLineTerminator), One(c), Star(AnyButLineTerminator)], s)
            <==> SingleLine(s) && SomeIn(c, s)
  {
    var p := [Star(AnyButLineTerminator), One(c), Star(AnyButLineTerminator)];
    assert p[1..] == [One(c), Star(AnyButLineTerminator)];
    DotsClassDots(c, s, true);
  }

  /** `c{n}` followed by `rest` matches exactly when the first `n` characters are in `c` and `rest` matches what follows. */
  lemma {:induction false} RepeatOne(c: CharClass, n: nat, rest: Pattern, s: string, atStart: bool)
    ensures Match(Repeat(One(c), n) + rest, s, atStart)
            <==> n <= |s| && (forall k :: 0 <= k < n ==> InClass(c, s[k]))
                 && Match(rest, s[n..], if n == 0 then atStart else false)
    decreases n
  {
    if n > 0 {
      var p := Repeat(One(c), n) + rest;
      assert p[0] == One(c);
      assert p[1..] == Repeat(One(c), n - 1) + rest;
      if s != [] {
        RepeatOne(c, n - 1, rest, s[1..], false);
        if n <= |s| {
          assert s[1..][n - 1..] == s[n..];
          if InClass(c, s[0]) && forall k :: 0 <= k < n - 1 ==> InClass(c, s[1..][k]) {
            forall k | 0 <= k < n ensures InClass(c, s[k]) {
              if k > 0 { assert s[k] == s[1..][k - 1]; }
            }
          }
        }
      }
    } else {
      assert Repeat(One(c), 0) + rest == rest;
    }
  }
}
