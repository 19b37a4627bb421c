/** The fragment of ECMAScript regular expressions (ECMA-262, section 22.2)
    that the profile validators use, with a whole-string matching semantics:
    every pattern in backend/users/index.js is anchored with `^...$` and has
    no flags, so `re.test(s)` holds exactly when the pattern matches all of `s`. */
module Regex {
  import opened Strings

  /** A character class: `[a-z0-9\-]`, `[^\s@]`, or `.` (anything but a line terminator). */
  datatype CharClass =
    | Among(ranges: seq<(char, char)>)
    | NoneOf(ranges: seq<(char, char)>)
    | AnyExceptLineTerminator

  /** A pattern. `Text(w)` is literal text (`linkedin\.com\/`), `Rep(r, lo, hi)` is `r{lo,hi}`. */
  datatype Regex =
    | Eps
    | Text(w: string)
    | Char(cl: CharClass)
    | Cat(left: Regex, right: Regex)
    | Alt(left: Regex, right: Regex)
    | Star(body: Regex)
    | Rep(body: Regex, lo: nat, hi: nat)

  predicate InRanges(c: char, ranges: seq<(char, char)>) {
    exists k | 0 <= k < |ranges| :: ranges[k].0 <= c <= ranges[k].1
  }

  /** The LineTerminator code points of ECMA-262, section 12.3. */
  predicate IsLineTerminator(c: char) {
    c == '\n' || c == '\r' || c == '\U{2028}' || c == '\U{2029}'
  }

  /** The code points `\s` stands for: WhiteSpace (section 12.2, the Zs
      category included) and LineTerminator (section 12.3) of ECMA-262. */
  const WhitespaceRanges: seq<(char, char)> := [
    ('\t', '\r'), (' ', ' '), ('\U{00A0}', '\U{00A0}'), ('\U{1680}', '\U{1680}'),
    ('\U{2000}', '\U{200A}'), ('\U{2028}', '\U{2029}'), ('\U{202F}', '\U{202F}'),
    ('\U{205F}', '\U{205F}'), ('\U{3000}', '\U{3000}'), ('\U{FEFF}', '\U{FEFF}')]

  predicate InClass(c: char, cl: CharClass) {
    match cl
    case Among(ranges) => InRanges(c, ranges)
    case NoneOf(ranges) => !InRanges(c, ranges)
    case AnyExceptLineTerminator => !IsLineTerminator(c)
  }

  /** Every character of `s` belongs to `cl`. */
  predicate AllIn(s: string, cl: CharClass) {
    forall i | 0 <= i < |s| :: InClass(s[i], cl)
  }

  /** `r` matches the whole of `s`. Each iteration of `*` and `{lo,hi}`
      consumes at least one character; for the bodies used here (single
      character classes) this is the ECMAScript semantics. */
  ghost predicate Matches(r: Regex, s: string)
    decreases |s|, r
  {
    match r
    case Eps => s == []
    case Text(w) => s == w
    case Char(cl) => |s| == 1 && InClass(s[0], cl)
    case Cat(a, b) => exists i | 0 <= i <= |s| :: Matches(a, s[..i]) && Matches(b, s[i..])
    case Alt(a, b) => Matches(a, s) || Matches(b, s)
    case Star(a) => s == [] || exists i | 1 <= i <= |s| :: Matches(a, s[..i]) && Matches(r, s[i..])
    case Rep(a, lo, hi) =>
      if s == [] then lo == 0
      else hi > 0 && exists i | 1 <= i <= |s| ::
        Matches(a, s[..i]) && Matches(Rep(a, if lo == 0 then 0 else lo - 1, hi - 1), s[i..])
  }

  /** `r?` */
  function Opt(r: Regex): Regex {
    Alt(r, Eps)
  }

  /** `r+` */
  function Plus(r: Regex): Regex {
    Cat(r, Star(r))
  }

  // ------------------------------------------------------------ meaning of the building blocks

  /** A character class followed by `r`. */
  lemma CatCharLeft(cl: CharClass, r: Regex, s: string)
    ensures Matches(Cat(Char(cl), r), s) <==> |s| >= 1 && InClass(s[0], cl) && Matches(r, s[1..])
  {
    if |s| >= 1 && InClass(s[0], cl) && Matches(r, s[1..]) {
      assert Matches(Char(cl), s[..1]);
    }
  }

  /** Literal text `w` followed by `r` matches `s` exactly when `s` starts
      with `w` and `r` matches the rest. */
  lemma CatText(w: string, r: Regex, s: string)
    ensures Matches(Cat(Text(w), r), s) <==> HasPrefix(s, w) && Matches(r, s[|w|..])
  {
    if HasPrefix(s, w) && Matches(r, s[|w|..]) {
      assert Matches(Text(w), s[..|w|]);
    }
  }

  /** An optional `a` followed by `b`. */
  lemma CatOpt(a: Regex, b: Regex, s: string)
    ensures Matches(Cat(Opt(a), b), s) <==> Matches(b, s) || Matches(Cat(a, b), s)
  {
    if Matches(b, s) {
      assert s[..0] == [] && s[0..] == s;
      assert Matches(Opt(a), s[..0]);
    }
    if Matches(Cat(Opt(a), b), s) {
      var i :| 0 <= i <= |s| && Matches(Opt(a), s[..i]) && Matches(b, s[i..]);
      if !Matches(a, s[..i]) {
        assert Matches(Eps, s[..i]);
        assert i == 0;
        assert s[i..] == s;
      }
    }
  }

  /** `[cl]{lo,hi}` matches the strings of `lo` to `hi` characters of `cl`. */
  lemma {:induction false} RepClassMeaning(cl: CharClass, lo: nat, hi: nat, s: string)
    ensures Matches(Rep(Char(cl), lo, hi), s) <==> lo <= |s| <= hi && AllIn(s, cl)
    decreases |s|
  {
    if s != [] {
      var lo' := if lo == 0 then 0 else lo - 1;
      if hi > 0 {
        RepClassMeaning(cl, lo', hi - 1, s[1..]);
      }
      if Matches(Rep(Char(cl), lo, hi), s) {
        var i :| 1 <= i <= |s| && Matches(Char(cl), s[..i]) && Matches(Rep(Char(cl), lo', hi - 1), s[i..]);
        assert i == 1;
        assert forall k | 1 <= k < |s| :: s[k] == s[1..][k - 1];
      }
      if lo <= |s| <= hi && AllIn(s, cl) {
        assert Matches(Char(cl), s[..1]);
        assert AllIn(s[1..], cl) by {
          assert forall k | 0 <= k < |s| - 1 :: s[1..][k] == s[k + 1];
        }
      }
    }
  }

  /** `[cl]*` matches the strings made of characters of `cl`. */
  lemma {:induction false} StarClassMeaning(cl: CharClass, s: string)
    ensures Matches(Star(Char(cl)), s) <==> AllIn(s, cl)
    decreases |s|
  {
    if s != [] {
      StarClassMeaning(cl, s[1..]);
      if Matches(Star(Char(cl)), s) {
        var i :| 1 <= i <= |s| && Matches(Char(cl), s[..i]) && Matches(Star(Char(cl)), s[i..]);
        assert i == 1;
        assert forall k | 1 <= k < |s| :: s[k] == s[1..][k - 1];
      }
      if AllIn(s, cl) {
        assert Matches(Char(cl), s[..1]);
        assert AllIn(s[1..], cl) by {
          assert forall k | 0 <= k < |s| - 1 :: s[1..][k] == s[k + 1];
        }
      }
    }
  }

  /** `[cl]+` matches the non-empty strings made of characters of `cl`. */
  lemma PlusClassMeaning(cl: CharClass, s: string)
    ensures Matches(Plus(Char(cl)), s) <==> |s| >= 1 && AllIn(s, cl)
  {
    CatCharLeft(cl, Star(Char(cl)), s);
    if |s| >= 1 {
      StarClassMeaning(cl, s[1..]);
      assert forall k | 1 <= k < |s| :: s[k] == s[1..][k - 1];
    }
  }

  /** `[cl]+` followed by `x`: a non-empty run of `cl` characters, then a match of `x`. */
  lemma CatPlusClass(cl: CharClass, x: Regex, s: string)
    ensures Matches(Cat(Plus(Char(cl)), x), s) <==>
            exists i | 1 <= i <= |s| :: AllIn(s[..i], cl) && Matches(x, s[i..])
  {
    forall i | 0 <= i <= |s| {
      PlusClassMeaning(cl, s[..i]);
    }
  }

  /** `[cl]+` then the character `c` then `x`: the split falls on an
      occurrence of `c` preceded only by characters of `cl`. */
  lemma CatPlusThenChar(cl: CharClass, c: char, x: Regex, s: string)
    ensures Matches(Cat(Plus(Char(cl)), Cat(Text([c]), x)), s) <==>
            exists i | 1 <= i < |s| :: AllIn(s[..i], cl) && s[i] == c && Matches(x, s[i + 1..])
  {
    CatPlusClass(cl, Cat(Text([c]), x), s);
    forall i | 1 <= i <= |s|
      ensures Matches(Cat(Text([c]), x), s[i..]) <==> i < |s| && s[i] == c && Matches(x, s[i + 1..])
    {
      CatText([c], x, s[i..]);
      if i < |s| {
        assert s[i..][1..] == s[i + 1..];
        assert HasPrefix(s[i..], [c]) <==> s[i] == c by {
          assert s[i..][..1] == [s[i]];
        }
      }
    }
  }
}
