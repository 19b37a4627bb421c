/** The JavaScript string operations the handlers rely on, on `seq<char>`:
    `includes`, `split` on a one-character separator, and its inverse `join`. */
module Strings {
  import opened Wrappers


  /** `s` starts with `p`. */
  predicate HasPrefix(s: string, p: string) {
    |p| <= |s| && s[..|p|] == p
  }

  /** Starting with `a + b` is starting with `a`, then with `b`. */
  lemma HasPrefixConcat(s: string, a: string, b: string)
    ensures HasPrefix(s, a + b) <==> HasPrefix(s, a) && HasPrefix(s[|a|..], b)
  {
    if HasPrefix(s, a + b) {
      assert s[..|a|] == (a + b)[..|a|];
      assert s[|a|..][..|b|] == (a + b)[|a|..];
    }
    if HasPrefix(s, a) && HasPrefix(s[|a|..], b) {
      assert s[..|a + b|] == s[..|a|] + s[|a|..][..|b|];
    }
  }

  /** `sub` occurs in `s` starting at index `j`. */
  predicate OccursAt(s: string, sub: string, j: nat) {
    j + |sub| <= |s| && s[j..j + |sub|] == sub
  }

  /** `sub` occurs in `s` at some position `i` or later. */
  function IncludesFrom(s: string, sub: string, i: nat): (r: bool)
    ensures r <==> exists j: nat | i <= j :: OccursAt(s, sub, j)
    decreases |s| - i
  {
    if i + |sub| > |s| then false
    else if OccursAt(s, sub, i) then true
    else IncludesFrom(s, sub, i + 1)
  }

  /** `s.includes(sub)`. */
  function Includes(s: string, sub: string): (r: bool)
    ensures r <==> exists j: nat :: OccursAt(s, sub, j)
  {
    IncludesFrom(s, sub, 0)
  }

  /** `parts.join(sep)`. */
  function Join(parts: seq<string>, sep: char): string {
    if |parts| == 0 then []
    else if |parts| == 1 then parts[0]
    else parts[0] + [sep] + Join(parts[1..], sep)
  }

  /** `s.split(sep)`: the maximal separator-free pieces of `s`, in order; never empty. */
  function Split(s: string, sep: char): (r: seq<string>)
    ensures |r| >= 1
    ensures forall i | 0 <= i < |r| :: sep !in r[i]
    ensures Join(r, sep) == s
    decreases |s|
  {
    if s == [] then [[]]
    else
      var rest := Split(s[1..], sep);
      if s[0] == sep then
        assert s == [sep] + s[1..];
        [[]] + rest
      else
        var r := [[s[0]] + rest[0]] + rest[1..];
        assert r[1..] == rest[1..];
        assert s == [s[0]] + s[1..];
        r
  }

  /** Splitting a join of separator-free pieces gives the pieces back. */
  lemma {:induction false} SplitJoin(parts: seq<string>, sep: char)
    requires |parts| >= 1
    requires forall i | 0 <= i < |parts| :: sep !in parts[i]
    ensures Split(Join(parts, sep), sep) == parts
    decreases |parts|, |parts[0]|
  {
    if |parts| == 1 {
      SplitSeparatorFree(parts[0], sep);
    } else if parts[0] == [] {
      var tail := parts[1..];
      SplitJoin(tail, sep);
      assert Join(parts, sep) == [sep] + Join(tail, sep);
      assert Join(parts, sep)[1..] == Join(tail, sep);
      assert parts == [[]] + tail;
    } else {
      var c := parts[0][0];
      var shorter := [parts[0][1..]] + parts[1..];
      assert forall i | 0 <= i < |shorter| :: sep !in shorter[i] by {
        forall i | 0 <= i < |shorter| ensures sep !in shorter[i] {
          if i == 0 {
            assert forall x | x in parts[0][1..] :: x in parts[0];
          } else {
            assert shorter[i] == parts[i];
          }
        }
      }
      SplitJoin(shorter, sep);
      assert shorter[1..] == parts[1..];
      assert Join(parts, sep) == [c] + Join(shorter, sep);
      assert Join(parts, sep)[1..] == Join(shorter, sep);
      assert c != sep by { assert c in parts[0]; }
      assert [c] + shorter[0] == parts[0];
      assert [[c] + shorter[0]] + shorter[1..] == parts;
    }
  }

  /** A string without the separator splits into itself alone. */
  lemma {:induction false} SplitSeparatorFree(s: string, sep: char)
    requires sep !in s
    ensures Split(s, sep) == [s]
    decreases |s|
  {
    if s != [] {
      assert sep !in s[1..] by {
        assert forall x | x in s[1..] :: x in s;
      }
      SplitSeparatorFree(s[1..], sep);
      assert s[0] in s;
      assert [s[0]] + s[1..] == s;
    }
  }

  /** A separator-free first piece followed by the separator splits off as one piece. */
  lemma {:induction false} SplitAtSeparator(u: string, sep: char, t: string)
    requires sep !in u
    ensures Split(u + [sep] + t, sep) == [u] + Split(t, sep)
    decreases |u|
  {
    var s := u + [sep] + t;
    if u == [] {
      assert s == [sep] + t;
      assert s[1..] == t;
    } else {
      assert sep !in u[1..] by {
        assert forall x | x in u[1..] :: x in u;
      }
      SplitAtSeparator(u[1..], sep, t);
      assert s[1..] == u[1..] + [sep] + t;
      assert u[0] in u;
      assert [u[0]] + u[1..] == u;
    }
  }

  /** `s` cut at the first occurrence of `sep`, if there is one. */
  function SplitAtFirst(s: string, sep: char): (r: Option<(string, string)>)
    ensures r.None? <==> sep !in s
    ensures r.Some? ==> s == r.value.0 + [sep] + r.value.1 && sep !in r.value.0
    decreases |s|
  {
    if s == [] then None
    else if s[0] == sep then
      assert s == [] + [sep] + s[1..];
      Some(([], s[1..]))
    else
      match SplitAtFirst(s[1..], sep)
      case None =>
        assert s == [s[0]] + s[1..];
        None
      case Some(pair) =>
        assert s == [s[0]] + s[1..];
        assert s == ([s[0]] + pair.0) + [sep] + pair.1;
        Some(([s[0]] + pair.0, pair.1))
  }

  /** Cutting at the first separator undoes joining a separator-free head to a tail. */
  lemma {:induction false} SplitAtFirstSeparator(u: string, sep: char, t: string)
    requires sep !in u
    ensures SplitAtFirst(u + [sep] + t, sep) == Some((u, t))
    decreases |u|
  {
    var s := u + [sep] + t;
    if u == [] {
      assert s == [sep] + t;
    } else {
      assert sep !in u[1..] by {
        assert forall x | x in u[1..] :: x in u;
      }
      SplitAtFirstSeparator(u[1..], sep, t);
      assert s[1..] == u[1..] + [sep] + t;
      assert u[0] in u;
      assert [u[0]] + u[1..] == u;
    }
  }
}
