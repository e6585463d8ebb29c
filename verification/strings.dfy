/** The string operations the lookup parsers rely on: Python's
    `str.split('__')`, its inverse `'__'.join`, an ASCII `str.lower()` and
    the substring test behind `needle in haystack`. */
module Strings {

  /** The lookup separator both variants split keyword names on. */
  const Sep: string := "__"

  /** Position `i` of `s` starts an occurrence of the separator. */
  predicate SepAt(s: string, i: int) {
    0 <= i && i + 1 < |s| && s[i] == '_' && s[i + 1] == '_'
  }

  /** Python's `'__' in s`. */
  predicate HasSep(s: string) {
    exists i | 0 <= i < |s| :: SepAt(s, i)
  }

  /** A piece that `Split` can produce in a non-final position: it holds no
      separator and does not end in `_` (otherwise the separator after it
      would have been found one character earlier). */
  predicate InnerPiece(p: string) {
    !HasSep(p) && (|p| == 0 || p[|p| - 1] != '_')
  }

  /** Python's `sep.join(parts)`. */
  function Join(parts: seq<string>): string
  {
    if |parts| == 0 then ""
    else if |parts| == 1 then parts[0]
    else parts[0] + Sep + Join(parts[1..])
  }

  /** The properties that make a list of pieces a split of `s`. */
  ghost predicate SplitOf(parts: seq<string>, s: string) {
    && |parts| >= 1
    && Join(parts) == s
    && parts[0] <= s
    && (forall i | 0 <= i < |parts| :: !HasSep(parts[i]))
    && (forall i | 0 <= i < |parts| - 1 :: InnerPiece(parts[i]))
  }

  /** Python's `s.split('__')`: the leftmost, non-overlapping occurrences
      of the separator cut `s` into pieces. */
  function Split(s: string): (parts: seq<string>)
    ensures |parts| >= 1
    ensures Join(parts) == s
    ensures parts[0] <= s
    ensures forall i | 0 <= i < |parts| :: !HasSep(parts[i])
    ensures forall i | 0 <= i < |parts| - 1 :: InnerPiece(parts[i])
    decreases |s|
  {
    if |s| < 2 then
      assert forall i :: !SepAt(s, i);
      [s]
    else if s[0] == '_' && s[1] == '_' then
      var rest := Split(s[2..]);
      SplitAfterSep(s, rest);
      [""] + rest
    else
      var rest := Split(s[1..]);
      SplitAfterChar(s, rest);
      [[s[0]] + rest[0]] + rest[1..]
  }

  /** A string starting with the separator splits into an empty piece
      followed by the split of the rest. */
  lemma SplitAfterSep(s: string, rest: seq<string>)
    requires |s| >= 2 && s[0] == '_' && s[1] == '_'
    requires SplitOf(rest, s[2..])
    ensures SplitOf([""] + rest, s)
  {
    assert s == Sep + s[2..];
    var parts := [""] + rest;
    assert parts[1..] == rest;
    forall i | 0 <= i < |parts| ensures !HasSep(parts[i]) {
      if i > 0 {
        assert parts[i] == rest[i - 1];
      }
    }
    forall i | 0 <= i < |parts| - 1 ensures InnerPiece(parts[i]) {
      if i > 0 {
        assert parts[i] == rest[i - 1];
      }
    }
  }

  /** A string not starting with the separator splits like its tail, with
      its first character prepended to the first piece. */
  lemma SplitAfterChar(s: string, rest: seq<string>)
    requires |s| >= 2 && !(s[0] == '_' && s[1] == '_')
    requires SplitOf(rest, s[1..])
    ensures SplitOf([[s[0]] + rest[0]] + rest[1..], s)
  {
    var head := [s[0]] + rest[0];
    var parts := [head] + rest[1..];
    JoinCons(s[0], rest);
    HeadPieceHasNoSep(s, rest);
    forall i | 0 <= i < |parts| ensures !HasSep(parts[i]) {
      if i > 0 {
        assert parts[i] == rest[i];
      }
    }
    forall i | 0 <= i < |parts| - 1 ensures InnerPiece(parts[i]) {
      if i > 0 {
        assert parts[i] == rest[i];
      } else {
        assert Join(rest) == rest[0] + Sep + Join(rest[1..]);
        if |rest[0]| == 0 {
          assert s[1..] == Sep + Join(rest[1..]);
          assert s[1] == '_';
        }
      }
    }
  }

  /** Prepending a character to the first piece prepends it to the join. */
  lemma JoinCons(c: char, parts: seq<string>)
    requires |parts| >= 1
    ensures Join([[c] + parts[0]] + parts[1..]) == [c] + Join(parts)
  {
    var ps := [[c] + parts[0]] + parts[1..];
    if |parts| > 1 {
      assert ps[1..] == parts[1..];
      assert Join(ps) == ps[0] + Sep + Join(parts[1..]);
    }
  }

  lemma HeadPieceHasNoSep(s: string, rest: seq<string>)
    requires |s| >= 2 && !(s[0] == '_' && s[1] == '_')
    requires |rest| >= 1 && rest[0] <= s[1..] && !HasSep(rest[0])
    ensures !HasSep([s[0]] + rest[0])
  {
    var head := [s[0]] + rest[0];
    forall i | 0 <= i < |head|
      ensures !SepAt(head, i)
    {
      if i > 0 && SepAt(head, i) {
        assert SepAt(rest[0], i - 1);
      }
    }
  }

  /** `Split` is the only way to cut a string into separator-free pieces
      whose non-final members are `InnerPiece`s: splitting the join of such
      pieces gives them back. */
  lemma {:induction false} SplitJoin(parts: seq<string>)
    requires |parts| >= 1
    requires !HasSep(parts[|parts| - 1])
    requires forall i | 0 <= i < |parts| - 1 :: InnerPiece(parts[i])
    ensures Split(Join(parts)) == parts
    decreases |Join(parts)|
  {
    var p := parts[0];
    if |p| == 0 {
      if |parts| > 1 {
        var tail := parts[1..];
        assert Join(parts) == Sep + Join(tail);
        assert (Sep + Join(tail))[2..] == Join(tail);
        SplitJoin(tail);
      }
    } else {
      var q := [p[1..]] + parts[1..];
      assert p == [p[0]] + p[1..];
      JoinCons(p[0], q);
      assert [[p[0]] + q[0]] + q[1..] == parts;
      var s := Join(parts);
      assert s == [p[0]] + Join(q);
      assert !HasSep(q[0]) by {
        forall i | 0 <= i < |q[0]| ensures !SepAt(q[0], i) {
          assert !SepAt(p, i + 1);
        }
      }
      assert forall i | 0 <= i < |q| - 1 :: InnerPiece(q[i]) by {
        forall i | 0 <= i < |q| - 1 ensures InnerPiece(q[i]) {
          if i > 0 {
            assert q[i] == parts[i];
          }
        }
      }
      if |s| >= 2 {
        assert !(s[0] == '_' && s[1] == '_') by {
          if |p| >= 2 {
            assert s[1] == p[1];
            assert !SepAt(p, 0);
          } else if |parts| > 1 {
            assert InnerPiece(parts[0]);
          }
        }
        SplitJoin(q);
        assert s[1..] == Join(q);
      } else {
        assert |parts| == 1;
      }
    }
  }

  /** A string splits into more than one piece exactly when it holds the separator. */
  lemma SplitCount(s: string)
    ensures |Split(s)| == 1 <==> !HasSep(s)
  {
    var parts := Split(s);
    if |parts| > 1 {
      assert s == parts[0] + Sep + Join(parts[1..]);
      assert SepAt(s, |parts[0]|);
    }
  }

  /** ASCII lower-casing of one character. */
  function LowerChar(c: char): char {
    if 'A' <= c <= 'Z' then (c as int + 32) as char else c
  }

  /** Python's `str.lower()`, restricted to ASCII letters. */
  function Lower(s: string): (r: string)
    ensures |r| == |s|
    ensures forall i | 0 <= i < |s| :: r[i] == LowerChar(s[i])
  {
    if |s| == 0 then "" else [LowerChar(s[0])] + Lower(s[1..])
  }

  /** Lower-casing twice is lower-casing once. */
  lemma LowerIdempotent(s: string)
    ensures Lower(Lower(s)) == Lower(s)
  {
    var l := Lower(s);
    assert forall i | 0 <= i < |s| :: Lower(l)[i] == LowerChar(LowerChar(s[i])) == l[i];
  }

  /** Pieces without any underscore are valid pieces of a split. */
  lemma UnderscoreFree(parts: seq<string>)
    requires forall i, j | 0 <= i < |parts| && 0 <= j < |parts[i]| :: parts[i][j] != '_'
    ensures forall i | 0 <= i < |parts| :: InnerPiece(parts[i])
  {
  }

  /** Python's `needle in haystack` on two strings. */
  predicate IsSubstring(needle: string, haystack: string) {
    exists i | 0 <= i <= |haystack| - |needle| :: needle <= haystack[i..]
  }
}
