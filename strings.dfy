/** The JavaScript string and array primitives the shell relies on, written out
    as functions on `seq<char>`: one-character `split`, `join`, `indexOf`,
    `filter(Boolean)` on a string array, and filtering characters by index. */
module Strings {

  /** `s.split(sep)` for a one-character separator: the pieces between
      separators, empty pieces included; `"".split(sep)` is `[""]`. */
  function SplitOn(s: string, sep: char): (pieces: seq<string>)
    ensures |pieces| >= 1
    ensures forall k :: 0 <= k < |pieces| ==> sep !in pieces[k]
    ensures s != [] && s[0] != sep ==> pieces[0] != [] && pieces[0][0] == s[0]
    decreases |s|
  {
    if s == [] then [[]]
    else
      var rest := SplitOn(s[1..], sep);
      if s[0] == sep then [[]] + rest
      else [[s[0]] + rest[0]] + rest[1..]
  }

  /** `pieces.join(sep)`. */
  function Join(pieces: seq<string>, sep: char): (s: string)
    ensures pieces == [] ==> s == []
    ensures |pieces| == 1 ==> s == pieces[0]
    decreases |pieces|
  {
    if pieces == [] then []
    else if |pieces| == 1 then pieces[0]
    else pieces[0] + [sep] + Join(pieces[1..], sep)
  }

  /** Splitting and joining on the same character undo each other. */
  lemma {:induction false} JoinSplit(s: string, sep: char)
    ensures Join(SplitOn(s, sep), sep) == s
    decreases |s|
  {
    if s != [] {
      JoinSplit(s[1..], sep);
      var rest := SplitOn(s[1..], sep);
      if s[0] == sep {
        assert [s[0]] + s[1..] == s;
      } else if |rest| == 1 {
        assert [s[0]] + rest[0] == s;
      } else {
        var r := [[s[0]] + rest[0]] + rest[1..];
        assert r[1..] == rest[1..];
        calc {
          Join(r, sep);
          [s[0]] + rest[0] + [sep] + Join(rest[1..], sep);
          [s[0]] + (rest[0] + [sep] + Join(rest[1..], sep));
          [s[0]] + Join(rest, sep);
          [s[0]] + s[1..];
          s;
        }
      }
    }
  }

  /** Joining pieces free of the separator and splitting again gives the pieces back. */
  lemma {:induction false} SplitJoin(pieces: seq<string>, sep: char)
    requires |pieces| >= 1
    requires forall k :: 0 <= k < |pieces| ==> sep !in pieces[k]
    ensures SplitOn(Join(pieces, sep), sep) == pieces
    decreases |pieces|
  {
    SplitWithout(pieces[0], sep);
    if |pieces| > 1 {
      var tail := pieces[1..];
      assert forall k :: 0 <= k < |tail| ==> tail[k] == pieces[k + 1];
      SplitJoin(tail, sep);
      SplitConcat(pieces[0], Join(tail, sep), sep);
      assert pieces == [pieces[0]] + tail;
    }
  }

  /** A string with no separator is one piece. */
  lemma {:induction false} SplitWithout(s: string, sep: char)
    requires sep !in s
    ensures SplitOn(s, sep) == [s]
    decreases |s|
  {
    if s != [] {
      assert s[0] in s;
      assert forall x :: x in s[1..] ==> x in s;
      SplitWithout(s[1..], sep);
      assert [s[0]] + s[1..] == s;
    }
  }

  /** Splitting at a separator splits the two sides independently. */
  lemma {:induction false} SplitConcat(a: string, b: string, sep: char)
    ensures SplitOn(a + [sep] + b, sep) == SplitOn(a, sep) + SplitOn(b, sep)
    decreases |a|
  {
    var s := a + [sep] + b;
    if a == [] {
      assert s == [sep] + b;
      assert s[1..] == b;
    } else {
      assert s[0] == a[0];
      assert s[1..] == a[1..] + [sep] + b;
      SplitConcat(a[1..], b, sep);
      if a[0] != sep {
        SplitGlue(a[0], SplitOn(a[1..], sep), SplitOn(b, sep));
      }
    }
  }

  /** Gluing a character onto the first of two lists of pieces. */
  lemma SplitGlue(c: char, x: seq<string>, y: seq<string>)
    requires x != []
    ensures [[c] + (x + y)[0]] + (x + y)[1..] == ([[c] + x[0]] + x[1..]) + y
  {
    assert (x + y)[0] == x[0];
    assert (x + y)[1..] == x[1..] + y;
  }

  /** Dropping the empty pieces of two lists one after the other. */
  lemma {:induction false} DropEmptyConcat(x: seq<string>, y: seq<string>)
    ensures DropEmpty(x + y) == DropEmpty(x) + DropEmpty(y)
    decreases |x|
  {
    if x == [] {
      assert x + y == y;
    } else {
      assert (x + y)[0] == x[0];
      assert (x + y)[1..] == x[1..] + y;
      DropEmptyConcat(x[1..], y);
    }
  }

  /** Concatenation is associative. */
  lemma ConcatAssoc(a: string, b: string, c: string)
    ensures (a + b) + c == a + (b + c)
  {
  }

  /** `pieces.filter(Boolean)`: the non-empty pieces, in order. */
  function DropEmpty(pieces: seq<string>): (r: seq<string>)
    ensures forall k :: 0 <= k < |r| ==> r[k] != []
    ensures forall x :: x in r ==> x in pieces
    ensures forall x :: x in pieces && x != [] ==> x in r
    ensures |pieces| == 1 ==> r == (if pieces[0] == [] then [] else pieces)
    ensures |r| <= |pieces|
    ensures pieces != [] && pieces[0] != [] ==> r != [] && r[0] == pieces[0]
    decreases |pieces|
  {
    if pieces == [] then []
    else if pieces[0] == [] then DropEmpty(pieces[1..])
    else [pieces[0]] + DropEmpty(pieces[1..])
  }

  /** `s.split(sep).filter(Boolean)`: the non-empty fields between separators. */
  function Fields(s: string, sep: char): (fs: seq<string>)
    ensures forall k :: 0 <= k < |fs| ==> fs[k] != [] && sep !in fs[k]
  {
    var pieces := SplitOn(s, sep);
    var fs := DropEmpty(pieces);
    assert forall k :: 0 <= k < |fs| ==> fs[k] in pieces;
    fs
  }

  /** `s.indexOf(c)`: the first position of `c`, or -1. */
  function IndexOf(s: string, c: char): (k: int)
    ensures -1 <= k < |s|
    ensures k == -1 <==> c !in s
    ensures k >= 0 ==> s[k] == c && c !in s[..k]
    decreases |s|
  {
    if s == [] then -1
    else if s[0] == c then 0
    else
      var k := IndexOf(s[1..], c);
      assert k >= 0 ==> s[1..][..k] == s[1..k + 1];
      assert forall x :: x in s[1..] ==> x in s;
      assert forall x :: x in s ==> x == s[0] || x in s[1..];
      if k == -1 then -1 else k + 1
  }

  /** `[...s].filter((_, i) => !drop.has(i)).join('')`: the characters of `s`
      whose positions are not in `drop`. Defined from the end of `s`, so that
      the characters of a prefix are filtered as they are in the whole. */
  function Without(s: string, drop: set<nat>): (r: string)
    ensures IsSubsequence(r, s)
    decreases |s|
  {
    if s == [] then []
    else
      var n := |s| - 1;
      var front := Without(s[..n], drop);
      SubsequenceAppend(front, s[..n], s[n], n in drop);
      assert s[..n] + [s[n]] == s;
      front + (if n in drop then [] else [s[n]])
  }

  /** Positions at or beyond the end of `s` do not matter to `Without`. */
  lemma {:induction false} WithoutAgrees(s: string, d1: set<nat>, d2: set<nat>)
    requires forall j :: 0 <= j < |s| ==> (j in d1 <==> j in d2)
    ensures Without(s, d1) == Without(s, d2)
    decreases |s|
  {
    if s != [] {
      WithoutAgrees(s[..|s| - 1], d1, d2);
    }
  }

  /** One more character of the prefix: it is kept unless its position is dropped. */
  lemma WithoutExtend(s: string, i: nat, drop: set<nat>)
    requires i < |s|
    ensures Without(s[..i + 1], drop) == Without(s[..i], drop) + (if i in drop then [] else [s[i]])
  {
    assert s[..i + 1][..i] == s[..i];
  }

  /** `sub` can be obtained from `s` by deleting characters. */
  predicate IsSubsequence(sub: string, s: string)
    decreases |s|
  {
    if sub == [] then true
    else if s == [] then false
    else (sub[0] == s[0] && IsSubsequence(sub[1..], s[1..])) || IsSubsequence(sub, s[1..])
  }

  /** Appending a character to the whole keeps a subsequence a subsequence,
      with or without that character appended to it. */
  lemma {:induction false} SubsequenceAppend(sub: string, s: string, c: char, dropped: bool)
    requires IsSubsequence(sub, s)
    ensures IsSubsequence(sub + (if dropped then [] else [c]), s + [c])
    decreases |s|
  {
    var t := sub + (if dropped then [] else [c]);
    if s == [] {
      assert sub == [];
      if !dropped { assert t == [c]; assert t[1..] == []; }
    } else if sub == [] {
      if !dropped {
        assert t == [c];
        SubsequenceAppend([], s[1..], c, false);
        assert (s + [c])[1..] == s[1..] + [c];
      }
    } else {
      assert (s + [c])[1..] == s[1..] + [c];
      assert t[0] == sub[0];
      if sub[0] == s[0] && IsSubsequence(sub[1..], s[1..]) {
        SubsequenceAppend(sub[1..], s[1..], c, dropped);
        assert t[1..] == sub[1..] + (if dropped then [] else [c]);
      } else {
        SubsequenceAppend(sub, s[1..], c, dropped);
      }
    }
  }

  /** A character in front of the whole may be skipped. */
  lemma SubsequenceSkip(sub: string, s: string, c: char)
    requires IsSubsequence(sub, s)
    ensures IsSubsequence(sub, [c] + s)
  {
    assert ([c] + s)[1..] == s;
  }

  /** A character in front of both may be matched. */
  lemma SubsequenceKeep(sub: string, s: string, c: char)
    requires IsSubsequence(sub, s)
    ensures IsSubsequence([c] + sub, [c] + s)
  {
    assert ([c] + s)[1..] == s;
    assert ([c] + sub)[1..] == sub;
  }
}
