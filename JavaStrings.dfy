/**
  The handful of java.lang.String operations the photo renamer relies on,
  written as pure functions over `seq<char>`: `indexOf`, `lastIndexOf`,
  `contains`, `replace`, `trim` and `split(",")`.  Each carries the
  contract the Java library documents, so that the rename engine can be
  reasoned about through these contracts rather than their bodies.
*/
module JavaStrings {

  /** `pat` occurs in `s` starting at index `i`. */
  predicate IsAt(s: string, pat: string, i: int)
  {
    0 <= i && i + |pat| <= |s| && s[i..i + |pat|] == pat
  }

  /** `s.contains(pat)`: some index holds an occurrence of `pat`. */
  predicate Contains(s: string, pat: string)
  {
    exists i | 0 <= i <= |s| - |pat| :: IsAt(s, pat, i)
  }

  /** `s.indexOf(pat, from)`: the first occurrence of `pat` at or after `from`, or -1. */
  function IndexOf(s: string, pat: string, from: nat): (r: int)
    requires from <= |s|
    ensures r == -1 || (from <= r && IsAt(s, pat, r))
    ensures forall i {:trigger IsAt(s, pat, i)} :: from <= i && (r == -1 || i < r) ==> !IsAt(s, pat, i)
    decreases |s| - from
  {
    if |s| < from + |pat| then -1
    else if s[from..from + |pat|] == pat then from
    else IndexOf(s, pat, from + 1)
  }

  lemma ContainsIndexOf(s: string, pat: string)
    ensures Contains(s, pat) <==> IndexOf(s, pat, 0) != -1
  {
    var r := IndexOf(s, pat, 0);
    if r != -1 {
      assert IsAt(s, pat, r);
    }
  }

  /** `s.indexOf(c, from)` for `from >= 0`: the first index at or after `from` holding `c`, or -1. */
  function IndexOfChar(s: string, c: char, from: nat): (r: int)
    ensures r == -1 || (from <= r < |s| && s[r] == c)
    ensures forall i :: from <= i < |s| && (r == -1 || i < r) ==> s[i] != c
    decreases |s| - from
  {
    if |s| <= from then -1
    else if s[from] == c then from
    else IndexOfChar(s, c, from + 1)
  }

  /** `s.lastIndexOf(c)`: the last index holding `c`, or -1. */
  function LastIndexOfChar(s: string, c: char): (r: int)
    ensures r == -1 || (0 <= r < |s| && s[r] == c)
    ensures forall i :: r < i < |s| && 0 <= i ==> s[i] != c
  {
    if s == [] then -1
    else if s[|s| - 1] == c then |s| - 1
    else LastIndexOfChar(s[..|s| - 1], c)
  }

  /**
    `s.replace(pat, rep)`: every occurrence of `pat`, found left to right
    without overlap, replaced by `rep`.
  */
  function ReplaceAll(s: string, pat: string, rep: string): string
    requires pat != []
    decreases |s|
  {
    if |s| < |pat| then s
    else if s[..|pat|] == pat then rep + ReplaceAll(s[|pat|..], pat, rep)
    else [s[0]] + ReplaceAll(s[1..], pat, rep)
  }

  /** Text that does not hold the first character of `pat` is left alone. */
  lemma {:induction false} ReplaceAllSkips(x: string, y: string, pat: string, rep: string)
    requires pat != [] && pat[0] !in x
    ensures ReplaceAll(x + y, pat, rep) == x + ReplaceAll(y, pat, rep)
    decreases |x|
  {
    if x != [] {
      var s := x + y;
      assert s[0] == x[0];
      if |s| < |pat| {
        // too short for any match: ReplaceAll returns its input, on s and on y alike
        assert ReplaceAll(s, pat, rep) == s;
        assert ReplaceAll(y, pat, rep) == y;
      } else {
        assert s[..|pat|] != pat by { assert s[..|pat|][0] == x[0]; }
        assert s[1..] == x[1..] + y;
        ReplaceAllSkips(x[1..], y, pat, rep);
        calc {
          ReplaceAll(s, pat, rep);
          [s[0]] + ReplaceAll(s[1..], pat, rep);
          [x[0]] + (x[1..] + ReplaceAll(y, pat, rep));
          { assert [x[0]] + x[1..] == x; }
          x + ReplaceAll(y, pat, rep);
        }
      }
    } else {
      assert x + y == y;
    }
  }

  /** `c.isWhitespace` in the sense of `String.trim`: code points up to U+0020. */
  predicate IsTrimmable(c: char)
  {
    c <= ' '
  }

  /** A string with nothing to trim at either end. */
  predicate IsTrimmed(s: string)
  {
    s == [] || (!IsTrimmable(s[0]) && !IsTrimmable(s[|s| - 1]))
  }

  /** `s` without its leading trimmable characters. */
  function TrimStart(s: string): string
  {
    if s != [] && IsTrimmable(s[0]) then TrimStart(s[1..]) else s
  }

  /** `s` without its trailing trimmable characters. */
  function TrimEnd(s: string): string
  {
    if s != [] && IsTrimmable(s[|s| - 1]) then TrimEnd(s[..|s| - 1]) else s
  }

  /** `TrimStart` keeps a suffix of `s`, cut only at trimmable characters, that starts untrimmable. */
  lemma {:induction false} TrimStartIs(s: string)
    ensures |TrimStart(s)| <= |s| && TrimStart(s) == s[|s| - |TrimStart(s)|..]
    ensures forall k :: 0 <= k < |s| - |TrimStart(s)| ==> IsTrimmable(s[k])
    ensures TrimStart(s) == [] || !IsTrimmable(TrimStart(s)[0])
    decreases |s|
  {
    if s != [] && IsTrimmable(s[0]) {
      var t := s[1..];
      TrimStartIs(t);
      var r := TrimStart(t);
      assert t[|t| - |r|..] == s[|s| - |r|..];
      forall k | 0 <= k < |s| - |r|
        ensures IsTrimmable(s[k])
      {
        if k > 0 {
          assert s[k] == t[k - 1];
        }
      }
    }
  }

  /** `TrimEnd` keeps a prefix of `s`, cut only at trimmable characters, that ends untrimmable. */
  lemma {:induction false} TrimEndIs(s: string)
    ensures |TrimEnd(s)| <= |s| && TrimEnd(s) == s[..|TrimEnd(s)|]
    ensures forall k :: |TrimEnd(s)| <= k < |s| ==> IsTrimmable(s[k])
    ensures TrimEnd(s) == [] || !IsTrimmable(TrimEnd(s)[|TrimEnd(s)| - 1])
    decreases |s|
  {
    if s != [] && IsTrimmable(s[|s| - 1]) {
      var t := s[..|s| - 1];
      TrimEndIs(t);
      var r := TrimEnd(t);
      assert t[..|r|] == s[..|r|];
      forall k | |r| <= k < |s|
        ensures IsTrimmable(s[k])
      {
        if k < |s| - 1 {
          assert s[k] == t[k];
        }
      }
    }
  }

  /**
    `r` is the slice of `s` starting at `i`, and only trimmable
    characters of `s` lie outside it.
  */
  ghost predicate TrimmedAt(s: string, r: string, i: nat)
  {
    i + |r| <= |s| && r == s[i..i + |r|]
    && (forall k :: 0 <= k < i ==> IsTrimmable(s[k]))
    && (forall k :: i + |r| <= k < |s| ==> IsTrimmable(s[k]))
  }

  /**
    `s.trim()`: `s` without its leading and trailing characters up to
    U+0020.
  */
  function Trim(s: string): string
  {
    TrimEnd(TrimStart(s))
  }

  /**
    The trimmed string is a slice of `s` with only trimmable characters
    outside it, and it is itself trimmed.
  */
  lemma TrimIs(s: string)
    ensures IsTrimmed(Trim(s))
    ensures exists i: nat :: TrimmedAt(s, Trim(s), i)
  {
    var a := TrimStart(s);
    var r := TrimEnd(a);
    TrimStartIs(s);
    TrimEndIs(a);
    var i := |s| - |a|;
    assert TrimmedAt(s, r, i) by {
      assert r == a[..|r|] == s[i..i + |r|];
      forall k | i + |r| <= k < |s|
        ensures IsTrimmable(s[k])
      {
        assert s[k] == a[k - i];
      }
    }
    if r != [] {
      assert r[0] == a[0];
    }
  }

  /** Characters of `Trim(s)` all come from `s`. */
  lemma TrimChars(s: string, c: char)
    requires c in Trim(s)
    ensures c in s
  {
    var r := Trim(s);
    TrimIs(s);
    var i: nat :| TrimmedAt(s, r, i);
    var k :| 0 <= k < |r| && r[k] == c;
    assert s[i + k] == c;
  }

  /** A trimmed string is its own `trim()`; in particular trimming is idempotent. */
  lemma TrimTrimmed(s: string)
    requires IsTrimmed(s)
    ensures Trim(s) == s
  {
    var r := Trim(s);
    TrimIs(s);
    var i: nat :| TrimmedAt(s, r, i);
    if s != [] {
      assert i == 0 && |r| == |s|;
    }
  }

  /** The pieces of `s` between occurrences of `sep`, keeping every empty piece. */
  function SplitOn(s: string, sep: char): (r: seq<string>)
    ensures |r| >= 1
    ensures forall k :: 0 <= k < |r| ==> sep !in r[k]
    ensures JoinWith(r, sep) == s
    decreases |s|
  {
    var i := IndexOfChar(s, sep, 0);
    if i == -1 then
      assert sep !in s;
      [s]
    else
      var head, tail := s[..i], s[i + 1..];
      var rest := SplitOn(tail, sep);
      assert sep !in head;
      assert s == head + [sep] + tail;
      var r := [head] + rest;
      assert r[1..] == rest;
      assert JoinWith(r, sep) == head + [sep] + JoinWith(rest, sep);
      r
  }

  /** The inverse of `SplitOn`: the pieces joined with `sep` between them. */
  function JoinWith(ps: seq<string>, sep: char): string
    requires |ps| >= 1
  {
    if |ps| == 1 then ps[0] else ps[0] + [sep] + JoinWith(ps[1..], sep)
  }

  /** Every character of a joined piece is a character of the joined string. */
  lemma {:induction false} JoinWithChars(ps: seq<string>, sep: char, k: nat, c: char)
    requires |ps| >= 1 && k < |ps| && c in ps[k]
    ensures c in JoinWith(ps, sep)
    decreases |ps|
  {
    var j :| 0 <= j < |ps[k]| && ps[k][j] == c;
    if |ps| > 1 {
      if k == 0 {
        assert JoinWith(ps, sep)[j] == c;
      } else {
        JoinWithChars(ps[1..], sep, k - 1, c);
        var rest := JoinWith(ps[1..], sep);
        var m :| 0 <= m < |rest| && rest[m] == c;
        assert JoinWith(ps, sep)[|ps[0]| + 1 + m] == c;
      }
    }
  }

  /** `ps` without its run of trailing empty strings. */
  function DropTrailingEmpty(ps: seq<string>): (r: seq<string>)
    ensures |r| <= |ps| && r == ps[..|r|]
    ensures r == [] || r[|r| - 1] != []
    ensures forall k :: |r| <= k < |ps| ==> ps[k] == []
  {
    if ps != [] && ps[|ps| - 1] == [] then DropTrailingEmpty(ps[..|ps| - 1]) else ps
  }

  /**
    `s.split(String.valueOf(sep))` for a separator that is not a regex
    meta-character: the input itself when it holds no separator, else the
    pieces between separators with trailing empty pieces removed.
  */
  function JavaSplit(s: string, sep: char): (r: seq<string>)
    ensures forall k :: 0 <= k < |r| ==> sep !in r[k]
    ensures forall k, c :: 0 <= k < |r| && c in r[k] ==> c in s
  {
    if sep !in s then [s]
    else
      var ps := SplitOn(s, sep);
      var r := DropTrailingEmpty(ps);
      assert forall k, c :: 0 <= k < |r| && c in r[k] ==> c in s by {
        forall k, c | 0 <= k < |r| && c in r[k] ensures c in s {
          assert r[k] == ps[k];
          JoinWithChars(ps, sep, k, c);
        }
      }
      r
  }

  // Facts that pin the searches above to a known index.

  lemma IndexOfCharAt(s: string, c: char, from: nat, p: int)
    requires from <= p < |s| && s[p] == c
    requires forall i :: from <= i < p ==> s[i] != c
    ensures IndexOfChar(s, c, from) == p
  {
  }

  lemma IndexOfCharNone(s: string, c: char, from: nat)
    requires forall i :: from <= i < |s| ==> s[i] != c
    ensures IndexOfChar(s, c, from) == -1
  {
  }

  lemma LastIndexOfCharAt(s: string, c: char, p: int)
    requires 0 <= p < |s| && s[p] == c
    requires forall i :: p < i < |s| ==> s[i] != c
    ensures LastIndexOfChar(s, c) == p
  {
  }

  /** The last `c` of `x + y`, where `y` starts with `c` and holds no other. */
  lemma LastIndexOfCharJoin(x: string, y: string, c: char)
    requires y != [] && y[0] == c
    requires forall i :: 0 < i < |y| ==> y[i] != c
    ensures LastIndexOfChar(x + y, c) == |x|
  {
    var s := x + y;
    forall i | |x| < i < |s|
      ensures s[i] != c
    {
      assert s[i] == y[i - |x|];
    }
    LastIndexOfCharAt(s, c, |x|);
  }

  lemma IndexOfAt(s: string, pat: string, from: nat, p: int)
    requires from <= p && from <= |s| && IsAt(s, pat, p)
    requires forall i :: from <= i < p ==> !IsAt(s, pat, i)
    ensures IndexOf(s, pat, from) == p
  {
  }

  /**
    An occurrence of `t` in `x + [c] + y`, where `t` does not hold `c`,
    lies wholly inside `x` or wholly inside `y`.
  */
  lemma OccurrenceSplit(x: string, c: char, y: string, t: string, q: int)
    requires IsAt(x + [c] + y, t, q) && c !in t
    ensures (q + |t| <= |x| && IsAt(x, t, q)) || (q > |x| && IsAt(y, t, q - |x| - 1))
  {
    var s := x + [c] + y;
    assert s[q..q + |t|] == t;
    assert forall k :: q <= k < q + |t| ==> s[k] == t[k - q] != c;
    assert s[|x|] == c;
    if q + |t| <= |x| {
      assert s[q..q + |t|] == x[q..q + |t|];
    } else {
      assert q > |x|;
      assert s[q..q + |t|] == y[q - |x| - 1..q - |x| - 1 + |t|];
    }
  }

  /** An occurrence inside a slice is an occurrence in the whole string. */
  lemma OccurrenceWiden(s: string, lo: int, hi: int, t: string, q: int)
    requires 0 <= lo <= hi <= |s| && IsAt(s[lo..hi], t, q)
    ensures IsAt(s, t, lo + q)
  {
    var u := s[lo..hi];
    assert forall k :: 0 <= k < |t| ==> s[lo + q + k] == u[q + k] == t[k];
    assert s[lo + q..lo + q + |t|] == t;
  }
}
