/**
 * The few java.lang.String operations the course service relies on:
 * indexOf, lastIndexOf, startsWith, replaceFirst with a literal pattern,
 * split around one character (with Java's dropping of trailing empty
 * pieces) and trim.
 */
module JavaStrings {

  /** `p` occurs in `s` starting at index `i`. */
  predicate MatchAt(s: string, p: string, i: int)
  {
    0 <= i && i + |p| <= |s| && s[i..i + |p|] == p
  }

  lemma MatchAtTail(s: string, p: string, i: int)
    requires |s| > 0 && i >= 1
    ensures MatchAt(s, p, i) <==> MatchAt(s[1..], p, i - 1)
  {
    if i + |p| <= |s| {
      assert s[1..][i - 1..i - 1 + |p|] == s[i..i + |p|];
    }
  }

  /** `s.indexOf(p)`: the first index at which `p` occurs, or -1. */
  function IndexOf(s: string, p: string): (r: int)
    ensures r == -1 || MatchAt(s, p, r)
    ensures r == -1 ==> forall i :: !MatchAt(s, p, i)
    ensures r >= 0 ==> forall i :: 0 <= i < r ==> !MatchAt(s, p, i)
    decreases |s|
  {
    if |s| < |p| then -1
    else if s[..|p|] == p then 0
    else
      var k := IndexOf(s[1..], p);
      assert !MatchAt(s, p, 0);
      assert forall i :: i >= 1 ==> (MatchAt(s, p, i) <==> MatchAt(s[1..], p, i - 1)) by {
        forall i | i >= 1 { MatchAtTail(s, p, i); }
      }
      if k == -1 then -1 else k + 1
  }

  /** `s.indexOf(p) != -1`. */
  predicate Contains(s: string, p: string)
  {
    IndexOf(s, p) != -1
  }

  lemma ContainsIsLongEnough(s: string, p: string)
    requires Contains(s, p)
    ensures |p| <= |s|
  {
  }

  /** `s.startsWith(p)`. */
  predicate StartsWith(s: string, p: string)
  {
    |p| <= |s| && s[..|p|] == p
  }

  /** `s.lastIndexOf(c)` for a one-character string: the last index holding `c`, or -1. */
  function LastIndexOf(s: string, c: char): (r: int)
    ensures -1 <= r < |s|
    ensures r == -1 <==> c !in s
    ensures r >= 0 ==> s[r] == c && forall j :: r < j < |s| ==> s[j] != c
    decreases |s|
  {
    if |s| == 0 then -1
    else if s[|s| - 1] == c then |s| - 1
    else
      var k := LastIndexOf(s[..|s| - 1], c);
      assert forall j :: 0 <= j < |s| - 1 ==> s[..|s| - 1][j] == s[j];
      k
  }

  /** `s.replaceFirst(target, replacement)` for a target without regular-expression metacharacters. */
  function ReplaceFirst(s: string, target: string, replacement: string): (r: string)
  {
    var i := IndexOf(s, target);
    if i == -1 then s else s[..i] + replacement + s[i + |target|..]
  }

  lemma {:induction false} ReplaceFirstAtStart(target: string, replacement: string, rest: string)
    requires |target| > 0
    ensures ReplaceFirst(target + rest, target, replacement) == replacement + rest
  {
    var s := target + rest;
    assert s[..|target|] == target;
    assert IndexOf(s, target) == 0;
    assert s[..0] == [] && s[|target|..] == rest;
    assert ReplaceFirst(s, target, replacement) == [] + replacement + rest;
  }

  lemma ReplaceFirstAbsent(s: string, target: string, replacement: string)
    requires !Contains(s, target)
    ensures ReplaceFirst(s, target, replacement) == s
  {
  }

  /**
   * The occurrences of `p` in `q + x` all lie inside `x` when no suffix of
   * `q` starts a match of `p` (checked per position of `q` by the caller).
   */
  lemma {:induction false} ContainsAfterPrefix(q: string, x: string, p: string)
    requires |p| > 0
    requires forall i :: 0 <= i < |q| ==> q[i] != p[0]
    ensures Contains(q + x, p) <==> Contains(x, p)
  {
    if Contains(x, p) {
      MatchInSuffix(q, x, p, IndexOf(x, p));
    }
    if Contains(q + x, p) {
      var k := IndexOf(q + x, p);
      if k < |q| {
        NoMatchInPrefix(q, x, p, k);
      } else {
        MatchInSuffix(q, x, p, k - |q|);
      }
    }
  }

  /** An occurrence in `x` is one in `q + x`, shifted by `|q|`, and conversely. */
  lemma MatchInSuffix(q: string, x: string, p: string, j: nat)
    ensures MatchAt(x, p, j) <==> MatchAt(q + x, p, |q| + j)
  {
    var s := q + x;
    if j + |p| <= |x| {
      assert s[|q|..] == x;
      assert s[|q| + j..|q| + j + |p|] == s[|q|..][j..j + |p|];
    }
  }

  /** No occurrence of `p` starts at a character of `q` that differs from `p`'s first one. */
  lemma NoMatchInPrefix(q: string, x: string, p: string, i: nat)
    requires |p| > 0 && i < |q| && q[i] != p[0]
    ensures !MatchAt(q + x, p, i)
  {
    var s := q + x;
    if i + |p| <= |s| {
      assert s[i..i + |p|][0] == q[i];
    }
  }

  // ---------------------------------------------------------------------
  // split and trim

  /** The pieces of `s` between occurrences of `c`, keeping every empty piece. */
  function SplitAll(s: string, c: char): (r: seq<string>)
    ensures |r| >= 1
    ensures forall k :: 0 <= k < |r| ==> c !in r[k]
    decreases |s|
  {
    if |s| == 0 then [[]]
    else
      var init := SplitAll(s[..|s| - 1], c);
      var x := s[|s| - 1];
      if x == c then init + [[]]
      else init[..|init| - 1] + [init[|init| - 1] + [x]]
  }

  /** Rejoins pieces with `c` between them: the inverse of `SplitAll`. */
  function Join(ps: seq<string>, c: char): string
  {
    if |ps| == 0 then []
    else if |ps| == 1 then ps[0]
    else Join(ps[..|ps| - 1], c) + [c] + ps[|ps| - 1]
  }

  lemma {:induction false} JoinSplitAll(s: string, c: char)
    ensures Join(SplitAll(s, c), c) == s
    decreases |s|
  {
    if |s| > 0 {
      var s' := s[..|s| - 1];
      var x := s[|s| - 1];
      assert s == s' + [x];
      var init := SplitAll(s', c);
      JoinSplitAll(s', c);
      if x == c {
        JoinEmptyLast(init, c);
      } else {
        JoinExtendLast(init, [x], c);
      }
    }
  }

  /** A new empty last piece adds one separator. */
  lemma JoinEmptyLast(ps: seq<string>, c: char)
    requires |ps| >= 1
    ensures Join(ps + [[]], c) == Join(ps, c) + [c]
  {
    var qs := ps + [[]];
    assert qs[..|qs| - 1] == ps;
    assert Join(qs, c) == Join(ps, c) + [c] + [];
  }

  /** Characters appended to the last piece are appended to the joined string. */
  lemma JoinExtendLast(ps: seq<string>, y: string, c: char)
    requires |ps| >= 1
    ensures Join(ps[..|ps| - 1] + [ps[|ps| - 1] + y], c) == Join(ps, c) + y
  {
    var front := ps[..|ps| - 1];
    var last := ps[|ps| - 1];
    var qs := front + [last + y];
    if |ps| > 1 {
      assert qs[..|qs| - 1] == front;
      assert Join(qs, c) == Join(front, c) + [c] + (last + y);
    }
  }

  lemma {:induction false} SplitAllWithout(s: string, c: char)
    requires c !in s
    ensures SplitAll(s, c) == [s]
    decreases |s|
  {
    if |s| > 0 {
      SplitAllWithout(s[..|s| - 1], c);
      assert s[..|s| - 1] + [s[|s| - 1]] == s;
    }
  }

  /** Drops trailing empty pieces, as `String.split` does with a zero limit. */
  function DropTrailingEmpty(ps: seq<string>): (r: seq<string>)
    ensures |r| <= |ps| && r == ps[..|r|]
    ensures |r| > 0 ==> r[|r| - 1] != []
    ensures forall k :: |r| <= k < |ps| ==> ps[k] == []
  {
    if |ps| > 0 && ps[|ps| - 1] == [] then DropTrailingEmpty(ps[..|ps| - 1]) else ps
  }

  /** `s.split(c)` for a one-character pattern. */
  function JavaSplit(s: string, c: char): (r: seq<string>)
    ensures forall k :: 0 <= k < |r| ==> c !in r[k]
  {
    if c !in s then [s] else DropTrailingEmpty(SplitAll(s, c))
  }

  /** `s` without its trailing run of `c`. */
  function StripTrailing(s: string, c: char): (r: string)
    ensures |r| <= |s| && r == s[..|r|]
    ensures |r| > 0 ==> r[|r| - 1] != c
    ensures forall k :: |r| <= k < |s| ==> s[k] == c
  {
    if |s| > 0 && s[|s| - 1] == c then StripTrailing(s[..|s| - 1], c) else s
  }

  /**
   * Rejoining what `split` returns gives the input back, except for the
   * trailing separators whose empty pieces `split` dropped.
   */
  lemma {:induction false} JoinJavaSplit(s: string, c: char)
    ensures Join(JavaSplit(s, c), c) == StripTrailing(s, c)
    decreases |s|
  {
    if c !in s {
      if |s| > 0 { assert s[|s| - 1] in s; }
    } else {
      var x := s[|s| - 1];
      var s' := s[..|s| - 1];
      if x == c {
        assert SplitAll(s, c) == SplitAll(s', c) + [[]];
        assert (SplitAll(s', c) + [[]])[..|SplitAll(s', c)|] == SplitAll(s', c);
        if c in s' {
          JoinJavaSplit(s', c);
        } else {
          SplitAllWithout(s', c);
          if |s'| > 0 { assert s'[|s'| - 1] in s'; }
        }
      } else {
        JoinSplitAll(s, c);
        var init := SplitAll(s', c);
        assert SplitAll(s, c) == init[..|init| - 1] + [init[|init| - 1] + [x]];
      }
    }
  }

  /** Characters `String.trim` removes: every code point up to and including the space. */
  predicate IsTrimmable(ch: char)
  {
    ch <= ' '
  }

  function TrimLeading(s: string): (r: string)
    ensures |r| <= |s| && r == s[|s| - |r|..]
    ensures forall k :: 0 <= k < |s| - |r| ==> IsTrimmable(s[k])
    ensures |r| > 0 ==> !IsTrimmable(r[0])
  {
    if |s| > 0 && IsTrimmable(s[0]) then TrimLeading(s[1..]) else s
  }

  function TrimTrailing(s: string): (r: string)
    ensures |r| <= |s| && r == s[..|r|]
    ensures forall k :: |r| <= k < |s| ==> IsTrimmable(s[k])
    ensures |r| > 0 ==> !IsTrimmable(r[|r| - 1])
  {
    if |s| > 0 && IsTrimmable(s[|s| - 1]) then TrimTrailing(s[..|s| - 1]) else s
  }

  /** `r` occurs in `s` at `i`, and every character of `s` before or after that occurrence is trimmable. */
  predicate TrimmedAt(s: string, r: string, i: int)
  {
    && MatchAt(s, r, i)
    && (forall k :: 0 <= k < i ==> IsTrimmable(s[k]))
    && (forall k :: i + |r| <= k < |s| ==> IsTrimmable(s[k]))
  }

  /** `s.trim()`: `s` without leading and trailing characters up to the space. */
  function Trim(s: string): (r: string)
    ensures exists i :: TrimmedAt(s, r, i)
    ensures |r| > 0 ==> !IsTrimmable(r[0]) && !IsTrimmable(r[|r| - 1])
  {
    var l := TrimLeading(s);
    var r := TrimTrailing(l);
    var i := |s| - |l|;
    assert MatchAt(s, r, i);
    forall k | i + |r| <= k < |s| ensures IsTrimmable(s[k]) {
      assert s[k] == l[k - i];
    }
    assert TrimmedAt(s, r, i);
    r
  }

  /** The contract of `Trim` fixes its result: no other infix of `s` is trimmed at both ends with only trimmable characters around it. */
  lemma {:induction false} TrimUnique(s: string, r: string, i: int)
    requires TrimmedAt(s, r, i)
    requires |r| > 0 ==> !IsTrimmable(r[0]) && !IsTrimmable(r[|r| - 1])
    ensures r == Trim(s)
  {
    var t := Trim(s);
    var j :| TrimmedAt(s, t, j);
    if |r| > 0 {
      assert s[i] == r[0] && s[i + |r| - 1] == r[|r| - 1];
      if |t| > 0 {
        assert s[j] == t[0] && s[j + |t| - 1] == t[|t| - 1];
        assert i == j;
        assert i + |r| == j + |t|;
      }
    }
  }

  lemma {:induction false} TrimIdempotent(s: string)
    ensures Trim(Trim(s)) == Trim(s)
  {
    var t := Trim(s);
    if |t| > 0 {
      assert TrimLeading(t) == t;
      assert TrimTrailing(t) == t;
    } else {
      assert t == [];
    }
  }

  lemma TrimKeepsOut(s: string, c: char)
    requires c !in s
    ensures c !in Trim(s)
  {
  }
}
