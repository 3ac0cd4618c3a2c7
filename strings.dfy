/**
  * The pieces of Go's `strings` and `bytes` packages that gs-init relies on:
  * `Split` and `ReplaceAll` with a non-empty separator, and `Join`.
  * Both scan from the left and take the leftmost non-overlapping occurrences.
  */
module Strings {

  /** `t` occurs in `s` starting at index `i`. */
  ghost predicate OccursAt<T>(s: seq<T>, t: seq<T>, i: int)
  {
    0 <= i && i + |t| <= |s| && s[i..i + |t|] == t
  }

  /** `s` contains no occurrence of `t`. */
  ghost predicate Free<T>(s: seq<T>, t: seq<T>)
  {
    forall i :: !OccursAt(s, t, i)
  }

  /** strings.Split(s, sep) for a non-empty `sep`: the pieces between the occurrences of `sep`. */
  function Split<T(==)>(s: seq<T>, sep: seq<T>): (parts: seq<seq<T>>)
    requires |sep| > 0
    ensures |parts| >= 1
    decreases |s|
  {
    if s == [] then [[]]
    else if sep <= s then [[]] + Split(s[|sep|..], sep)
    else
      var rest := Split(s[1..], sep);
      [[s[0]] + rest[0]] + rest[1..]
  }

  /** strings.Join(parts, sep). */
  function Join<T>(parts: seq<seq<T>>, sep: seq<T>): seq<T>
    decreases |parts|
  {
    if |parts| == 0 then []
    else if |parts| == 1 then parts[0]
    else parts[0] + sep + Join(parts[1..], sep)
  }

  /** strings.ReplaceAll(s, token, repl) for a non-empty `token`. */
  function ReplaceAll<T(==)>(s: seq<T>, token: seq<T>, repl: seq<T>): seq<T>
    requires |token| > 0
    decreases |s|
  {
    if s == [] then []
    else if token <= s then repl + ReplaceAll(s[|token|..], token, repl)
    else [s[0]] + ReplaceAll(s[1..], token, repl)
  }

  /** strings.Count(s, token): the number of occurrences ReplaceAll replaces. */
  function Count<T(==)>(s: seq<T>, token: seq<T>): nat
    requires |token| > 0
  {
    |Split(s, token)| - 1
  }

  // ---------------------------------------------------------------------
  // Join

  lemma JoinHead<T>(parts: seq<seq<T>>, sep: seq<T>)
    requires |parts| >= 1
    ensures parts[0] <= Join(parts, sep)
  {
  }

  lemma {:induction false} JoinSnoc<T>(parts: seq<seq<T>>, p: seq<T>, sep: seq<T>)
    ensures Join(parts + [p], sep) == if |parts| == 0 then p else Join(parts, sep) + sep + p
    decreases |parts|
  {
    if |parts| == 0 {
      assert parts + [p] == [p];
    } else if |parts| == 1 {
      assert (parts + [p])[1..] == [p];
    } else {
      assert (parts + [p])[1..] == parts[1..] + [p];
      JoinSnoc(parts[1..], p, sep);
    }
  }

  lemma JoinConsHead<T>(c: T, parts: seq<seq<T>>, sep: seq<T>)
    requires |parts| >= 1
    ensures Join([[c] + parts[0]] + parts[1..], sep) == [c] + Join(parts, sep)
  {
    var ps := [[c] + parts[0]] + parts[1..];
    assert ps[1..] == parts[1..];
  }

  // ---------------------------------------------------------------------
  // Split

  /** Joining the pieces of a split with the same separator gives back the input. */
  lemma {:induction false} SplitJoin<T>(s: seq<T>, sep: seq<T>)
    requires |sep| > 0
    ensures Join(Split(s, sep), sep) == s
    decreases |s|
  {
    if s == [] {
    } else if sep <= s {
      SplitJoin(s[|sep|..], sep);
      var rest := Split(s[|sep|..], sep);
      assert Split(s, sep) == [[]] + rest;
      assert ([[]] + rest)[1..] == rest;
      assert s == sep + s[|sep|..];
    } else {
      SplitJoin(s[1..], sep);
      JoinConsHead(s[0], Split(s[1..], sep), sep);
      assert s == [s[0]] + s[1..];
    }
  }

  /** No piece of a split contains the separator. */
  lemma {:induction false} SplitFree<T>(s: seq<T>, sep: seq<T>)
    requires |sep| > 0
    ensures forall k :: 0 <= k < |Split(s, sep)| ==> Free(Split(s, sep)[k], sep)
    decreases |s|
  {
    var parts := Split(s, sep);
    if s == [] {
      assert parts == [[]];
    } else if sep <= s {
      SplitFree(s[|sep|..], sep);
      var rest := Split(s[|sep|..], sep);
      assert parts == [[]] + rest;
      forall k | 0 <= k < |parts|
        ensures Free(parts[k], sep)
      {
        if k > 0 {
          assert parts[k] == rest[k - 1];
        }
      }
    } else {
      SplitFree(s[1..], sep);
      SplitJoin(s[1..], sep);
      var rest := Split(s[1..], sep);
      JoinHead(rest, sep);
      var p := [s[0]] + rest[0];
      assert p <= s;
      forall i
        ensures !OccursAt(p, sep, i)
      {
        if i == 0 {
          assert OccursAt(p, sep, 0) ==> sep <= s;
        } else if 0 < i && i + |sep| <= |p| {
          assert p[i..i + |sep|] == rest[0][i - 1..i - 1 + |sep|];
          assert !OccursAt(rest[0], sep, i - 1);
        }
      }
      forall k | 0 <= k < |parts|
        ensures Free(parts[k], sep)
      {
        if k > 0 {
          assert parts[k] == rest[k];
        }
      }
    }
  }

  /** For a one-element separator, being free of it is not containing it. */
  lemma FreeOfOne<T>(s: seq<T>, c: T)
    ensures Free(s, [c]) <==> c !in s
  {
    if c in s {
      var i :| 0 <= i < |s| && s[i] == c;
      assert OccursAt(s, [c], i);
    } else {
      forall i | 0 <= i < |s|
        ensures !OccursAt(s, [c], i)
      {
        assert s[i..i + 1] == [s[i]];
      }
    }
  }

  /** The last piece of a one-element split is the longest suffix without the separator. */
  lemma LastPart<T>(s: seq<T>, c: T)
    ensures var parts := Split(s, [c]);
            var last := parts[|parts| - 1];
            c !in last && |last| <= |s| && s[|s| - |last|..] == last &&
            (|last| < |s| ==> s[|s| - |last| - 1] == c)
  {
    var parts := Split(s, [c]);
    var n := |parts|;
    var last := parts[n - 1];
    SplitJoin(s, [c]);
    SplitFree(s, [c]);
    FreeOfOne(last, c);
    if n > 1 {
      assert parts[..n - 1] + [last] == parts;
      JoinSnoc(parts[..n - 1], last, [c]);
    }
  }

  /** Removing a first element that starts no occurrence does not change freedom. */
  lemma FreeTail<T>(s: seq<T>, t: seq<T>)
    requires |s| > 0 && !OccursAt(s, t, 0)
    ensures Free(s, t) <==> Free(s[1..], t)
  {
    forall i | 0 <= i && i + |t| <= |s[1..]|
      ensures OccursAt(s[1..], t, i) <==> OccursAt(s, t, i + 1)
    {
      assert s[1..][i..i + |t|] == s[i + 1..i + 1 + |t|];
    }
    if Free(s[1..], t) {
      forall i
        ensures !OccursAt(s, t, i)
      {
        if 0 < i && i + |t| <= |s| {
          assert !OccursAt(s[1..], t, i - 1);
        }
      }
    }
  }

  /** Count is zero exactly when the token does not occur. */
  lemma {:induction false} CountZero<T>(s: seq<T>, t: seq<T>)
    requires |t| > 0
    ensures Count(s, t) == 0 <==> Free(s, t)
    decreases |s|
  {
    if s == [] {
    } else if t <= s {
      assert OccursAt(s, t, 0);
    } else {
      CountZero(s[1..], t);
      FreeTail(s, t);
    }
  }

  // ---------------------------------------------------------------------
  // ReplaceAll

  /** ReplaceAll is Join of Split with the replacement as separator. */
  lemma {:induction false} ReplaceAllIsJoinOfSplit<T>(s: seq<T>, token: seq<T>, repl: seq<T>)
    requires |token| > 0
    ensures ReplaceAll(s, token, repl) == Join(Split(s, token), repl)
    decreases |s|
  {
    if s == [] {
    } else if token <= s {
      ReplaceAllIsJoinOfSplit(s[|token|..], token, repl);
      var rest := Split(s[|token|..], token);
      assert Split(s, token) == [[]] + rest;
      assert ([[]] + rest)[1..] == rest;
    } else {
      ReplaceAllIsJoinOfSplit(s[1..], token, repl);
      JoinConsHead(s[0], Split(s[1..], token), repl);
    }
  }

  /** Every replaced occurrence changes the length by |repl| - |token|. */
  lemma {:induction false} ReplaceAllLength<T>(s: seq<T>, token: seq<T>, repl: seq<T>)
    requires |token| > 0
    ensures |ReplaceAll(s, token, repl)| == |s| + Count(s, token) * (|repl| - |token|)
    decreases |s|
  {
    if s == [] {
    } else if token <= s {
      var rest := s[|token|..];
      ReplaceAllLength(rest, token, repl);
      assert ReplaceAll(s, token, repl) == repl + ReplaceAll(rest, token, repl);
      assert Split(s, token) == [[]] + Split(rest, token);
      MulSucc(Count(rest, token), |repl| - |token|);
    } else {
      ReplaceAllLength(s[1..], token, repl);
      assert ReplaceAll(s, token, repl) == [s[0]] + ReplaceAll(s[1..], token, repl);
      assert |Split(s, token)| == |Split(s[1..], token)|;
    }
  }

  lemma MulSucc(c: int, d: int)
    ensures (c + 1) * d == c * d + d
  {
  }

  lemma MulNonZero(c: int, d: int)
    requires c != 0 && d != 0
    ensures c * d != 0
  {
  }


  lemma {:induction false} ReplaceAllChangesSameLength<T>(s: seq<T>, token: seq<T>, repl: seq<T>)
    requires |token| > 0 && |repl| == |token| && repl != token && !Free(s, token)
    ensures ReplaceAll(s, token, repl) != s
    decreases |s|
  {
    if token <= s {
      assert ReplaceAll(s, token, repl)[..|token|] == repl;
      assert s[..|token|] == token;
    } else {
      assert !OccursAt(s, token, 0);
      FreeTail(s, token);
      ReplaceAllChangesSameLength(s[1..], token, repl);
      assert ReplaceAll(s, token, repl)[1..] == ReplaceAll(s[1..], token, repl);
    }
  }

  /**
    * ReplaceAll leaves its input unchanged exactly when the token does not
    * occur in it or is replaced by itself.
    */
  lemma ReplaceAllUnchanged<T>(s: seq<T>, token: seq<T>, repl: seq<T>)
    requires |token| > 0
    ensures ReplaceAll(s, token, repl) == s <==> Free(s, token) || repl == token
  {
    if Free(s, token) {
      ReplaceAllIsJoinOfSplit(s, token, repl);
      SplitJoin(s, token);
      CountZero(s, token);
      assert |Split(s, token)| == 1;
    } else if repl == token {
      ReplaceAllIsJoinOfSplit(s, token, repl);
      SplitJoin(s, token);
    } else if |repl| == |token| {
      ReplaceAllChangesSameLength(s, token, repl);
    } else {
      CountZero(s, token);
      ReplaceAllLength(s, token, repl);
      MulNonZero(Count(s, token), |repl| - |token|);
    }
  }

  /**
    * No occurrence of `token` can involve a copy of `repl`: the token does not
    * lie inside the replacement, the replacement does not lie inside the token
    * (so it is not empty), and neither edge of the replacement can complete a
    * partial token from outside it.
    */
  ghost predicate NoOverlap<T>(repl: seq<T>, token: seq<T>)
  {
    && Free(repl, token)
    && Free(token, repl)
    && (forall k :: 0 < k < |token| && k <= |repl| ==> repl[|repl| - k..] != token[..k])
    && (forall k :: 0 < k < |token| && k <= |repl| ==> repl[..k] != token[|token| - k..])
  }

  /** A non-empty replacement sharing no element with the token cannot overlap it. */
  lemma DisjointNoOverlap<T>(repl: seq<T>, token: seq<T>)
    requires |token| > 0 && |repl| > 0
    requires forall k :: 0 <= k < |repl| ==> repl[k] !in token
    ensures NoOverlap(repl, token)
  {
    forall i | 0 <= i && i + |token| <= |repl|
      ensures !OccursAt(repl, token, i)
    {
      assert repl[i..i + |token|][0] == repl[i];
    }
    forall i | 0 <= i && i + |repl| <= |token|
      ensures !OccursAt(token, repl, i)
    {
      assert token[i..i + |repl|][0] == token[i];
    }
    forall k | 0 < k < |token| && k <= |repl|
      ensures repl[|repl| - k..] != token[..k]
    {
      assert repl[|repl| - k..][0] == repl[|repl| - k];
    }
    forall k | 0 < k < |token| && k <= |repl|
      ensures repl[..k] != token[|token| - k..]
    {
      assert token[|token| - k..][0] == token[|token| - k];
    }
  }

  /** A window of `x` that lies inside a copy of `y` at `lo` is a window of `y`. */
  lemma Window<T>(x: seq<T>, lo: int, y: seq<T>, i: int, n: int)
    requires 0 <= lo <= i && 0 <= n && i + n <= lo + |y| <= |x| && x[lo..lo + |y|] == y
    ensures x[i..i + n] == y[i - lo..i - lo + n]
  {
    forall j | i <= j < i + n
      ensures x[j] == y[j - lo]
    {
      assert x[lo..lo + |y|][j - lo] == x[j];
    }
  }

  /** A replacement that cannot overlap the token, set between token-free pieces, creates no token. */
  lemma FreeAround<T>(a: seq<T>, repl: seq<T>, b: seq<T>, token: seq<T>)
    requires |token| > 0 && Free(a, token) && Free(b, token) && NoOverlap(repl, token)
    ensures Free(a + repl + b, token)
  {
    var x := a + repl + b;
    forall i | 0 <= i && i + |token| <= |x|
      ensures !OccursAt(x, token, i)
    {
      if i + |token| <= |a| || i >= |a| + |repl| || (|a| <= i && i + |token| <= |a| + |repl|) {
        WindowInPiece(a, repl, b, token, i);
      } else {
        WindowAcrossRepl(a, repl, b, token, i);
      }
    }
  }

  /** A window inside `a`, `repl` or `b` is not the token. */
  lemma WindowInPiece<T>(a: seq<T>, repl: seq<T>, b: seq<T>, token: seq<T>, i: int)
    requires |token| > 0 && Free(a, token) && Free(b, token) && Free(repl, token)
    requires 0 <= i && i + |token| <= |a| + |repl| + |b|
    requires i + |token| <= |a| || i >= |a| + |repl| || (|a| <= i && i + |token| <= |a| + |repl|)
    ensures !OccursAt(a + repl + b, token, i)
  {
    var x, n, m := a + repl + b, |token|, |repl|;
    if i + n <= |a| {
      assert x[0..|a|] == a;
      WindowInFree(x, 0, a, token, i);
    } else if i >= |a| + m {
      assert x[|a| + m..|a| + m + |b|] == b;
      WindowInFree(x, |a| + m, b, token, i);
    } else {
      assert x[|a|..|a| + m] == repl;
      WindowInFree(x, |a|, repl, token, i);
    }
  }

  /** A window inside a token-free copy of `y` is not the token. */
  lemma WindowInFree<T>(x: seq<T>, lo: int, y: seq<T>, token: seq<T>, i: int)
    requires Free(y, token)
    requires 0 <= lo <= i && i + |token| <= lo + |y| <= |x| && x[lo..lo + |y|] == y
    ensures x[i..i + |token|] != token
  {
    Window(x, lo, y, i, |token|);
    assert !OccursAt(y, token, i - lo);
  }

  /** A window that meets the edge of `repl` from outside is not the token. */
  lemma WindowAcrossRepl<T>(a: seq<T>, repl: seq<T>, b: seq<T>, token: seq<T>, i: int)
    requires |token| > 0 && NoOverlap(repl, token)
    requires 0 <= i && i + |token| <= |a| + |repl| + |b|
    requires |a| - |token| < i < |a| + |repl|
    requires i < |a| || |a| + |repl| < i + |token|
    ensures !OccursAt(a + repl + b, token, i)
  {
    var x, lo, n, m := a + repl + b, |a|, |token|, |repl|;
    assert x[lo..lo + m] == repl;
    if i < lo && lo + m <= i + n {
      WindowHoldsRepl(x, lo, repl, token, i);
    } else if i < lo {
      WindowEndsInRepl(x, lo, repl, token, i);
    } else {
      WindowStartsInRepl(x, lo, repl, token, i);
    }
  }

  lemma WindowHoldsRepl<T>(x: seq<T>, lo: int, repl: seq<T>, token: seq<T>, i: int)
    requires Free(token, repl)
    requires 0 <= i <= lo && lo + |repl| <= i + |token| <= |x| && x[lo..lo + |repl|] == repl
    ensures x[i..i + |token|] != token
  {
    var w := x[i..i + |token|];
    Window(x, i, w, lo, |repl|);
    assert !OccursAt(token, repl, lo - i);
  }

  lemma WindowEndsInRepl<T>(x: seq<T>, lo: int, repl: seq<T>, token: seq<T>, i: int)
    requires forall k :: 0 < k < |token| && k <= |repl| ==> repl[..k] != token[|token| - k..]
    requires 0 <= i < lo < i + |token| <= lo + |repl| <= |x| && x[lo..lo + |repl|] == repl
    ensures x[i..i + |token|] != token
  {
    var n := |token|;
    var k := i + n - lo;
    var w := x[i..i + n];
    Window(x, lo, repl, lo, k);
    Window(x, i, w, lo, k);
    assert w[n - k..] == repl[..k];
  }

  lemma WindowStartsInRepl<T>(x: seq<T>, lo: int, repl: seq<T>, token: seq<T>, i: int)
    requires forall k :: 0 < k < |token| && k <= |repl| ==> repl[|repl| - k..] != token[..k]
    requires 0 <= lo <= i < lo + |repl| < i + |token| <= |x| && x[lo..lo + |repl|] == repl
    ensures x[i..i + |token|] != token
  {
    var n, m := |token|, |repl|;
    var k := lo + m - i;
    var w := x[i..i + n];
    Window(x, lo, repl, i, k);
    Window(x, i, w, i, k);
    assert w[..k] == repl[m - k..];
  }

  /** Joining token-free pieces with a replacement that cannot overlap the token creates no token. */
  lemma {:induction false} JoinFree<T>(parts: seq<seq<T>>, repl: seq<T>, token: seq<T>)
    requires |token| > 0 && NoOverlap(repl, token)
    requires forall k :: 0 <= k < |parts| ==> Free(parts[k], token)
    ensures Free(Join(parts, repl), token)
    decreases |parts|
  {
    if |parts| > 1 {
      JoinFree(parts[1..], repl, token);
      FreeAround(parts[0], repl, Join(parts[1..], repl), token);
    }
  }

  /**
    * A replacement that cannot overlap the token leaves no occurrence of the
    * token behind.
    */
  lemma ReplaceAllRemovesToken<T>(s: seq<T>, token: seq<T>, repl: seq<T>)
    requires |token| > 0 && NoOverlap(repl, token)
    ensures Free(ReplaceAll(s, token, repl), token)
  {
    ReplaceAllIsJoinOfSplit(s, token, repl);
    SplitFree(s, token);
    JoinFree(Split(s, token), repl, token);
  }

  /** A factor of a sequence free of `t` is free of `t`. */
  lemma FreeFactor<T>(s: seq<T>, lo: int, hi: int, t: seq<T>)
    requires Free(s, t) && 0 <= lo <= hi <= |s|
    ensures Free(s[lo..hi], t)
  {
    forall i | 0 <= i && i + |t| <= hi - lo
      ensures !OccursAt(s[lo..hi], t, i)
    {
      Window(s, lo, s[lo..hi], lo + i, |t|);
      assert !OccursAt(s, t, lo + i);
    }
  }

  /** Each piece of a split is a factor of the input, so it is free of whatever the input is free of. */
  lemma {:induction false} SplitKeepsFree<T>(s: seq<T>, sep: seq<T>, t: seq<T>)
    requires |sep| > 0 && Free(s, t)
    ensures forall k :: 0 <= k < |Split(s, sep)| ==> Free(Split(s, sep)[k], t)
    decreases |s|
  {
    var parts := Split(s, sep);
    if s == [] {
      assert parts == [[]];
      FreeFactor(s, 0, 0, t);
    } else if sep <= s {
      FreeFactor(s, |sep|, |s|, t);
      assert s[|sep|..|s|] == s[|sep|..];
      SplitKeepsFree(s[|sep|..], sep, t);
      var rest := Split(s[|sep|..], sep);
      assert parts == [[]] + rest;
      FreeFactor(s, 0, 0, t);
      forall k | 0 <= k < |parts|
        ensures Free(parts[k], t)
      {
        if k > 0 {
          assert parts[k] == rest[k - 1];
        }
      }
    } else {
      FreeFactor(s, 1, |s|, t);
      assert s[1..|s|] == s[1..];
      SplitKeepsFree(s[1..], sep, t);
      SplitJoin(s[1..], sep);
      var rest := Split(s[1..], sep);
      JoinHead(rest, sep);
      var p := [s[0]] + rest[0];
      assert p == s[..|p|];
      FreeFactor(s, 0, |p|, t);
      forall k | 0 <= k < |parts|
        ensures Free(parts[k], t)
      {
        if k > 0 {
          assert parts[k] == rest[k];
        }
      }
    }
  }

  /**
    * Replacing `token` by a replacement that cannot overlap `t` creates no
    * occurrence of `t` in an input free of `t`.
    */
  lemma ReplaceAllKeepsFree<T>(s: seq<T>, token: seq<T>, repl: seq<T>, t: seq<T>)
    requires |token| > 0 && |t| > 0 && Free(s, t) && NoOverlap(repl, t)
    ensures Free(ReplaceAll(s, token, repl), t)
  {
    ReplaceAllIsJoinOfSplit(s, token, repl);
    SplitKeepsFree(s, token, t);
    JoinFree(Split(s, token), repl, t);
  }

  /** An element in neither the input nor the replacement is not in the result. */
  lemma {:induction false} ReplaceAllKeepsAbsent<T>(s: seq<T>, token: seq<T>, repl: seq<T>, c: T)
    requires |token| > 0 && c !in s && c !in repl
    ensures c !in ReplaceAll(s, token, repl)
    decreases |s|
  {
    if s != [] {
      if token <= s {
        ReplaceAllKeepsAbsent(s[|token|..], token, repl, c);
      } else {
        ReplaceAllKeepsAbsent(s[1..], token, repl, c);
      }
    }
  }

  /** A separator element that is not part of the token splits the replacement in two. */
  lemma {:induction false} ReplaceAllAcross<T>(a: seq<T>, c: T, b: seq<T>, token: seq<T>, repl: seq<T>)
    requires |token| > 0 && c !in token
    ensures ReplaceAll(a + [c] + b, token, repl)
         == ReplaceAll(a, token, repl) + [c] + ReplaceAll(b, token, repl)
    decreases |a|
  {
    var s := a + [c] + b;
    PrefixBefore(token, a, c, b);
    if a == [] {
      assert s[1..] == b;
    } else if token <= a {
      var rest := a[|token|..];
      assert s[|token|..] == rest + [c] + b;
      ReplaceAllAcross(rest, c, b, token, repl);
    } else {
      assert s[1..] == a[1..] + [c] + b;
      ReplaceAllAcross(a[1..], c, b, token, repl);
    }
  }

  /** Elements at which no token starts are copied through unchanged. */
  lemma {:induction false} ReplaceAllCopiesPrefix<T>(a: seq<T>, b: seq<T>, token: seq<T>, repl: seq<T>)
    requires |token| > 0
    requires forall i :: 0 <= i < |a| ==> !(token <= (a + b)[i..])
    ensures ReplaceAll(a + b, token, repl) == a + ReplaceAll(b, token, repl)
    decreases |a|
  {
    if a != [] {
      var s := a + b;
      assert s[0..] == s;
      assert s[1..] == a[1..] + b;
      forall i | 0 <= i < |a[1..]|
        ensures !(token <= (a[1..] + b)[i..])
      {
        assert (a[1..] + b)[i..] == s[i + 1..];
      }
      ReplaceAllCopiesPrefix(a[1..], b, token, repl);
    }
  }

  /** A single token, with no token starting before it and none after it, is the only thing replaced. */
  lemma ReplaceAllOneToken<T>(head: seq<T>, token: seq<T>, tail: seq<T>, repl: seq<T>)
    requires |token| > 0 && Free(tail, token)
    requires forall i :: 0 <= i < |head| ==> !(token <= (head + (token + tail))[i..])
    ensures ReplaceAll(head + token + tail, token, repl) == head + repl + tail
  {
    ReplaceAllCopiesPrefix(head, token + tail, token, repl);
    assert (token + tail)[|token|..] == tail;
    ReplaceAllUnchanged(tail, token, repl);
    assert head + token + tail == head + (token + tail);
  }

  /** A token without `c` is a prefix of a + [c] + b exactly when it is a prefix of a. */
  lemma PrefixBefore<T>(token: seq<T>, a: seq<T>, c: T, b: seq<T>)
    requires |token| > 0 && c !in token
    ensures token <= a + [c] + b <==> token <= a
  {
    var s := a + [c] + b;
    if token <= s {
      forall k | 0 <= k < |token|
        ensures s[k] != c
      {
        assert s[k] == token[k];
      }
      assert s[|a|] == c;
      assert |token| <= |a|;
    }
  }


}
