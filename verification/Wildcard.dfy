/**
 The ACL host matcher: a greedy loop with one backtrack point, compared with the declarative meaning of a
 glob pattern. The loop tests for an equal byte before it tests for `*`, so a `*` byte in the *value* forces
 the pattern's `*` to be read literally; `LiteralFirst` is that reading, and the theorems say exactly when it
 coincides with `Glob`.
 */
module Wildcard {
  import opened Bytes

  const STAR: Byte := 42

  /** What a pattern is meant to accept: `*` stands for any byte string, every other byte for itself. */
  ghost predicate Glob(pattern: Bytes, value: Bytes)
    decreases |pattern|
  {
    if pattern == [] then value == []
    else if pattern[0] == STAR then
      exists k :: 0 <= k <= |value| && Glob(pattern[1..], value[k..])
    else value != [] && value[0] == pattern[0] && Glob(pattern[1..], value[1..])
  }

  /** The wildcard is the asterisk, byte 42: any other byte alone accepts only itself. */
  lemma {:induction false} OneByte(b: Byte, value: Bytes)
    ensures Glob([b], value) <==> b == 42 || value == [b]
  {
    assert Glob([], value[|value|..]);
    if value != [] { assert value == [value[0]] + value[1..]; }
  }

  predicate AllStars(pattern: Bytes) {
    forall i :: 0 <= i < |pattern| ==> pattern[i] == STAR
  }

  /** As `Glob`, except that a byte equal to the pattern's is always consumed literally, even when it is `*`. */
  ghost predicate LiteralFirst(pattern: Bytes, value: Bytes)
    decreases |pattern|
  {
    if value == [] then AllStars(pattern)
    else if pattern == [] then false
    else if pattern[0] == value[0] then LiteralFirst(pattern[1..], value[1..])
    else pattern[0] == STAR && exists k :: 0 <= k <= |value| && LiteralFirst(pattern[1..], value[k..])
  }

  /** Values in which `*` can only be the last byte. */
  predicate StarOnlyLast(value: Bytes) {
    forall i :: 0 <= i < |value| - 1 ==> value[i] != STAR
  }

  /**
   Why one backtrack point is enough. Once `segment` has matched at the front of `value`, no later start for
   it can reach `rest` earlier than the position just after that front match.
   */
  lemma {:induction false} ShiftedSegment(segment: Bytes, rest: Bytes, value: Bytes, k: nat)
    requires segment <= value && k <= |value|
    requires LiteralFirst(segment + rest, value[k..])
    ensures exists j :: |segment| <= j <= |value| && LiteralFirst(rest, value[j..])
    decreases |segment|
  {
    var pattern := segment + rest;
    if segment == [] {
      assert pattern == rest;
    } else if k == |value| {
      assert forall i :: 0 <= i < |rest| ==> rest[i] == pattern[|segment| + i];
      assert LiteralFirst(rest, value[|value|..]);
    } else {
      assert pattern[1..] == segment[1..] + rest;
      var tail := value[1..];
      var next :| 0 <= next <= |tail| && LiteralFirst(pattern[1..], tail[next..]) by {
        if segment[0] == value[k] {
          assert value[k..][1..] == tail[k..];
        } else {
          var skip :| 0 <= skip <= |value[k..]| && LiteralFirst(pattern[1..], value[k..][skip..]);
          assert value[k..][skip..] == tail[k + skip - 1..];
        }
      }
      ShiftedSegment(segment[1..], rest, tail, next);
      var j :| |segment[1..]| <= j <= |tail| && LiteralFirst(rest, tail[j..]);
      assert tail[j..] == value[j + 1..];
    }
  }

  /** Some start for the text after the last `*`, later than `retry`, still succeeds. */
  ghost predicate LaterStart(value: Bytes, pattern: Bytes, star: nat, retry: nat)
    requires star < |pattern|
  {
    exists k :: retry < k <= |value| && LiteralFirst(pattern[star + 1..], value[k..])
  }

  lemma {:induction false} LaterStartIsSubsumed(value: Bytes, pattern: Bytes, star: nat, retry: nat, vi: nat, pi: nat)
    requires star < pi <= |pattern| && retry <= vi <= |value|
    requires pattern[star + 1..pi] == value[retry..vi]
    requires LaterStart(value, pattern, star, retry)
    ensures exists j :: vi <= j <= |value| && LiteralFirst(pattern[pi..], value[j..])
  {
    var k :| retry < k <= |value| && LiteralFirst(pattern[star + 1..], value[k..]);
    var segment, window := pattern[star + 1..pi], value[retry..];
    assert pattern[star + 1..] == segment + pattern[pi..];
    assert value[k..] == window[k - retry..];
    ShiftedSegment(segment, pattern[pi..], window, k - retry);
    var j :| |segment| <= j <= |window| && LiteralFirst(pattern[pi..], window[j..]);
    assert window[j..] == value[retry + j..];
  }

  /** A `*` that can start later can also start now. */
  lemma {:induction false} StarAbsorbs(pattern: Bytes, value: Bytes, vi: nat)
    requires vi < |value| && pattern != [] && pattern[0] == STAR && value[vi] != STAR
    requires exists j :: vi <= j <= |value| && LiteralFirst(pattern, value[j..])
    ensures LiteralFirst(pattern, value[vi..])
  {
    var j :| vi <= j <= |value| && LiteralFirst(pattern, value[j..]);
    if j > vi {
      var k :| 0 <= k <= |value[j..]| && LiteralFirst(pattern[1..], value[j..][k..]) by {
        if j == |value| {
          assert value[j..][0..] == [];
        } else if value[j] == STAR {
          assert value[j..][1..] == value[j + 1..];
        }
      }
      assert value[j..][k..] == value[vi..][j + k - vi..];
    }
  }

  lemma {:induction false} StarUnfolds(value: Bytes, pattern: Bytes, vi: nat, pi: nat)
    requires vi < |value| && pi < |pattern| && pattern[pi] == STAR && value[vi] != STAR
    ensures LiteralFirst(pattern[pi..], value[vi..]) <==>
            LiteralFirst(pattern[pi + 1..], value[vi..]) || LaterStart(value, pattern, pi, vi)
  {
    var w := value[vi..];
    assert pattern[pi..][1..] == pattern[pi + 1..] && w[0..] == w;
    if LiteralFirst(pattern[pi..], w) {
      var k :| 0 <= k <= |w| && LiteralFirst(pattern[pi + 1..], w[k..]);
      assert w[k..] == value[vi + k..];
    }
    if LaterStart(value, pattern, pi, vi) {
      var k :| vi < k <= |value| && LiteralFirst(pattern[pi + 1..], value[k..]);
      assert w[k - vi..] == value[k..];
    }
  }

  lemma {:induction false} StartUnfolds(value: Bytes, pattern: Bytes, star: nat, retry: nat)
    requires star < |pattern| && retry < |value|
    ensures LaterStart(value, pattern, star, retry) <==>
            LiteralFirst(pattern[star + 1..], value[retry + 1..]) || LaterStart(value, pattern, star, retry + 1)
  {
  }

  /**
   What the loop knows: the text since the last `*` has matched literally, and the whole question has been
   reduced to the current position or a later start after that `*`.
   */
  ghost predicate Searching(value: Bytes, pattern: Bytes, vi: nat, pi: nat, star: Option<nat>, retry: nat) {
    && retry <= vi <= |value|
    && pi <= |pattern|
    && (star.Some? ==> star.value < pi && pattern[star.value + 1..pi] == value[retry..vi])
    && (LiteralFirst(pattern, value) <==>
        LiteralFirst(pattern[pi..], value[vi..]) ||
        (star.Some? && LaterStart(value, pattern, star.value, retry)))
  }

  /** The matcher as the repository runs it. */
  method WildcardMatches(value: Bytes, pattern: Bytes) returns (matched: bool)
    ensures matched <==> LiteralFirst(pattern, value)
    ensures matched ==> Glob(pattern, value)
    ensures StarOnlyLast(value) ==> (matched <==> Glob(pattern, value))
  {
    hide LiteralFirst, Glob, LaterStart, StarOnlyLast;
    var vi: nat, pi: nat, retry: nat := 0, 0, 0;
    var star: Option<nat> := None;
    assert value[0..] == value && pattern[0..] == pattern;
    LiteralFirstIsSound(pattern, value);
    if StarOnlyLast(value) && Glob(pattern, value) { GlobIsLiteralFirst(pattern, value); }
    while vi < |value|
      invariant Searching(value, pattern, vi, pi, star, retry)
      decreases |pattern| - (if star.Some? then star.value + 1 else 0), |value| - retry, |value| - vi
    {
      if pi < |pattern| && pattern[pi] == value[vi] {
        LiteralStep(value, pattern, vi, pi, star, retry);
        vi, pi := vi + 1, pi + 1;
      } else if pi < |pattern| && pattern[pi] == STAR {
        StarStep(value, pattern, vi, pi, star, retry);
        star, pi, retry := Some(pi), pi + 1, vi;
      } else if star.Some? {
        RetryStep(value, pattern, vi, pi, star, retry);
        retry := retry + 1;
        vi, pi := retry, star.value + 1;
      } else {
        MismatchFails(value, pattern, vi, pi);
        return false;
      }
    }
    Exhausted(value, pattern, pi, star, retry);
    matched := AllStars(pattern[pi..]);
  }

  lemma {:induction false} MismatchFails(value: Bytes, pattern: Bytes, vi: nat, pi: nat)
    requires vi < |value| && pi <= |pattern|
    requires pi < |pattern| ==> pattern[pi] != value[vi] && pattern[pi] != STAR
    ensures !LiteralFirst(pattern[pi..], value[vi..])
  {
  }

  lemma {:induction false} LiteralStep(value: Bytes, pattern: Bytes, vi: nat, pi: nat, star: Option<nat>, retry: nat)
    requires Searching(value, pattern, vi, pi, star, retry)
    requires vi < |value| && pi < |pattern| && pattern[pi] == value[vi]
    ensures Searching(value, pattern, vi + 1, pi + 1, star, retry)
  {
    assert pattern[pi..][1..] == pattern[pi + 1..] && value[vi..][1..] == value[vi + 1..];
    if star.Some? {
      assert pattern[star.value + 1..pi + 1] == pattern[star.value + 1..pi] + [pattern[pi]];
      assert value[retry..vi + 1] == value[retry..vi] + [value[vi]];
    }
  }

  lemma {:induction false} StarStep(value: Bytes, pattern: Bytes, vi: nat, pi: nat, star: Option<nat>, retry: nat)
    requires Searching(value, pattern, vi, pi, star, retry)
    requires vi < |value| && pi < |pattern| && pattern[pi] == STAR != value[vi]
    ensures Searching(value, pattern, vi, pi + 1, Some(pi), vi)
  {
    if star.Some? && LaterStart(value, pattern, star.value, retry) {
      LaterStartIsSubsumed(value, pattern, star.value, retry, vi, pi);
      StarAbsorbs(pattern[pi..], value, vi);
    }
    StarUnfolds(value, pattern, vi, pi);
  }

  lemma {:induction false} RetryStep(value: Bytes, pattern: Bytes, vi: nat, pi: nat, star: Option<nat>, retry: nat)
    requires Searching(value, pattern, vi, pi, star, retry)
    requires vi < |value| && star.Some?
    requires pi < |pattern| ==> pattern[pi] != value[vi] && pattern[pi] != STAR
    ensures Searching(value, pattern, retry + 1, star.value + 1, star, retry + 1)
  {
    MismatchFails(value, pattern, vi, pi);
    StartUnfolds(value, pattern, star.value, retry);
  }

  lemma {:induction false} Exhausted(value: Bytes, pattern: Bytes, pi: nat, star: Option<nat>, retry: nat)
    requires Searching(value, pattern, |value|, pi, star, retry)
    ensures LiteralFirst(pattern, value) <==> AllStars(pattern[pi..])
  {
    if star.Some? && LaterStart(value, pattern, star.value, retry) {
      LaterStartIsSubsumed(value, pattern, star.value, retry, |value|, pi);
    }
  }

  // ----- the literal-first reading against the declarative one -----

  /** Whatever the matcher accepts, the glob accepts: for every pattern and every value. */
  lemma {:induction false} LiteralFirstIsSound(pattern: Bytes, value: Bytes)
    ensures LiteralFirst(pattern, value) ==> Glob(pattern, value)
    decreases |pattern|
  {
    if LiteralFirst(pattern, value) && pattern != [] {
      if value == [] {
        LiteralFirstIsSound(pattern[1..], []);
        assert value[0..] == [];
      } else if pattern[0] == value[0] {
        LiteralFirstIsSound(pattern[1..], value[1..]);
      } else {
        var k :| 0 <= k <= |value| && LiteralFirst(pattern[1..], value[k..]);
        LiteralFirstIsSound(pattern[1..], value[k..]);
      }
    }
  }

  lemma {:induction false} OnlyStarsMatchAStar(pattern: Bytes, value: Bytes)
    requires value == [] || value == [STAR]
    requires Glob(pattern, value)
    ensures AllStars(pattern)
    decreases |pattern|
  {
    if pattern != [] {
      var k :| 0 <= k <= |value| && Glob(pattern[1..], value[k..]);
      OnlyStarsMatchAStar(pattern[1..], value[k..]);
      assert pattern == [STAR] + pattern[1..];
    }
  }

  lemma {:induction false} GlobIsLiteralFirst(pattern: Bytes, value: Bytes)
    requires StarOnlyLast(value) && Glob(pattern, value)
    ensures LiteralFirst(pattern, value)
    decreases |pattern|
  {
    if value == [] || value == [STAR] {
      OnlyStarsMatchAStar(pattern, value);
      assert pattern != [] ==> AllStars(pattern[1..]);
    } else if pattern[0] != STAR {
      GlobIsLiteralFirst(pattern[1..], value[1..]);
    } else {
      var k :| 0 <= k <= |value| && Glob(pattern[1..], value[k..]);
      GlobIsLiteralFirst(pattern[1..], value[k..]);
    }
  }

  /** The first interior `*` of a value, cut just after, is a pattern the glob accepts and the matcher does not. */
  lemma {:induction false} InteriorStarFails(value: Bytes, i: nat)
    requires i < |value| - 1 && value[i] == STAR
    requires forall j :: 0 <= j < i ==> value[j] != STAR
    ensures Glob(value[..i + 1], value) && !LiteralFirst(value[..i + 1], value)
    decreases i
  {
    var pattern := value[..i + 1];
    if i == 0 {
      assert value[|value|..] == [] && pattern[1..] == [];
      assert Glob(pattern[1..], value[|value|..]);
    } else {
      InteriorStarFails(value[1..], i - 1);
      assert pattern[1..] == value[1..][..i];
    }
  }

  /** Exactly which values the matcher treats as a glob should, whatever the pattern. */
  lemma {:induction false} AgreesWithGlobExactlyWhen(value: Bytes)
    ensures (forall pattern: Bytes :: LiteralFirst(pattern, value) <==> Glob(pattern, value)) <==> StarOnlyLast(value)
  {
    if StarOnlyLast(value) {
      forall pattern: Bytes ensures LiteralFirst(pattern, value) <==> Glob(pattern, value) {
        LiteralFirstIsSound(pattern, value);
        if Glob(pattern, value) { GlobIsLiteralFirst(pattern, value); }
      }
    } else {
      var i: nat :| i < |value| - 1 && value[i] == STAR;
      while exists j :: 0 <= j < i && value[j] == STAR
        invariant i < |value| - 1 && value[i] == STAR
        decreases i
      {
        var j :| 0 <= j < i && value[j] == STAR;
        i := j;
      }
      InteriorStarFails(value, i);
    }
  }
}
