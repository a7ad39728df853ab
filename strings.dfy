/**
 * The parts of java.lang.String and java.util.regex.Matcher that the rewriters
 * rely on, written out over `string` (a `seq<char>`).
 */
module Strings {

  datatype Option<+T> = None | Some(value: T)

  /** `w` occurs in `s` starting at offset `p`. */
  predicate StartsAt(s: string, p: nat, w: string)
  {
    p + |w| <= |s| && AgreeFrom(s, p, w, 0)
  }

  /** The characters of `w` from offset `i` on are those of `s` from `p + i` on, compared one by one. */
  predicate AgreeFrom(s: string, p: nat, w: string, i: nat)
    requires p + |w| <= |s| && i <= |w|
    // the text is part of the measure so that a literal `w` is not unrolled against unknown text
    decreases |s| - (p + i)
  {
    i == |w| || (s[p + i] == w[i] && AgreeFrom(s, p, w, i + 1))
  }

  lemma {:induction false} AgreeFromSlice(s: string, p: nat, w: string, i: nat)
    requires p + |w| <= |s| && i <= |w|
    ensures AgreeFrom(s, p, w, i) <==> s[p + i..p + |w|] == w[i..]
    decreases |w| - i
  {
    if i < |w| {
      AgreeFromSlice(s, p, w, i + 1);
      assert s[p + i..p + |w|] == [s[p + i]] + s[p + i + 1..p + |w|];
      assert w[i..] == [w[i]] + w[i + 1..];
    }
  }

  /** An occurrence is a slice equal to the word. */
  lemma {:induction false} StartsAtSlice(s: string, p: nat, w: string)
    ensures StartsAt(s, p, w) <==> p + |w| <= |s| && s[p..p + |w|] == w
  {
    if p + |w| <= |s| {
      AgreeFromSlice(s, p, w, 0);
      assert w[0..] == w;
    }
  }

  /** An occurrence of `a + b` is an occurrence of `a` followed by one of `b`. */
  lemma StartsAtConcat(s: string, p: nat, a: string, b: string)
    ensures StartsAt(s, p, a + b) <==> StartsAt(s, p, a) && StartsAt(s, p + |a|, b)
  {
    StartsAtSlice(s, p, a + b);
    StartsAtSlice(s, p, a);
    StartsAtSlice(s, p + |a|, b);
    if StartsAt(s, p, a) && StartsAt(s, p + |a|, b) {
      assert s[p..p + |a + b|] == s[p..p + |a|] + s[p + |a|..p + |a| + |b|];
    }
    if StartsAt(s, p, a + b) {
      SliceConcat(s, p, p + |a + b|, a, b);
    }
  }

  /** The same, with the offset where `b` starts named by the caller. */
  lemma StartsAtSplit(s: string, p: nat, q: nat, a: string, b: string)
    requires q == p + |a|
    ensures StartsAt(s, p, a + b) <==> StartsAt(s, p, a) && StartsAt(s, q, b)
  {
    StartsAtConcat(s, p, a, b);
  }

  /** Occurrences of `a` and then `b` right after it make an occurrence of `a + b`. */
  lemma StartsAtJoin(s: string, p: nat, a: string, b: string)
    requires StartsAt(s, p, a) && StartsAt(s, p + |a|, b)
    ensures StartsAt(s, p, a + b)
  {
    StartsAtConcat(s, p, a, b);
  }

  /** A slice that reads `a + b` reads `a` and then `b`. */
  lemma SliceConcat(s: string, i: nat, k: nat, a: string, b: string)
    requires i <= k <= |s| && s[i..k] == a + b
    ensures i + |a| <= k && s[i..i + |a|] == a && s[i + |a|..k] == b
  {
    assert s[i..i + |a|] == (a + b)[..|a|];
    assert s[i + |a|..k] == (a + b)[|a|..];
  }

  /** A one-character occurrence is that character at that offset. */
  lemma {:induction false} CharAt(s: string, p: nat, c: char)
    ensures StartsAt(s, p, [c]) <==> p < |s| && s[p] == c
  {
    if p < |s| {
      assert AgreeFrom(s, p, [c], 1);
    }
  }

  /** Appending pieces one at a time builds the same string as appending them joined. */
  lemma Associative(r: string, a: string, b: string, c: string)
    ensures r + a + b + c == r + (a + b + c)
  {
  }

  lemma Associative3(a: string, b: string, c: string)
    ensures a + b + c == a + (b + c)
  {
  }

  /** A slice is the slice up to a midpoint followed by the slice from it. */
  lemma SliceSplit(s: string, i: nat, j: nat, k: nat)
    requires i <= j <= k <= |s|
    ensures s[i..k] == s[i..j] + s[j..k]
  {
  }

  /** No `c` at the offsets `i` up to `j`. */
  predicate FreeOf(s: string, c: char, i: nat, j: nat)
  {
    forall k :: i <= k < j && k < |s| ==> s[k] != c
  }

  /** For a slice, having no `c` at its offsets is not containing `c`. */
  lemma FreeOfSlice(s: string, c: char, i: nat, j: nat)
    requires i <= j <= |s|
    ensures FreeOf(s, c, i, j) <==> c !in s[i..j]
  {
    if c in s[i..j] {
      var k :| 0 <= k < j - i && s[i..j][k] == c;
      assert s[i + k] == c;
    }
  }

  /**
   * The first offset at or after `from` that holds `c`: what a regex class
   * `[^c]*` followed by `c` settles on, since the class cannot swallow `c`.
   */
  function IndexOf(s: string, c: char, from: nat): (r: Option<nat>)
    decreases |s| - from
    ensures r.Some? ==> from <= r.value < |s| && s[r.value] == c
    ensures r.Some? ==> FreeOf(s, c, from, r.value)
    ensures r.None? ==> FreeOf(s, c, from, |s|)
  {
    if from >= |s| then None
    else if s[from] == c then Some(from)
    else IndexOf(s, c, from + 1)
  }

  /** If `c` first occurs at `i` past `from`, that is what IndexOf reports. */
  lemma IndexOfAt(s: string, c: char, from: nat, i: nat)
    requires from <= i < |s| && s[i] == c && FreeOf(s, c, from, i)
    ensures IndexOf(s, c, from) == Some(i)
  {
  }

  /**
   * String.replace(target, replacement): every non-overlapping occurrence of
   * `target`, taken left to right, is replaced; text produced by a replacement
   * is not scanned again. An empty target puts the replacement before every
   * character and at the end.
   */
  function ReplaceAll(s: string, target: string, replacement: string): (r: string)
    decreases |s|
  {
    if target == [] then Interleave(s, replacement)
    else if |s| < |target| then s
    else if s[..|target|] == target then replacement + ReplaceAll(s[|target|..], target, replacement)
    else [s[0]] + ReplaceAll(s[1..], target, replacement)
  }

  /** `sep` before each character of `s` and once more at the end. */
  function Interleave(s: string, sep: string): (r: string)
    decreases |s|
  {
    if s == [] then sep else sep + [s[0]] + Interleave(s[1..], sep)
  }

  /**
   * With an empty target every character of `s` is kept, in order, with the
   * replacement before it and once more at the end: removing the first copy
   * leaves the first character, and the whole grows by `|s| + 1` copies.
   */
  lemma {:induction false} ReplaceEmptyTarget(s: string, replacement: string)
    ensures var r := ReplaceAll(s, [], replacement);
      && |r| == |s| + (|s| + 1) * |replacement|
      && r[..|replacement|] == replacement
      && r[|r| - |replacement|..] == replacement
      && (s != [] ==> r[|replacement|] == s[0])
  {
    InterleaveLength(s, replacement);
    InterleaveEnds(s, replacement);
  }

  lemma {:induction false} InterleaveLength(s: string, sep: string)
    ensures |Interleave(s, sep)| == |s| + (|s| + 1) * |sep|
    decreases |s|
  {
    if s != [] {
      InterleaveLength(s[1..], sep);
      assert (|s[1..]| + 1) * |sep| + |sep| == (|s| + 1) * |sep| by {
        assert |s[1..]| + 1 == |s|;
      }
    }
  }

  lemma {:induction false} InterleaveEnds(s: string, sep: string)
    ensures |sep| <= |Interleave(s, sep)|
    ensures Interleave(s, sep)[..|sep|] == sep
    ensures Interleave(s, sep)[|Interleave(s, sep)| - |sep|..] == sep
    ensures s != [] ==> Interleave(s, sep)[|sep|] == s[0]
    decreases |s|
  {
    if s != [] {
      var rest := Interleave(s[1..], sep);
      InterleaveEnds(s[1..], sep);
      var r := Interleave(s, sep);
      assert r == sep + [s[0]] + rest;
      assert r[|r| - |sep|..] == rest[|rest| - |sep|..];
    }
  }

  /** Replacing a string by itself changes nothing. */
  lemma {:induction false} ReplaceWithItself(s: string, target: string)
    ensures ReplaceAll(s, target, target) == s
    decreases |s|
  {
    if target == [] {
      InterleaveEmpty(s);
    } else if |s| < |target| {
    } else if s[..|target|] == target {
      ReplaceWithItself(s[|target|..], target);
      assert s == s[..|target|] + s[|target|..];
    } else {
      ReplaceWithItself(s[1..], target);
      assert s == [s[0]] + s[1..];
    }
  }

  lemma {:induction false} InterleaveEmpty(s: string)
    ensures Interleave(s, []) == s
    decreases |s|
  {
    if s != [] {
      InterleaveEmpty(s[1..]);
      assert s == [s[0]] + s[1..];
    }
  }

  /** `w` occurs nowhere in `s`. */
  predicate Absent(s: string, w: string)
  {
    forall p :: 0 <= p <= |s| ==> !StartsAt(s, p, w)
  }

  /** Dropping the first character cannot make a word occur. */
  lemma {:induction false} AbsentTail(s: string, w: string)
    requires s != [] && Absent(s, w)
    ensures Absent(s[1..], w)
  {
    forall p | 0 <= p <= |s[1..]|
      ensures !StartsAt(s[1..], p, w)
    {
      assert !StartsAt(s, p + 1, w);
      StartsAtSlice(s, p + 1, w);
      StartsAtSlice(s[1..], p, w);
      if p + |w| <= |s[1..]| {
        assert s[1..][p..p + |w|] == s[p + 1..p + 1 + |w|];
      }
    }
  }

  /** A non-empty target that never occurs leaves the string as it is. */
  lemma {:induction false} ReplaceAbsent(s: string, target: string, replacement: string)
    requires target != [] && Absent(s, target)
    ensures ReplaceAll(s, target, replacement) == s
    decreases |s|
  {
    if |s| >= |target| {
      assert !StartsAt(s, 0, target);
      StartsAtSlice(s, 0, target);
      assert s[..|target|] == s[0..|target|];
      AbsentTail(s, target);
      ReplaceAbsent(s[1..], target, replacement);
      assert s == [s[0]] + s[1..];
    }
  }

  /**
   * No occurrence straddles the end of `pre` when the text after it starts
   * with a character found nowhere in the target past its first position.
   */
  lemma {:induction false} NoMatchAtFront(pre: string, rest: string, target: string)
    requires target != [] && pre != [] && Absent(pre, target) && |target| <= |pre| + |rest|
    requires rest != [] ==> rest[0] !in target[1..]
    ensures (pre + rest)[..|target|] != target
  {
    var s := pre + rest;
    if |target| <= |pre| {
      assert !StartsAt(pre, 0, target);
      StartsAtSlice(pre, 0, target);
      assert s[..|target|] == pre[0..|target|];
    } else {
      var j := |pre|;
      assert s[..|target|][j] == rest[0];
      assert target[1..][j - 1] == target[j];
    }
  }

  /**
   * Text in which the target does not occur is copied through unchanged, as
   * long as no occurrence can straddle its end.
   */
  lemma {:induction false} ReplaceAfterAbsent(pre: string, rest: string, target: string, replacement: string)
    requires target != [] && Absent(pre, target)
    requires rest != [] ==> rest[0] !in target[1..]
    ensures ReplaceAll(pre + rest, target, replacement) == pre + ReplaceAll(rest, target, replacement)
    decreases |pre|
  {
    if pre == [] {
      assert pre + rest == rest;
    } else if |pre| + |rest| < |target| {
      assert ReplaceAll(rest, target, replacement) == rest;
    } else {
      var tail := pre[1..] + rest;
      NoMatchAtFront(pre, rest, target);
      HeadTail(pre, rest);
      assert (pre + rest)[1..] == tail;
      AbsentTail(pre, target);
      ReplaceAfterAbsent(pre[1..], rest, target, replacement);
      HeadTail(pre, ReplaceAll(rest, target, replacement));
    }
  }

  /** A replacement no longer than its non-empty target never lengthens the string. */
  lemma {:induction false} ReplaceNotLonger(s: string, target: string, replacement: string)
    requires target != [] && |replacement| <= |target|
    ensures |ReplaceAll(s, target, replacement)| <= |s|
    decreases |s|
  {
    if |s| < |target| {
    } else if s[..|target|] == target {
      ReplaceNotLonger(s[|target|..], target, replacement);
    } else {
      ReplaceNotLonger(s[1..], target, replacement);
    }
  }

  /** Text free of the target's first character is copied through unchanged. */
  lemma {:induction false} ReplaceAfterFree(pre: string, rest: string, target: string, replacement: string)
    requires target != [] && target[0] !in pre
    ensures ReplaceAll(pre + rest, target, replacement) == pre + ReplaceAll(rest, target, replacement)
    decreases |pre|
  {
    if pre == [] {
      assert pre + rest == rest;
    } else {
      var tail := pre[1..] + rest;
      HeadTail(pre, rest);
      ReplaceSkip(pre[0], tail, target, replacement);
      ReplaceAfterFree(pre[1..], rest, target, replacement);
      HeadTail(pre, ReplaceAll(rest, target, replacement));
    }
  }

  /** A character other than the target's first is copied and the scan moves on. */
  lemma {:induction false} ReplaceSkip(c: char, tail: string, target: string, replacement: string)
    requires target != [] && c != target[0]
    ensures ReplaceAll([c] + tail, target, replacement) == [c] + ReplaceAll(tail, target, replacement)
  {
    var s := [c] + tail;
    assert s[1..] == tail;
    if |s| >= |target| {
      assert s[..|target|][0] == c;
    }
  }

  /** An occurrence at the front is replaced and the scan resumes after it. */
  lemma {:induction false} ReplaceFront(target: string, rest: string, replacement: string)
    requires target != []
    ensures ReplaceAll(target + rest, target, replacement) == replacement + ReplaceAll(rest, target, replacement)
  {
    var s := target + rest;
    assert s[..|target|] == target && s[|target|..] == rest;
  }

  /** A near miss of the target's length only lets its first character through. */
  lemma {:induction false} ReplaceMiss(w: string, rest: string, target: string, replacement: string)
    requires target != [] && |w| == |target| && w != target
    ensures ReplaceAll(w + rest, target, replacement) == [w[0]] + ReplaceAll(w[1..] + rest, target, replacement)
  {
    var s := w + rest;
    assert s[..|target|] == w && s[1..] == w[1..] + rest;
  }

  /** A word's first character followed by the rest of it and a tail. */
  lemma {:induction false} HeadTail(w: string, tail: string)
    requires w != []
    ensures [w[0]] + (w[1..] + tail) == w + tail
  {
    assert w == [w[0]] + w[1..];
  }

  /** Text without the target's first character has nothing to replace. */
  lemma {:induction false} ReplaceFree(s: string, target: string, replacement: string)
    requires target != [] && target[0] !in s
    ensures ReplaceAll(s, target, replacement) == s
  {
    ReplaceAfterFree(s, [], target, replacement);
    assert s + [] == s;
  }
}
