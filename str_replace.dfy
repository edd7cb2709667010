/** Python's `str.replace(old, new)` on an already decoded text, for a
    non-empty `old`: a left-to-right scan that replaces every leftmost,
    non-overlapping occurrence and resumes scanning right after each match,
    so that the inserted text is never rescanned in the same pass. */
module StrReplace {
  import opened Options

  /** `target` occurs in `s` starting at index `i`. */
  predicate OccursAt(s: string, target: string, i: nat) {
    i + |target| <= |s| && s[i..i + |target|] == target
  }

  /** `target` occurs somewhere in `s` (Python's `target in s`). */
  ghost predicate Occurs(s: string, target: string) {
    exists i: nat :: OccursAt(s, target, i)
  }

  /** An occurrence in `s[1..]` at `j` is an occurrence in `s` at `j + 1`. */
  lemma OccursAtTail(s: string, target: string, j: nat)
    requires |s| > 0
    ensures OccursAt(s, target, j + 1) <==> OccursAt(s[1..], target, j)
  {
    if j + 1 + |target| <= |s| {
      assert s[1..][j..j + |target|] == s[j + 1..j + 1 + |target|];
    }
  }

  /** When `target` is not at the front of `s`, it occurs in `s` exactly
      when it occurs in `s[1..]`. */
  lemma OccursTail(s: string, target: string)
    requires |s| > 0 && !OccursAt(s, target, 0)
    ensures Occurs(s, target) <==> Occurs(s[1..], target)
  {
    if Occurs(s, target) {
      var i: nat :| OccursAt(s, target, i);
      assert i > 0;
      OccursAtTail(s, target, i - 1);
    }
    if Occurs(s[1..], target) {
      var j: nat :| OccursAt(s[1..], target, j);
      OccursAtTail(s, target, j);
    }
  }

  /** The index of the leftmost occurrence of `target` in `s` (Python's
      `s.find(target)`, with None for -1); FindIsLeftmost states it. */
  function Find(s: string, target: string): (r: Option<nat>)
    requires |target| > 0
    ensures r.Some? ==> r.value + |target| <= |s|
    decreases |s|
  {
    if |s| < |target| then
      None
    else if s[..|target|] == target then
      Some(0)
    else
      match Find(s[1..], target)
      case None => None
      case Some(i) => Some(i + 1)
  }

  /** Find reports an index exactly when `target` occurs, and the index it
      reports is an occurrence with no occurrence before it. */
  lemma {:induction false} FindIsLeftmost(s: string, target: string)
    requires |target| > 0
    ensures Find(s, target).None? <==> !Occurs(s, target)
    ensures Find(s, target).Some? ==> OccursAt(s, target, Find(s, target).value)
    ensures Find(s, target).Some? ==>
      forall j: nat :: j < Find(s, target).value ==> !OccursAt(s, target, j)
    decreases |s|
  {
    if |s| < |target| {
    } else if s[..|target|] == target {
      assert OccursAt(s, target, 0);
    } else {
      OccursTail(s, target);
      FindIsLeftmost(s[1..], target);
      match Find(s[1..], target)
      case None =>
      case Some(i) =>
        forall j: nat | j < i + 1 ensures !OccursAt(s, target, j) {
          if j > 0 { OccursAtTail(s, target, j - 1); }
        }
        OccursAtTail(s, target, i);
    }
  }

  /** Python's `s.replace(target, repl)` with no count argument: scan from
      the left; at a match emit `repl` and skip the matched characters,
      otherwise copy one character. */
  function ReplaceAll(s: string, target: string, repl: string): (r: string)
    requires |target| > 0
    ensures repl == target ==> r == s
    decreases |s|
  {
    if |s| < |target| then
      s
    else if s[..|target|] == target then
      assert s[..|target|] + s[|target|..] == s;
      repl + ReplaceAll(s[|target|..], target, repl)
    else
      assert [s[0]] + s[1..] == s;
      [s[0]] + ReplaceAll(s[1..], target, repl)
  }

  /** `s.count(target)`: the number of matches the same scan finds. */
  function Count(s: string, target: string): (r: nat)
    requires |target| > 0
    ensures r * |target| <= |s|
    decreases |s|
  {
    if |s| < |target| then
      0
    else if s[..|target|] == target then
      1 + Count(s[|target|..], target)
    else
      Count(s[1..], target)
  }

  /** The scan finds no match exactly when `target` does not occur. */
  lemma {:induction false} CountIsMatches(s: string, target: string)
    requires |target| > 0
    ensures Count(s, target) == 0 <==> !Occurs(s, target)
    decreases |s|
  {
    if |s| < |target| {
    } else if s[..|target|] == target {
      assert OccursAt(s, target, 0);
    } else {
      OccursTail(s, target);
      CountIsMatches(s[1..], target);
    }
  }

  /** Reference definition, no-match half: when Find reports no
      occurrence, the text comes back unchanged. */
  lemma {:induction false} ReplaceAllNoMatch(s: string, target: string, repl: string)
    requires |target| > 0 && Find(s, target) == None
    ensures ReplaceAll(s, target, repl) == s
    decreases |s|
  {
    if |target| <= |s| {
      var tail := s[1..];
      ReplaceAllNoMatch(tail, target, repl);
      assert [s[0]] + tail == s;
    }
  }

  /** Reference definition, match half: the text before the leftmost
      occurrence is copied, `repl` takes the place of the occurrence, and
      the scan resumes right after the matched `target`. */
  lemma {:induction false} ReplaceAllFirstMatch(s: string, target: string, repl: string, i: nat)
    requires |target| > 0 && Find(s, target) == Some(i)
    ensures ReplaceAll(s, target, repl) == s[..i] + repl + ReplaceAll(s[i + |target|..], target, repl)
    decreases |s|, 1
  {
    if s[..|target|] == target {
      assert i == 0;
      FirstMatchAtFront(s, target, repl);
    } else {
      FirstMatchLater(s, target, repl, i);
    }
  }

  /** ReplaceAllFirstMatch when the match is at index 0. */
  lemma FirstMatchAtFront(s: string, target: string, repl: string)
    requires 0 < |target| <= |s| && s[..|target|] == target
    ensures ReplaceAll(s, target, repl) == s[..0] + repl + ReplaceAll(s[0 + |target|..], target, repl)
  {
    assert s[..0] + repl == repl;
  }

  /** ReplaceAllFirstMatch when the match is further on: the first
      character is copied in front of the tail's result. */
  lemma {:induction false} FirstMatchLater(s: string, target: string, repl: string, i: nat)
    requires 0 < |target| <= |s| && s[..|target|] != target
    requires Find(s, target) == Some(i)
    ensures ReplaceAll(s, target, repl) == s[..i] + repl + ReplaceAll(s[i + |target|..], target, repl)
    decreases |s|, 0
  {
    var tail, j := s[1..], i - 1;
    assert i > 0 && Find(tail, target) == Some(j);
    ReplaceAllFirstMatch(tail, target, repl, j);
    var rest := ReplaceAll(s[i + |target|..], target, repl);
    assert ReplaceAll(s, target, repl) == [s[0]] + ReplaceAll(tail, target, repl);
    assert tail[j + |target|..] == s[i + |target|..];
    assert [s[0]] + tail[..j] == s[..i];
  }

  /** A text in which `target` does not occur comes back unchanged. */
  lemma ReplaceAllAbsent(s: string, target: string, repl: string)
    requires |target| > 0 && !Occurs(s, target)
    ensures ReplaceAll(s, target, repl) == s
  {
    FindIsLeftmost(s, target);
    ReplaceAllNoMatch(s, target, repl);
  }

  /** A text without the first character of `target` has no occurrence
      of it. */
  lemma AbsentWithoutFirstChar(s: string, target: string)
    requires |target| > 0 && target[0] !in s
    ensures !Occurs(s, target)
  {
    forall i: nat | i + |target| <= |s| ensures !OccursAt(s, target, i) {
      assert s[i] in s;
      assert s[i..i + |target|][0] == s[i];
    }
  }

  /** Everything before the leftmost occurrence is kept as it was, and the
      replacement text follows it. */
  lemma ReplaceAllKeepsPrefix(s: string, target: string, repl: string, i: nat)
    requires |target| > 0 && Find(s, target) == Some(i)
    ensures |ReplaceAll(s, target, repl)| >= i + |repl|
    ensures ReplaceAll(s, target, repl)[..i] == s[..i]
    ensures ReplaceAll(s, target, repl)[i..i + |repl|] == repl
  {
    ReplaceAllFirstMatch(s, target, repl, i);
    var rest := ReplaceAll(s[i + |target|..], target, repl);
    assert (s[..i] + repl + rest)[..i] == s[..i];
    assert (s[..i] + repl + rest)[i..i + |repl|] == repl;
  }

  /** Each of the Count(s, target) matches swaps |target| characters for
      |repl| characters; every other character is copied once. */
  lemma {:induction false} ReplaceAllLength(s: string, target: string, repl: string)
    requires |target| > 0
    ensures |ReplaceAll(s, target, repl)| == |s| + Count(s, target) * (|repl| - |target|)
    decreases |s|
  {
    if |s| < |target| {
    } else if s[..|target|] == target {
      var rest := s[|target|..];
      ReplaceAllLength(rest, target, repl);
      var c, d := Count(rest, target), |repl| - |target|;
      assert Count(s, target) == 1 + c;
      assert |ReplaceAll(s, target, repl)| == |repl| + |ReplaceAll(rest, target, repl)|;
      MulSucc(c, d);
    } else {
      ReplaceAllLength(s[1..], target, repl);
      assert Count(s, target) == Count(s[1..], target);
    }
  }

  /** One more match adds one more length difference. */
  lemma MulSucc(c: int, d: int)
    ensures (1 + c) * d == d + c * d
  {
  }

  /** Leftmost and non-overlapping: in "aaa" only the first "aa" is a match,
      and in "aaaa" the two "a" that the pass writes side by side are not
      scanned again. */
  lemma NonOverlappingScan()
    ensures ReplaceAll("aaa", "aa", "b") == "ba"
    ensures ReplaceAll("aaaa", "aa", "a") == "aa"
  {
    assert "aaa"[..2] == "aa";
    assert "aaa"[2..] == "a";
    assert ReplaceAll("a", "aa", "b") == "a";
    assert "aaaa"[..2] == "aa";
    assert "aaaa"[2..] == "aa";
    assert "aa"[..2] == "aa";
    assert "aa"[2..] == "";
    assert ReplaceAll("aa", "aa", "a") == "a";
  }

  /** A text whose leftmost match is its last |target| characters: the
      text before the match is kept and the replacement ends the result. */
  lemma ReplaceAllFinalMatch(front: string, target: string, repl: string)
    requires |target| > 0 && Find(front + target, target) == Some(|front|)
    ensures ReplaceAll(front + target, target, repl) == front + repl
  {
    var s := front + target;
    ReplaceAllFirstMatch(s, target, repl, |front|);
    assert ReplaceAll(s[|front| + |target|..], target, repl) == [] by {
      assert s[|front| + |target|..] == [];
    }
    assert s[..|front|] == front;
  }

  /** A text that is exactly `target` becomes exactly `repl`. */
  lemma ReplaceAllWhole(target: string, repl: string)
    requires |target| > 0
    ensures ReplaceAll(target, target, repl) == repl
  {
    assert target[..|target|] == target;
    assert ReplaceAll(target[|target|..], target, repl) == [];
  }
}
