/** The ordinal .NET string operations the link protector relies on:
    `IndexOf`, `Contains`, `StartsWith`, `Insert` and `Replace`. */
module Text {

  /** `t` occurs in `s` starting at index `i`. */
  predicate OccursAt(s: string, t: string, i: int) {
    0 <= i && i + |t| <= |s| && s[i..i + |t|] == t
  }

  /** Ordinal `String.Contains`. */
  predicate Contains(s: string, t: string) {
    exists i | 0 <= i <= |s| - |t| :: OccursAt(s, t, i)
  }

  /** Ordinal `String.StartsWith`; every string starts with the empty string. */
  predicate StartsWith(s: string, t: string) {
    OccursAt(s, t, 0)
  }

  /** Ordinal `String.IndexOf(t, from)`: the first occurrence of `t` at or after
      `from`, or -1. The .NET check `from <= |s|` is made by the callers. */
  function IndexOf(s: string, t: string, from: nat): (r: int)
    ensures r == -1 || (from <= r && OccursAt(s, t, r))
    ensures r == -1 ==> forall i :: from <= i ==> !OccursAt(s, t, i)
    ensures r != -1 ==> forall i :: from <= i < r ==> !OccursAt(s, t, i)
    decreases |s| - from
  {
    if from + |t| > |s| then -1
    else if s[from..from + |t|] == t then from
    else IndexOf(s, t, from + 1)
  }

  lemma ContainsIndexOf(s: string, t: string)
    ensures Contains(s, t) <==> IndexOf(s, t, 0) >= 0
  {
    if IndexOf(s, t, 0) >= 0 {
      assert OccursAt(s, t, IndexOf(s, t, 0));
    }
  }

  /** `IndexOf` finds the first occurrence at or after `from`. */
  lemma IndexOfFirst(s: string, t: string, from: nat, x: nat)
    requires from <= x && OccursAt(s, t, x)
    requires forall j | from <= j < x :: !OccursAt(s, t, j)
    ensures IndexOf(s, t, from) == x
  {
  }

  /** A one-character pattern occurs exactly where that character is. */
  lemma OccursAtChar(s: string, c: char, i: int)
    ensures OccursAt(s, [c], i) <==> 0 <= i < |s| && s[i] == c
  {
    if 0 <= i < |s| && s[i] == c {
      assert s[i..i + 1] == [c];
    }
  }

  /** No occurrence of `t` starts where its first character is absent. */
  lemma NoOccurrenceWithout(s: string, t: string, lo: nat, hi: nat)
    requires lo <= hi <= |s| && |t| > 0 && t[0] !in s[lo..hi]
    ensures forall j | lo <= j < hi :: !OccursAt(s, t, j)
  {
    forall j | lo <= j < hi
      ensures !OccursAt(s, t, j)
    {
      assert s[j] == s[lo..hi][j - lo];
      if j + |t| <= |s| {
        assert s[j..j + |t|][0] == s[j];
      }
    }
  }

  /** `String.Insert(i, t)`; .NET throws when `i > |s|`. Written by recursion
      on `i`, so that a proof unfolds it only where it asks for its parts. */
  function Insert(s: string, i: nat, t: string): string
    requires i <= |s|
    decreases i
  {
    if i == 0 then t + s else [s[0]] + Insert(s[1..], i - 1, t)
  }

  /** `r` is `s` with `t` inserted at `i`, described by its three parts: what
      was before `i`, the inserted text, and what was from `i` on. */
  predicate InsertedAt(r: string, s: string, i: nat, t: string) {
    && i <= |s| && |r| == |s| + |t|
    && r[..i] == s[..i] && r[i..i + |t|] == t && r[i + |t|..] == s[i..]
  }

  lemma {:induction false} InsertParts(s: string, i: nat, t: string)
    requires i <= |s|
    ensures Insert(s, i, t) == s[..i] + t + s[i..]
    ensures InsertedAt(Insert(s, i, t), s, i, t)
    decreases i
  {
    if i > 0 {
      InsertParts(s[1..], i - 1, t);
      assert s[..i] == [s[0]] + s[1..][..i - 1];
      assert s[i..] == s[1..][i - 1..];
    }
  }

  /** Strings that agree below `x` have the same occurrences ending by `x`. */
  lemma OccursAtPrefix(s: string, r: string, t: string, x: nat, j: int)
    requires x <= |s| && x <= |r| && r[..x] == s[..x]
    requires 0 <= j && j + |t| <= x
    ensures OccursAt(r, t, j) <==> OccursAt(s, t, j)
  {
    assert r[j..j + |t|] == r[..x][j..j + |t|];
    assert s[j..j + |t|] == s[..x][j..j + |t|];
  }

  /** An occurrence that ends before the insertion point is found as before. */
  lemma IndexOfBeforeInsert(s: string, t: string, from: nat, x: nat, ins: string)
    requires x <= |s|
    requires IndexOf(s, t, from) >= 0 && IndexOf(s, t, from) + |t| <= x
    ensures IndexOf(Insert(s, x, ins), t, from) == IndexOf(s, t, from)
  {
    var r := Insert(s, x, ins);
    InsertParts(s, x, ins);
    var y := IndexOf(s, t, from);
    OccursAtPrefix(s, r, t, x, y);
    forall j | from <= j < y
      ensures !OccursAt(r, t, j)
    {
      OccursAtPrefix(s, r, t, x, j);
    }
    IndexOfFirst(r, t, from, y);
  }

  /** A character that the inserted text lacks, first found at or after the
      insertion point, is found shifted by the inserted length. */
  lemma IndexOfCharAfterInsert(s: string, c: char, from: nat, x: nat, ins: string)
    requires from <= x <= |s|
    requires c !in ins
    requires IndexOf(s, [c], from) >= x
    ensures IndexOf(Insert(s, x, ins), [c], from) == IndexOf(s, [c], from) + |ins|
  {
    var r := Insert(s, x, ins);
    InsertParts(s, x, ins);
    var y := IndexOf(s, [c], from);
    OccursAtChar(s, c, y);
    assert r[y + |ins|] == s[y] by {
      assert r[x + |ins|..] == s[x..];
      assert r[y + |ins|] == r[x + |ins|..][y - x];
    }
    OccursAtChar(r, c, y + |ins|);
    forall j | from <= j < y + |ins|
      ensures !OccursAt(r, [c], j)
    {
      OccursAtChar(r, c, j);
      if j < x {
        assert r[j] == r[..x][j];
        OccursAtChar(s, c, j);
      } else if j < x + |ins| {
        assert r[j] == r[x..x + |ins|][j - x];
      } else {
        assert r[j] == r[x + |ins|..][j - x - |ins|];
        OccursAtChar(s, c, j - |ins|);
      }
    }
    IndexOfFirst(r, [c], from, y + |ins|);
  }

  /** Inserting `u` and then `v` inside it is one insertion. */
  lemma InsertInsert(s: string, x: nat, u: string, d: nat, v: string)
    requires x <= |s| && d <= |u|
    ensures |Insert(s, x, u)| == |s| + |u|
    ensures Insert(Insert(s, x, u), x + d, v) == Insert(s, x, u[..d] + v + u[d..])
  {
    var r := Insert(s, x, u);
    InsertParts(s, x, u);
    InsertParts(r, x + d, v);
    InsertParts(s, x, u[..d] + v + u[d..]);
    SplitInside(s[..x], u, s[x..], d, v);
  }

  /** Splitting `a + u + b` inside `u` and putting `v` in the gap. */
  lemma SplitInside(a: string, u: string, b: string, d: nat, v: string)
    requires d <= |u|
    ensures var r := a + u + b;
      r[..|a| + d] + v + r[|a| + d..] == a + (u[..d] + v + u[d..]) + b
  {
    var r := a + u + b;
    assert r[..|a| + d] == a + u[..d];
    assert r[|a| + d..] == u[d..] + b;
  }

  /** Ordinal `String.Replace(pattern, replacement)`: every leftmost,
      non-overlapping occurrence of `pattern` is replaced. .NET throws on an
      empty pattern. */
  function ReplaceAll(s: string, pattern: string, replacement: string): (r: string)
    requires |pattern| > 0
    decreases |s|
  {
    if |s| < |pattern| then s
    else if s[..|pattern|] == pattern then replacement + ReplaceAll(s[|pattern|..], pattern, replacement)
    else [s[0]] + ReplaceAll(s[1..], pattern, replacement)
  }

  /** Number of leftmost, non-overlapping occurrences of `pattern` in `s`. */
  function CountOccurrences(s: string, pattern: string): (n: nat)
    requires |pattern| > 0
    ensures n > 0 <==> Contains(s, pattern)
    decreases |s|
  {
    if |s| < |pattern| then 0
    else if s[..|pattern|] == pattern then
      assert OccursAt(s, pattern, 0);
      1 + CountOccurrences(s[|pattern|..], pattern)
    else
      ContainsTail(s, pattern);
      CountOccurrences(s[1..], pattern)
  }

  /** Occurrences of `t` in `s` past the first character are the occurrences in `s[1..]`. */
  lemma ContainsTail(s: string, t: string)
    requires |s| > 0 && !OccursAt(s, t, 0)
    ensures Contains(s, t) <==> Contains(s[1..], t)
  {
    if Contains(s[1..], t) {
      var i :| 0 <= i <= |s[1..]| - |t| && OccursAt(s[1..], t, i);
      assert s[i + 1..i + 1 + |t|] == s[1..][i..i + |t|];
      assert OccursAt(s, t, i + 1);
    }
    if Contains(s, t) {
      var i :| 0 <= i <= |s| - |t| && OccursAt(s, t, i);
      assert s[1..][i - 1..i - 1 + |t|] == s[i..i + |t|];
      assert OccursAt(s[1..], t, i - 1);
    }
  }

  /** Text that is exactly the pattern becomes the replacement. */
  lemma ReplaceAllWhole(s: string, replacement: string)
    requires |s| > 0
    ensures ReplaceAll(s, s, replacement) == replacement
  {
    assert s[..|s|] == s && s[|s|..] == [];
  }

  /** Text without the pattern is returned unchanged. */
  lemma {:induction false} ReplaceAllAbsent(s: string, pattern: string, replacement: string)
    requires |pattern| > 0
    requires !Contains(s, pattern)
    ensures ReplaceAll(s, pattern, replacement) == s
    decreases |s|
  {
    if |s| >= |pattern| {
      assert !OccursAt(s, pattern, 0);
      ContainsTail(s, pattern);
      ReplaceAllAbsent(s[1..], pattern, replacement);
      assert [s[0]] + s[1..] == s;
    }
  }

  /** Replacing a pattern by itself changes nothing. */
  lemma {:induction false} ReplaceAllSelf(s: string, pattern: string)
    requires |pattern| > 0
    ensures ReplaceAll(s, pattern, pattern) == s
    decreases |s|
  {
    if |s| >= |pattern| {
      if s[..|pattern|] == pattern {
        ReplaceAllSelf(s[|pattern|..], pattern);
        assert s[..|pattern|] + s[|pattern|..] == s;
      } else {
        ReplaceAllSelf(s[1..], pattern);
        assert [s[0]] + s[1..] == s;
      }
    }
  }

  /** Text that contains the pattern receives the replacement. */
  lemma {:induction false} ReplaceAllInserts(s: string, pattern: string, replacement: string)
    requires |pattern| > 0
    requires Contains(s, pattern)
    ensures Contains(ReplaceAll(s, pattern, replacement), replacement)
    decreases |s|
  {
    var r := ReplaceAll(s, pattern, replacement);
    if s[..|pattern|] == pattern {
      assert r[..|replacement|] == replacement;
      assert OccursAt(r, replacement, 0);
    } else {
      assert !OccursAt(s, pattern, 0);
      ContainsTail(s, pattern);
      ReplaceAllInserts(s[1..], pattern, replacement);
      var r' := ReplaceAll(s[1..], pattern, replacement);
      var i :| 0 <= i <= |r'| - |replacement| && OccursAt(r', replacement, i);
      assert r == [s[0]] + r';
      assert r[i + 1..i + 1 + |replacement|] == r'[i..i + |replacement|];
      assert OccursAt(r, replacement, i + 1);
    }
  }

  /** Every replaced occurrence changes the length by `|replacement| - |pattern|`. */
  lemma {:induction false} ReplaceAllLength(s: string, pattern: string, replacement: string)
    requires |pattern| > 0
    ensures |ReplaceAll(s, pattern, replacement)|
         == |s| + CountOccurrences(s, pattern) * (|replacement| - |pattern|)
    decreases |s|
  {
    if |s| >= |pattern| {
      var d := |replacement| - |pattern|;
      if s[..|pattern|] == pattern {
        var rest := s[|pattern|..];
        ReplaceAllLength(rest, pattern, replacement);
        var c := CountOccurrences(rest, pattern);
        var rr := ReplaceAll(rest, pattern, replacement);
        assert |rr| == |rest| + c * d;
        assert ReplaceAll(s, pattern, replacement) == replacement + rr;
        assert CountOccurrences(s, pattern) == c + 1;
        assert (c + 1) * d == c * d + d;
      } else {
        ReplaceAllLength(s[1..], pattern, replacement);
        assert CountOccurrences(s, pattern) == CountOccurrences(s[1..], pattern);
      }
    }
  }
}
