/**
 * The three Python string operations the generator relies on, over
 * `string == seq<char>`: membership filtering of a generator expression
 * joined back into a string, `str.replace(pattern, "")`, and `"".join`
 * of a list of strings.
 */
module Text {

  /** No element occurs twice. */
  predicate NoDuplicates<T(==)>(s: seq<T>) {
    forall i, j :: 0 <= i < j < |s| ==> s[i] != s[j]
  }

  /** A string in strictly ascending order has no repetitions. */
  lemma {:induction false} AscendingNoDuplicates(s: string)
    requires forall i :: 0 <= i < |s| - 1 ==> s[i] < s[i + 1]
    ensures NoDuplicates(s)
    ensures forall j :: 0 < j < |s| ==> s[0] < s[j]
  {
    if |s| > 1 {
      AscendingNoDuplicates(s[1..]);
      assert forall j :: 0 < j < |s| ==> s[j] == s[1..][j - 1];
    }
  }

  /** Two repetition-free sequences with nothing in common concatenate to a repetition-free one. */
  lemma AppendNoDuplicates<T>(a: seq<T>, b: seq<T>)
    requires NoDuplicates(a) && NoDuplicates(b)
    requires forall x :: x in a ==> x !in b
    ensures NoDuplicates(a + b)
  {
    forall i, j | 0 <= i < j < |a + b| ensures (a + b)[i] != (a + b)[j] {
      if i < |a| && j >= |a| {
        assert (a + b)[i] in a && (a + b)[j] in b;
      }
    }
  }

  /** Four pairwise disjoint, repetition-free strings concatenate to a repetition-free one. */
  lemma Append4NoDuplicates(a: string, b: string, c: string, d: string)
    requires NoDuplicates(a) && NoDuplicates(b) && NoDuplicates(c) && NoDuplicates(d)
    requires forall x :: x in a ==> x !in b && x !in c && x !in d
    requires forall x :: x in b ==> x !in c && x !in d
    requires forall x :: x in c ==> x !in d
    ensures NoDuplicates(a + b + c + d)
  {
    AppendNoDuplicates(a, b);
    assert forall x :: x in a + b ==> x in a || x in b;
    AppendNoDuplicates(a + b, c);
    assert forall x :: x in a + b + c ==> x in a + b || x in c;
    AppendNoDuplicates(a + b + c, d);
  }

  /** The characters occurring in `s`. */
  function Chars(s: string): set<char> {
    set c | c in s
  }

  /** `pattern` occurs in `s` as a contiguous substring (Python `pattern in s`). */
  ghost predicate Occurs(pattern: string, s: string) {
    exists i :: OccursAt(pattern, s, i)
  }

  /** `pattern` occurs in `s` starting at index `i`. */
  predicate OccursAt(pattern: string, s: string, i: int) {
    0 <= i <= |s| - |pattern| && s[i..i + |pattern|] == pattern
  }

  /**
   * `"".join(c for c in s if c not in exclude)`: keeps, in order, the
   * characters of `s` that are not characters of `exclude`.
   */
  function RemoveChars(s: string, exclude: string): (r: string)
    ensures |r| <= |s|
    ensures forall c :: c in r <==> c in s && c !in exclude
  {
    if s == [] then []
    else (if s[0] in exclude then [] else [s[0]]) + RemoveChars(s[1..], exclude)
  }

  /** Filtering is applied piece by piece, so it keeps the relative order of what it keeps. */
  lemma {:induction false} RemoveCharsAppend(a: string, b: string, exclude: string)
    ensures RemoveChars(a + b, exclude) == RemoveChars(a, exclude) + RemoveChars(b, exclude)
  {
    if a != [] {
      assert (a + b)[1..] == a[1..] + b;
      RemoveCharsAppend(a[1..], b, exclude);
    } else {
      assert a + b == b;
    }
  }

  /** Filtering cannot introduce a repeated character. */
  lemma {:induction false} RemoveCharsNoDuplicates(s: string, exclude: string)
    requires NoDuplicates(s)
    ensures NoDuplicates(RemoveChars(s, exclude))
  {
    if s != [] {
      RemoveCharsNoDuplicates(s[1..], exclude);
      assert s[0] !in s[1..];
      assert s[0] !in RemoveChars(s[1..], exclude);
    }
  }

  /** Filtering a repetition-free string removes exactly the characters it shares with `exclude`. */
  lemma {:induction false} RemoveCharsSize(s: string, exclude: string)
    requires NoDuplicates(s)
    ensures |RemoveChars(s, exclude)| == |s| - |Chars(s) * Chars(exclude)|
  {
    if s == [] {
      assert Chars(s) == {};
    } else {
      var rest := s[1..];
      RemoveCharsSize(rest, exclude);
      assert s[0] !in rest;
      assert Chars(s) == {s[0]} + Chars(rest);
      if s[0] in exclude {
        assert Chars(s) * Chars(exclude) == {s[0]} + Chars(rest) * Chars(exclude);
      } else {
        assert Chars(s) * Chars(exclude) == Chars(rest) * Chars(exclude);
      }
    }
  }

  /** In a string without repetitions, the length is the number of distinct characters. */
  lemma {:induction false} DistinctCount(s: string)
    requires NoDuplicates(s)
    ensures |Chars(s)| == |s|
  {
    if s == [] {
      assert Chars(s) == {};
    } else {
      DistinctCount(s[1..]);
      assert s[0] !in s[1..];
      assert Chars(s) == {s[0]} + Chars(s[1..]);
    }
  }

  /**
   * `s.replace(pattern, "")`: scanning left to right, every non-overlapping
   * occurrence of the WHOLE of `pattern` is deleted. An empty pattern leaves
   * `s` unchanged (Python inserts the empty replacement between characters).
   */
  function ReplaceAll(s: string, pattern: string): (r: string)
    ensures |r| <= |s|
    decreases |s|
  {
    if pattern == [] || |s| < |pattern| then s
    else if s[..|pattern|] == pattern then ReplaceAll(s[|pattern|..], pattern)
    else [s[0]] + ReplaceAll(s[1..], pattern)
  }

  /** The replacement only deletes: every character it leaves was in `s`. */
  lemma {:induction false} ReplaceAllChars(s: string, pattern: string, c: char)
    requires c in ReplaceAll(s, pattern)
    ensures c in s
    decreases |s|
  {
    if pattern == [] || |s| < |pattern| {
    } else if s[..|pattern|] == pattern {
      ReplaceAllChars(s[|pattern|..], pattern, c);
    } else if c != s[0] {
      ReplaceAllChars(s[1..], pattern, c);
    }
  }

  /** A string is changed by the replacement exactly when the pattern is non-empty and occurs in it. */
  lemma ReplaceAllUnchanged(s: string, pattern: string)
    ensures ReplaceAll(s, pattern) == s <==> pattern == [] || !Occurs(pattern, s)
  {
    if pattern != [] {
      if Occurs(pattern, s) {
        ReplaceAllShrinks(s, pattern);
      } else {
        ReplaceAllNoOccurrence(s, pattern);
      }
    }
  }

  lemma {:induction false} ReplaceAllNoOccurrence(s: string, pattern: string)
    requires pattern != [] && !Occurs(pattern, s)
    ensures ReplaceAll(s, pattern) == s
    decreases |s|
  {
    if |s| >= |pattern| {
      var zero := 0;
      assert !OccursAt(pattern, s, zero);
      assert s[..|pattern|] != pattern;
      var rest := s[1..];
      forall i | 0 <= i <= |rest| - |pattern| ensures !OccursAt(pattern, rest, i) {
        var j := i + 1;
        assert !OccursAt(pattern, s, j);
        assert s[i + 1..i + 1 + |pattern|] == rest[i..i + |pattern|];
      }
      ReplaceAllNoOccurrence(rest, pattern);
      assert s == [s[0]] + rest;
    }
  }

  lemma {:induction false} ReplaceAllShrinks(s: string, pattern: string)
    requires pattern != [] && Occurs(pattern, s)
    ensures |ReplaceAll(s, pattern)| < |s|
    decreases |s|
  {
    var i :| OccursAt(pattern, s, i);
    if s[..|pattern|] != pattern {
      var rest := s[1..];
      assert i != 0;
      assert rest[i - 1..i - 1 + |pattern|] == s[i..i + |pattern|];
      assert OccursAt(pattern, rest, i - 1);
      ReplaceAllShrinks(rest, pattern);
    }
  }

  /**
   * In a repetition-free string a non-empty pattern occurs at most once, and
   * the replacement deletes exactly that run, keeping the characters before
   * and after it in order.
   */
  lemma {:induction false} ReplaceAllOnce(s: string, pattern: string, i: int)
    requires NoDuplicates(s) && pattern != [] && OccursAt(pattern, s, i)
    ensures ReplaceAll(s, pattern) == s[..i] + s[i + |pattern|..]
    decreases |s|
  {
    if i == 0 {
      ReplaceAllMatchedHead(s, pattern);
    } else {
      var rest := s[1..];
      OccursLater(s, pattern, i);
      ReplaceAllSkipsHead(s, pattern);
      NoDuplicatesTail(s);
      ReplaceAllOnce(rest, pattern, i - 1);
      SpliceAfterHead(s, i, |pattern|);
    }
  }

  /** A later occurrence in a repetition-free string rules out one at the start, and is an occurrence in the tail. */
  lemma OccursLater(s: string, pattern: string, i: int)
    requires NoDuplicates(s) && pattern != [] && OccursAt(pattern, s, i) && i > 0
    ensures s[..|pattern|] != pattern && OccursAt(pattern, s[1..], i - 1)
  {
    assert s[i..i + |pattern|][0] == s[i] == pattern[0];
    assert s[..|pattern|][0] == s[0] != s[i];
    assert s[1..][i - 1..i - 1 + |pattern|] == s[i..i + |pattern|];
  }

  /** Cutting `n` characters at `i` out of the tail and putting the head back cuts them out of `s`. */
  lemma SpliceAfterHead(s: string, i: int, n: int)
    requires 0 < i && 0 <= n && i + n <= |s|
    ensures [s[0]] + (s[1..][..i - 1] + s[1..][i - 1 + n..]) == s[..i] + s[i + n..]
  {
    assert s[1..][..i - 1] == s[1..i] && s[1..][i - 1 + n..] == s[i + n..];
    assert [s[0]] + s[1..i] == s[..i];
  }

  /** Where `s` does not start with the pattern, the replacement keeps its first character. */
  lemma ReplaceAllSkipsHead(s: string, pattern: string)
    requires pattern != [] && |s| >= |pattern| && s[..|pattern|] != pattern
    ensures ReplaceAll(s, pattern) == [s[0]] + ReplaceAll(s[1..], pattern)
  {
  }

  /** A repetition-free string that starts with the pattern loses exactly that prefix. */
  lemma ReplaceAllMatchedHead(s: string, pattern: string)
    requires NoDuplicates(s) && pattern != [] && OccursAt(pattern, s, 0)
    ensures ReplaceAll(s, pattern) == s[|pattern|..]
  {
    var rest := s[|pattern|..];
    assert s[0] == pattern[0] by { assert s[..|pattern|][0] == s[0]; }
    assert s[0] !in rest by {
      forall k | 0 <= k < |rest| ensures rest[k] != s[0] {
        assert rest[k] == s[|pattern| + k];
      }
    }
    MissingCharNoOccurrence(rest, pattern, s[0]);
  }

  lemma NoDuplicatesTail(s: string)
    requires NoDuplicates(s) && s != []
    ensures NoDuplicates(s[1..])
  {
    var rest := s[1..];
    forall a, b | 0 <= a < b < |rest| ensures rest[a] != rest[b] {
      assert rest[a] == s[a + 1] && rest[b] == s[b + 1];
    }
  }

  /** If some character of a non-empty pattern is missing from `s`, the replacement leaves `s` alone. */
  lemma MissingCharNoOccurrence(s: string, pattern: string, c: char)
    requires c in pattern && c !in s
    ensures ReplaceAll(s, pattern) == s
  {
    var k :| 0 <= k < |pattern| && pattern[k] == c;
    forall i | 0 <= i <= |s| - |pattern| ensures !OccursAt(pattern, s, i) {
      assert s[i..i + |pattern|][k] == s[i + k];
    }
    ReplaceAllUnchanged(s, pattern);
  }

  /**
   * A repetition-free, non-empty string is emptied by the replacement
   * exactly when the pattern is the whole string.
   */
  lemma {:induction false} ReplaceAllEmpty(s: string, pattern: string)
    requires s != [] && NoDuplicates(s)
    ensures ReplaceAll(s, pattern) == [] <==> pattern == s
    decreases |s|
  {
    if pattern == [] || |s| < |pattern| {
    } else if s[..|pattern|] == pattern {
      var rest := s[|pattern|..];
      if rest == [] {
        assert s == pattern;
      } else {
        assert NoDuplicates(rest) by {
          forall i, j | 0 <= i < j < |rest| ensures rest[i] != rest[j] {
            assert rest[i] == s[|pattern| + i] && rest[j] == s[|pattern| + j];
          }
        }
        ReplaceAllEmpty(rest, pattern);
        if ReplaceAll(rest, pattern) == [] {
          assert false;
        }
        assert pattern != s;
      }
    }
  }

  /** `"".join(parts)`. */
  function Concat(parts: seq<string>): (r: string)
    ensures forall c :: c in r <==> exists i :: 0 <= i < |parts| && c in parts[i]
  {
    if parts == [] then []
    else
      var r := parts[0] + Concat(parts[1..]);
      assert forall i :: 1 <= i < |parts| ==> parts[i] == parts[1..][i - 1];
      r
  }

  /** `"".join` of four parts is the four parts one after another. */
  lemma Concat4(a: string, b: string, c: string, d: string)
    ensures Concat([a, b, c, d]) == a + b + c + d
  {
    assert [a, b, c, d][1..] == [b, c, d] && [b, c, d][1..] == [c, d] && [c, d][1..] == [d];
    assert Concat([d]) == d;
    assert Concat([c, d]) == c + d;
    assert Concat([b, c, d]) == b + (c + d);
  }
}
