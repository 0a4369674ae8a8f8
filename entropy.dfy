/**
 * `calculate_entropy(length, pool_size)` returns `log2(pool_size ** length)`.
 * The model keeps the integer `pool_size ** length` and proves what it
 * counts: the strings of that length over a pool of that many distinct
 * characters, i.e. the passwords a uniform draw could produce.
 */
module Entropy {
  import opened Text

  /** Python's `base ** exponent` on non-negative integers. */
  function Pow(base: nat, exponent: nat): nat {
    if exponent == 0 then 1 else base * Pow(base, exponent - 1)
  }

  /** The argument `calculate_entropy` passes to `log2`; the entropy in bits is its base-2 logarithm. */
  function CalculateEntropy(length: nat, poolSize: nat): nat {
    Pow(poolSize, length)
  }

  /** Every character of `s` is drawn from `pool`. */
  predicate DrawnFrom(s: string, pool: string) {
    forall i :: 0 <= i < |s| ==> s[i] in pool
  }

  /** `[c] + s` for every `s` of `tails`, in order. */
  function Prefixed(c: char, tails: seq<string>): (r: seq<string>)
    ensures |r| == |tails|
    ensures forall i :: 0 <= i < |tails| ==> r[i] == [c] + tails[i]
  {
    seq(|tails|, i requires 0 <= i < |tails| => [c] + tails[i])
  }

  /** Every string made of one character of `pool` followed by one of `tails`. */
  function Extend(pool: string, tails: seq<string>): seq<string> {
    if pool == [] then [] else Prefixed(pool[0], tails) + Extend(pool[1..], tails)
  }

  /** Every string of length `n` over `pool`, listed. */
  function AllPasswords(pool: string, n: nat): seq<string> {
    if n == 0 then [[]] else Extend(pool, AllPasswords(pool, n - 1))
  }

  lemma {:induction false} ExtendSize(pool: string, tails: seq<string>)
    ensures |Extend(pool, tails)| == |pool| * |tails|
  {
    if pool != [] {
      ExtendSize(pool[1..], tails);
      assert |pool| * |tails| == |tails| + (|pool| - 1) * |tails|;
    }
  }

  lemma {:induction false} ExtendMembers(pool: string, tails: seq<string>, s: string)
    ensures s in Extend(pool, tails) <==> s != [] && s[0] in pool && s[1..] in tails
  {
    if pool != [] {
      ExtendMembers(pool[1..], tails, s);
      if s in Prefixed(pool[0], tails) {
        var i :| 0 <= i < |tails| && Prefixed(pool[0], tails)[i] == s;
        assert s[1..] == tails[i];
      }
      if s != [] && s[0] == pool[0] && s[1..] in tails {
        var i :| 0 <= i < |tails| && tails[i] == s[1..];
        assert Prefixed(pool[0], tails)[i] == s;
      }
    }
  }

  lemma {:induction false} ExtendNoDuplicates(pool: string, tails: seq<string>)
    requires NoDuplicates(pool) && NoDuplicates(tails)
    ensures NoDuplicates(Extend(pool, tails))
  {
    if pool != [] {
      ExtendNoDuplicates(pool[1..], tails);
      var head := Prefixed(pool[0], tails);
      assert NoDuplicates(head) by {
        forall i, j | 0 <= i < j < |head| ensures head[i] != head[j] {
          assert head[i][1..] == tails[i] && head[j][1..] == tails[j];
        }
      }
      forall x | x in head ensures x !in Extend(pool[1..], tails) {
        ExtendMembers(pool[1..], tails, x);
        assert x[0] == pool[0] && pool[0] !in pool[1..];
      }
      AppendNoDuplicates(head, Extend(pool[1..], tails));
    }
  }

  /**
   * `pool_size ** length` is the number of passwords of that length over the
   * pool: the listing has that many entries, holds exactly the strings of
   * that length drawn from the pool, and, when the pool repeats no
   * character, lists each of them once.
   */
  lemma PasswordSpace(pool: string, n: nat)
    ensures |AllPasswords(pool, n)| == CalculateEntropy(n, |pool|)
    ensures forall s :: s in AllPasswords(pool, n) <==> |s| == n && DrawnFrom(s, pool)
    ensures NoDuplicates(pool) ==> NoDuplicates(AllPasswords(pool, n))
  {
    AllPasswordsSize(pool, n);
    forall s ensures s in AllPasswords(pool, n) <==> |s| == n && DrawnFrom(s, pool) {
      AllPasswordsMembers(pool, n, s);
    }
    if NoDuplicates(pool) {
      AllPasswordsDistinct(pool, n);
    }
  }

  lemma {:induction false} AllPasswordsSize(pool: string, n: nat)
    ensures |AllPasswords(pool, n)| == Pow(|pool|, n)
  {
    if n > 0 {
      AllPasswordsSize(pool, n - 1);
      ExtendSize(pool, AllPasswords(pool, n - 1));
    }
  }

  lemma {:induction false} AllPasswordsMembers(pool: string, n: nat, s: string)
    ensures s in AllPasswords(pool, n) <==> |s| == n && DrawnFrom(s, pool)
  {
    if n > 0 {
      ExtendMembers(pool, AllPasswords(pool, n - 1), s);
      if s != [] {
        AllPasswordsMembers(pool, n - 1, s[1..]);
        assert DrawnFrom(s, pool) <==> s[0] in pool && DrawnFrom(s[1..], pool) by {
          assert forall i :: 1 <= i < |s| ==> s[i] == s[1..][i - 1];
        }
      }
    } else if s != [] {
      assert s !in AllPasswords(pool, n);
    }
  }

  lemma {:induction false} AllPasswordsDistinct(pool: string, n: nat)
    requires NoDuplicates(pool)
    ensures NoDuplicates(AllPasswords(pool, n))
  {
    if n > 0 {
      AllPasswordsDistinct(pool, n - 1);
      ExtendNoDuplicates(pool, AllPasswords(pool, n - 1));
    }
  }
}
