/**
 * `generate_advanced_password`: validate the length, build the pool of
 * eligible characters, draw one guaranteed character per enabled class,
 * fill up to the requested length from the pool, shuffle, and report the
 * entropy. `secrets.choice` and `SystemRandom().shuffle` are modelled as
 * arbitrary choices, so every contract below holds for every outcome the
 * random source could produce.
 */
module PasswordGenerator {
  import opened Wrappers
  import opened Text
  import opened Alphabets
  import opened Entropy

  /** The flags `use_upper`, `use_lower`, `use_digits` and `use_special`. */
  datatype Flags = Flags(upper: bool, lower: bool, digits: bool, special: bool) {

    predicate Enabled(c: CharClass) {
      match c
      case Upper => upper
      case Lower => lower
      case Digit => digits
      case Special => special
    }

    /** The enabled classes, in the order of the `char_pools` entries and of the guaranteed draws. */
    function EnabledClasses(): (r: seq<CharClass>)
      ensures |r| <= 4 && NoDuplicates(r)
      ensures forall c :: c in r <==> Enabled(c)
    {
      (if upper then [Upper] else []) + (if lower then [Lower] else []) +
      (if digits then [Digit] else []) + (if special then [Special] else [])
    }
  }

  /** The values of the `char_pools` dictionary, in insertion order: an alphabet, or "" when its flag is off. */
  function CharPools(flags: Flags): seq<string> {
    [ if flags.upper then UPPERCASE else "",
      if flags.lower then LOWERCASE else "",
      if flags.digits then DIGITS else "",
      if flags.special then PUNCTUATION else "" ]
  }

  /** `all_chars`: the joined pools with every character of `exclude` filtered out. */
  function Pool(flags: Flags, exclude: string): string {
    RemoveChars(Concat(CharPools(flags)), exclude)
  }

  /** `alphabet.replace(exclude_chars, "")`: the alphabet a guaranteed draw for class `c` chooses from. */
  function DrawAlphabet(c: CharClass, exclude: string): string {
    ReplaceAll(Alphabet(c), exclude)
  }

  /** A guaranteed draw's alphabet only holds characters of its class. */
  lemma DrawAlphabetWithin(c: CharClass, exclude: string, ch: char)
    requires ch in DrawAlphabet(c, exclude)
    ensures ch in Alphabet(c)
  {
    ReplaceAllChars(Alphabet(c), exclude, ch);
  }

  /** The exceptions the function raises instead of returning. */
  datatype Error =
    | InvalidLength             // ValueError: length below 4
    | EmptyPool                 // ValueError: no valid characters left in the pool
    | EmptyChoice(cls: CharClass) // IndexError from secrets.choice on an emptied class alphabet

  /** The returned pair: the password, and the integer whose base-2 logarithm is the reported entropy. */
  datatype Generated = Generated(password: string, entropy: nat)

  /**
   * What a successful call assembles before shuffling: one guaranteed
   * character per enabled class, in class order, each from that class's draw
   * alphabet; `length - k` fill characters from the pool; and a password
   * that is a rearrangement of the two.
   */
  ghost predicate IsOutcome(length: int, flags: Flags, exclude: string,
                            password: string, guaranteed: string, fill: string)
  {
    var classes := flags.EnabledClasses();
    && OnePerClass(guaranteed, classes, exclude)
    && |fill| == length - |classes|
    && DrawnFrom(fill, Pool(flags, exclude))
    && multiset(password) == multiset(guaranteed + fill)
  }

  /** `drawn[i]` is the guaranteed character drawn for `classes[i]`. */
  ghost predicate OnePerClass(drawn: string, classes: seq<CharClass>, exclude: string) {
    && |drawn| == |classes|
    && forall i :: 0 <= i < |classes| ==> drawn[i] in DrawAlphabet(classes[i], exclude)
  }

  /** `secrets.choice(s)`: some character of `s`, or the IndexError raised for an empty `s`. */
  method Choice(s: string) returns (r: Option<char>)
    ensures r.Some? <==> s != []
    ensures r.Some? ==> r.value in s
  {
    if s == [] {
      return None;
    }
    assert s[0] in s;
    var c :| c in s;
    return Some(c);
  }

  /**
   * `SystemRandom().shuffle(x)`: the Fisher-Yates pass of Python's
   * `random.shuffle`, swapping each position from the last down to 1 with
   * an arbitrary position at or before it.
   */
  method Shuffle<T>(a: array<T>)
    modifies a
    ensures multiset(a[..]) == old(multiset(a[..]))
  {
    var i := a.Length - 1;
    while i >= 1
      invariant i < a.Length
      invariant multiset(a[..]) == old(multiset(a[..]))
    {
      var j :| 0 <= j <= i;
      a[i], a[j] := a[j], a[i];
      i := i - 1;
    }
  }

  /**
   * `password.append(secrets.choice(alphabet.replace(exclude_chars, "")))`
   * for class `c`: fails exactly when `exclude_chars` is the whole alphabet.
   */
  method AppendGuaranteed(password: string, ghost classes: seq<CharClass>, c: CharClass, exclude: string)
    returns (r: Result<string, Error>)
    requires OnePerClass(password, classes, exclude)
    ensures r.Success? <==> DrawAlphabet(c, exclude) != []
    ensures r.Failure? ==> r.error == EmptyChoice(c)
    ensures r.Success? ==> |r.value| == |password| + 1 && r.value[..|password|] == password
    ensures r.Success? ==> OnePerClass(r.value, classes + [c], exclude)
  {
    var ch := Choice(DrawAlphabet(c, exclude));
    if ch.None? {
      return Failure(EmptyChoice(c));
    }
    r := Success(password + [ch.value]);
    OnePerClassAppend(password, classes, c, r.value, exclude);
  }

  /** One `if use_...:` block of the guaranteed draws: a draw for class `c` when its flag is set, nothing otherwise. */
  method DrawIfEnabled(enabled: bool, c: CharClass, password: string, ghost classes: seq<CharClass>, exclude: string)
    returns (r: Result<string, Error>)
    requires OnePerClass(password, classes, exclude)
    ensures r.Failure? <==> enabled && DrawAlphabet(c, exclude) == []
    ensures r.Failure? ==> r.error == EmptyChoice(c)
    ensures r.Success? ==> |r.value| == |password| + (if enabled then 1 else 0) && r.value[..|password|] == password
    ensures r.Success? ==> OnePerClass(r.value, classes + if enabled then [c] else [], exclude)
  {
    if enabled {
      r := AppendGuaranteed(password, classes, c, exclude);
    } else {
      assert classes + [] == classes;
      r := Success(password);
    }
  }

  /**
   * The guaranteed draws: one character per enabled class, in the order
   * upper, lower, digits, special. The first class whose draw alphabet is
   * empty raises; since the alphabets are distinct, at most one can be.
   */
  method DrawGuaranteed(flags: Flags, exclude: string) returns (r: Result<string, Error>)
    ensures r.Success? <==> forall c :: flags.Enabled(c) ==> DrawAlphabet(c, exclude) != []
    ensures r.Failure? ==>
      r.error.EmptyChoice? && flags.Enabled(r.error.cls) && DrawAlphabet(r.error.cls, exclude) == []
    ensures r.Success? ==> OnePerClass(r.value, flags.EnabledClasses(), exclude)
  {
    var password: string := [];
    ghost var classes: seq<CharClass> := [];
    r := DrawIfEnabled(flags.upper, Upper, password, classes, exclude);
    if r.Failure? {
      return;
    }
    password, classes := r.value, if flags.upper then [Upper] else [];
    r := DrawIfEnabled(flags.lower, Lower, password, classes, exclude);
    if r.Failure? {
      return;
    }
    password, classes := r.value, classes + if flags.lower then [Lower] else [];
    r := DrawIfEnabled(flags.digits, Digit, password, classes, exclude);
    if r.Failure? {
      return;
    }
    password, classes := r.value, classes + if flags.digits then [Digit] else [];
    r := DrawIfEnabled(flags.special, Special, password, classes, exclude);
    if r.Failure? {
      return;
    }
    password, classes := r.value, classes + if flags.special then [Special] else [];
    assert classes == flags.EnabledClasses();
    OnePerClassDrawable(password, classes, exclude);
    return Success(password);
  }

  /** A class that received a guaranteed draw had a non-empty draw alphabet. */
  lemma OnePerClassDrawable(drawn: string, classes: seq<CharClass>, exclude: string)
    requires OnePerClass(drawn, classes, exclude)
    ensures forall c :: c in classes ==> DrawAlphabet(c, exclude) != []
  {
    forall c | c in classes ensures DrawAlphabet(c, exclude) != [] {
      var i :| 0 <= i < |classes| && classes[i] == c;
      assert drawn[i] in DrawAlphabet(c, exclude);
    }
  }

  lemma OnePerClassAppend(drawn: string, classes: seq<CharClass>, c: CharClass, next: string, exclude: string)
    requires OnePerClass(drawn, classes, exclude)
    requires |next| == |drawn| + 1 && next[..|drawn|] == drawn && next[|drawn|] in DrawAlphabet(c, exclude)
    ensures OnePerClass(next, classes + [c], exclude)
  {
    var extended := classes + [c];
    forall i | 0 <= i < |extended| ensures next[i] in DrawAlphabet(extended[i], exclude) {
      if i < |drawn| {
        assert next[i] == next[..|drawn|][i] == drawn[i];
        assert extended[i] == classes[i];
      } else {
        assert extended[i] == c;
      }
    }
  }

  /** `[secrets.choice(all_chars) for _ in range(count)]`. */
  method DrawFill(pool: string, count: int) returns (extra: string)
    requires pool != []
    ensures |extra| == if count < 0 then 0 else count
    ensures DrawnFrom(extra, pool)
  {
    extra := [];
    var i := 0;
    while i < count
      invariant 0 <= i && |extra| == i
      invariant i == 0 || i <= count
      invariant DrawnFrom(extra, pool)
    {
      var ch := Choice(pool);
      extra := extra + [ch.value];
      i := i + 1;
    }
  }

  /**
   * Lines 58-66: append `length - len(password)` characters drawn from the
   * pool, shuffle the list in place and join it into a string.
   */
  method FillAndShuffle(drawn: string, pool: string, length: int) returns (password: string, extra: string)
    requires pool != [] && |drawn| <= length
    ensures |password| == length
    ensures |extra| == length - |drawn| && DrawnFrom(extra, pool)
    ensures multiset(password) == multiset(drawn + extra)
  {
    extra := DrawFill(pool, length - |drawn|);
    var list := drawn + extra;
    var a := new char[|list|](i requires 0 <= i < |list| => list[i]);
    assert a[..] == list;
    Shuffle(a);
    password := a[..];
    assert |password| == |multiset(password)| == |multiset(list)| == |list|;
  }

  /**
   * `generate_advanced_password`: the three error paths in the order the
   * function meets them, and on success a password of exactly `length`
   * characters assembled as `IsOutcome` describes, with the entropy of
   * `length` independent draws from the pool.
   */
  method GenerateAdvancedPassword(length: int, useUpper: bool, useLower: bool, useDigits: bool,
                                  useSpecial: bool, excludeChars: string)
    returns (r: Result<Generated, Error>, ghost guaranteed: string, ghost fill: string)
    ensures r == Failure(InvalidLength) <==> length < 4
    ensures r == Failure(EmptyPool) <==>
      4 <= length && Pool(Flags(useUpper, useLower, useDigits, useSpecial), excludeChars) == []
    ensures r.Failure? && r.error.EmptyChoice? ==>
      4 <= length && Pool(Flags(useUpper, useLower, useDigits, useSpecial), excludeChars) != [] &&
      Flags(useUpper, useLower, useDigits, useSpecial).Enabled(r.error.cls) &&
      DrawAlphabet(r.error.cls, excludeChars) == []
    ensures r.Success? <==>
      4 <= length && Pool(Flags(useUpper, useLower, useDigits, useSpecial), excludeChars) != [] &&
      forall c :: Flags(useUpper, useLower, useDigits, useSpecial).Enabled(c) ==> DrawAlphabet(c, excludeChars) != []
    ensures r.Success? ==> |r.value.password| == length
    ensures r.Success? ==>
      r.value.entropy == CalculateEntropy(length, |Pool(Flags(useUpper, useLower, useDigits, useSpecial), excludeChars)|)
    ensures r.Success? ==>
      IsOutcome(length, Flags(useUpper, useLower, useDigits, useSpecial), excludeChars, r.value.password, guaranteed, fill)
  {
    guaranteed, fill := [], [];
    if length < 4 {
      return Failure(InvalidLength), guaranteed, fill;
    }
    var flags := Flags(useUpper, useLower, useDigits, useSpecial);
    var allChars := Pool(flags, excludeChars);
    if allChars == [] {
      return Failure(EmptyPool), guaranteed, fill;
    }

    var drawn := DrawGuaranteed(flags, excludeChars);
    if drawn.Failure? {
      r := Failure(drawn.error);
      assert r.error.EmptyChoice? && flags.Enabled(r.error.cls) && DrawAlphabet(r.error.cls, excludeChars) == [];
      return;
    }
    var password, extra := FillAndShuffle(drawn.value, allChars, length);
    guaranteed, fill := drawn.value, extra;

    var entropy := CalculateEntropy(length, |allChars|);
    return Success(Generated(password, entropy)), guaranteed, fill;
  }

  /** A class's draw alphabet is emptied exactly when `exclude_chars` is that whole alphabet. */
  lemma DrawAlphabetEmpty(c: CharClass, exclude: string)
    ensures DrawAlphabet(c, exclude) == [] <==> exclude == Alphabet(c)
  {
    ReplaceAllEmpty(Alphabet(c), exclude);
  }

  /** The `char_pools` entries, in order, are the four classes' alphabets or "" for a disabled class. */
  lemma CharPoolsByClass(flags: Flags)
    ensures |CharPools(flags)| == 4
    ensures forall i :: 0 <= i < 4 ==>
      CharPools(flags)[i] == if flags.Enabled(ClassAt(i)) then Alphabet(ClassAt(i)) else ""
  {
  }

  /** The class of the `i`-th `char_pools` entry. */
  function ClassAt(i: int): CharClass {
    if i == 0 then Upper else if i == 1 then Lower else if i == 2 then Digit else Special
  }

  /** `ch` belongs to the alphabet of some enabled class. */
  ghost predicate InEnabledClass(flags: Flags, ch: char) {
    exists c :: flags.Enabled(c) && ch in Alphabet(c)
  }

  /** A character is in the pool exactly when it belongs to an enabled class and is not excluded. */
  lemma PoolMembers(flags: Flags, exclude: string, ch: char)
    ensures ch in Pool(flags, exclude) <==> ch !in exclude && InEnabledClass(flags, ch)
  {
    var parts := CharPools(flags);
    CharPoolsByClass(flags);
    if ch in Concat(parts) {
      var i :| 0 <= i < |parts| && ch in parts[i];
      assert flags.Enabled(ClassAt(i)) && ch in Alphabet(ClassAt(i));
    }
    if c :| flags.Enabled(c) && ch in Alphabet(c) {
      var i := match c case Upper => 0 case Lower => 1 case Digit => 2 case Special => 3;
      assert ch in parts[i];
    }
  }

  /** `"".join(char_pools.values())` is the four entries one after another. */
  lemma JoinedPools(flags: Flags)
    ensures Concat(CharPools(flags)) ==
      CharPools(flags)[0] + CharPools(flags)[1] + CharPools(flags)[2] + CharPools(flags)[3]
  {
    var p := CharPools(flags);
    assert p == [p[0], p[1], p[2], p[3]];
    Concat4(p[0], p[1], p[2], p[3]);
  }

  /**
   * The pool keeps the order of `"".join(char_pools.values())`: each entry
   * of `char_pools` filtered on its own, one after another in the order
   * upper, lower, digits, punctuation.
   */
  lemma PoolOrder(flags: Flags, exclude: string)
    ensures Pool(flags, exclude) ==
      RemoveChars(CharPools(flags)[0], exclude) + RemoveChars(CharPools(flags)[1], exclude) +
      RemoveChars(CharPools(flags)[2], exclude) + RemoveChars(CharPools(flags)[3], exclude)
  {
    var p := CharPools(flags);
    JoinedPools(flags);
    RemoveCharsAppend(p[0] + p[1] + p[2], p[3], exclude);
    RemoveCharsAppend(p[0] + p[1], p[2], exclude);
    RemoveCharsAppend(p[0], p[1], exclude);
  }

  /**
   * The pool repeats no character, because the four alphabets are disjoint,
   * so `len(all_chars)` is the number of distinct eligible characters.
   */
  lemma PoolDistinct(flags: Flags, exclude: string)
    ensures NoDuplicates(Pool(flags, exclude))
    ensures |Pool(flags, exclude)| == |Chars(Pool(flags, exclude))|
  {
    JoinedPoolsDistinct(flags);
    RemoveCharsNoDuplicates(Concat(CharPools(flags)), exclude);
    DistinctCount(Pool(flags, exclude));
  }

  /** The joined `char_pools` entries repeat no character. */
  lemma JoinedPoolsDistinct(flags: Flags)
    ensures NoDuplicates(Concat(CharPools(flags)))
  {
    var p := CharPools(flags);
    CharPoolsByClass(flags);
    JoinedPools(flags);
    forall ch | ch in p[0] ensures ch !in p[1] && ch !in p[2] && ch !in p[3] {
      AlphabetsDisjoint(Upper, Lower, ch);
      AlphabetsDisjoint(Upper, Digit, ch);
      AlphabetsDisjoint(Upper, Special, ch);
    }
    forall ch | ch in p[1] ensures ch !in p[2] && ch !in p[3] {
      AlphabetsDisjoint(Lower, Digit, ch);
      AlphabetsDisjoint(Lower, Special, ch);
    }
    forall ch | ch in p[2] ensures ch !in p[3] {
      AlphabetsDisjoint(Digit, Special, ch);
    }
    Append4NoDuplicates(p[0], p[1], p[2], p[3]);
  }

  /**
   * The pool is empty exactly when every enabled alphabet is wholly
   * excluded; in particular it is empty when no class is enabled.
   */
  lemma PoolEmpty(flags: Flags, exclude: string)
    ensures Pool(flags, exclude) == [] <==>
      forall c :: flags.Enabled(c) ==> Chars(Alphabet(c)) <= Chars(exclude)
    ensures flags.EnabledClasses() == [] ==> Pool(flags, exclude) == []
  {
    if Pool(flags, exclude) != [] {
      var ch := Pool(flags, exclude)[0];
      PoolMembers(flags, exclude, ch);
      var c :| flags.Enabled(c) && ch in Alphabet(c);
      assert ch in Chars(Alphabet(c)) && ch !in Chars(exclude);
    } else {
      forall c, ch | flags.Enabled(c) && ch in Chars(Alphabet(c)) ensures ch in Chars(exclude) {
        PoolMembers(flags, exclude, ch);
      }
    }
  }

  /**
   * When `exclude_chars` occurs in a class alphabet, the draw alphabet is that
   * alphabet with the one run removed and every other character kept, in order.
   */
  lemma DrawAlphabetRunRemoved(c: CharClass, exclude: string, i: int)
    requires exclude != [] && OccursAt(exclude, Alphabet(c), i)
    ensures DrawAlphabet(c, exclude) == Alphabet(c)[..i] + Alphabet(c)[i + |exclude|..]
    ensures |DrawAlphabet(c, exclude)| == |Alphabet(c)| - |exclude|
  {
    ReplaceAllOnce(Alphabet(c), exclude, i);
  }

  /**
   * A class's draw alphabet is left whole exactly when `exclude_chars` is
   * empty or does not occur in it as one contiguous run.
   */
  lemma DrawAlphabetUnchanged(c: CharClass, exclude: string)
    ensures DrawAlphabet(c, exclude) == Alphabet(c) <==> exclude == [] || !Occurs(exclude, Alphabet(c))
  {
    ReplaceAllUnchanged(Alphabet(c), exclude);
  }

  /** A call fails in a guaranteed draw exactly when `exclude_chars` is the whole alphabet of an enabled class. */
  lemma GuaranteedDrawFails(flags: Flags, exclude: string)
    ensures (exists c :: flags.Enabled(c) && DrawAlphabet(c, exclude) == []) <==>
      exists c :: flags.Enabled(c) && exclude == Alphabet(c)
  {
    forall c ensures DrawAlphabet(c, exclude) == [] <==> exclude == Alphabet(c) {
      DrawAlphabetEmpty(c, exclude);
    }
  }

  /** A successful call returns exactly `length` characters, at least as many as there are enabled classes. */
  lemma OutcomeLength(length: int, flags: Flags, exclude: string, password: string, guaranteed: string, fill: string)
    requires IsOutcome(length, flags, exclude, password, guaranteed, fill)
    ensures |password| == length && |flags.EnabledClasses()| <= length
  {
    assert |password| == |multiset(password)| == |multiset(guaranteed + fill)| == |guaranteed + fill|;
  }

  /** Every enabled class is represented in the password by at least one character of its alphabet. */
  lemma OutcomeCoversClasses(length: int, flags: Flags, exclude: string, password: string, guaranteed: string, fill: string)
    requires IsOutcome(length, flags, exclude, password, guaranteed, fill)
    ensures forall c :: flags.Enabled(c) ==> exists i :: 0 <= i < |password| && password[i] in Alphabet(c)
  {
    var classes := flags.EnabledClasses();
    forall c | flags.Enabled(c) ensures exists i :: 0 <= i < |password| && password[i] in Alphabet(c) {
      var k :| 0 <= k < |classes| && classes[k] == c;
      var ch := guaranteed[k];
      DrawAlphabetWithin(c, exclude, ch);
      assert (guaranteed + fill)[k] == ch;
      assert ch in multiset(password);
      var i :| 0 <= i < |password| && password[i] == ch;
    }
  }

  /** Every character of the password belongs to some enabled class. */
  lemma OutcomeWithinClasses(length: int, flags: Flags, exclude: string, password: string, guaranteed: string, fill: string)
    requires IsOutcome(length, flags, exclude, password, guaranteed, fill)
    ensures forall i :: 0 <= i < |password| ==> InEnabledClass(flags, password[i])
  {
    var classes := flags.EnabledClasses();
    forall i | 0 <= i < |password| ensures InEnabledClass(flags, password[i]) {
      var ch := password[i];
      assert ch in multiset(guaranteed + fill);
      var k :| 0 <= k < |guaranteed + fill| && (guaranteed + fill)[k] == ch;
      if k < |guaranteed| {
        assert guaranteed[k] == ch && flags.Enabled(classes[k]);
        DrawAlphabetWithin(classes[k], exclude, ch);
      } else {
        assert fill[k - |guaranteed|] == ch;
        assert ch in Pool(flags, exclude);
        PoolMembers(flags, exclude, ch);
      }
    }
  }

  /**
   * Fill characters never come from `exclude_chars`: an excluded character
   * occurs in the password no more often than among the guaranteed draws.
   */
  lemma OutcomeExclusions(length: int, flags: Flags, exclude: string, password: string, guaranteed: string, fill: string)
    requires IsOutcome(length, flags, exclude, password, guaranteed, fill)
    ensures forall ch :: ch in exclude ==> multiset(password)[ch] == multiset(guaranteed)[ch]
  {
    forall ch | ch in exclude ensures multiset(password)[ch] == multiset(guaranteed)[ch] {
      PoolMembers(flags, exclude, ch);
      assert ch !in fill;
      assert multiset(guaranteed + fill) == multiset(guaranteed) + multiset(fill);
    }
  }

  /**
   * Conversely, whenever the call succeeds, every character of an enabled
   * class's draw alphabet, excluded or not, is the guaranteed draw of some
   * outcome, and so can appear in the returned password.
   */
  lemma DrawnCharacterReachable(length: int, flags: Flags, exclude: string, c: CharClass, ch: char)
    requires flags.Enabled(c) && ch in DrawAlphabet(c, exclude)
    requires forall d :: flags.Enabled(d) ==> DrawAlphabet(d, exclude) != []
    requires Pool(flags, exclude) != [] && |flags.EnabledClasses()| <= length
    ensures exists password, guaranteed, fill ::
      IsOutcome(length, flags, exclude, password, guaranteed, fill) && ch in password
  {
    var classes := flags.EnabledClasses();
    var pool := Pool(flags, exclude);
    forall d | d in classes ensures DrawAlphabet(d, exclude) != [] {
      assert flags.Enabled(d);
    }
    var guaranteed := ChooseGuaranteed(classes, exclude, c, ch);
    var fill := ChooseFill(pool, length - |classes|);
    assert c in classes;
    var k :| 0 <= k < |classes| && classes[k] == c;
    var password := guaranteed + fill;
    assert password[k] == ch;
    assert |fill| == length - |classes| && DrawnFrom(fill, pool);
    assert OnePerClass(guaranteed, classes, exclude);
    assert IsOutcome(length, flags, exclude, password, guaranteed, fill);
  }

  /** One guaranteed draw per class, drawing `ch` wherever the class is `c`. */
  lemma {:induction false} ChooseGuaranteed(classes: seq<CharClass>, exclude: string, c: CharClass, ch: char)
    returns (drawn: string)
    requires ch in DrawAlphabet(c, exclude)
    requires forall d :: d in classes ==> DrawAlphabet(d, exclude) != []
    ensures OnePerClass(drawn, classes, exclude)
    ensures forall i :: 0 <= i < |classes| && classes[i] == c ==> drawn[i] == ch
  {
    if classes == [] {
      drawn := [];
    } else {
      var rest := ChooseGuaranteed(classes[1..], exclude, c, ch);
      var alphabet := DrawAlphabet(classes[0], exclude);
      assert alphabet != [];
      var first := if classes[0] == c then ch else alphabet[0];
      drawn := [first] + rest;
      forall i | 0 <= i < |classes|
        ensures drawn[i] in DrawAlphabet(classes[i], exclude) && (classes[i] == c ==> drawn[i] == ch)
      {
        if i > 0 {
          assert classes[i] == classes[1..][i - 1] && drawn[i] == rest[i - 1];
        }
      }
    }
  }

  /** A fill of `count` characters drawn from a non-empty pool. */
  lemma ChooseFill(pool: string, count: nat) returns (fill: string)
    requires pool != []
    ensures |fill| == count && DrawnFrom(fill, pool)
  {
    fill := seq(count, _ => pool[0]);
    forall j | 0 <= j < count ensures fill[j] in pool {
      assert fill[j] == pool[0];
    }
  }
}
