/**
 * Concrete calls of the generator: the example call at the bottom of the
 * script, and exclusions that show how the whole-substring removal of the
 * guaranteed draws differs from the per-character filtering of the pool.
 */
module Scenarios {
  import opened Text
  import opened Alphabets
  import opened Entropy
  import opened PasswordGenerator

  /** The default selection: every class enabled. */
  const ALL_CLASSES := Flags(true, true, true, true)

  /** The example call's exclusions. */
  const CONFUSABLE: string := "lI1O0"

  /**
   * No class alphabet holds "lI1O0" as a contiguous run, so with the example
   * call's exclusions every guaranteed draw still chooses from its full
   * alphabet, 'l', 'I', '1', 'O' and '0' included.
   */
  lemma ConfusablesStayDrawable(c: CharClass, exclude: string)
    requires exclude == CONFUSABLE
    ensures DrawAlphabet(c, exclude) == Alphabet(c)
  {
    match c
    case Upper =>
      AlphabetRanges('l');
      MissingCharNoOccurrence(UPPERCASE, exclude, 'l');
    case Lower =>
      AlphabetRanges('I');
      MissingCharNoOccurrence(LOWERCASE, exclude, 'I');
    case Digit =>
      AlphabetRanges('l');
      MissingCharNoOccurrence(DIGITS, exclude, 'l');
    case Special =>
      AlphabetRanges('l');
      MissingCharNoOccurrence(PUNCTUATION, exclude, 'l');
  }

  /**
   * With every class and the example call's exclusions, the pool keeps 89
   * of the 94 characters, so the entropy argument for length 20 is 89 ** 20.
   */
  lemma ExamplePoolSize(exclude: string)
    requires exclude == CONFUSABLE
    ensures |Pool(ALL_CLASSES, exclude)| == 89
    ensures CalculateEntropy(20, |Pool(ALL_CLASSES, exclude)|) == Pow(89, 20)
  {
    var joined := Concat(CharPools(ALL_CLASSES));
    AllClassesJoined();
    RemoveCharsSize(joined, exclude);
    ConfusablesCount(exclude);
    forall ch | ch in Chars(exclude) ensures ch in Chars(joined) {
      ConfusableIsEligible(exclude, ch);
    }
    assert Chars(joined) * Chars(exclude) == Chars(exclude);
  }

  /** With every class enabled, the joined pools are 94 distinct characters. */
  lemma AllClassesJoined()
    ensures |Concat(CharPools(ALL_CLASSES))| == 94
    ensures NoDuplicates(Concat(CharPools(ALL_CLASSES)))
  {
    JoinedPools(ALL_CLASSES);
    JoinedPoolsDistinct(ALL_CLASSES);
    CharPoolsByClass(ALL_CLASSES);
    assert CharPools(ALL_CLASSES) == [Alphabet(Upper), Alphabet(Lower), Alphabet(Digit), Alphabet(Special)];
  }

  /** The example call excludes five distinct characters. */
  lemma ConfusablesCount(exclude: string)
    requires exclude == CONFUSABLE
    ensures |Chars(exclude)| == 5
  {
    assert NoDuplicates(exclude);
    DistinctCount(exclude);
  }

  lemma ConfusableIsEligible(exclude: string, ch: char)
    requires exclude == CONFUSABLE && ch in exclude
    ensures ch in Concat(CharPools(ALL_CLASSES))
  {
    JoinedPools(ALL_CLASSES);
    assert UPPERCASE[8] == 'I' && UPPERCASE[14] == 'O';
    assert LOWERCASE[11] == 'l' && DIGITS[0] == '0' && DIGITS[1] == '1';
    assert ch in UPPERCASE || ch in LOWERCASE || ch in DIGITS;
  }

  /**
   * The example call can return a password containing 'I', a character it
   * asked to exclude: the upper-case guaranteed draw may pick it, although
   * the pool does not hold it.
   */
  lemma ExampleCallCanReturnExcluded(exclude: string)
    requires exclude == CONFUSABLE
    ensures 'I' in exclude && 'I' !in Pool(ALL_CLASSES, exclude)
    ensures exists password, guaranteed, fill ::
      IsOutcome(20, ALL_CLASSES, exclude, password, guaranteed, fill) && 'I' in password
  {
    PoolMembers(ALL_CLASSES, exclude, 'I');
    forall c ensures DrawAlphabet(c, exclude) != [] {
      ConfusablesStayDrawable(c, exclude);
    }
    UpperDrawKeepsI(exclude);
    ExamplePoolSize(exclude);
    AllClassesOrder();
    DrawnCharacterReachable(20, ALL_CLASSES, exclude, Upper, 'I');
  }

  lemma UpperDrawKeepsI(exclude: string)
    requires exclude == CONFUSABLE
    ensures 'I' in DrawAlphabet(Upper, exclude)
  {
    ConfusablesStayDrawable(Upper, exclude);
    assert UPPERCASE[8] == 'I';
  }

  /** The classes of a call with every class enabled, in draw order. */
  lemma AllClassesOrder()
    ensures ALL_CLASSES.EnabledClasses() == [Upper, Lower, Digit, Special]
  {
  }

  /**
   * Excluding exactly "0123456789" empties the digit draw alphabet and no
   * other, so a call with digits enabled fails in the guaranteed digit draw
   * even though the pool is non-empty as soon as another class is enabled.
   */
  lemma AllDigitsExcluded(flags: Flags, exclude: string)
    requires exclude == DIGITS
    ensures DrawAlphabet(Digit, exclude) == []
    ensures forall c :: c != Digit ==> DrawAlphabet(c, exclude) == Alphabet(c)
    ensures flags.upper || flags.lower || flags.special ==> Pool(flags, exclude) != []
  {
    AlphabetRanges('0');
    assert DIGITS[0] == '0';
    DrawAlphabetEmpty(Digit, exclude);
    MissingCharNoOccurrence(UPPERCASE, exclude, '0');
    MissingCharNoOccurrence(LOWERCASE, exclude, '0');
    MissingCharNoOccurrence(PUNCTUATION, exclude, '0');
    var c := if flags.upper then Upper else if flags.lower then Lower else Special;
    if flags.Enabled(c) {
      var ch := Alphabet(c)[0];
      AlphabetsDisjoint(c, Digit, ch);
      PoolMembers(flags, exclude, ch);
    }
  }

  /**
   * Excluding "ABC" removes that run from the upper-case draw alphabet, which
   * keeps the other 23 letters, while the pool loses 'A', 'B' and 'C' too.
   */
  lemma LeadingRunExcluded(exclude: string)
    requires exclude == "ABC"
    ensures DrawAlphabet(Upper, exclude) == UPPERCASE[3..]
    ensures |DrawAlphabet(Upper, exclude)| == 23
  {
    assert OccursAt(exclude, Alphabet(Upper), 0);
    DrawAlphabetRunRemoved(Upper, exclude, 0);
  }

  /**
   * The same ten digits in another order are all filtered out of the pool,
   * yet the digit draw alphabet keeps all of them, so whenever digits are
   * enabled every outcome holds an excluded digit from the guaranteed draw.
   */
  lemma DigitsExcludedOutOfOrder(length: int, flags: Flags, exclude: string,
                                 password: string, guaranteed: string, fill: string)
    requires exclude == "9876543210" && flags.digits
    requires IsOutcome(length, flags, exclude, password, guaranteed, fill)
    ensures DrawAlphabet(Digit, exclude) == DIGITS
    ensures forall ch :: ch in DIGITS ==> ch !in Pool(flags, exclude)
    ensures exists i :: 0 <= i < |password| && password[i] in DIGITS && password[i] in exclude
  {
    ReversedDigitsStayDrawable(exclude);
    ReversedDigitsFiltered(flags, exclude);
    OutcomeCoversClasses(length, flags, exclude, password, guaranteed, fill);
    assert flags.Enabled(Digit);
    var i :| 0 <= i < |password| && password[i] in Alphabet(Digit);
    assert password[i] in DIGITS;
  }

  /** With digits as the only class, excluding "9876543210" empties the pool, so the call raises before any draw. */
  lemma ReversedDigitsAlone(exclude: string)
    requires exclude == "9876543210"
    ensures Pool(Flags(false, false, true, false), exclude) == []
  {
    var flags := Flags(false, false, true, false);
    ReversedDigitsFiltered(flags, exclude);
    assert Chars(Alphabet(Digit)) <= Chars(exclude);
    PoolEmpty(flags, exclude);
  }

  lemma ReversedDigitsStayDrawable(exclude: string)
    requires exclude == "9876543210"
    ensures DrawAlphabet(Digit, exclude) == DIGITS
  {
    assert DIGITS[0] != exclude[0];
    assert !OccursAt(exclude, DIGITS, 0);
    assert forall i :: OccursAt(exclude, DIGITS, i) ==> i == 0;
    DrawAlphabetUnchanged(Digit, exclude);
  }

  lemma ReversedDigitsFiltered(flags: Flags, exclude: string)
    requires exclude == "9876543210"
    ensures forall ch :: ch in DIGITS ==> ch in exclude && ch !in Pool(flags, exclude)
  {
    forall ch | ch in DIGITS ensures ch in exclude && ch !in Pool(flags, exclude) {
      PoolMembers(flags, exclude, ch);
      assert forall i :: 0 <= i < 10 ==> DIGITS[i] in exclude;
    }
  }
}
