/**
 * The four character classes: Python's `string.ascii_uppercase`,
 * `ascii_lowercase`, `digits` and `punctuation`, built from runs of
 * consecutive ASCII codes. `AlphabetsAsWritten` states that these are the
 * strings Python defines.
 */
module Alphabets {
  import opened Text

  /** The `count` consecutive ASCII characters starting at `first`. */
  function Span(first: char, count: nat): (r: string)
    requires first as int + count <= 128
    ensures |r| == count
    ensures forall i :: 0 <= i < count ==> r[i] == (first as int + i) as char
  {
    seq(count, i requires 0 <= i < count => (first as int + i) as char)
  }

  const UPPERCASE: string := Span('A', 26)
  const LOWERCASE: string := Span('a', 26)
  const DIGITS: string := Span('0', 10)
  /** The printable ASCII characters that are neither letters, digits nor space, in code order. */
  const PUNCTUATION: string := Span('!', 15) + Span(':', 7) + Span('[', 6) + Span('{', 4)

  /** The letter and digit constants spell out Python's `string.ascii_uppercase`, `ascii_lowercase` and `digits`. */
  lemma AlphabetsAsWritten()
    ensures UPPERCASE == "ABCDEFGHIJKLMNOPQRSTUVWXYZ"
    ensures LOWERCASE == "abcdefghijklmnopqrstuvwxyz"
    ensures DIGITS == "0123456789"
  {
  }

  /** `PUNCTUATION` spells out Python's `string.punctuation`. */
  lemma PunctuationAsWritten()
    ensures PUNCTUATION == "!\"#$%&'()*+,-./:;<=>?@[\\]^_`{|}~"
  {
  }

  /** A character class, one per flag of the generator. */
  datatype CharClass = Upper | Lower | Digit | Special

  /** The alphabet of a class; every alphabet is non-empty and repetition-free. */
  function Alphabet(c: CharClass): (r: string)
    ensures r != [] && NoDuplicates(r)
    ensures |r| == match c case Upper => 26 case Lower => 26 case Digit => 10 case Special => 32
  {
    var r := match c
      case Upper => UPPERCASE
      case Lower => LOWERCASE
      case Digit => DIGITS
      case Special => PUNCTUATION;
    assert forall i :: 0 <= i < |r| - 1 ==> r[i] < r[i + 1];
    AscendingNoDuplicates(r);
    r
  }

  /** Where each alphabet's characters lie in the ASCII table. */
  lemma AlphabetRanges(ch: char)
    ensures ch in UPPERCASE ==> 'A' <= ch <= 'Z'
    ensures ch in LOWERCASE ==> 'a' <= ch <= 'z'
    ensures ch in DIGITS ==> '0' <= ch <= '9'
    ensures ch in PUNCTUATION ==> !('A' <= ch <= 'Z') && !('a' <= ch <= 'z') && !('0' <= ch <= '9')
  {
    assert forall i :: 0 <= i < |UPPERCASE| ==> 'A' <= UPPERCASE[i] <= 'Z';
    assert forall i :: 0 <= i < |LOWERCASE| ==> 'a' <= LOWERCASE[i] <= 'z';
    assert forall i :: 0 <= i < |DIGITS| ==> '0' <= DIGITS[i] <= '9';
    assert forall i :: 0 <= i < |PUNCTUATION| ==>
      !('A' <= PUNCTUATION[i] <= 'Z') && !('a' <= PUNCTUATION[i] <= 'z') && !('0' <= PUNCTUATION[i] <= '9');
  }

  /** The four classes are pairwise disjoint. */
  lemma AlphabetsDisjoint(c: CharClass, d: CharClass, ch: char)
    requires c != d && ch in Alphabet(c)
    ensures ch !in Alphabet(d)
  {
    AlphabetRanges(ch);
  }
}
