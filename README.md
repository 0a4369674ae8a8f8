# Advanced password generator

This is a Dafny model of the password generator in
`Password_Generator/pasword_generator.py`. It covers two functions:

- `generate_advanced_password(length, use_upper, use_lower, use_digits, use_special, exclude_chars)`
  builds a pool from the enabled character classes. The classes are upper-case letters,
  lower-case letters, digits and ASCII punctuation. Every character of `exclude_chars` is
  filtered out of the pool. The function then draws one guaranteed character per enabled
  class, fills up to `length` characters from the pool, shuffles, and returns the password
  together with its entropy.
- `calculate_entropy(length, pool_size)` computes `log2(pool_size ** length)`.

The project has six modules:

- `Wrappers`: `Option` and `Result`.
- `Text`: the Python string operations the generator uses. These are membership filtering
  joined into a string, `str.replace(pattern, "")` and `"".join`.
- `Alphabets`: `string.ascii_uppercase`, `ascii_lowercase`, `digits` and `punctuation`. Each is
  built from runs of consecutive ASCII codes, and a lemma shows it equals Python's string.
- `Entropy`: `calculate_entropy`, kept as the integer `pool_size ** length`. The module
  proves that this integer is the number of strings of that length over the pool.
- `PasswordGenerator`: `generate_advanced_password`.
- `Scenarios`: the example call at the bottom of the script, plus three exclusion cases.

Randomness (`secrets.choice`, `SystemRandom().shuffle`) is modelled as an arbitrary choice.
Every contract therefore holds whatever the random source returns.

- The shuffle is the Fisher-Yates pass of Python's `random.shuffle` on an array. The swap
  partner is chosen arbitrarily.
- The call returns, as ghost outputs, the guaranteed characters and the fill characters it
  drew. The predicate `IsOutcome` ties them to the password.

The guaranteed draws call `alphabet.replace(exclude_chars, "")`. This removes
`exclude_chars` only where it occurs as one whole contiguous run. It does not remove each
character of it. The model follows the code here, and it proves four consequences:

- When `exclude_chars` does occur in a class alphabet, the draw alphabet is the alphabet with
  that one run cut out. Excluding `"ABC"` leaves the upper-case draw 23 letters, `'D'` to `'Z'`.
- A guaranteed draw can return an excluded character. In the example call, excluding
  `"lI1O0"` does not stop the upper-case draw from picking `'I'`.
- A class's draw fails with the `IndexError` of `secrets.choice` only when `exclude_chars`
  is exactly that class's whole alphabet.
- Excluding all ten digits in another order, `"9876543210"`, does not make the digit draw
  fail. Whenever digits are enabled, every password the call returns holds an excluded
  digit. With digits as the only class, the pool is empty and the call raises the
  `ValueError` of lines 42-43 instead.

The docstring of `generate_advanced_password` (line 22) describes `exclude_chars` as the
characters to exclude from the password. The code keeps that promise for the fill
characters only, not for the guaranteed draws.

## Model

| member | source | states |
|---|---|---|
| Text.RemoveChars | Password_Generator/pasword_generator.py:40 | the filtered pool holds a character iff the joined pools hold it and `exclude_chars` does not; it is never longer than its input |
| Text.RemoveCharsAppend | Password_Generator/pasword_generator.py:39-40 | filtering a concatenation is the concatenation of the filtered parts, so the pool keeps the order of the joined pools |
| Text.RemoveCharsNoDuplicates | Password_Generator/pasword_generator.py:40 | filtering a repetition-free string cannot create a repeated character |
| Text.RemoveCharsSize | Password_Generator/pasword_generator.py:40 | filtering a repetition-free string removes exactly as many characters as it shares with `exclude_chars` |
| Text.DistinctCount | Password_Generator/pasword_generator.py:64 | for a repetition-free string, `len` is the number of distinct characters |
| Text.ReplaceAll | Password_Generator/pasword_generator.py:49 | `str.replace(pattern, "")` never lengthens a string; `Text.ReplaceAllOnce` states what it removes |
| Text.ReplaceAllOnce | Password_Generator/pasword_generator.py:49 | in a repetition-free string, an occurring non-empty pattern is deleted as one run, and the characters before and after it are kept in order |
| Text.ReplaceAllChars | Password_Generator/pasword_generator.py:49 | every character left by the replacement was a character of the original string |
| Text.ReplaceAllUnchanged | Password_Generator/pasword_generator.py:49 | the replacement leaves a string unchanged iff the pattern is empty or does not occur in it as a contiguous run (both directions) |
| Text.MissingCharNoOccurrence | Password_Generator/pasword_generator.py:49 | if some character of the pattern is absent from the string, the replacement changes nothing |
| Text.ReplaceAllEmpty | Password_Generator/pasword_generator.py:49 | a non-empty, repetition-free string is emptied by the replacement iff the pattern is the whole string |
| Text.Concat | Password_Generator/pasword_generator.py:39 | `"".join(parts)` holds a character iff one of the parts holds it |
| Alphabets.AlphabetsAsWritten | Password_Generator/pasword_generator.py:32-34 | the upper-case, lower-case and digit alphabets are exactly the strings `string.ascii_uppercase`, `ascii_lowercase` and `digits` |
| Alphabets.PunctuationAsWritten | Password_Generator/pasword_generator.py:35 | the special alphabet is exactly the string `string.punctuation` |
| Alphabets.Alphabet | Password_Generator/pasword_generator.py:32-35 | each class alphabet is non-empty, repeats no character and has 26, 26, 10 or 32 characters |
| Alphabets.AlphabetRanges | Password_Generator/pasword_generator.py:32-35 | a character of `ascii_uppercase`, `ascii_lowercase` or `digits` lies in 'A'-'Z', 'a'-'z' or '0'-'9' respectively, and a character of `punctuation` lies in none of these ranges |
| Alphabets.AlphabetsDisjoint | Password_Generator/pasword_generator.py:31-36 | no character belongs to two class alphabets |
| Entropy.PasswordSpace | Password_Generator/pasword_generator.py:6-8 | `pool_size ** length` is the number of strings of `length` characters over the pool; the listed strings are exactly those of that length drawn from the pool, listed once each when the pool repeats nothing |
| PasswordGenerator.Flags.EnabledClasses | Password_Generator/pasword_generator.py:48-55 | the guaranteed draws visit each enabled class exactly once, and no disabled class (at most four) |
| PasswordGenerator.DrawAlphabetWithin | Password_Generator/pasword_generator.py:49 | a guaranteed draw's alphabet only holds characters of its class |
| PasswordGenerator.Choice | Password_Generator/pasword_generator.py:49 | `secrets.choice` returns a character of its argument, and fails iff the argument is empty |
| PasswordGenerator.Shuffle | Password_Generator/pasword_generator.py:61 | the in-place shuffle leaves the list a permutation of itself (same multiset) |
| PasswordGenerator.AppendGuaranteed | Password_Generator/pasword_generator.py:48-49 | one guaranteed draw appends one character of the class's draw alphabet and keeps the earlier ones, so a list holding one draw per earlier class gains one for class `c`; it raises `IndexError` iff that alphabet is empty |
| PasswordGenerator.DrawIfEnabled | Password_Generator/pasword_generator.py:48-49 | one `if use_...:` block raises `IndexError` for its class iff the flag is set and the class's draw alphabet is empty; otherwise it keeps the earlier draws and adds one draw for the class exactly when the flag is set, and returns the list unchanged when the flag is off |
| PasswordGenerator.DrawGuaranteed | Password_Generator/pasword_generator.py:45-55 | the guaranteed draws succeed iff every enabled class's draw alphabet is non-empty; a failure names an enabled class whose draw alphabet is empty; a success yields one character per enabled class, in class order, from that class's draw alphabet |
| PasswordGenerator.DrawFill | Password_Generator/pasword_generator.py:58 | the fill has `max(count, 0)` characters, all from the pool |
| PasswordGenerator.FillAndShuffle | Password_Generator/pasword_generator.py:57-66 | the joined password has exactly `length` characters and is a permutation of the guaranteed draws followed by `length - k` pool characters |
| PasswordGenerator.GenerateAdvancedPassword | Password_Generator/pasword_generator.py:11-66 | `ValueError` for length iff `length < 4`; `ValueError` for the pool iff the length is valid and the filtered pool is empty; otherwise `IndexError` for an enabled class whose draw alphabet is empty; success iff none of these; on success the password has `length` characters, is an outcome of the draws, and its entropy argument is `len(all_chars) ** length` |
| PasswordGenerator.DrawAlphabetEmpty | Password_Generator/pasword_generator.py:49-55 | a class's draw alphabet is empty iff `exclude_chars` equals that whole alphabet |
| PasswordGenerator.DrawAlphabetRunRemoved | Password_Generator/pasword_generator.py:48-55 | when `exclude_chars` occurs in a class alphabet, the draw alphabet is that alphabet with the run cut out, `len(exclude_chars)` characters shorter |
| PasswordGenerator.DrawAlphabetUnchanged | Password_Generator/pasword_generator.py:49-55 | a class's draw alphabet is the full alphabet iff `exclude_chars` is empty or not a contiguous run of it |
| PasswordGenerator.GuaranteedDrawFails | Password_Generator/pasword_generator.py:48-55 | some enabled class's draw raises iff `exclude_chars` is the whole alphabet of some enabled class |
| PasswordGenerator.CharPoolsByClass | Password_Generator/pasword_generator.py:31-36 | the four `char_pools` entries, in insertion order, are each class's alphabet when enabled and "" otherwise |
| PasswordGenerator.JoinedPools | Password_Generator/pasword_generator.py:39 | the joined pools are the four entries one after another |
| PasswordGenerator.JoinedPoolsDistinct | Password_Generator/pasword_generator.py:31-39 | the joined pools repeat no character |
| PasswordGenerator.PoolMembers | Password_Generator/pasword_generator.py:39-40 | a character is in the pool iff it is not excluded and belongs to an enabled class (both directions) |
| PasswordGenerator.PoolOrder | Password_Generator/pasword_generator.py:39-40 | the pool is the filtered upper, lower, digit and punctuation entries in that order |
| PasswordGenerator.PoolDistinct | Password_Generator/pasword_generator.py:39-40 | the pool repeats no character, so `len(all_chars)` counts distinct eligible characters |
| PasswordGenerator.PoolEmpty | Password_Generator/pasword_generator.py:42-43 | the pool is empty iff every enabled alphabet is wholly covered by the excluded characters, in particular when no class is enabled |
| PasswordGenerator.OutcomeLength | Password_Generator/pasword_generator.py:58-66 | every outcome has exactly `length` characters, and there are no more enabled classes than that |
| PasswordGenerator.OutcomeCoversClasses | Password_Generator/pasword_generator.py:45-55 | every outcome holds at least one character of each enabled class |
| PasswordGenerator.OutcomeWithinClasses | Password_Generator/pasword_generator.py:45-58 | every character of an outcome belongs to some enabled class |
| PasswordGenerator.OutcomeExclusions | Password_Generator/pasword_generator.py:58 | an excluded character occurs in an outcome exactly as often as among the guaranteed draws: the fill never supplies one |
| PasswordGenerator.DrawnCharacterReachable | Password_Generator/pasword_generator.py:48-58 | when the call can succeed, every character of an enabled class's draw alphabet, excluded or not, occurs in some outcome |
| Scenarios.ConfusablesStayDrawable | Password_Generator/pasword_generator.py:70-72 | with `exclude_chars="lI1O0"` every guaranteed draw chooses from its full alphabet |
| Scenarios.ExamplePoolSize | Password_Generator/pasword_generator.py:70-72 | the example call's pool has 89 characters, so its entropy argument is `89 ** 20` |
| Scenarios.ExampleCallCanReturnExcluded | Password_Generator/pasword_generator.py:70-72 | `'I'` is excluded and not in the pool, yet some outcome of the example call contains `'I'` |
| Scenarios.AllDigitsExcluded | Password_Generator/pasword_generator.py:52-53 | excluding exactly "0123456789" empties the digit draw alphabet and no other, while the pool stays non-empty whenever another class is enabled |
| Scenarios.LeadingRunExcluded | Password_Generator/pasword_generator.py:49 | excluding "ABC" leaves the upper-case draw alphabet as the 23 letters from 'D' to 'Z' |
| Scenarios.DigitsExcludedOutOfOrder | Password_Generator/pasword_generator.py:52-53 | excluding "9876543210" removes every digit from the pool but none from the digit draw, so every outcome with digits enabled contains an excluded digit |
| Scenarios.ReversedDigitsAlone | Password_Generator/pasword_generator.py:40-43 | with digits as the only class, excluding "9876543210" empties the pool, so the call raises its pool `ValueError` |

## Left out

- `math.log2` and floating point: `calculate_entropy` is modelled by the integer it takes the logarithm of, `pool_size ** length`. The bit count is its base-2 logarithm.
- Entropy.CalculateEntropy: takes natural numbers only. The generator calls it only with `length >= 4` and a pool size.
- The quality and distribution of `secrets.choice` and `SystemRandom().shuffle`: draws are arbitrary choices, so nothing about uniformity or unpredictability is stated.
- PasswordGenerator.Shuffle: states that the result is a permutation, not that every permutation is equally likely.
- Arguments of other Python types are not modelled. This covers a non-integer `length` (a float, or a bool compared with 4) and non-string flags or `exclude_chars`. The model takes an integer length, booleans and a string.
- The default argument values (length 10, every class enabled, nothing excluded) are not modelled, because Dafny has no default arguments. `Scenarios.ALL_CLASSES` is the default flag selection.
- The two `print` calls of the example usage (lines 73-74) are console output and are not modelled. The example call itself is modelled in `Scenarios`.
