# Reversible human-readable identifiers, modelled in Dafny

This project models the codec of `hrid/hrid.py`, which turns an integer index
into a human-readable identifier such as `brave-otter-sings-loudly` and back
again.

A codec is configured with an ordered list of *elements*. Each element is a
word list, resolved by `_transform_element`. `space_size` is the product of
the list lengths.

`encode(n)` works as follows:
1. It rejects any `n` outside `[0, space_size)`.
2. When scrambling is on, it multiplies `n` by a multiplier coprime to
   `space_size`, modulo `space_size`.
3. It writes the result as a mixed-radix numeral, one digit per element. The
   LAST element is the least significant digit.
4. It spells each digit with the word at that position of its list and joins
   the words with the delimiter.

`decode(s)` reverses these steps:
1. It splits `s` at the delimiter and checks the number of parts.
2. It looks up each part in its list.
3. It rebuilds the number with Horner's rule.
4. When scrambling is on, it multiplies by the modular inverse of the
   multiplier. The inverse comes from the extended Euclidean algorithm.

The modules follow those steps:

- `Options` holds `Option`, `Result` and `ValueOr`.
- `Arith` covers divisibility, quotient and remainder, and `Gcd`, the
  reference for `math.gcd`.
- `Modular` covers `ExtendedGcd`, `ModInverse` (`_mod_inverse`) and the
  scrambling map `Scramble`. It proves that `Scramble` is a permutation of
  `[0, s)` exactly when the multiplier is coprime to `s`.
- `Radix` defines `Product`, `Digits` (repeated `%` and `//`), `Compose`
  (Horner's rule) and the proofs that the last two invert each other.
- `Text` defines `Join` (`str.join`) and `Split` (`str.split` with a
  non-empty separator, taking the leftmost, non-overlapping occurrences). It
  proves `Join(Split(s, d), d) == s` for every string, and
  `Split(Join(ws, d), d) == ws` when the list `ws` is non-empty and no word
  runs into the delimiter. For an empty list the join is `""`, which splits
  into `[""]`.
- `Hrid` holds element resolution and the coprime search (`_find_coprime`,
  as the method `FindCoprime` with its loop `SearchCoprime`). It also holds
  the class `HRID`, whose constructor computes `space_size`, the multiplier
  and its inverse once. The method `Encode` carries the source's encode loop.
  The method `Decode` calls the module-level method `LookUpAll`, which carries
  the decode loop. Each of `Encode` and `Decode` is proved equal to a
  specification function (`EncodeSpec`, `DecodeSpec`), and the round trips
  are proved about those functions.

The round trip `decode(encode(n)) == n` (`HRID.DecodeEncode`) needs these
premises:
- the delimiter is non-empty;
- there is at least one element;
- no list repeats a word, because `words.index` returns the first match;
- no word *overlaps* the delimiter.

The last premise is stronger than "no word contains the delimiter". With the
delimiter `--`, the word `a-` does not contain it, yet `"a-" + "--" + "b"`
splits into `a` and `-b` (`Text.ContainmentIsNotEnough`). For a
one-character delimiter the two conditions coincide
(`Text.NoOverlapSingleChar`).

The other direction needs no premise. Every string that `decode` accepts is
exactly what `encode` produces for the decoded index (`HRID.EncodeDecode`).

Where the code and its comments differ, the model follows the code:

- The comment on the last `return 1` of `_find_coprime` says it is reached
  for `n = 1`. It is not: every number is coprime to 1, so the first
  constant is chosen (`Hrid.UnitSpaceChoice`). The `return 1` is reached
  only for `n = 0` without a seed, where the constructor then fails. With a
  seed and `n = 0`, `randint(0, -1)` raises first.
- The multiplier and its inverse are computed even when scrambling is off,
  as the constructor does.

## Model

| member | source | states |
|---|---|---|
| Modular.ExtendedGcd | hrid/hrid.py:10-14 | returns `Gcd(a, b)` with Bezout coefficients `x`, `y`: `a*x + b*y == gcd` |
| Modular.ModInverse | hrid/hrid.py:16-17 | the normalised result lies in `[0, m)` |
| Modular.ModInverseInverts | hrid/hrid.py:8-17 | for `gcd(a, m) = 1`, `(a * ModInverse(a, m)) % m == 1 % m` |
| Modular.InverseOnlyIfCoprime | hrid/hrid.py:8-17 | any `r` with `(a*r) % m == 1 % m` forces `gcd(a, m) = 1` |
| Modular.ModInverseCorrect | hrid/hrid.py:8-17 | the result is an inverse modulo `m` if and only if `a` and `m` are coprime |
| Modular.Scramble | hrid/hrid.py:149 | `(n * k) % s` lies in `[0, s)` |
| Modular.UnscrambleScramble | hrid/hrid.py:184 | for `n < s` and coprime `m`, multiplying by the inverse undoes multiplying by `m` |
| Modular.ScrambleUnscramble | hrid/hrid.py:149 | for `n < s` and coprime `m`, multiplying by `m` undoes multiplying by the inverse |
| Modular.ScrambleInjectiveIfCoprime | hrid/hrid.py:62-64 | a multiplier coprime to `s` maps distinct indices of `[0, s)` to distinct indices |
| Modular.ScrambleSurjectiveIfCoprime | hrid/hrid.py:62-64 | a multiplier coprime to `s` reaches every index of `[0, s)` |
| Modular.NotInjectiveIfShared | hrid/hrid.py:62-64 | a multiplier sharing a factor with `s` maps two distinct indices to one |
| Modular.ScramblePermutesIffCoprime | hrid/hrid.py:62-64 | scrambling permutes `[0, s)` if and only if `gcd(m, s) = 1` |
| Arith.Gcd | hrid/hrid.py:84 | `math.gcd` by Euclid's algorithm; positive when either operand is |
| Arith.GcdDivides | hrid/hrid.py:84 | `Gcd(a, b)` divides both `a` and `b` |
| Arith.GcdGreatest | hrid/hrid.py:84 | every common divisor of `a` and `b` divides `Gcd(a, b)` |
| Arith.GcdPredecessor | hrid/hrid.py:87-89 | `n - 1` is coprime to `n`, so the final scan always finds a value for `n >= 2` |
| Radix.Product | hrid/hrid.py:61 | the product of the list lengths is positive if and only if no list is empty |
| Radix.Digits | hrid/hrid.py:152-156 | repeated `%`/`//` from the last base gives one digit per base, each below its base |
| Radix.Compose | hrid/hrid.py:174-180 | Horner's rule on a valid numeral gives a value below the product of the bases |
| Radix.HornerPlaceBound | hrid/hrid.py:180 | one step `n * len(words) + idx` stays below the product of the bases seen so far |
| Radix.ComposePrefixStep | hrid/hrid.py:180 | appending a digit multiplies the value of the prefix by the next base and adds the digit |
| Radix.DigitAt | hrid/hrid.py:153-156 | digit `i - 1` is the value `n` has when the loop reaches element `i - 1`, modulo that base |
| Radix.ComposeDigits | hrid/hrid.py:174-180 | composing the digits of any `n < Product(bases)` gives `n` back |
| Radix.DigitsCompose | hrid/hrid.py:152-156 | the digits of the value of a valid numeral are that numeral |
| Radix.DigitsInjective | hrid/hrid.py:152-156 | distinct indices below the product have distinct digits |
| Text.Join | hrid/hrid.py:157 | joining a single word gives that word |
| Text.Split | hrid/hrid.py:167 | splitting with a non-empty separator always gives at least one part |
| Text.Reversed | hrid/hrid.py:157 | reversal keeps the length and maps position `k` to position `len - 1 - k` |
| Text.SplitJoin | hrid/hrid.py:167 | splitting the join of a non-empty list of words, none of which overlaps the delimiter, gives the words back |
| Text.JoinSplit | hrid/hrid.py:167 | joining the parts of any split gives the original string back |
| Text.NoOverlapSingleChar | hrid/hrid.py:167 | for a one-character delimiter, "no overlap" is exactly "the word does not contain it" |
| Text.ContainmentIsNotEnough | hrid/hrid.py:167 | with delimiter `--`, the words `a-` and `b` join to `a---b`, which splits into `a` and `-b` |
| Hrid.TransformElement | hrid/hrid.py:92-110 | an unknown name yields `[name]`; the result is empty only for an empty literal list or a name mapped to an empty list |
| Hrid.TransformExamples | tests/tests.py:17-29 | a known name yields its mapped list, a literal list is unchanged, and an unknown name yields a one-word list |
| Hrid.Resolve | hrid/hrid.py:56 | one word list per element spec, each the transform of its spec |
| Hrid.ChooseLists | hrid/hrid.py:54 | `word_lists or DEFAULT_WORD_LISTS`: a given non-empty mapping is used, a missing or empty one selects the built-in mapping, and the result is empty only when the built-in mapping is |
| Hrid.ChooseSpecs | hrid/hrid.py:55 | `elements or DEFAULT_ELEMENTS` is never empty |
| Hrid.Lengths | hrid/hrid.py:61 | one base per element, equal to the length of its word list |
| Hrid.SpaceSize | hrid/hrid.py:61 | `space_size >= 1` if and only if every word list is non-empty |
| Hrid.Spell | hrid/hrid.py:153-155 | one word per element, and word `i` belongs to list `i` |
| Hrid.IndexOf | hrid/hrid.py:177 | `words.index(w)`: none if and only if `w` is absent; otherwise the first position holding `w` |
| Hrid.IndexOfDistinct | hrid/hrid.py:177 | in a list without repetitions, the word at position `j` is found at `j` |
| Hrid.Positions | hrid/hrid.py:175-179 | the positions of known parts form a valid numeral that spells the parts |
| Hrid.PositionsSpell | hrid/hrid.py:175-180 | looking up the spelling of a numeral gives the numeral back when no list repeats a word |
| Hrid.LookUpStep | hrid/hrid.py:175-180 | a part found in its list extends the looked-up positions by one |
| Hrid.LookUpDone | hrid/hrid.py:175-180 | once every part is looked up, the digits are `Positions` of the parts |
| Hrid.LookUpAll | hrid/hrid.py:174-180 | the decode loop fails if and only if some part is not in its list; otherwise it returns the Horner value of the positions |
| Hrid.FirstCoprime | hrid/hrid.py:83-85 | none if and only if no candidate is coprime; otherwise a coprime candidate |
| Hrid.FirstCoprimeIsFirst | hrid/hrid.py:83-85 | no candidate before the chosen one is coprime |
| Hrid.IsDrawStream | hrid/hrid.py:76-77 | the seeded candidates: 1000 draws, each in `[n // 3, n - 1]`; the first one exists and lies there, so such a stream exists only for `n >= 1` |
| Hrid.Range | hrid/hrid.py:87 | `range(lo, hi)`: `hi - lo` values, the `k`-th being `lo + k` |
| Hrid.CoprimeChoice | hrid/hrid.py:66-90 | for `n >= 1` the multiplier is coprime to `n` |
| Hrid.SeededChoiceInRange | hrid/hrid.py:72-79 | a seeded draw that succeeds lies in `[n // 3, n)` |
| Hrid.UnseededScanChoice | hrid/hrid.py:81-89 | when no constant qualifies, the choice is the first coprime value of `[n // 2, n)` |
| Hrid.UnitSpaceChoice | hrid/hrid.py:81-90 | for `n = 1` the unseeded choice is the first constant, not the final `return 1` |
| Hrid.SearchCoprime | hrid/hrid.py:83-85 | the search loop with early return yields the first coprime candidate |
| Hrid.FindCoprime | hrid/hrid.py:66-90 | `_find_coprime` tries the seeded draws, then the constants, then `[n // 2, n)`; the result is coprime to `n` |
| Hrid.SpellStep | hrid/hrid.py:153-156 | one pass of the encode loop keeps the collected words the reversed tail of the spelling |
| Hrid.HRID.constructor | hrid/hrid.py:52-64 | resolves the elements, sets `space_size` to their product (at least 1), chooses a coprime multiplier, and sets the inverse to `ModInverse(multiplier, space_size)` |
| Hrid.HRID.Scrambled | hrid/hrid.py:148-149 | the index that is spelled stays in `[0, space_size)` |
| Hrid.HRID.Unscrambled | hrid/hrid.py:183-184 | the decoded index stays in `[0, space_size)` |
| Hrid.HRID.ScrambledInverse | hrid/hrid.py:63-64 | unscrambling and scrambling undo each other on `[0, space_size)` |
| Hrid.HRID.EncodeSpec | hrid/hrid.py:130-157 | `encode(n)` succeeds exactly for `0 <= n < space_size`, and otherwise fails with `OutOfRange` |
| Hrid.HRID.DecodeSpec | hrid/hrid.py:159-186 | `decode(s)` fails with `EmptySeparator` exactly when the delimiter is empty; a decoded index is below `space_size` |
| Hrid.HRID.MaxValue | hrid/hrid.py:125-128 | `encode(n)` succeeds exactly for `0 <= n <= max_value` |
| Hrid.HRID.Encode | hrid/hrid.py:130-157 | fails exactly when `n < 0` or `n >= space_size`; otherwise it spells the mixed-radix digits of the scrambled index, joined by the delimiter |
| Hrid.HRID.Decode | hrid/hrid.py:159-186 | fails on an empty separator, then on a wrong part count, then on the first unknown word; otherwise it unscrambles the Horner value, which is below `space_size` |
| Hrid.HRID.DecodeEncode | hrid/hrid.py:159-186 | `decode(encode(n)) == n` for every `n` in range, under the round-trip premises |
| Hrid.HRID.EncodeDecode | hrid/hrid.py:159-186 | every string `decode` accepts is what `encode` gives for the decoded index |
| Hrid.HRID.EncodeInjective | hrid/hrid.py:130-157 | under the round-trip premises, distinct indices give distinct identifiers |
| Hrid.HRID.LastWordUnscrambled | hrid/hrid.py:152-156 | with scrambling off, the last word of `encode(n)` is word `n % len(last)` of the last list |
| Hrid.SmallEncodeExample | hrid/hrid.py:130-157 | for lists `[a, b]` and `[x, y, z]` without scrambling: 0, 1 and 5 encode to `a-x`, `a-y` and `b-z`; 6 is out of range |
| Hrid.SmallDecodeExample | hrid/hrid.py:159-186 | for the same codec, `b-z` decodes to 5 and `c-x` fails on an unknown word |
| Hrid.SmallCodec | hrid/hrid.py:23-64 | the constructor builds that codec from two literal lists |

## Left out

- `generate` and the random source `self.random` (`random.Random(seed)`) are not modelled. They draw words at random and nothing inverts them.
- Hrid.FindCoprime: the seeded branch draws from `random.Random(scramble_seed).randint(n // 3, n - 1)`, and the Mersenne Twister is not modelled. The 1000 draws are a constructor parameter instead (`scrambleSeed`, checked by `IsDrawStream`). The model proves what holds for any such stream. It does not prove which value a given seed string produces.
- The built-in word lists (`DEFAULT_WORD_LISTS`, `NICE_WORD_LISTS`) are static data. The default mapping is the constructor parameter `builtin`.
- The text of the `ValueError` messages is not modelled. Each error condition is an `Error` value instead.
- `str.split` with an empty separator raises its own `ValueError`. It is modelled as `Err(EmptySeparator)`, checked before anything else in `decode`.
- Element specs are a sequence, not an arbitrary iterable. The source replaces an empty sequence with the default elements, but an empty generator is truthy and would leave zero elements. That case cannot arise in the model.
- Hrid.HRID.constructor: requires every resolved word list to be non-empty. With an empty list, `space_size` is 0 and the source fails inside the constructor. Seeded, `randint(0, -1)` raises. Unseeded, `_find_coprime` returns 1 and `_mod_inverse(1, 0)` divides by zero.
- Hrid.HRID.constructor: the fields are immutable after construction. Python attributes can be reassigned from outside the object, and that is not modelled.
- Hrid.HRID.DecodeEncode: the premise that no word overlaps the delimiter is stronger than "no word contains the delimiter". The weaker condition does not make the round trip hold (`Text.ContainmentIsNotEnough`).
- Python's `str.join` and `str.split` are not called. `Text.Join` and `Text.Split` are definitions of what they compute on strings.
