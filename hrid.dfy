/**
  The reversible identifier codec of `hrid/hrid.py`: an index in
  `[0, space_size)` is scrambled by a multiplier coprime to `space_size`,
  split into mixed-radix digits (one per element, last element least
  significant), spelled with one word per element and joined with the
  delimiter; decoding splits, looks every word up, recomposes with Horner's
  rule and unscrambles with the modular inverse of the multiplier.
 */
module Hrid {
  import opened Options
  import opened Arith
  import opened Modular
  import opened Radix
  import opened Text

  /** The failures of `encode` and `decode`; the source raises `ValueError` for each. */
  datatype Error =
    | OutOfRange      // encode: n is not in [0, space_size)
    | PartCount       // decode: the number of parts differs from the number of elements
    | UnknownWord     // decode: a part is not in the word list of its position
    | EmptySeparator  // decode: `str.split` refuses an empty delimiter

  /**
    One element of the configuration: a string, which names a list of the
    word-list mapping or else stands for itself, or a literal list of words.
   */
  datatype ElementSpec = Name(name: string) | List(words: seq<string>)

  /** `DEFAULT_ELEMENTS`, used when no elements (or an empty sequence of them) are given. */
  const DefaultElements: seq<ElementSpec> :=
    [Name("adjective"), Name("noun"), Name("verb"), Name("adverb")]

  /** The well-known multipliers `_find_coprime` tries, in order, when no seed is given. */
  const Constants: seq<nat> := [2654435769, 1640531527, 2166136261, 16777619]

  /** How many seeded candidates `_find_coprime` draws before falling back. */
  const Budget: nat := 1000

  /** `_transform_element`: the word list an element stands for. */
  function TransformElement(e: ElementSpec, lists: map<string, seq<string>>): (words: seq<string>)
    ensures e.Name? && e.name !in lists ==> words == [e.name]
    ensures words == [] <==> (e.List? && e.words == []) || (e.Name? && e.name in lists && lists[e.name] == [])
  {
    match e
    case Name(key) => if key in lists then lists[key] else [key]
    case List(ws) => ws
  }

  /** The resolved elements, in configured order. */
  function Resolve(specs: seq<ElementSpec>, lists: map<string, seq<string>>): (elements: seq<seq<string>>)
    ensures |elements| == |specs|
    ensures forall i :: 0 <= i < |specs| ==> elements[i] == TransformElement(specs[i], lists)
  {
    seq(|specs|, i requires 0 <= i < |specs| => TransformElement(specs[i], lists))
  }

  /** The three cases the unit tests check: a known name, a literal list and an unknown name. */
  lemma TransformExamples(lists: map<string, seq<string>>)
    requires "adjective" in lists && "unknown" !in lists
    ensures TransformElement(Name("adjective"), lists) == lists["adjective"]
    ensures TransformElement(List(["hello", "hi"]), lists) == ["hello", "hi"]
    ensures TransformElement(Name("unknown"), lists) == ["unknown"]
  {
  }

  /** `elements or DEFAULT_ELEMENTS`: a missing or empty sequence selects the default. */
  function ChooseSpecs(elements: Option<seq<ElementSpec>>): (specs: seq<ElementSpec>)
    ensures specs != []
  {
    if elements.Some? && elements.value != [] then elements.value else DefaultElements
  }

  /** `word_lists or DEFAULT_WORD_LISTS`: a missing or empty mapping selects the built-in one. */
  function ChooseLists(lists: Option<map<string, seq<string>>>, builtin: map<string, seq<string>>): (chosen: map<string, seq<string>>)
    ensures lists.Some? && lists.value != map[] ==> chosen == lists.value
    ensures lists.None? || lists.value == map[] ==> chosen == builtin
    ensures builtin != map[] ==> chosen != map[]
  {
    if lists.Some? && lists.value != map[] then lists.value else builtin
  }

  /** The bases of the numeral: the length of every element's word list. */
  function Lengths(elements: seq<seq<string>>): (bases: seq<nat>)
    ensures |bases| == |elements|
    ensures forall i :: 0 <= i < |elements| ==> bases[i] == |elements[i]|
  {
    seq(|elements|, i requires 0 <= i < |elements| => |elements[i]|)
  }

  /** `space_size`: how many identifiers the elements can spell. */
  function SpaceSize(elements: seq<seq<string>>): (size: nat)
    ensures size >= 1 <==> forall i :: 0 <= i < |elements| ==> elements[i] != []
  {
    Product(Lengths(elements))
  }

  /** The words of a numeral: digit `i` picks a word of element `i`. */
  function Spell(elements: seq<seq<string>>, ds: seq<nat>): (words: seq<string>)
    requires IsNumeral(ds, Lengths(elements))
    ensures |words| == |elements|
    ensures forall i :: 0 <= i < |elements| ==> words[i] in elements[i]
  {
    seq(|elements|, i requires 0 <= i < |elements| => elements[i][ds[i]])
  }

  /** `words.index(w)`: the position of the first occurrence of `w`, or `None` when it is absent. */
  function IndexOf(words: seq<string>, w: string): (r: Option<nat>)
    ensures r.None? <==> w !in words
    ensures r.Some? ==> r.value < |words| && words[r.value] == w && w !in words[..r.value]
  {
    if words == [] then None
    else if words[0] == w then Some(0)
    else
      match IndexOf(words[1..], w)
      case None => None
      case Some(i) =>
        assert words[..i + 1] == [words[0]] + words[1..][..i];
        Some(i + 1)
  }

  /** No word occurs twice in the list. */
  predicate Distinct(words: seq<string>) {
    forall j, k :: 0 <= j < k < |words| ==> words[j] != words[k]
  }

  /** In a list without repetitions the word at position `j` is found at position `j`. */
  lemma IndexOfDistinct(words: seq<string>, j: nat)
    requires Distinct(words) && j < |words|
    ensures IndexOf(words, words[j]) == Some(j)
  {
    var i := IndexOf(words, words[j]).value;
  }

  /** The position of every part in its element's list: the digits a decoded identifier spells. */
  function Positions(elements: seq<seq<string>>, parts: seq<string>): (ds: seq<nat>)
    requires |parts| == |elements|
    requires forall i :: 0 <= i < |parts| ==> parts[i] in elements[i]
    ensures IsNumeral(ds, Lengths(elements))
    ensures Spell(elements, ds) == parts
  {
    seq(|parts|, i requires 0 <= i < |parts| => IndexOf(elements[i], parts[i]).value)
  }

  /** Looking up the words of a numeral gives the numeral back when no list repeats a word. */
  lemma PositionsSpell(elements: seq<seq<string>>, ds: seq<nat>)
    requires IsNumeral(ds, Lengths(elements))
    requires forall i :: 0 <= i < |elements| ==> Distinct(elements[i])
    ensures Positions(elements, Spell(elements, ds)) == ds
  {
    var words := Spell(elements, ds);
    forall i | 0 <= i < |elements|
      ensures Positions(elements, words)[i] == ds[i]
    {
      IndexOfDistinct(elements[i], ds[i]);
    }
  }

  /** No value in `cands` is coprime to `n`. */
  predicate NoneCoprime(cands: seq<nat>, n: nat) {
    forall c :: c in cands ==> Gcd(c, n) != 1
  }

  /** The first value in `cands` coprime to `n`, if any. */
  function FirstCoprime(cands: seq<nat>, n: nat): (r: Option<nat>)
    ensures r.None? <==> NoneCoprime(cands, n)
    ensures r.Some? ==> r.value in cands && Gcd(r.value, n) == 1
  {
    if cands == [] then None
    else if Gcd(cands[0], n) == 1 then Some(cands[0])
    else FirstCoprime(cands[1..], n)
  }

  /** `FirstCoprime` picks the earliest coprime value: everything before it is not coprime. */
  lemma {:induction false} FirstCoprimeIsFirst(cands: seq<nat>, n: nat)
    requires !NoneCoprime(cands, n)
    ensures exists i :: 0 <= i < |cands| && cands[i] == FirstCoprime(cands, n).value && NoneCoprime(cands[..i], n)
  {
    if Gcd(cands[0], n) == 1 {
      assert cands[..0] == [];
    } else {
      var tail := cands[1..];
      assert !NoneCoprime(tail, n) by {
        var c :| c in cands && Gcd(c, n) == 1;
        assert c in tail;
      }
      FirstCoprimeIsFirst(tail, n);
      var j :| 0 <= j < |tail| && tail[j] == FirstCoprime(tail, n).value && NoneCoprime(tail[..j], n);
      assert cands[j + 1] == tail[j];
      assert NoneCoprime(cands[..j + 1], n) by {
        assert cands[..j + 1] == [cands[0]] + tail[..j];
      }
    }
  }

  /** `range(lo, hi)` as a sequence. */
  function Range(lo: nat, hi: nat): (r: seq<nat>)
    requires lo <= hi
    ensures |r| == hi - lo
    ensures forall k :: 0 <= k < |r| ==> r[k] == lo + k
    decreases hi - lo
  {
    if lo == hi then [] else [lo] + Range(lo + 1, hi)
  }

  /**
    The seeded candidate stream: `Budget` draws of `randint(n // 3, n - 1)`.
    There is none for an empty space, where `randint(0, -1)` has no value.
   */
  predicate IsDrawStream(draws: seq<nat>, n: nat): (drawable: bool)
    ensures drawable ==> draws != [] && n / 3 <= draws[0] < n && n >= 1
  {
    |draws| == Budget && forall k :: 0 <= k < |draws| ==> n / 3 <= draws[k] <= n - 1
  }

  /**
    The multiplier `_find_coprime(n, seed)` chooses: the first seeded draw
    coprime to `n`, else the first coprime constant, else the first coprime
    value of `[n // 2, n)`, else 1.
   */
  function CoprimeChoice(n: nat, seed: Option<seq<nat>>): (c: nat)
    requires n >= 1
    ensures Gcd(c, n) == 1
  {
    var seeded := if seed.Some? then FirstCoprime(seed.value, n) else None;
    var constant := FirstCoprime(Constants, n);
    var scan := FirstCoprime(Range(n / 2, n), n);
    assert constant.Some? || scan.Some? by {
      if n == 1 {
        GcdWithOne(Constants[0]);
      } else {
        GcdPredecessor(n);
        assert Range(n / 2, n)[n - 1 - n / 2] == n - 1;
      }
    }
    if seeded.Some? then seeded.value
    else if constant.Some? then constant.value
    else ValueOr(scan, 1)
  }

  /** A seeded choice that succeeds lies in the drawing range `[n // 3, n)`. */
  lemma SeededChoiceInRange(n: nat, draws: seq<nat>)
    requires n >= 1 && IsDrawStream(draws, n) && !NoneCoprime(draws, n)
    ensures n / 3 <= CoprimeChoice(n, Some(draws)) < n
  {
    FirstCoprimeIsFirst(draws, n);
    var c := FirstCoprime(draws, n).value;
    var i :| 0 <= i < |draws| && draws[i] == c && NoneCoprime(draws[..i], n);
  }

  /**
    Without a seed, when none of the constants is coprime to `n`, the choice is
    the first coprime value of `[n // 2, n)`, and `n - 1` is always a candidate.
   */
  lemma UnseededScanChoice(n: nat)
    requires n >= 2 && NoneCoprime(Constants, n)
    ensures n / 2 <= CoprimeChoice(n, None) < n
    ensures forall c :: n / 2 <= c < CoprimeChoice(n, None) ==> Gcd(c, n) != 1
  {
    var r := Range(n / 2, n);
    GcdPredecessor(n);
    assert r[n - 1 - n / 2] == n - 1;
    FirstCoprimeIsFirst(r, n);
    var c := FirstCoprime(r, n).value;
    var i :| 0 <= i < |r| && r[i] == c && NoneCoprime(r[..i], n);
    forall c' | n / 2 <= c' < c
      ensures Gcd(c', n) != 1
    {
      assert r[..i][c' - n / 2] == c';
    }
  }

  /**
    For a one-word space the unseeded choice is the first constant: the final
    `return 1` of `_find_coprime` is reached only for `n == 0`.
   */
  lemma UnitSpaceChoice()
    ensures CoprimeChoice(1, None) == Constants[0]
  {
    GcdWithOne(Constants[0]);
  }

  /**
    One search loop of `_find_coprime`: scan the candidates in order and stop
    at the first one coprime to `n`.
   */
  method SearchCoprime(cands: seq<nat>, n: nat) returns (r: Option<nat>)
    ensures r == FirstCoprime(cands, n)
  {
    for i := 0 to |cands|
      invariant FirstCoprime(cands[i..], n) == FirstCoprime(cands, n)
    {
      var candidate := cands[i];
      if Gcd(candidate, n) == 1 {
        return Some(candidate);
      }
      assert cands[i..][1..] == cands[i + 1..];
    }
    assert cands[|cands|..] == [];
    return None;
  }

  /**
    `_find_coprime`: the seeded draws, then the constants, then `[n // 2, n)`
    are searched in turn for a value coprime to `n`.
   */
  method FindCoprime(n: nat, seed: Option<seq<nat>>) returns (c: nat)
    requires n >= 1
    requires seed.Some? ==> IsDrawStream(seed.value, n)
    ensures Gcd(c, n) == 1
    ensures c == CoprimeChoice(n, seed)
  {
    if seed.Some? {
      var seeded := SearchCoprime(seed.value, n);
      if seeded.Some? {
        return seeded.value;
      }
    }
    var constant := SearchCoprime(Constants, n);
    if constant.Some? {
      return constant.value;
    }
    var scan := SearchCoprime(Range(n / 2, n), n);
    if scan.Some? {
      return scan.value;
    }
    GcdWithOne(n);
    return 1;
  }

  /**
    One pass of the `encode` loop: the word picked at place `i - 1` from the
    quotient left at place `i`, appended to the words collected so far, keeps
    them the reversed tail of the spelling of `x`.
   */
  lemma SpellStep(elements: seq<seq<string>>, x: nat, i: nat, parts: seq<string>)
    requires AllPositive(Lengths(elements)) && 0 < i <= |elements|
    requires Reversed(parts) == Spell(elements, Digits(x, Lengths(elements)))[i..]
    ensures var q, words := Quotient(x, Lengths(elements), i), elements[i - 1];
      Reversed(parts + [words[q % |words|]]) == Spell(elements, Digits(x, Lengths(elements)))[i - 1..] &&
      Quotient(x, Lengths(elements), i - 1) == q / |words|
  {
    var bases := Lengths(elements);
    var spelled := Spell(elements, Digits(x, bases));
    var words := elements[i - 1];
    var word := words[Quotient(x, bases, i) % |words|];
    DigitAt(x, bases, i);
    assert spelled[i - 1..] == [word] + spelled[i..];
    ReversedSnoc(parts, word);
  }

  /**
    The first `|ds|` parts have been looked up: each is a word of its element
    and `ds` holds its position there.
   */
  predicate LookedUp(elements: seq<seq<string>>, parts: seq<string>, ds: seq<nat>) {
    |ds| <= |parts| && |ds| <= |elements| &&
    forall k :: 0 <= k < |ds| ==> parts[k] in elements[k] && ds[k] == IndexOf(elements[k], parts[k]).value
  }

  /** One pass of the `decode` loop: a part found at position `idx` extends the looked-up digits. */
  lemma LookUpStep(elements: seq<seq<string>>, parts: seq<string>, ds: seq<nat>, idx: nat)
    requires LookedUp(elements, parts, ds) && |ds| < |parts| && |ds| < |elements|
    requires IndexOf(elements[|ds|], parts[|ds|]) == Some(idx)
    ensures LookedUp(elements, parts, ds + [idx])
  {
    var i, next := |ds|, ds + [idx];
    forall k | 0 <= k <= i
      ensures parts[k] in elements[k] && next[k] == IndexOf(elements[k], parts[k]).value
    {
      if k < i {
        assert next[k] == ds[k];
      }
    }
  }

  /** Once every part has been looked up, the digits are the positions of the parts. */
  lemma LookUpDone(elements: seq<seq<string>>, parts: seq<string>, ds: seq<nat>)
    requires |parts| == |elements| && LookedUp(elements, parts, ds) && |ds| == |parts|
    ensures forall i :: 0 <= i < |parts| ==> parts[i] in elements[i]
    ensures ds == Positions(elements, parts)
    ensures Compose(ds, Lengths(elements)[..|ds|]) == Compose(Positions(elements, parts), Lengths(elements))
  {
    assert Lengths(elements)[..|ds|] == Lengths(elements);
  }

  /**
    The loop of `decode`: look every part up in its element's list and
    accumulate the positions with Horner's rule, stopping at the first part
    that is not a word of its element.
   */
  method LookUpAll(elements: seq<seq<string>>, parts: seq<string>) returns (r: Option<nat>)
    requires |parts| == |elements|
    ensures r.None? <==> exists i :: 0 <= i < |parts| && parts[i] !in elements[i]
    ensures r.Some? ==> r.value == Compose(Positions(elements, parts), Lengths(elements))
  {
    ghost var ds: seq<nat> := [];
    var n: nat := 0;
    for i := 0 to |parts|
      invariant |ds| == i && LookedUp(elements, parts, ds)
      invariant n == Compose(ds, Lengths(elements)[..i])
    {
      var words := elements[i];
      var idx := IndexOf(words, parts[i]);
      if idx.None? {
        assert parts[i] !in elements[i];
        return None;
      }
      LookUpStep(elements, parts, ds, idx.value);
      ComposePrefixStep(ds, Lengths(elements), idx.value);
      n := n * |words| + idx.value;
      ds := ds + [idx.value];
    }
    LookUpDone(elements, parts, ds);
    return Some(n);
  }

  /** The codec. Every field is set once by the constructor and never changes. */
  class HRID {
    const delimiter: string
    const elements: seq<seq<string>>
    const scramble: bool
    const spaceSize: nat
    const multiplier: nat
    const inverse: nat

    /** The construction invariants: a positive space, a coprime multiplier and its inverse. */
    ghost predicate Valid() {
      spaceSize == SpaceSize(elements) && spaceSize >= 1 &&
      Gcd(multiplier, spaceSize) == 1 && inverse == ModInverse(multiplier, spaceSize)
    }

    /** What a string-level round trip needs beyond `Valid`. */
    ghost predicate RoundTripPremises() {
      delimiter != [] && |elements| >= 1 &&
      (forall i :: 0 <= i < |elements| ==> Distinct(elements[i])) &&
      (forall i, j :: 0 <= i < |elements| && 0 <= j < |elements[i]| ==>
         NoDelimiterOverlap(elements[i][j], delimiter))
    }

    /**
      `__init__`. The random generator used by `generate` is not part of the
      model; `builtin` is the default mapping and `scrambleSeed` the stream of
      candidates the seeded generator would draw.
     */
    constructor (delimiter: string, elements: Option<seq<ElementSpec>>,
                 wordLists: Option<map<string, seq<string>>>, builtin: map<string, seq<string>>,
                 scramble: bool, scrambleSeed: Option<seq<nat>>)
      requires forall e :: e in Resolve(ChooseSpecs(elements), ChooseLists(wordLists, builtin)) ==> e != []
      requires scrambleSeed.Some? ==>
        IsDrawStream(scrambleSeed.value, SpaceSize(Resolve(ChooseSpecs(elements), ChooseLists(wordLists, builtin))))
      ensures Valid()
      ensures this.delimiter == delimiter && this.scramble == scramble
      ensures |this.elements| >= 1
      ensures this.elements == Resolve(ChooseSpecs(elements), ChooseLists(wordLists, builtin))
      ensures multiplier == CoprimeChoice(spaceSize, scrambleSeed)
    {
      var resolved := Resolve(ChooseSpecs(elements), ChooseLists(wordLists, builtin));
      var size := SpaceSize(resolved);
      assert size >= 1 by {
        forall i | 0 <= i < |resolved| ensures resolved[i] != [] {
          assert resolved[i] in resolved;
        }
      }
      var m := FindCoprime(size, scrambleSeed);
      this.delimiter := delimiter;
      this.elements := resolved;
      this.scramble := scramble;
      this.spaceSize := size;
      this.multiplier := m;
      this.inverse := ModInverse(m, size);
    }

    /** The index whose digits are spelled: `n` scrambled when scrambling is on. */
    function Scrambled(n: nat): (x: nat)
      requires Valid() && n < spaceSize
      ensures x < spaceSize
    {
      if scramble then Scramble(n, multiplier, spaceSize) else n
    }

    /** The index a composed numeral stands for: unscrambled when scrambling is on. */
    function Unscrambled(x: nat): (n: nat)
      requires Valid() && x < spaceSize
      ensures n < spaceSize
    {
      if scramble then Scramble(x, inverse, spaceSize) else x
    }

    /** Unscrambling undoes scrambling, and the other way round. */
    lemma ScrambledInverse(n: nat)
      requires Valid() && n < spaceSize
      ensures Unscrambled(Scrambled(n)) == n && Scrambled(Unscrambled(n)) == n
    {
      if scramble {
        UnscrambleScramble(n, multiplier, spaceSize);
        ScrambleUnscramble(n, multiplier, spaceSize);
      }
    }

    /** What `encode(n)` returns. */
    ghost function EncodeSpec(n: int): (r: Result<string, Error>)
      requires Valid()
      ensures r.Ok? <==> 0 <= n < spaceSize
      ensures r.Err? ==> r.error == OutOfRange
    {
      if 0 <= n < spaceSize then
        Ok(Join(Spell(elements, Digits(Scrambled(n), Lengths(elements))), delimiter))
      else Err(OutOfRange)
    }

    /** What `decode(s)` returns. */
    ghost function DecodeSpec(s: string): (r: Result<nat, Error>)
      requires Valid()
      ensures r == Err(EmptySeparator) <==> delimiter == []
      ensures r.Ok? ==> r.value < spaceSize
    {
      if delimiter == [] then Err(EmptySeparator)
      else
        var parts := Split(s, delimiter);
        if |parts| != |elements| then Err(PartCount)
        else if exists i :: 0 <= i < |parts| && parts[i] !in elements[i] then Err(UnknownWord)
        else
          var ds := Positions(elements, parts);
          Ok(Unscrambled(Compose(ds, Lengths(elements))))
    }

    /** `max_value`: the largest index `encode` accepts. */
    function MaxValue(): (r: int)
      requires Valid()
      ensures r >= 0
      ensures forall n :: EncodeSpec(n).Ok? <==> 0 <= n <= r
    {
      spaceSize - 1
    }

    /** `encode`: the identifier of `n`, or `OutOfRange`. */
    method Encode(n: int) returns (r: Result<string, Error>)
      requires Valid()
      ensures r.Err? <==> n < 0 || n >= spaceSize
      ensures r == EncodeSpec(n)
    {
      if !(0 <= n < spaceSize) {
        return Err(OutOfRange);
      }
      var m: nat := n;
      if scramble {
        m := (m * multiplier) % spaceSize;
      }
      assert m == Scrambled(n);
      ghost var x := m;
      ghost var bases := Lengths(elements);
      ghost var spelled := Spell(elements, Digits(x, bases));
      var parts: seq<string> := [];
      var i := |elements|;
      while i > 0
        invariant 0 <= i <= |elements|
        invariant m == Quotient(x, bases, i)
        invariant Reversed(parts) == spelled[i..]
      {
        var words := elements[i - 1];
        var base := |words|;
        DivModNonNegative(m, base);
        var word := words[m % base];
        SpellStep(elements, x, i, parts);
        parts := parts + [word];
        m := m / base;
        i := i - 1;
      }
      r := Ok(Join(Reversed(parts), delimiter));
    }

    /** `decode`: the index an identifier spells, or the first failure the source raises. */
    method Decode(s: string) returns (r: Result<nat, Error>)
      requires Valid()
      ensures r.Ok? ==> r.value < spaceSize
      ensures r == DecodeSpec(s)
    {
      if delimiter == [] {
        return Err(EmptySeparator);
      }
      var parts := Split(s, delimiter);
      if |parts| != |elements| {
        return Err(PartCount);
      }
      var composed := LookUpAll(elements, parts);
      if composed.None? {
        return Err(UnknownWord);
      }
      var n := composed.value;
      if scramble {
        n := (n * inverse) % spaceSize;
      }
      return Ok(n);
    }

    /**
      The round trip `decode(encode(n)) == n` for every index in range, when
      every word list is free of repetitions and no word runs into the delimiter.
     */
    lemma DecodeEncode(n: nat)
      requires Valid() && RoundTripPremises() && n < spaceSize
      ensures EncodeSpec(n).Ok? && DecodeSpec(EncodeSpec(n).value) == Ok(n)
    {
      var bases := Lengths(elements);
      var x := Scrambled(n);
      var ds := Digits(x, bases);
      var words := Spell(elements, ds);
      forall k | 0 <= k < |words|
        ensures NoDelimiterOverlap(words[k], delimiter)
      {
        assert words[k] == elements[k][ds[k]];
      }
      SplitJoin(words, delimiter);
      PositionsSpell(elements, ds);
      ComposeDigits(x, bases);
      ScrambledInverse(n);
    }

    /** Every identifier `decode` accepts is exactly what `encode` gives for the decoded index. */
    lemma EncodeDecode(s: string)
      requires Valid() && DecodeSpec(s).Ok?
      ensures EncodeSpec(DecodeSpec(s).value) == Ok(s)
    {
      var parts := Split(s, delimiter);
      var bases := Lengths(elements);
      var ds := Positions(elements, parts);
      var x := Compose(ds, bases);
      DigitsCompose(ds, bases);
      ScrambledInverse(x);
      JoinSplit(s, delimiter);
    }

    /** Under the round-trip premises distinct indices get distinct identifiers. */
    lemma EncodeInjective(n1: nat, n2: nat)
      requires Valid() && RoundTripPremises() && n1 < spaceSize && n2 < spaceSize
      requires EncodeSpec(n1) == EncodeSpec(n2)
      ensures n1 == n2
    {
      DecodeEncode(n1);
      DecodeEncode(n2);
    }

    /**
      With scrambling off the last word of `encode(n)` is word `n % len(last)`
      of the last list: the last element is the least significant place.
     */
    lemma LastWordUnscrambled(n: nat)
      requires Valid() && !scramble && n < spaceSize && |elements| >= 1
      ensures var last := elements[|elements| - 1];
        Spell(elements, Digits(Scrambled(n), Lengths(elements)))[|elements| - 1] == last[n % |last|]
    {
      DigitAt(n, Lengths(elements), |elements|);
    }
  }

  /** The digits of 0, 1 and 5 over the bases 2 and 3, read back from their Horner values. */
  lemma SmallDigits()
    ensures Digits(0, [2, 3]) == [0, 0] && Digits(1, [2, 3]) == [0, 1] && Digits(5, [2, 3]) == [1, 2]
  {
    SmallCompose();
    DigitsCompose([0, 0], [2, 3]);
    DigitsCompose([0, 1], [2, 3]);
    DigitsCompose([1, 2], [2, 3]);
  }

  /** The identifiers those digits spell over ["a", "b"] and ["x", "y", "z"]. */
  lemma SmallEncodings()
    ensures Join(Spell([["a", "b"], ["x", "y", "z"]], [0, 0]), "-") == "a-x"
    ensures Join(Spell([["a", "b"], ["x", "y", "z"]], [0, 1]), "-") == "a-y"
    ensures Join(Spell([["a", "b"], ["x", "y", "z"]], [1, 2]), "-") == "b-z"
  {
    assert Spell([["a", "b"], ["x", "y", "z"]], [0, 0]) == ["a", "x"];
    assert Spell([["a", "b"], ["x", "y", "z"]], [0, 1]) == ["a", "y"];
    assert Spell([["a", "b"], ["x", "y", "z"]], [1, 2]) == ["b", "z"];
  }

  /** "b-z" splits into the words "b" and "z", which stand for the digits 1 and 2. */
  lemma SmallSplit()
    ensures Split("b-z", "-") == ["b", "z"]
    ensures Positions([["a", "b"], ["x", "y", "z"]], ["b", "z"]) == [1, 2]
  {
    IndexOfDistinct(["a", "b"], 1);
    IndexOfDistinct(["x", "y", "z"], 2);
    assert Split("z", "-") == ["z"] by {
      assert "z"[1..] == [] && ['z'] + "" == "z";
    }
    assert Split("-z", "-") == ["", "z"] by {
      assert "-" <= "-z" && "-z"[1..] == "z";
    }
    assert "b-z"[1..] == "-z" && ['b'] + "" == "b";
  }

  /** "c-x" splits into two parts, the first of which is no word of ["a", "b"]. */
  lemma SmallSplitUnknown()
    ensures Split("c-x", "-") == ["c", "x"] && "c" !in ["a", "b"]
  {
    assert Split("x", "-") == ["x"] by {
      assert "x"[1..] == [] && ['x'] + "" == "x";
    }
    assert Split("-x", "-") == ["", "x"] by {
      assert "-" <= "-x" && "-x"[1..] == "x";
    }
    assert "c-x"[1..] == "-x" && ['c'] + "" == "c";
  }

  /** Horner's rule over the bases 2 and 3: [0, 0], [0, 1] and [1, 2] stand for 0, 1 and 5. */
  lemma SmallCompose()
    ensures Compose([0, 0], [2, 3]) == 0 && Compose([0, 1], [2, 3]) == 1 && Compose([1, 2], [2, 3]) == 5
  {
    assert [2, 3][..1] == [2] && [2][..0] == [];
    assert [0, 0][..1] == [0] && [0, 1][..1] == [0] && [1, 2][..1] == [1];
    assert [0][..0] == [] && [1][..0] == [];
  }

  /** Two lists of two and three words make six identifiers. */
  lemma SmallProduct()
    ensures Product([2, 3]) == 6
  {
    assert [2, 3][..1] == [2] && [2][..0] == [];
  }

  /**
    A codec over ["a", "b"] and ["x", "y", "z"] with scrambling off has six
    identifiers, the last element least significant: `encode` gives "a-x" for
    0, "a-y" for 1, "b-z" for 5 and fails for 6.
   */
  lemma SmallEncodeExample(codec: HRID)
    requires codec.Valid() && !codec.scramble && codec.delimiter == "-"
    requires codec.elements == [["a", "b"], ["x", "y", "z"]]
    ensures codec.EncodeSpec(0) == Ok("a-x") && codec.EncodeSpec(1) == Ok("a-y")
    ensures codec.EncodeSpec(5) == Ok("b-z") && codec.EncodeSpec(6) == Err(OutOfRange)
  {
    var E := codec.elements;
    assert Lengths(E) == [2, 3];
    SmallProduct();
    SmallDigits();
    SmallEncodings();
    assert codec.EncodeSpec(0) == Ok(Join(Spell(E, Digits(0, [2, 3])), "-"));
    assert codec.EncodeSpec(1) == Ok(Join(Spell(E, Digits(1, [2, 3])), "-"));
    assert codec.EncodeSpec(5) == Ok(Join(Spell(E, Digits(5, [2, 3])), "-"));
  }

  /** The same codec decodes "b-z" to 5 and rejects "c-x", whose first word is unknown. */
  lemma SmallDecodeExample(codec: HRID)
    requires codec.Valid() && !codec.scramble && codec.delimiter == "-"
    requires codec.elements == [["a", "b"], ["x", "y", "z"]]
    ensures codec.DecodeSpec("b-z") == Ok(5) && codec.DecodeSpec("c-x") == Err(UnknownWord)
  {
    assert Lengths(codec.elements) == [2, 3];
    SmallProduct();
    SmallCompose();
    SmallSplit();
    SmallSplitUnknown();
  }

  /** Such a codec exists: the constructor builds it from two literal lists. */
  method SmallCodec() returns (codec: HRID)
    ensures codec.Valid() && !codec.scramble && codec.delimiter == "-"
    ensures codec.elements == [["a", "b"], ["x", "y", "z"]]
  {
    codec := new HRID("-", Some([List(["a", "b"]), List(["x", "y", "z"])]), None, map[], false, None);
  }
}
