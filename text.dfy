/**
  The string operations the codec leans on: `str.join`, `str.split` with a
  non-empty separator (leftmost, non-overlapping matches, as Python does it)
  and `reversed`. Strings are sequences of characters.
 */
module Text {

  /** `d.join(words)`: the words with one copy of `d` between neighbours. */
  function Join(words: seq<string>, d: string): (s: string)
    ensures |words| == 1 ==> s == words[0]
  {
    if words == [] then ""
    else if |words| == 1 then words[0]
    else words[0] + d + Join(words[1..], d)
  }

  /**
    `s.split(d)` for a non-empty `d`: scanning left to right, every occurrence
    of `d` that starts at the scan position ends the current part. There is
    always at least one part; the empty string splits into one empty part.
   */
  function Split(s: string, d: string): (parts: seq<string>)
    requires d != []
    ensures |parts| >= 1
    decreases |s|
  {
    if d <= s then [""] + Split(s[|d|..], d)
    else if s == [] then [""]
    else
      var rest := Split(s[1..], d);
      [[s[0]] + rest[0]] + rest[1..]
  }

  /** `reversed(s)` as a sequence. */
  function Reversed<T>(s: seq<T>): (r: seq<T>)
    ensures |r| == |s|
    ensures forall k :: 0 <= k < |s| ==> r[k] == s[|s| - 1 - k]
  {
    if s == [] then [] else [s[|s| - 1]] + Reversed(s[..|s| - 1])
  }

  /** Reversing after appending puts the appended element first. */
  lemma ReversedSnoc<T>(s: seq<T>, x: T)
    ensures Reversed(s + [x]) == [x] + Reversed(s)
  {
    assert (s + [x])[..|s|] == s;
  }

  /**
    Splitting `w + d + ...` ends the first part exactly after `w` only when no
    occurrence of `d` starts inside `w`, including one that runs on into the
    delimiter that follows `w`. For a one-character delimiter this is just
    "`w` does not contain `d`" (see `NoOverlapSingleChar`).
   */
  predicate NoDelimiterOverlap(w: string, d: string) {
    forall i :: 0 <= i < |w| ==> !(d <= (w + d)[i..])
  }

  /** For a delimiter of one character the condition is that the word does not contain it. */
  lemma NoOverlapSingleChar(w: string, c: char)
    ensures NoDelimiterOverlap(w, [c]) <==> c !in w
  {
    if c in w {
      var i :| 0 <= i < |w| && w[i] == c;
      assert (w + [c])[i..][0] == c;
    } else {
      forall i | 0 <= i < |w|
        ensures !([c] <= (w + [c])[i..])
      {
        assert (w + [c])[i..][0] == w[i];
      }
    }
  }

  /** Dropping the first character of a word keeps the no-overlap condition. */
  lemma NoOverlapTail(w: string, d: string)
    requires w != [] && NoDelimiterOverlap(w, d)
    ensures NoDelimiterOverlap(w[1..], d)
  {
    forall i | 0 <= i < |w[1..]|
      ensures !(d <= (w[1..] + d)[i..])
    {
      assert (w[1..] + d)[i..] == (w + d)[i + 1..];
    }
  }

  /** Splitting `w + d + rest` yields `w` and then the parts of `rest`. */
  lemma {:induction false} SplitAfterWord(w: string, d: string, rest: string)
    requires d != [] && NoDelimiterOverlap(w, d)
    ensures Split(w + d + rest, d) == [w] + Split(rest, d)
    decreases |w|
  {
    var s := w + d + rest;
    if w == [] {
      assert s == d + rest;
      assert s[|d|..] == rest;
    } else {
      assert (w + d)[0..] == w + d;
      assert !(d <= s) by {
        assert d <= s ==> d <= w + d;
      }
      NoOverlapTail(w, d);
      SplitAfterWord(w[1..], d, rest);
      assert s[1..] == w[1..] + d + rest;
      assert [s[0]] + w[1..] == w;
    }
  }

  /** A word without an occurrence of `d` splits into itself. */
  lemma {:induction false} SplitWord(w: string, d: string)
    requires d != [] && NoDelimiterOverlap(w, d)
    ensures Split(w, d) == [w]
    decreases |w|
  {
    if w != [] {
      assert (w + d)[0..] == w + d;
      assert !(d <= w) by {
        assert d <= w ==> d <= w + d;
      }
      NoOverlapTail(w, d);
      SplitWord(w[1..], d);
      assert [w[0]] + w[1..] == w;
    }
  }

  /**
    Split undoes Join when the list is non-empty, the delimiter is non-empty
    and no word overlaps the delimiter.
   */
  lemma {:induction false} SplitJoin(words: seq<string>, d: string)
    requires d != [] && words != []
    requires forall k :: 0 <= k < |words| ==> NoDelimiterOverlap(words[k], d)
    ensures Split(Join(words, d), d) == words
    decreases |words|
  {
    if |words| == 1 {
      SplitWord(words[0], d);
    } else {
      SplitJoin(words[1..], d);
      SplitAfterWord(words[0], d, Join(words[1..], d));
      assert [words[0]] + words[1..] == words;
    }
  }

  /** Join undoes Split, for every string and every non-empty delimiter. */
  lemma {:induction false} JoinSplit(s: string, d: string)
    requires d != []
    ensures Join(Split(s, d), d) == s
    decreases |s|
  {
    if d <= s {
      JoinSplit(s[|d|..], d);
      JoinSplitAtDelimiter(s, d);
    } else if s != [] {
      JoinSplit(s[1..], d);
      JoinSplitAtChar(s, d);
    }
  }

  /** The step of `JoinSplit` where `s` starts with the delimiter. */
  lemma JoinSplitAtDelimiter(s: string, d: string)
    requires d != [] && d <= s
    requires Join(Split(s[|d|..], d), d) == s[|d|..]
    ensures Join(Split(s, d), d) == s
  {
    var tail := s[|d|..];
    var rest := Split(tail, d);
    calc {
      Join(Split(s, d), d);
      Join([""] + rest, d);
      { JoinCons("", rest, d); }
      "" + d + Join(rest, d);
      { assert "" + d == d; }
      d + tail;
      { assert s == s[..|d|] + tail; }
      s;
    }
  }

  /** The step of `JoinSplit` where `s` does not start with the delimiter. */
  lemma JoinSplitAtChar(s: string, d: string)
    requires d != [] && !(d <= s) && s != []
    requires Join(Split(s[1..], d), d) == s[1..]
    ensures Join(Split(s, d), d) == s
  {
    var tail := s[1..];
    JoinExtendFirst(s[0], Split(tail, d), d);
    assert s == [s[0]] + tail;
  }

  /** Joining a word in front of a non-empty list adds it and one delimiter. */
  lemma JoinCons(w: string, words: seq<string>, d: string)
    requires words != []
    ensures Join([w] + words, d) == w + d + Join(words, d)
  {
    assert ([w] + words)[1..] == words;
  }

  /** Adding a character to the front of the first word adds it to the front of the join. */
  lemma JoinExtendFirst(c: char, words: seq<string>, d: string)
    requires words != []
    ensures Join([[c] + words[0]] + words[1..], d) == [c] + Join(words, d)
  {
    var first := [c] + words[0];
    if |words| > 1 {
      assert ([first] + words[1..])[1..] == words[1..];
    }
  }

  /**
    A word that does not contain the delimiter can still overlap it: with
    delimiter "--", joining "a-" and "b" gives "a---b", which splits into
    "a" and "-b". Hence the no-overlap premise of `SplitJoin`.
   */
  lemma ContainmentIsNotEnough()
    ensures !("--" <= "a-") && !("--" <= "-")
    ensures Join(["a-", "b"], "--") == "a---b"
    ensures Split("a---b", "--") == ["a", "-b"]
  {
    assert Split("", "--") == [""];
    assert !("--" <= "b") && "b"[1..] == "" && ['b'] + "" == "b";
    assert Split("b", "--") == ["b"];
    assert !("--" <= "-b") && "-b"[1..] == "b" && ['-'] + "b" == "-b";
    assert Split("-b", "--") == ["-b"];
    assert "--" <= "---b" && "---b"[2..] == "-b";
    assert Split("---b", "--") == ["", "-b"];
    assert !("--" <= "a---b") && ['a'] + "" == "a";
    assert "a---b"[1..] == "---b";
  }
}
