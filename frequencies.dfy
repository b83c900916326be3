/** Symbol-frequency analysis (calculerFrequences) and the fixed order in
    which the tree builder visits the frequency table's entries. */
module FrequencyTable {

  /** The frequency table of a text: each character of the text mapped to
      its number of occurrences. */
  function Frequencies(text: string): (freq: map<char, int>)
    ensures forall c :: c in freq <==> c in text
    ensures forall c :: c in freq ==> 1 <= freq[c] <= |text|
  {
    map c | c in text :: multiset(text)[c]
  }

  /** The number of positions of a text holding a given character. */
  function Occurrences(text: string, c: char): nat
  {
    if text == [] then 0 else (if text[0] == c then 1 else 0) + Occurrences(text[1..], c)
  }

  lemma {:induction false} OccurrencesMultiplicity(text: string, c: char)
    ensures Occurrences(text, c) == multiset(text)[c]
  {
    if text != [] {
      assert text == [text[0]] + text[1..];
      assert multiset(text) == multiset{text[0]} + multiset(text[1..]);
      OccurrencesMultiplicity(text[1..], c);
    }
  }

  /** Each character of the text is counted once per occurrence, no other
      character has an entry, and the empty text has an empty table. */
  lemma FrequenciesCountOccurrences(text: string)
    ensures forall c :: c in Frequencies(text) ==> Frequencies(text)[c] == Occurrences(text, c)
    ensures forall c :: c !in Frequencies(text) ==> Occurrences(text, c) == 0
    ensures text == [] ==> Frequencies(text) == map[]
  {
    forall c
      ensures Occurrences(text, c) == multiset(text)[c]
    {
      OccurrencesMultiplicity(text, c);
    }
  }

  /** Appending one character raises its count by one, inserting it with
      count 1 on first occurrence (getOrDefault(c, 0) + 1). */
  lemma FrequenciesSnoc(s: string, c: char)
    ensures Frequencies(s + [c]) ==
            Frequencies(s)[c := (if c in Frequencies(s) then Frequencies(s)[c] else 0) + 1]
  {
    var lhs := Frequencies(s + [c]);
    var rhs := Frequencies(s)[c := (if c in Frequencies(s) then Frequencies(s)[c] else 0) + 1];
    assert multiset(s + [c]) == multiset(s) + multiset{c};
    assert lhs.Keys == rhs.Keys;
    forall x | x in lhs
      ensures lhs[x] == rhs[x]
    {
    }
  }

  /** calculerFrequences: one pass over the text, incrementing a counter per
      character. */
  method CountFrequencies(text: string) returns (freq: map<char, int>)
    ensures freq == Frequencies(text)
  {
    freq := map[];
    for i := 0 to |text|
      invariant freq == Frequencies(text[..i])
    {
      var c := text[i];
      FrequenciesSnoc(text[..i], c);
      assert text[..i + 1] == text[..i] + [c];
      freq := freq[c := (if c in freq then freq[c] else 0) + 1];
    }
    assert text[..|text|] == text;
  }

  /** Every non-empty finite set of characters has a least element. */
  lemma {:induction false} HasMinimum(s: set<char>)
    requires s != {}
    ensures exists m :: m in s && forall x :: x in s ==> m <= x
  {
    var y :| y in s;
    if s != {y} {
      HasMinimum(s - {y});
      var m :| m in s - {y} && forall x :: x in s - {y} ==> m <= x;
      var least := if y < m then y else m;
      forall x | x in s
        ensures least <= x
      {
        if x != y {
          assert x in s - {y};
        }
      }
    } else {
      assert forall x :: x in s ==> y <= x;
    }
  }

  /** The least character of a non-empty set. */
  function Minimum(s: set<char>): (m: char)
    requires s != {}
    ensures m in s && forall x :: x in s ==> m <= x
  {
    HasMinimum(s);
    var m :| m in s && forall x :: x in s ==> m <= x; m
  }

  /** Putting the least element of a set in front of the ascending keys of
      the remainder gives the ascending keys of the whole set. */
  lemma AscendingCons(s: set<char>, m: char, rest: seq<char>)
    requires m in s && forall x :: x in s ==> m <= x
    requires forall c :: c in rest <==> c in s - {m}
    requires forall i, j :: 0 <= i < j < |rest| ==> rest[i] < rest[j]
    requires |rest| == |s - {m}|
    ensures forall c :: c in [m] + rest <==> c in s
    ensures forall i, j :: 0 <= i < j < |[m] + rest| ==> ([m] + rest)[i] < ([m] + rest)[j]
    ensures |[m] + rest| == |s|
  {
    forall j | 0 <= j < |rest|
      ensures m < rest[j]
    {
      assert rest[j] in s - {m};
    }
  }

  /** The keys of a table in ascending order: the fixed, deterministic
      iteration order the model gives to entrySet(). */
  function SortedKeys(s: set<char>): (keys: seq<char>)
    ensures forall c :: c in keys <==> c in s
    ensures forall i, j :: 0 <= i < j < |keys| ==> keys[i] < keys[j]
    ensures |keys| == |s|
    decreases |s|
  {
    if s == {} then []
    else
      var m := Minimum(s);
      var rest := SortedKeys(s - {m});
      AscendingCons(s, m, rest);
      [m] + rest
  }

  /** The sum of the counts listed under the given keys. */
  function SumOver(keys: seq<char>, freq: map<char, int>): int
    requires forall c :: c in keys ==> c in freq
  {
    if keys == [] then 0 else freq[keys[0]] + SumOver(keys[1..], freq)
  }

  /** The sum of all counts in a frequency table. */
  function TotalFrequency(freq: map<char, int>): int
  {
    SumOver(SortedKeys(freq.Keys), freq)
  }

  /** The sum of a text's occurrence counts under the given keys. */
  function SumCounts(keys: seq<char>, text: string): nat
  {
    if keys == [] then 0 else multiset(text)[keys[0]] + SumCounts(keys[1..], text)
  }

  lemma {:induction false} SumOverCounts(keys: seq<char>, text: string)
    requires forall c :: c in keys ==> c in text
    ensures SumOver(keys, Frequencies(text)) == SumCounts(keys, text)
  {
    if keys != [] {
      SumOverCounts(keys[1..], text);
    }
  }

  lemma {:induction false} SumCountsSnoc(keys: seq<char>, text: string, x: char)
    requires forall i, j :: 0 <= i < j < |keys| ==> keys[i] != keys[j]
    ensures SumCounts(keys, text + [x]) == SumCounts(keys, text) + (if x in keys then 1 else 0)
  {
    if keys != [] {
      assert multiset(text + [x]) == multiset(text) + multiset{x};
      SumCountsSnoc(keys[1..], text, x);
      assert x in keys <==> x == keys[0] || x in keys[1..];
      assert x == keys[0] ==> x !in keys[1..];
    }
  }

  /** Counting every character of a text once, under distinct keys, gives
      its length. */
  lemma {:induction false} SumCountsLength(keys: seq<char>, text: string)
    requires forall i, j :: 0 <= i < j < |keys| ==> keys[i] != keys[j]
    requires forall c :: c in text ==> c in keys
    ensures SumCounts(keys, text) == |text|
  {
    if text == [] {
      SumCountsEmpty(keys);
    } else {
      var t, x := text[..|text| - 1], text[|text| - 1];
      assert text == t + [x];
      assert forall c :: c in t ==> c in text;
      SumCountsLength(keys, t);
      SumCountsSnoc(keys, t, x);
    }
  }

  lemma {:induction false} SumCountsEmpty(keys: seq<char>)
    ensures SumCounts(keys, []) == 0
  {
    if keys != [] {
      SumCountsEmpty(keys[1..]);
    }
  }

  /** The counts of a frequency table add up to the length of the text. */
  lemma FrequenciesTotal(text: string)
    ensures TotalFrequency(Frequencies(text)) == |text|
  {
    var freq := Frequencies(text);
    var keys := SortedKeys(freq.Keys);
    SumOverCounts(keys, text);
    SumCountsLength(keys, text);
  }

  /** A strictly ascending sequence holds each of its elements exactly once. */
  lemma {:induction false} AscendingOnce(keys: seq<char>)
    requires forall i, j :: 0 <= i < j < |keys| ==> keys[i] < keys[j]
    ensures forall c :: multiset(keys)[c] == if c in keys then 1 else 0
  {
    if keys != [] {
      AscendingOnce(keys[1..]);
      assert keys == [keys[0]] + keys[1..];
      assert keys[0] !in keys[1..];
      assert multiset(keys) == multiset{keys[0]} + multiset(keys[1..]);
    }
  }
}
