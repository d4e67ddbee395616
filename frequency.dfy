/** The byte-frequency counter (compress/frequency/frequency.go). */
module Frequency {
  import opened Text

  /** The sum of a frequency table's counts. */
  ghost function Total(m: map<byte, int>): int
    decreases |m|
  {
    if m == map[] then 0
    else
      var k :| k in m;
      m[k] + Total(m - {k})
  }

  /** The sum does not depend on which key is taken out first. */
  lemma TotalRemove(m: map<byte, int>, k: byte)
    requires k in m
    ensures Total(m) == m[k] + Total(m - {k})
    decreases |m|
  {
    var j :| j in m && Total(m) == m[j] + Total(m - {j});
    if j != k {
      assert |m - {j}| < |m|;
      TotalRemove(m - {j}, k);
      TotalRemove(m - {k}, j);
      assert m - {j} - {k} == m - {k} - {j};
    }
  }

  /** Storing `v` under `k` changes the sum by the difference. */
  lemma TotalUpdate(m: map<byte, int>, k: byte, v: int)
    ensures Total(m[k := v]) == Total(m) - (if k in m then m[k] else 0) + v
  {
    TotalRemove(m[k := v], k);
    assert m[k := v] - {k} == m - {k};
    if k in m {
      TotalRemove(m, k);
    } else {
      assert m - {k} == m;
    }
  }

  /** The frequency table of a content: each byte that occurs, with the
      number of positions holding it. */
  function Frequencies(content: seq<byte>): map<byte, int>
  {
    map b: byte | b in content :: Count(content, b)
  }

  /** Every stored count is at least one, and a byte is a key exactly when
      it occurs. */
  lemma FrequenciesKeys(content: seq<byte>)
    ensures Frequencies(content).Keys == set b | b in content
    ensures forall b :: b in Frequencies(content) ==> Frequencies(content)[b] >= 1
  {
    forall b | b in content { CountPositive(content, b); }
  }

  /** Taking one more byte into account increments its count. */
  lemma FrequenciesSnoc(content: seq<byte>, c: byte)
    ensures Frequencies(content + [c])
         == Frequencies(content)[c := (if c in Frequencies(content) then Frequencies(content)[c] else 0) + 1]
  {
    forall b { CountSnoc(content, c, b); }
    CountPositive(content, c);
  }

  /** Frequency conservation: the counts add up to the length of the content. */
  lemma {:induction false} FrequenciesTotal(content: seq<byte>)
    ensures Total(Frequencies(content)) == |content|
    decreases |content|
  {
    if content == [] {
      assert Frequencies(content) == map[];
    } else {
      var init, c := content[..|content| - 1], content[|content| - 1];
      assert content == init + [c];
      FrequenciesTotal(init);
      FrequenciesSnoc(init, c);
      TotalUpdate(Frequencies(init), c, (if c in Frequencies(init) then Frequencies(init)[c] else 0) + 1);
    }
  }

  /** The content of the counter's test vector, "abbcaabbccc". */
  const SAMPLE: seq<byte> := [97, 98, 98, 99, 97, 97, 98, 98, 99, 99, 99]

  lemma SampleCounts()
    ensures Count(SAMPLE, 97) == 3 && Count(SAMPLE, 98) == 4 && Count(SAMPLE, 99) == 4
  {
    SampleCountA();
    SampleCountB();
    SampleCountC();
  }

  lemma SampleCountA()
    ensures Count(SAMPLE, 97) == 3
  {
  }

  lemma SampleCountB()
    ensures Count(SAMPLE, 98) == 4
  {
  }

  lemma SampleCountC()
    ensures Count(SAMPLE, 99) == 4
  {
  }

  lemma SampleValues()
    ensures forall b :: b in Frequencies(SAMPLE) ==> Frequencies(SAMPLE)[b] == map[97 := 3, 98 := 4, 99 := 4][b]
  {
    SampleCounts();
    SampleKeys();
  }

  lemma SampleKeys()
    ensures Frequencies(SAMPLE).Keys == {97, 98, 99}
  {
    assert forall b :: b in SAMPLE <==> b == 97 || b == 98 || b == 99;
  }

  /** The counter's test vector: "abbcaabbccc" gives {a:3, b:4, c:4};
      the empty content gives the empty table. */
  lemma FrequencyExamples()
    ensures Frequencies(SAMPLE) == map[97 := 3, 98 := 4, 99 := 4]
    ensures Frequencies([]) == map[]
  {
    SampleValues();
    SampleKeys();
  }

  /** `CalculateFrequencies`: one pass over the content, incrementing the
      count of each byte (a missing key counts from Go's zero value). */
  method CalculateFrequencies(content: seq<byte>) returns (frequencies: map<byte, int>)
    ensures frequencies == Frequencies(content)
  {
    frequencies := map[];
    for i := 0 to |content|
      invariant frequencies == Frequencies(content[..i])
    {
      var c := content[i];
      assert content[..i + 1] == content[..i] + [c];
      FrequenciesSnoc(content[..i], c);
      frequencies := frequencies[c := (if c in frequencies then frequencies[c] else 0) + 1];
    }
    assert content[..|content|] == content;
  }
}
