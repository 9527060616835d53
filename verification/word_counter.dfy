/**
 * The word-count bolt (WordCounter.java): it takes its word from the first
 * tuple it executes, adds up the tuples' values in a Java `int`, emits
 * `(word, count)` after every tuple once the count has reached 1000, and
 * emits it once more on cleanup. The collector is modelled as the log of
 * the tuples emitted through it.
 */
module WordCount {
  import opened Wrappers
  import opened JavaInt

  /** `MAX_WORD_COUNT`: the count from which every tuple triggers an emission. */
  const MAX_WORD_COUNT: int := 1000

  /** A tuple executed by the bolt: a word and the number to add for it. */
  datatype Tuple = Tuple(key: string, value: Int32)

  /** A tuple emitted by the bolt: its word, null before any tuple, and its count. */
  datatype Emission = Emission(word: Option<string>, count: Int32)

  /** The collector the bolt emits to, as the log of what it was given. */
  class Collector {
    var emitted: seq<Emission>

    constructor ()
      ensures emitted == []
    {
      emitted := [];
    }

    method Emit(e: Emission)
      modifies this
      ensures emitted == old(emitted) + [e]
    {
      emitted := emitted + [e];
    }
  }

  /** The exact sum of the values. */
  function Sum(vs: seq<int>): int
    decreases |vs|
  {
    if |vs| == 0 then 0 else Sum(vs[..|vs| - 1]) + vs[|vs| - 1]
  }

  /** The count after adding up `vs` from 0 with `+=` on a Java `int`. */
  function Count(vs: seq<int>): Int32
    decreases |vs|
  {
    if |vs| == 0 then 0 else Wrap(Count(vs[..|vs| - 1]) + vs[|vs| - 1])
  }

  /** One more `+=` on the count. */
  lemma CountStep(vs: seq<int>, v: int)
    ensures Count(vs + [v]) == Wrap(Count(vs) + v)
  {
    assert (vs + [v])[..|vs|] == vs;
  }

  /** The count is the exact sum, wrapped around to 32 bits once. */
  lemma {:induction false} CountIsWrappedSum(vs: seq<int>)
    ensures Count(vs) == Wrap(Sum(vs))
    decreases |vs|
  {
    if |vs| > 0 {
      var init, last := vs[..|vs| - 1], vs[|vs| - 1];
      CountIsWrappedSum(init);
      WrapAdd(Sum(init), last);
    }
  }

  /** Adding up two sequences one after the other. */
  lemma {:induction false} SumAppend(vs: seq<int>, ws: seq<int>)
    ensures Sum(vs + ws) == Sum(vs) + Sum(ws)
    decreases |ws|
  {
    if |ws| > 0 {
      var init := ws[..|ws| - 1];
      assert (vs + ws)[..|vs + ws| - 1] == vs + init;
      assert (vs + ws)[|vs + ws| - 1] == ws[|ws| - 1];
      SumAppend(vs, init);
    } else {
      assert vs + ws == vs;
    }
  }

  /** A prefix of non-negative values adds up to at most the whole sum. */
  lemma {:induction false} SumPrefix(ws: seq<int>, k: nat)
    requires k <= |ws| && forall j :: 0 <= j < |ws| ==> ws[j] >= 0
    ensures 0 <= Sum(ws[..k]) <= Sum(ws)
    decreases |ws|
  {
    if k < |ws| {
      var init := ws[..|ws| - 1];
      assert init[..k] == ws[..k];
      SumPrefix(init, k);
    } else {
      assert ws[..k] == ws;
      if |ws| > 0 {
        SumPrefix(ws[..|ws| - 1], |ws| - 1);
      }
    }
  }

  /**
   * The count is not reset by an emission: once the values since `prepare`
   * add up to 1000, every further non-negative value keeps the count at
   * 1000 or more, so every later `execute` emits too, as long as the exact
   * sum stays within `int`.
   */
  lemma KeepsEmitting(vs: seq<int>, ws: seq<int>)
    requires Sum(vs) >= MAX_WORD_COUNT && Sum(vs + ws) <= MAX_VALUE
    requires forall j :: 0 <= j < |ws| ==> ws[j] >= 0
    ensures forall k :: 0 <= k <= |ws| ==> Count(vs + ws[..k]) >= MAX_WORD_COUNT
  {
    SumAppend(vs, ws);
    forall k | 0 <= k <= |ws|
      ensures Count(vs + ws[..k]) >= MAX_WORD_COUNT
    {
      SumPrefix(ws, k);
      SumAppend(vs, ws[..k]);
      CountIsWrappedSum(vs + ws[..k]);
    }
  }

  /**
   * Past `Integer.MAX_VALUE` the count wraps around to a negative number and
   * the emissions stop.
   */
  lemma CountWrapsAround()
    ensures Sum([MAX_VALUE, 1]) > MAX_VALUE
    ensures Count([MAX_VALUE, 1]) == MIN_VALUE < MAX_WORD_COUNT
  {
    assert [MAX_VALUE, 1][..1] == [MAX_VALUE] && [MAX_VALUE][..0] == [];
    assert Sum([MAX_VALUE]) == MAX_VALUE;
    CountStep([], MAX_VALUE);
    CountStep([MAX_VALUE], 1);
  }

  /**
   * `WordCounter`: the word of the first tuple, the count of the values
   * since `prepare`, and the collector it emits to (null before `prepare`).
   */
  class WordCounter {
    var collector: Collector?
    var word: Option<string>
    var wordCount: Int32
    /** The values executed since the last `prepare`. */
    ghost var values: seq<int>

    ghost predicate Valid()
      reads this
    {
      wordCount == Count(values)
    }

    /** A new bolt: no collector, no word, a count of 0. */
    constructor ()
      ensures collector == null && word == None && wordCount == 0 && values == []
      ensures Valid()
    {
      collector := null;
      word := None;
      wordCount := 0;
      values := [];
    }

    /** `prepare`: takes the collector and restarts the count; the word is kept. */
    method Prepare(collector: Collector)
      modifies this
      ensures this.collector == collector && wordCount == 0 && values == []
      ensures word == old(word)
      ensures Valid()
    {
      this.collector := collector;
      wordCount := 0;
      values := [];
    }

    /**
     * `execute`: the first tuple fixes the word; the value is added to the
     * count; the pair `(word, count)` is emitted when the count is 1000 or
     * more.
     */
    method Execute(tuple: Tuple)
      requires Valid() && collector != null
      modifies this, collector
      ensures Valid() && collector == old(collector)
      ensures word == if old(word).None? then Some(tuple.key) else old(word)
      ensures values == old(values) + [tuple.value]
      ensures wordCount == Count(values)
      ensures collector.emitted == old(collector.emitted) +
        if wordCount >= MAX_WORD_COUNT then [Emission(word, wordCount)] else []
    {
      if word.None? {
        word := Some(tuple.key);
      }
      CountStep(values, tuple.value);
      values := values + [tuple.value];
      wordCount := Wrap(wordCount + tuple.value);
      if wordCount >= MAX_WORD_COUNT {
        collector.Emit(Emission(word, wordCount));
      }
    }

    /** `cleanup`: emits `(word, count)` once more and changes nothing else. */
    method Cleanup()
      requires collector != null
      modifies collector
      ensures collector.emitted == old(collector.emitted) + [Emission(word, wordCount)]
    {
      collector.Emit(Emission(word, wordCount));
    }
  }
}
