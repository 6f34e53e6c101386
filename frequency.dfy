/**
  The word-frequency table: `words_count` maps a token to the number of times
  it occurs, and a key that is read but absent behaves as count 0 (it is a
  `defaultdict(int)`).
*/
module Frequency {

  /** Reading `words_count[w]` without the side effect: 0 for an absent key. */
  function Count(m: map<string, nat>, w: string): nat {
    if w in m then m[w] else 0
  }

  /** `words_count[w] += 1` on a `defaultdict(int)`. */
  function Increment(m: map<string, nat>, w: string): (r: map<string, nat>)
    ensures r.Keys == m.Keys + {w}
    ensures r[w] == Count(m, w) + 1
    ensures forall k :: k in m && k != w ==> r[k] == m[k]
  {
    m[w := Count(m, w) + 1]
  }

  /**
    The table `m` after every token of `ws` has been counted once more: the
    keys are the old keys and the tokens, and each count grows by the number
    of occurrences of the key in `ws`.
  */
  function AddCounts(m: map<string, nat>, ws: seq<string>): map<string, nat> {
    map w | w in m.Keys + (set x | x in ws) :: Count(m, w) + multiset(ws)[w]
  }

  /** The sum of all counts in the table. */
  ghost function SumValues(m: map<string, nat>): nat
    decreases |m|
  {
    if m == map[] then 0
    else
      var k :| k in m;
      assert |(m - {k}).Keys| < |m.Keys| by {
        assert (m - {k}).Keys == m.Keys - {k};
      }
      m[k] + SumValues(m - {k})
  }

  /** The sum does not depend on which key is taken out first. */
  lemma {:induction false} SumValuesRemove(m: map<string, nat>, k: string)
    requires k in m
    ensures SumValues(m) == m[k] + SumValues(m - {k})
    decreases |m|
  {
    var j :| j in m && SumValues(m) == m[j] + SumValues(m - {j});
    if j != k {
      assert |(m - {j}).Keys| < |m.Keys| by { assert (m - {j}).Keys == m.Keys - {j}; }
      SumValuesRemove(m - {j}, k);
      SumValuesRemove(m - {k}, j);
      assert m - {j} - {k} == m - {k} - {j};
    }
  }

  /** Counting one more occurrence adds one to the sum. */
  lemma SumValuesIncrement(m: map<string, nat>, w: string)
    ensures SumValues(Increment(m, w)) == SumValues(m) + 1
  {
    var m' := Increment(m, w);
    SumValuesRemove(m', w);
    assert m' - {w} == m - {w};
    if w in m {
      SumValuesRemove(m, w);
    } else {
      assert m - {w} == m;
    }
  }

  /** Adding a key with count 0 (what `defaultdict` does on a read) keeps the sum. */
  lemma SumValuesInsertZero(m: map<string, nat>, w: string)
    requires w !in m
    ensures SumValues(m[w := 0]) == SumValues(m)
  {
    SumValuesRemove(m[w := 0], w);
    assert m[w := 0] - {w} == m;
  }

  /** No single count exceeds the sum of all counts. */
  lemma CountAtMostSum(m: map<string, nat>, w: string)
    ensures Count(m, w) <= SumValues(m)
  {
    if w in m {
      SumValuesRemove(m, w);
    }
  }

  /** Counting the tokens one at a time, in order, builds `AddCounts`. */
  lemma AddCountsSnoc(m: map<string, nat>, ws: seq<string>, w: string)
    ensures AddCounts(m, ws + [w]) == Increment(AddCounts(m, ws), w)
  {
    var before := AddCounts(m, ws);
    var after := AddCounts(m, ws + [w]);
    var inc := Increment(before, w);
    assert multiset(ws + [w]) == multiset(ws) + multiset{w};
    forall x ensures x in after <==> x in inc {
      assert x in ws + [w] <==> x in ws || x == w;
    }
    forall x | x in after ensures after[x] == inc[x] {
      assert after[x] == Count(m, x) + multiset(ws)[x] + (if x == w then 1 else 0);
      assert Count(before, x) == Count(m, x) + multiset(ws)[x];
    }
    assert after == inc;
  }

  /** Counting no tokens leaves the table as it is. */
  lemma AddCountsNone(m: map<string, nat>)
    ensures AddCounts(m, []) == m
  {
  }

  /**
    After counting `ws` into `m`, the sum of the counts has grown by exactly
    the number of tokens: from an empty table, the total equals `|ws|`.
  */
  lemma {:induction false} SumAddCounts(m: map<string, nat>, ws: seq<string>)
    ensures SumValues(AddCounts(m, ws)) == SumValues(m) + |ws|
    decreases |ws|
  {
    if ws == [] {
      AddCountsNone(m);
    } else {
      var init, last := ws[..|ws| - 1], ws[|ws| - 1];
      assert ws == init + [last];
      SumAddCounts(m, init);
      AddCountsSnoc(m, init, last);
      SumValuesIncrement(AddCounts(m, init), last);
    }
  }
}
