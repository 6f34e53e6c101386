/**
  The tiered candidate search of the corrector: the word itself, then its
  one-edit neighbours, then its two-edit neighbours, each filtered to the keys
  of the frequency table; the first tier that keeps something wins, and the
  word alone is the fallback.
*/
module Tiers {
  import opened Edits

  /** `validate_word(words)`: the members of `words` that are keys of `counts`. */
  function ValidateWord(counts: map<string, nat>, words: set<string>): (r: set<string>)
    ensures r <= words && r <= counts.Keys
    ensures forall w :: w in words && w in counts ==> w in r
  {
    set w | w in words && w in counts
  }

  /**
    `possibilities(word)`: the first non-empty tier. Python's `or` chain stops
    at the first non-empty set, so later tiers are not computed.
  */
  function Possibilities(counts: map<string, nat>, w: string): (r: set<string>)
    ensures r != {}
    ensures r <= counts.Keys || (r == {w} && w !in counts)
    ensures w in counts ==> r == {w}
  {
    var exact := ValidateWord(counts, {w});
    if exact != {} then exact
    else
      var near := ValidateWord(counts, Edits1(w));
      if near != {} then near
      else
        var far := ValidateWord(counts, Edits2(w));
        if far != {} then far
        else {w}
  }

  /** The strings at tier `k` of the search: the word, its edit-1 and its edit-2 neighbours. */
  ghost function Tier(w: string, k: nat): set<string>
    requires k <= 2
  {
    if k == 0 then {w} else if k == 1 then Edits1(w) else Edits2(w)
  }

  /** Every string a correction of `w` may come from. */
  ghost function Candidates(w: string): set<string> {
    {w} + Edits1(w) + Edits2(w)
  }

  /** No key of `counts` lies within two edits of `w`. */
  ghost predicate NothingNear(counts: map<string, nat>, w: string) {
    forall k :: 0 <= k <= 2 ==> Tier(w, k) * counts.Keys == {}
  }

  /**
    The possibilities are the keys in the lowest tier that holds a key and
    no tier below it holds one; when no tier within two edits holds a key,
    they are the word alone.
  */
  lemma PossibilitiesFirstTier(counts: map<string, nat>, w: string)
    ensures NothingNear(counts, w) ==> Possibilities(counts, w) == {w}
    ensures !NothingNear(counts, w) ==>
              exists k :: 0 <= k <= 2 && Possibilities(counts, w) == Tier(w, k) * counts.Keys &&
                          forall j :: 0 <= j < k ==> Tier(w, j) * counts.Keys == {}
  {
    var r := Possibilities(counts, w);
    var exact, near, far := Tier(w, 0) * counts.Keys, Tier(w, 1) * counts.Keys, Tier(w, 2) * counts.Keys;
    assert ValidateWord(counts, {w}) == exact;
    assert exact == {} ==> ValidateWord(counts, Edits1(w)) == near;
    assert exact == {} && near == {} ==> ValidateWord(counts, Edits2(w)) == far;
    if NothingNear(counts, w) {
      assert exact == {} && near == {} && far == {};
    } else if exact != {} {
      assert r == exact;
    } else if near != {} {
      assert r == near;
    } else {
      assert far != {};
      assert r == far;
    }
  }

  /** Every possibility is the word itself or one or two edits away from it. */
  lemma PossibilitiesWithinTwoEdits(counts: map<string, nat>, w: string)
    ensures Possibilities(counts, w) <= Candidates(w)
  {
  }

  /**
    The word is scored as a possibility although it is not a key exactly
    when no key lies within two edits of it (the fallback `[word]`).
  */
  lemma FallbackExactly(counts: map<string, nat>, w: string)
    ensures (w in Possibilities(counts, w) && w !in counts) <==> NothingNear(counts, w)
  {
    PossibilitiesFirstTier(counts, w);
    if NothingNear(counts, w) {
      assert w in Tier(w, 0);
    }
  }

  /**
    When every key is more than two characters longer or shorter than `w`,
    no tier can hold a key and `w` is its own only possibility.
  */
  lemma FarFromEveryKey(counts: map<string, nat>, w: string)
    requires forall v :: v in counts ==> |v| < |w| - 2 || |v| > |w| + 2
    ensures Possibilities(counts, w) == {w}
  {
    forall v | v in Edits1(w) ensures v !in counts {
      Edits1Length(w, v);
    }
    forall v | v in Edits2(w) ensures v !in counts {
      Edits2Lengths(w, v);
    }
    assert ValidateWord(counts, Edits1(w)) == {};
    assert ValidateWord(counts, Edits2(w)) == {};
  }

  /** A non-key word whose one-edit tier holds keys has exactly those as its possibilities. */
  lemma NearTierWins(counts: map<string, nat>, w: string, near: set<string>)
    requires w !in counts
    requires ValidateWord(counts, Edits1(w)) == near && near != {}
    ensures Possibilities(counts, w) == near
  {
    assert ValidateWord(counts, {w}) == {};
  }

  /** With two keys of which one is one edit from the non-key word `w`, that key is its only possibility. */
  lemma NearTierWinsTwoKeys(counts: map<string, nat>, w: string, k: string, other: string)
    requires counts.Keys == {k, other} && w != k && w != other
    requires ValidateWord(counts, Edits1(w)) == {k}
    ensures Possibilities(counts, w) == {k}
  {
    NearTierWins(counts, w, {k});
  }

  /** A non-key word with no key one edit away has the keys of its two-edit tier, when there are any. */
  lemma FarTierWins(counts: map<string, nat>, w: string, far: set<string>)
    requires w !in counts
    requires ValidateWord(counts, Edits1(w)) == {}
    requires ValidateWord(counts, Edits2(w)) == far && far != {}
    ensures Possibilities(counts, w) == far
  {
    assert ValidateWord(counts, {w}) == {};
  }

  /** A string whose length differs from `w`'s by more than one is not one edit away. */
  lemma NotOneEditAway(w: string, v: string)
    requires |v| < |w| - 1 || |v| > |w| + 1
    ensures v !in Edits1(w)
  {
    if v in Edits1(w) {
      Edits1Length(w, v);
    }
  }

  /** Keys whose length differs from `w`'s by more than one are not in the one-edit tier. */
  lemma NoKeyOneEditAway(counts: map<string, nat>, w: string)
    requires forall v :: v in counts ==> |v| < |w| - 1 || |v| > |w| + 1
    ensures ValidateWord(counts, Edits1(w)) == {}
  {
    forall v | v in Edits1(w) ensures v !in counts {
      Edits1Length(w, v);
    }
  }

  /** With a single key, validating a set that holds it gives just that key. */
  lemma OnlyKeyValidated(counts: map<string, nat>, k: string, words: set<string>)
    requires counts.Keys == {k} && k in words
    ensures ValidateWord(counts, words) == {k}
  {
  }

  /** With two keys, validating a set that holds only the first gives just that key. */
  lemma OneOfTwoKeysValidated(counts: map<string, nat>, k: string, other: string, words: set<string>)
    requires counts.Keys == {k, other} && k in words && other !in words
    ensures ValidateWord(counts, words) == {k}
  {
  }

  /** `the` is one transposition from `teh`. */
  lemma TheNearTeh()
    ensures "the" in Edits1("teh")
  {
    var w := "teh";
    assert "the" == w[..1] + [w[2], w[1]] + w[3..];
    assert "the" in Transposes(w);
  }

  /** `ab` is two deletions from `abcd`. */
  lemma AbFarFromAbcd()
    ensures "ab" in Edits2("abcd")
  {
    var w := "abcd";
    var x := w[..3] + w[4..];
    assert x == "abc" && x in Deletes(w);
    assert "ab" == x[..2] + x[3..] && "ab" in Deletes(x);
    assert x in Edits1(w) && "ab" in Edits1(x);
  }

  /** `abcde` is one insertion from `abcd`. */
  lemma AbcdeNearAbcd()
    ensures "abcde" in Edits1("abcd")
  {
    var w := "abcd";
    assert 'e' in Alphabet && "abcde" == w[..4] + ['e'] + w[4..];
    assert "abcde" in Inserts(w);
  }

  /** Of the keys `the` and `there`, only `the` is one edit from `teh`. */
  lemma TehNearTier(counts: map<string, nat>)
    requires counts.Keys == {"the", "there"}
    ensures ValidateWord(counts, Edits1("teh")) == {"the"}
  {
    TheNearTeh();
    NotOneEditAway("teh", "there");
    OneOfTwoKeysValidated(counts, "the", "there", Edits1("teh"));
  }

  /** Of the keys `ab` and `abcde`, only `abcde` is one edit from `abcd`. */
  lemma AbcdNearTier(counts: map<string, nat>)
    requires counts.Keys == {"ab", "abcde"}
    ensures ValidateWord(counts, Edits1("abcd")) == {"abcde"}
  {
    AbcdeNearAbcd();
    NotOneEditAway("abcd", "ab");
    OneOfTwoKeysValidated(counts, "abcde", "ab", Edits1("abcd"));
  }

  /** With `the` and `there` as the keys, `teh` has `the`, one transposition away, as its only possibility. */
  lemma TehPossibilities(counts: map<string, nat>)
    requires counts.Keys == {"the", "there"}
    ensures Possibilities(counts, "teh") == {"the"}
  {
    TehNearTier(counts);
    NearTierWinsTwoKeys(counts, "teh", "the", "there");
  }

  /** With `ab` the only key, `abcd` has `ab`, two deletions away, as its possibility. */
  lemma TwoDeletionsAway(counts: map<string, nat>)
    requires counts.Keys == {"ab"}
    ensures Possibilities(counts, "abcd") == {"ab"}
  {
    NoKeyOneEditAway(counts, "abcd");
    AbFarFromAbcd();
    OnlyKeyValidated(counts, "ab", Edits2("abcd"));
    FarTierWins(counts, "abcd", {"ab"});
  }

  /**
    A key with count 0 changes the answer: once `abcde` is a key beside `ab`,
    that one-edit neighbour of `abcd` stops the search before `ab` is found.
  */
  lemma ZeroCountKeyStopsSearch(counts: map<string, nat>)
    requires counts.Keys == {"ab", "abcde"}
    ensures Possibilities(counts, "abcd") == {"abcde"}
  {
    AbcdNearTier(counts);
    NearTierWinsTwoKeys(counts, "abcd", "abcde", "ab");
  }
}
