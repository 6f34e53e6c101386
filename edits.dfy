/**
  Candidate generation: the strings one edit away from a word (a deletion, a
  transposition of two adjacent characters, a substitution by a letter a-z or
  an insertion of a letter a-z) and the strings two such edits away.
*/
module Edits {

  /** The letters substitutions and insertions draw from. */
  const Alphabet: string := "abcdefghijklmnopqrstuvwxyz"

  /** Remove the character at each position. */
  function Deletes(w: string): set<string> {
    set i | 0 <= i < |w| :: w[..i] + w[i + 1..]
  }

  /** Swap the characters at each pair of adjacent positions. */
  function Transposes(w: string): set<string> {
    set i | 0 <= i < |w| - 1 :: w[..i] + [w[i + 1], w[i]] + w[i + 2..]
  }

  /** Overwrite the character at each position with each letter. */
  function Replaces(w: string): set<string> {
    set i, c | 0 <= i < |w| && c in Alphabet :: w[..i] + [c] + w[i + 1..]
  }

  /** Insert each letter at each position, both ends included. */
  function Inserts(w: string): set<string> {
    set i, c | 0 <= i <= |w| && c in Alphabet :: w[..i] + [c] + w[i..]
  }

  /** The reference definition of the edit-1 neighbourhood. */
  function Edits1(w: string): set<string> {
    Deletes(w) + Transposes(w) + Replaces(w) + Inserts(w)
  }

  /** Everything one edit away from something one edit away. */
  function Edits2(w: string): set<string> {
    set x, y | x in Edits1(w) && y in Edits1(x) :: y
  }

  /** Every character of `w` is one of the letters a-z. */
  ghost predicate IsLetters(w: string) {
    forall i :: 0 <= i < |w| ==> w[i] in Alphabet
  }

  // ---------------------------------------------------------------------------
  // Properties of the neighbourhoods.
  // ---------------------------------------------------------------------------

  /** Deletions shorten by one, transpositions and substitutions keep the length, insertions lengthen by one. */
  lemma Edits1Lengths(w: string)
    ensures forall y :: y in Deletes(w) ==> |y| == |w| - 1
    ensures forall y :: y in Transposes(w) ==> |y| == |w|
    ensures forall y :: y in Replaces(w) ==> |y| == |w|
    ensures forall y :: y in Inserts(w) ==> |y| == |w| + 1
  {
  }

  /** One edit changes the length by at most one. */
  lemma Edits1Length(w: string, y: string)
    requires y in Edits1(w)
    ensures |w| - 1 <= |y| <= |w| + 1
  {
    Edits1Lengths(w);
  }

  /** Two edits change the length by at most two. */
  lemma Edits2Lengths(w: string, y: string)
    requires y in Edits2(w)
    ensures |w| - 2 <= |y| <= |w| + 2
  {
    var x :| x in Edits1(w) && y in Edits1(x);
    Edits1Length(w, x);
    Edits1Length(x, y);
  }

  /**
    For every split `(w[:i], w[i:])`, the neighbourhood holds the deletion and
    (when the suffix is longer than one) the transposition at `i`, and every
    substitution and insertion of a letter there.
  */
  lemma SplitEditsIncluded(w: string, i: nat)
    requires i <= |w|
    ensures i < |w| ==> w[..i] + w[i + 1..] in Edits1(w)
    ensures i < |w| - 1 ==> w[..i] + [w[i + 1], w[i]] + w[i + 2..] in Edits1(w)
    ensures forall c :: c in Alphabet && i < |w| ==> w[..i] + [c] + w[i + 1..] in Edits1(w)
    ensures forall c :: c in Alphabet ==> w[..i] + [c] + w[i..] in Edits1(w)
  {
  }

  /** The four families, one instance each, for "cat". */
  lemma CatNeighbours()
    ensures "at" in Edits1("cat") && "cta" in Edits1("cat")
    ensures "bat" in Edits1("cat") && "cats" in Edits1("cat")
  {
    var w := "cat";
    assert "at" == w[..0] + w[1..];
    assert "cta" == w[..1] + [w[2], w[1]] + w[3..];
    assert 'b' in Alphabet && "bat" == w[..0] + ['b'] + w[1..];
    assert 's' in Alphabet && "cats" == w[..3] + ['s'] + w[3..];
  }

  /** Every word is two edits away from itself: insert a letter, then delete it. */
  lemma SelfInEdits2(w: string)
    ensures w in Edits2(w)
  {
    var x := w[..0] + ['a'] + w[0..];
    assert 'a' in Alphabet && x in Inserts(w);
    assert w == x[..0] + x[1..];
    assert w in Deletes(x);
    assert x in Edits1(w) && w in Edits1(x);
  }

  /** `w` is its prefix, its `i`-th character and the rest. */
  lemma Around(w: string, i: nat)
    requires i < |w|
    ensures w == w[..i] + [w[i]] + w[i + 1..]
  {
  }

  /** The two outer parts of a three-part concatenation. */
  lemma Parts(a: string, m: string, b: string)
    ensures (a + m + b)[..|a|] == a
    ensures (a + m + b)[|a| + |m|..] == b
  {
  }

  /** Reaching `y` by a substitution after a first edit `x`. */
  lemma ViaReplace(w: string, x: string, y: string, i: nat, c: char)
    requires x in Edits1(w) && i < |x| && c in Alphabet
    requires y == x[..i] + [c] + x[i + 1..]
    ensures y in Edits2(w)
  {
    assert y in Replaces(x);
    assert y in Edits1(x);
  }

  lemma DeleteInEdits2(w: string, i: nat)
    requires i < |w|
    ensures w[..i] + w[i + 1..] in Edits2(w)
  {
    var x := w[..i] + ['a'] + w[i + 1..];
    assert x in Replaces(w);
    Parts(w[..i], ['a'], w[i + 1..]);
    assert w[..i] + w[i + 1..] == x[..i] + x[i + 1..];
    assert w[..i] + w[i + 1..] in Deletes(x);
    assert x in Edits1(w) && w[..i] + w[i + 1..] in Edits1(x);
  }

  /** Reaching `y` by an insertion after a first edit `x`. */
  lemma ViaInsert(w: string, x: string, y: string, i: nat, c: char)
    requires x in Edits1(w) && i <= |x| && c in Alphabet
    requires y == x[..i] + [c] + x[i..]
    ensures y in Edits2(w)
  {
    assert y in Inserts(x);
    assert y in Edits1(x);
  }

  /** Swapping `p` and a letter `q`: delete `q`, then insert it before `p`. */
  lemma SwapRightLetter(a: string, p: char, q: char, b: string)
    requires q in Alphabet
    ensures a + [q, p] + b in Edits2(a + [p, q] + b)
  {
    var w := a + [p, q] + b;
    var x := a + [p] + b;
    assert x in Deletes(w) by {
      assert w[..|a| + 1] == a + [p];
      assert w[|a| + 2..] == b;
      assert x == w[..|a| + 1] + w[|a| + 2..];
    }
    assert a + [q, p] + b == x[..|a|] + [q] + x[|a|..] by {
      assert x[..|a|] == a;
      assert x[|a|..] == [p] + b;
    }
    ViaInsert(w, x, a + [q, p] + b, |a|, q);
  }

  /** Swapping a letter `p` and `q`: delete `p`, then insert it after `q`. */
  lemma SwapLeftLetter(a: string, p: char, q: char, b: string)
    requires p in Alphabet
    ensures a + [q, p] + b in Edits2(a + [p, q] + b)
  {
    var w := a + [p, q] + b;
    var x := a + [q] + b;
    assert x in Deletes(w) by {
      assert w[..|a|] == a;
      assert w[|a| + 1..] == [q] + b;
      assert x == w[..|a|] + w[|a| + 1..];
    }
    assert a + [q, p] + b == x[..|a| + 1] + [p] + x[|a| + 1..] by {
      assert x[..|a| + 1] == a + [q];
      assert x[|a| + 1..] == b;
    }
    ViaInsert(w, x, a + [q, p] + b, |a| + 1, p);
  }

  /**
    A transposition is reached by two edits when one of the two characters is
    a letter (delete it, then insert it on the other side) or when they are
    equal (the word itself).
  */
  lemma TransposeInEdits2(w: string, i: nat)
    requires i < |w| - 1
    requires w[i] in Alphabet || w[i + 1] in Alphabet || w[i] == w[i + 1]
    ensures w[..i] + [w[i + 1], w[i]] + w[i + 2..] in Edits2(w)
  {
    var a, p, q, b := w[..i], w[i], w[i + 1], w[i + 2..];
    assert w == a + [p, q] + b;
    if q in Alphabet {
      SwapRightLetter(a, p, q, b);
    } else if p in Alphabet {
      SwapLeftLetter(a, p, q, b);
    } else {
      assert a + [q, p] + b == w;
      SelfInEdits2(w);
    }
  }

  lemma ReplaceInEdits2(w: string, i: nat, c: char)
    requires i < |w| && c in Alphabet
    ensures w[..i] + [c] + w[i + 1..] in Edits2(w)
  {
    var x := w[..i] + ['a'] + w[i + 1..];
    assert x in Replaces(w);
    Parts(w[..i], ['a'], w[i + 1..]);
    ViaReplace(w, x, w[..i] + [c] + w[i + 1..], i, c);
  }

  lemma InsertInEdits2(w: string, i: nat, c: char)
    requires i <= |w| && c in Alphabet
    ensures w[..i] + [c] + w[i..] in Edits2(w)
  {
    var x := w[..i] + ['a'] + w[i..];
    assert x in Inserts(w);
    Parts(w[..i], ['a'], w[i..]);
    ViaReplace(w, x, w[..i] + [c] + w[i..], i, c);
  }

  /** No two adjacent characters of `w` are distinct non-letters. */
  ghost predicate NoAdjacentNonLetters(w: string) {
    forall i :: 0 <= i < |w| - 1 ==> w[i] in Alphabet || w[i + 1] in Alphabet || w[i] == w[i + 1]
  }

  /**
    Every one-edit neighbour of `w` is also reached by two edits, provided no
    two adjacent characters are distinct non-letters: deletions, substitutions
    and insertions always are, transpositions through a deletion and an
    insertion.
  */
  lemma Edits1InEdits2(w: string, y: string)
    requires NoAdjacentNonLetters(w)
    requires y in Edits1(w)
    ensures y in Edits2(w)
  {
    if y in Deletes(w) {
      var i :| 0 <= i < |w| && y == w[..i] + w[i + 1..];
      DeleteInEdits2(w, i);
    } else if y in Transposes(w) {
      var i :| 0 <= i < |w| - 1 && y == w[..i] + [w[i + 1], w[i]] + w[i + 2..];
      TransposeInEdits2(w, i);
    } else if y in Replaces(w) {
      var i, c :| 0 <= i < |w| && c in Alphabet && y == w[..i] + [c] + w[i + 1..];
      ReplaceInEdits2(w, i, c);
    } else {
      var i, c :| 0 <= i <= |w| && c in Alphabet && y == w[..i] + [c] + w[i..];
      InsertInEdits2(w, i, c);
    }
  }

  lemma DeleteUndone(w: string, i: nat)
    requires i < |w| && w[i] in Alphabet
    ensures w in Edits1(w[..i] + w[i + 1..])
  {
    var y := w[..i] + w[i + 1..];
    Around(w, i);
    assert y[..i] == w[..i] && y[i..] == w[i + 1..];
    assert w == y[..i] + [w[i]] + y[i..];
    assert w in Inserts(y);
  }

  lemma TransposeUndone(w: string, i: nat)
    requires i < |w| - 1
    ensures w in Edits1(w[..i] + [w[i + 1], w[i]] + w[i + 2..])
  {
    var y := w[..i] + [w[i + 1], w[i]] + w[i + 2..];
    Parts(w[..i], [w[i + 1], w[i]], w[i + 2..]);
    assert w == y[..i] + [y[i + 1], y[i]] + y[i + 2..];
    assert w in Transposes(y);
  }

  lemma ReplaceUndone(w: string, i: nat, c: char)
    requires i < |w| && w[i] in Alphabet
    ensures w in Edits1(w[..i] + [c] + w[i + 1..])
  {
    var y := w[..i] + [c] + w[i + 1..];
    Around(w, i);
    Parts(w[..i], [c], w[i + 1..]);
    assert w == y[..i] + [w[i]] + y[i + 1..];
    assert w in Replaces(y);
  }

  lemma InsertUndone(w: string, i: nat, c: char)
    requires i <= |w|
    ensures w in Edits1(w[..i] + [c] + w[i..])
  {
    var y := w[..i] + [c] + w[i..];
    Parts(w[..i], [c], w[i..]);
    assert w == y[..i] + y[i + 1..];
    assert w in Deletes(y);
  }

  /**
    Over words of letters a-z the one-edit relation is symmetric: each edit
    is undone by one edit (a deletion by an insertion, an insertion by a
    deletion, a transposition or substitution by another).
  */
  lemma Edits1Symmetric(w: string, y: string)
    requires IsLetters(w)
    requires y in Edits1(w)
    ensures w in Edits1(y)
  {
    if y in Deletes(w) {
      var i :| 0 <= i < |w| && y == w[..i] + w[i + 1..];
      DeleteUndone(w, i);
    } else if y in Transposes(w) {
      var i :| 0 <= i < |w| - 1 && y == w[..i] + [w[i + 1], w[i]] + w[i + 2..];
      TransposeUndone(w, i);
    } else if y in Replaces(w) {
      var i, c :| 0 <= i < |w| && c in Alphabet && y == w[..i] + [c] + w[i + 1..];
      ReplaceUndone(w, i, c);
    } else {
      var i, c :| 0 <= i <= |w| && c in Alphabet && y == w[..i] + [c] + w[i..];
      InsertUndone(w, i, c);
    }
  }

  // ---------------------------------------------------------------------------
  // `one_edit`: the split list, then four loops adding to one set. The
  // functions below give what each loop has added after its first k splits.
  // ---------------------------------------------------------------------------

  ghost function DeletesBefore(w: string, k: int): set<string> {
    set i | 0 <= i < k && i < |w| :: w[..i] + w[i + 1..]
  }

  ghost function TransposesBefore(w: string, k: int): set<string> {
    set i | 0 <= i < k && i < |w| - 1 :: w[..i] + [w[i + 1], w[i]] + w[i + 2..]
  }

  ghost function ReplacesBefore(w: string, k: int): set<string> {
    set i, c | 0 <= i < k && i < |w| && c in Alphabet :: w[..i] + [c] + w[i + 1..]
  }

  ghost function InsertsBefore(w: string, k: int): set<string> {
    set i, c | 0 <= i < k && i <= |w| && c in Alphabet :: w[..i] + [c] + w[i..]
  }

  /** `left + c + right` for each letter `c` of `cs`. */
  ghost function Between(cs: string, left: string, right: string): set<string> {
    set c | c in cs :: left + [c] + right
  }

  lemma BetweenHas(cs: string, c: char, left: string, right: string)
    requires c in cs
    ensures left + [c] + right in Between(cs, left, right)
  {
  }

  lemma BetweenStep(cs: string, c: char, left: string, right: string)
    ensures Between(cs + [c], left, right) == Between(cs, left, right) + {left + [c] + right}
  {
  }

  lemma DeletesStep(w: string, k: nat)
    ensures DeletesBefore(w, k + 1) ==
            DeletesBefore(w, k) + (if k < |w| then {w[..k] + w[k + 1..]} else {})
  {
    forall i | 0 <= i < k && i < |w|
      ensures w[..i] + w[i + 1..] in DeletesBefore(w, k)
    {
    }
  }

  lemma TransposesStep(w: string, k: nat)
    ensures TransposesBefore(w, k + 1) ==
            TransposesBefore(w, k) + (if k < |w| - 1 then {w[..k] + [w[k + 1], w[k]] + w[k + 2..]} else {})
  {
    forall i | 0 <= i < k && i < |w| - 1
      ensures w[..i] + [w[i + 1], w[i]] + w[i + 2..] in TransposesBefore(w, k)
    {
    }
  }

  lemma ReplacesBeforeHas(w: string, k: int, i: nat, c: char)
    requires i < k && i < |w| && c in Alphabet
    ensures w[..i] + [c] + w[i + 1..] in ReplacesBefore(w, k)
  {
  }

  lemma ReplacesStep(w: string, k: nat)
    ensures ReplacesBefore(w, k + 1) ==
            ReplacesBefore(w, k) + (if k < |w| then Between(Alphabet, w[..k], w[k + 1..]) else {})
  {
    if k < |w| {
      ReplacesStepWithin(w, k);
    } else {
      ReplacesStepBeyond(w, k);
    }
  }

  lemma ReplacesStepWithin(w: string, k: nat)
    requires k < |w|
    ensures ReplacesBefore(w, k + 1) == ReplacesBefore(w, k) + Between(Alphabet, w[..k], w[k + 1..])
  {
    var next := ReplacesBefore(w, k + 1);
    var prev := ReplacesBefore(w, k);
    var step := Between(Alphabet, w[..k], w[k + 1..]);
    forall y | y in next ensures y in prev + step {
      var i, c :| 0 <= i < k + 1 && i < |w| && c in Alphabet && y == w[..i] + [c] + w[i + 1..];
      if i < k {
        ReplacesBeforeHas(w, k, i, c);
      } else {
        BetweenHas(Alphabet, c, w[..k], w[k + 1..]);
      }
    }
    forall y | y in prev ensures y in next {
      var i, c :| 0 <= i < k && i < |w| && c in Alphabet && y == w[..i] + [c] + w[i + 1..];
      ReplacesBeforeHas(w, k + 1, i, c);
    }
    forall y | y in step ensures y in next {
      var c :| c in Alphabet && y == w[..k] + [c] + w[k + 1..];
      ReplacesBeforeHas(w, k + 1, k, c);
    }
    assert next == prev + step;
  }

  lemma ReplacesStepBeyond(w: string, k: nat)
    requires k >= |w|
    ensures ReplacesBefore(w, k + 1) == ReplacesBefore(w, k)
  {
    var next := ReplacesBefore(w, k + 1);
    var prev := ReplacesBefore(w, k);
    forall y | y in next ensures y in prev {
      var i, c :| 0 <= i < k + 1 && i < |w| && c in Alphabet && y == w[..i] + [c] + w[i + 1..];
      ReplacesBeforeHas(w, k, i, c);
    }
    forall y | y in prev ensures y in next {
      var i, c :| 0 <= i < k && i < |w| && c in Alphabet && y == w[..i] + [c] + w[i + 1..];
      ReplacesBeforeHas(w, k + 1, i, c);
    }
  }

  lemma InsertsBeforeHas(w: string, k: int, i: nat, c: char)
    requires i < k && i <= |w| && c in Alphabet
    ensures w[..i] + [c] + w[i..] in InsertsBefore(w, k)
  {
  }

  lemma InsertsStep(w: string, k: nat)
    ensures InsertsBefore(w, k + 1) ==
            InsertsBefore(w, k) + (if k <= |w| then Between(Alphabet, w[..k], w[k..]) else {})
  {
    if k <= |w| {
      InsertsStepWithin(w, k);
    } else {
      InsertsStepBeyond(w, k);
    }
  }

  lemma InsertsStepWithin(w: string, k: nat)
    requires k <= |w|
    ensures InsertsBefore(w, k + 1) == InsertsBefore(w, k) + Between(Alphabet, w[..k], w[k..])
  {
    var next := InsertsBefore(w, k + 1);
    var prev := InsertsBefore(w, k);
    var step := Between(Alphabet, w[..k], w[k..]);
    forall y | y in next ensures y in prev + step {
      var i, c :| 0 <= i < k + 1 && i <= |w| && c in Alphabet && y == w[..i] + [c] + w[i..];
      if i < k {
        InsertsBeforeHas(w, k, i, c);
      } else {
        BetweenHas(Alphabet, c, w[..k], w[k..]);
      }
    }
    forall y | y in prev ensures y in next {
      var i, c :| 0 <= i < k && i <= |w| && c in Alphabet && y == w[..i] + [c] + w[i..];
      InsertsBeforeHas(w, k + 1, i, c);
    }
    forall y | y in step ensures y in next {
      var c :| c in Alphabet && y == w[..k] + [c] + w[k..];
      InsertsBeforeHas(w, k + 1, k, c);
    }
    assert next == prev + step;
  }

  lemma InsertsStepBeyond(w: string, k: nat)
    requires k > |w|
    ensures InsertsBefore(w, k + 1) == InsertsBefore(w, k)
  {
    var next := InsertsBefore(w, k + 1);
    var prev := InsertsBefore(w, k);
    forall y | y in next ensures y in prev {
      var i, c :| 0 <= i < k + 1 && i <= |w| && c in Alphabet && y == w[..i] + [c] + w[i..];
      InsertsBeforeHas(w, k, i, c);
    }
    forall y | y in prev ensures y in next {
      var i, c :| 0 <= i < k && i <= |w| && c in Alphabet && y == w[..i] + [c] + w[i..];
      InsertsBeforeHas(w, k + 1, i, c);
    }
  }

  /** `splits` lists `(word[:i], word[i:])` for i = 0 .. len(word), in order. */
  ghost predicate IsSplits(word: string, splits: seq<(string, string)>) {
    && |splits| == |word| + 1
    && forall j :: 0 <= j < |splits| ==> splits[j] == (word[..j], word[j..])
  }

  /** The split list of `one_edit`. */
  method Splits(word: string) returns (splits: seq<(string, string)>)
    ensures IsSplits(word, splits)
  {
    splits := [];
    for i := 0 to |word| + 1
      invariant |splits| == i
      invariant forall j :: 0 <= j < i ==> splits[j] == (word[..j], word[j..])
    {
      splits := splits + [(word[..i], word[i..])];
    }
  }

  /** Adds `left + c + right` for every letter `c`, in alphabet order. */
  method AddLetters(acc: set<string>, left: string, right: string) returns (r: set<string>)
    ensures r == acc + Between(Alphabet, left, right)
  {
    var alphabet := Alphabet;
    r := acc;
    for ci := 0 to |alphabet|
      invariant r == acc + Between(alphabet[..ci], left, right)
    {
      BetweenStep(alphabet[..ci], alphabet[ci], left, right);
      assert alphabet[..ci + 1] == alphabet[..ci] + [alphabet[ci]];
      r := r + {left + [alphabet[ci]] + right};
    }
    assert alphabet[..|alphabet|] == alphabet;
  }

  /** After the last split, each loop has added its whole family. */
  lemma FamiliesComplete(w: string)
    ensures DeletesBefore(w, |w| + 1) == Deletes(w)
    ensures TransposesBefore(w, |w| + 1) == Transposes(w)
    ensures ReplacesBefore(w, |w| + 1) == Replaces(w)
    ensures InsertsBefore(w, |w| + 1) == Inserts(w)
  {
  }

  /** The deletion loop of `one_edit`: `left + right[1:]` for every non-empty `right`. */
  method AddDeletes(word: string, splits: seq<(string, string)>, acc: set<string>) returns (r: set<string>)
    requires IsSplits(word, splits)
    ensures r == acc + Deletes(word)
  {
    r := acc;
    for k := 0 to |splits|
      invariant r == acc + DeletesBefore(word, k)
    {
      var (left, right) := splits[k];
      DeletesStep(word, k);
      if right != [] {
        assert right[1..] == word[k + 1..];
        r := r + {left + right[1..]};
      }
    }
    FamiliesComplete(word);
  }

  /** The transposition built from the split at `k` is the transposition at `k`. */
  lemma TransposeOfSplit(word: string, k: nat, left: string, right: string)
    requires k < |word| - 1 && left == word[..k] && right == word[k..]
    ensures left + [right[1]] + [right[0]] + right[2..] == word[..k] + [word[k + 1], word[k]] + word[k + 2..]
  {
    assert right[2..] == word[k + 2..];
  }

  /** The transposition loop: `left + right[1] + right[0] + right[2:]` when `len(right) > 1`. */
  method AddTransposes(word: string, splits: seq<(string, string)>, acc: set<string>) returns (r: set<string>)
    requires IsSplits(word, splits)
    ensures r == acc + Transposes(word)
  {
    r := acc;
    for k := 0 to |splits|
      invariant r == acc + TransposesBefore(word, k)
    {
      var (left, right) := splits[k];
      TransposesStep(word, k);
      if |right| > 1 {
        TransposeOfSplit(word, k, left, right);
        r := r + {left + [right[1]] + [right[0]] + right[2..]};
      }
    }
    FamiliesComplete(word);
  }

  /** The substitution loop: `left + c + right[1:]` for every letter and non-empty `right`. */
  method AddReplaces(word: string, splits: seq<(string, string)>, acc: set<string>) returns (r: set<string>)
    requires IsSplits(word, splits)
    ensures r == acc + Replaces(word)
  {
    r := acc;
    for k := 0 to |splits|
      invariant r == acc + ReplacesBefore(word, k)
    {
      var (left, right) := splits[k];
      ReplacesStep(word, k);
      if right != [] {
        assert left == word[..k] && right[1..] == word[k + 1..];
        r := AddLetters(r, left, right[1..]);
      } else {
        assert k == |word|;
      }
    }
    FamiliesComplete(word);
  }

  /** The insertion loop: `left + c + right` for every letter and every split. */
  method AddInserts(word: string, splits: seq<(string, string)>, acc: set<string>) returns (r: set<string>)
    requires IsSplits(word, splits)
    ensures r == acc + Inserts(word)
  {
    r := acc;
    for k := 0 to |splits|
      invariant r == acc + InsertsBefore(word, k)
    {
      var (left, right) := splits[k];
      InsertsStep(word, k);
      r := AddLetters(r, left, right);
    }
    FamiliesComplete(word);
  }

  /** `one_edit(word)` computes exactly the edit-1 neighbourhood. */
  method OneEdit(word: string) returns (oneEditWords: set<string>)
    ensures oneEditWords == Edits1(word)
  {
    oneEditWords := {};
    var splits := Splits(word);
    oneEditWords := AddDeletes(word, splits, oneEditWords);
    oneEditWords := AddTransposes(word, splits, oneEditWords);
    oneEditWords := AddReplaces(word, splits, oneEditWords);
    oneEditWords := AddInserts(word, splits, oneEditWords);
  }

  /** What the second edit reaches from the first edits in `xs`. */
  ghost function Reached(xs: set<string>): set<string> {
    set x, y | x in xs && y in Edits1(x) :: y
  }

  lemma ReachedStep(xs: set<string>, x: string)
    ensures Reached(xs + {x}) == Reached(xs) + Edits1(x)
  {
    forall y | y in Reached(xs + {x}) ensures y in Reached(xs) + Edits1(x) {
      var x' :| x' in xs + {x} && y in Edits1(x');
      if x' != x { assert y in Reached(xs); }
    }
  }

  /** The inner loop of `two_edits`: yields every member of `edits`, in any order. */
  method YieldEach(yielded: seq<string>, edits: set<string>) returns (r: seq<string>)
    ensures forall y :: y in r <==> y in yielded || y in edits
  {
    r := yielded;
    var rest := edits;
    while rest != {}
      invariant rest <= edits
      invariant forall y :: y in r <==> y in yielded || y in edits - rest
      decreases |rest|
    {
      var secondEdit :| secondEdit in rest;
      r := r + [secondEdit];
      rest := rest - {secondEdit};
    }
  }

  /**
    `two_edits(word)` is a generator: for each member of `one_edit(word)`, in
    whatever order the set is iterated, it yields every member of its own
    `one_edit`. Duplicates are yielded; what is yielded is exactly `Edits2`.
  */
  method TwoEdits(word: string) returns (yielded: seq<string>)
    ensures forall y :: y in yielded <==> y in Edits2(word)
  {
    var oneEditAway := OneEdit(word);
    yielded := [];
    var pending := oneEditAway;
    assert oneEditAway - pending == {};
    while pending != {}
      invariant pending <= oneEditAway
      invariant forall y :: y in yielded <==> y in Reached(oneEditAway - pending)
      decreases |pending|
    {
      var firstEdit :| firstEdit in pending;
      ghost var done := oneEditAway - pending;
      var secondEdits := OneEdit(firstEdit);
      yielded := YieldEach(yielded, secondEdits);
      ReachedStep(done, firstEdit);
      pending := pending - {firstEdit};
      assert oneEditAway - pending == done + {firstEdit};
    }
    assert Reached(oneEditAway) == Edits2(word);
  }
}
