/**
  Tokenisation of the corpus: `get_words` lower-cases the whole text and
  returns every maximal run of word characters (the `\w+` pattern), in order.
  The model uses ASCII word characters (letters, digits and the underscore)
  and ASCII lower-casing.
*/
module Tokens {

  /** The characters `\w` matches (ASCII part). */
  predicate IsWordChar(c: char) {
    ('a' <= c <= 'z') || ('A' <= c <= 'Z') || ('0' <= c <= '9') || c == '_'
  }

  predicate IsUpper(c: char) {
    'A' <= c <= 'Z'
  }

  /** ASCII lower-casing of one character. */
  function ToLower(c: char): (r: char)
    ensures !IsUpper(r)
    ensures IsUpper(c) ==> r as int == c as int + 32
    ensures !IsUpper(c) ==> r == c
    ensures IsWordChar(r) <==> IsWordChar(c)
  {
    if IsUpper(c) then (c as int + 32) as char else c
  }

  /** `text.lower()`: lower-cases every character and keeps the length. */
  function Lower(s: string): (r: string)
    ensures |r| == |s|
    ensures forall i :: 0 <= i < |s| ==> r[i] == ToLower(s[i])
  {
    if s == [] then [] else [ToLower(s[0])] + Lower(s[1..])
  }

  /** A non-empty run of word characters. */
  ghost predicate IsWord(t: string) {
    t != [] && forall i :: 0 <= i < |t| ==> IsWordChar(t[i])
  }

  /** The run collected so far, as a list of at most one token. */
  function Flush(run: string): seq<string> {
    if run == [] then [] else [run]
  }

  /**
    Scans `s` left to right; `run` holds the word characters read since the
    last separator. A separator or the end of the text closes the run.
  */
  function Scan(s: string, run: string): seq<string>
    decreases |s|
  {
    if s == [] then Flush(run)
    else if IsWordChar(s[0]) then Scan(s[1..], run + [s[0]])
    else Flush(run) + Scan(s[1..], [])
  }

  /** The maximal runs of word characters of `s`, left to right. */
  function Runs(s: string): seq<string> {
    Scan(s, [])
  }

  /** `get_words(text)`: the maximal word-character runs of `text.lower()`. */
  function GetWords(text: string): seq<string> {
    Runs(Lower(text))
  }

  lemma {:induction false} ScanYieldsWords(s: string, run: string)
    requires forall i :: 0 <= i < |run| ==> IsWordChar(run[i])
    ensures forall k :: 0 <= k < |Scan(s, run)| ==> IsWord(Scan(s, run)[k])
    decreases |s|
  {
    if s != [] {
      if IsWordChar(s[0]) {
        ScanYieldsWords(s[1..], run + [s[0]]);
      } else {
        ScanYieldsWords(s[1..], []);
      }
    }
  }

  /** Every token is a non-empty run of word characters. */
  lemma RunsAreWords(s: string)
    ensures forall k :: 0 <= k < |Runs(s)| ==> IsWord(Runs(s)[k])
  {
    ScanYieldsWords(s, []);
  }

  lemma {:induction false} ScanSplit(a: string, c: char, b: string, run: string)
    requires !IsWordChar(c)
    ensures Scan(a + [c] + b, run) == Scan(a, run) + Runs(b)
    decreases |a|
  {
    if a == [] {
      assert a + [c] + b == [c] + b;
      assert ([c] + b)[1..] == b;
    } else {
      assert (a + [c] + b)[0] == a[0];
      assert (a + [c] + b)[1..] == a[1..] + [c] + b;
      if IsWordChar(a[0]) {
        ScanSplit(a[1..], c, b, run + [a[0]]);
      } else {
        ScanSplit(a[1..], c, b, []);
      }
    }
  }

  /** A separator character cuts the text into two independently tokenised halves. */
  lemma RunsSplit(a: string, c: char, b: string)
    requires !IsWordChar(c)
    ensures Runs(a + [c] + b) == Runs(a) + Runs(b)
  {
    ScanSplit(a, c, b, []);
  }

  lemma {:induction false} ScanOfWord(w: string, run: string)
    requires forall i :: 0 <= i < |w| ==> IsWordChar(w[i])
    requires run + w != []
    ensures Scan(w, run) == [run + w]
    decreases |w|
  {
    if w == [] {
      assert run + w == run;
    } else {
      assert run + [w[0]] + w[1..] == run + w;
      ScanOfWord(w[1..], run + [w[0]]);
    }
  }

  /** A text that is one run of word characters is one token, itself. */
  lemma RunsOfWord(w: string)
    requires IsWord(w)
    ensures Runs(w) == [w]
  {
    ScanOfWord(w, []);
    assert [] + w == w;
  }

  /** Every token of `get_words` consists of word characters and has no upper-case letter. */
  lemma GetWordsAreLowerWords(text: string)
    ensures forall k :: 0 <= k < |GetWords(text)| ==> IsWord(GetWords(text)[k])
    ensures forall k, i :: 0 <= k < |GetWords(text)| && 0 <= i < |GetWords(text)[k]| ==>
              !IsUpper(GetWords(text)[k][i])
  {
    var lowered := Lower(text);
    ScanLower(lowered, []);
    RunsAreWords(lowered);
  }

  lemma {:induction false} ScanLower(s: string, run: string)
    requires forall i :: 0 <= i < |s| ==> !IsUpper(s[i])
    requires forall i :: 0 <= i < |run| ==> !IsUpper(run[i])
    ensures forall k, i :: 0 <= k < |Scan(s, run)| && 0 <= i < |Scan(s, run)[k]| ==> !IsUpper(Scan(s, run)[k][i])
    decreases |s|
  {
    if s != [] {
      if IsWordChar(s[0]) {
        ScanLower(s[1..], run + [s[0]]);
      } else {
        ScanLower(s[1..], []);
      }
    }
  }
}
