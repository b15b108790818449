/** The pairings view (frontend/src/PairViewer.js): one sentence per match,
    with both names capitalised. */
module PairViewer {
  import opened Text
  import opened Santa

  /** `capFirstLetter`: the first character upper-cased, the rest as given;
      the empty string is returned as it is. */
  function CapFirstLetter(s: string): (r: string)
    ensures |r| == |s|
    ensures s != [] ==> r[0] == Upper(s[0]) && r[1..] == s[1..]
  {
    if |s| == 0 then s else [Upper(s[0])] + s[1..]
  }

  /** Upper-casing twice is upper-casing once. */
  lemma UpperIdempotent(c: char)
    ensures Upper(Upper(c)) == Upper(c)
    ensures 'a' <= Upper(c) <= 'z' ==> false
  {}

  /** Capitalising a capitalised name changes nothing. */
  lemma CapIdempotent(s: string)
    ensures CapFirstLetter(CapFirstLetter(s)) == CapFirstLetter(s)
  {
    if s != [] {
      UpperIdempotent(s[0]);
    }
  }

  const GiftsTo := " gifts to "

  /** The sentence shown for one match. */
  function PairSentence(p: Pair): (r: string)
    ensures |r| == |p.0| + |GiftsTo| + |p.1|
    ensures r[..|p.0|] == CapFirstLetter(p.0)
    ensures r[|p.0|..|p.0| + |GiftsTo|] == GiftsTo
    ensures r[|p.0| + |GiftsTo|..] == CapFirstLetter(p.1)
  {
    var r := CapFirstLetter(p.0) + GiftsTo + CapFirstLetter(p.1);
    assert r[..|p.0|] == CapFirstLetter(p.0);
    assert r[|p.0|..|p.0| + |GiftsTo|] == GiftsTo;
    assert r[|p.0| + |GiftsTo|..] == CapFirstLetter(p.1);
    r
  }

  /** `pairings.map(…)`: one sentence per match, in order. */
  function Sentences(pairings: seq<Pair>): (r: seq<string>)
    ensures |r| == |pairings|
    ensures forall i :: 0 <= i < |r| ==> r[i] == PairSentence(pairings[i])
  {
    seq(|pairings|, i requires 0 <= i < |pairings| => PairSentence(pairings[i]))
  }

  /** Given the lengths of the two names, a sentence gives back both names
      up to the case of their first letters. */
  lemma SentenceNames(p: Pair, q: Pair)
    requires |p.0| == |q.0| && |p.1| == |q.1|
    requires PairSentence(p) == PairSentence(q)
    ensures CapFirstLetter(p.0) == CapFirstLetter(q.0)
    ensures CapFirstLetter(p.1) == CapFirstLetter(q.1)
  {
    assert PairSentence(p)[..|p.0|] == PairSentence(q)[..|q.0|];
    assert PairSentence(p)[|p.0| + |GiftsTo|..] == PairSentence(q)[|q.0| + |GiftsTo|..];
  }
}
