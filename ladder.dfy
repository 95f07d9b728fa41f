/** Validation of word ladders (Doublets.isWordLadder). */
module Ladder {
  import opened Hamming
  import opened Lexicon

  /** A valid ladder: non-empty, every adjacent pair at distance one, every
      word in the lexicon. */
  predicate ValidLadder(lexicon: seq<string>, sequence: seq<string>)
  {
    && |sequence| > 0
    && (forall i :: 0 <= i < |sequence| - 1 ==> Distance(sequence[i], sequence[i + 1]) == 1)
    && (forall k :: 0 <= k < |sequence| ==> sequence[k] in Words(lexicon))
  }

  /** isWordLadder: an empty sequence is rejected; then the adjacent pairs are
      walked with two indices, then the lexicon membership of every word. */
  method IsWordLadder(lexicon: seq<string>, sequence: seq<string>) returns (b: bool)
    ensures b == ValidLadder(lexicon, sequence)
  {
    if |sequence| == 0 {
      return false;
    }
    var i := 0;
    var j := i + 1;
    while i < |sequence| - 1 && j < |sequence|
      invariant 0 <= i < |sequence| && j == i + 1
      invariant forall p :: 0 <= p < i ==> Distance(sequence[p], sequence[p + 1]) == 1
    {
      var d := GetHammingDistance(sequence[i], sequence[j]);
      if d != 1 {
        return false;
      }
      i := i + 1;
      j := j + 1;
    }
    var k := 0;
    while k < |sequence|
      invariant 0 <= k <= |sequence|
      invariant forall p :: 0 <= p < k ==> sequence[p] in Words(lexicon)
    {
      if !IsWord(lexicon, sequence[k]) {
        return false;
      }
      k := k + 1;
    }
    return true;
  }

  function Reverse(s: seq<string>): (r: seq<string>)
    ensures |r| == |s|
    ensures forall i :: 0 <= i < |s| ==> r[i] == s[|s| - 1 - i]
  {
    if |s| == 0 then [] else Reverse(s[1..]) + [s[0]]
  }

  /** A ladder read backwards is still a ladder. */
  lemma ReverseValid(lexicon: seq<string>, sequence: seq<string>)
    requires ValidLadder(lexicon, sequence)
    ensures ValidLadder(lexicon, Reverse(sequence))
  {
    var r := Reverse(sequence);
    var n := |sequence|;
    forall i | 0 <= i < n - 1 ensures Distance(r[i], r[i + 1]) == 1 {
      assert r[i] == sequence[n - 1 - i] && r[i + 1] == sequence[n - 2 - i];
      DistanceSymmetric(sequence[n - 2 - i], sequence[n - 1 - i]);
    }
  }
}
