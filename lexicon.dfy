/** The lexicon (a sorted set of words) and the neighbor enumeration over it. */
module Lexicon {
  import opened Hamming

  /** Lexicographic string order: the first differing character decides, and a
      proper prefix comes first. Characters are compared as code points, which
      agrees with Java's compareTo on text inside the Basic Multilingual Plane. */
  predicate Below(a: string, b: string)
  {
    if |a| == 0 then |b| > 0
    else if |b| == 0 then false
    else if a[0] == b[0] then Below(a[1..], b[1..])
    else a[0] < b[0]
  }

  lemma {:induction false} BelowIrreflexive(a: string)
    ensures !Below(a, a)
  {
    if |a| > 0 {
      BelowIrreflexive(a[1..]);
    }
  }

  /** Strictly ascending in string order: the iteration order of a sorted set. */
  predicate Ascending(s: seq<string>)
  {
    forall i, j :: 0 <= i < j < |s| ==> Below(s[i], s[j])
  }

  /** An ascending sequence holds every word at most once. */
  lemma AscendingDistinct(s: seq<string>)
    requires Ascending(s)
    ensures forall i, j :: 0 <= i < j < |s| ==> s[i] != s[j]
  {
    forall i, j | 0 <= i < j < |s| ensures s[i] != s[j] {
      BelowIrreflexive(s[i]);
    }
  }

  /** The words of the lexicon, as a set. */
  function Words(lexicon: seq<string>): set<string>
  {
    set w | w in lexicon
  }

  lemma {:induction false} DistinctCount(s: seq<string>)
    requires forall i, j :: 0 <= i < j < |s| ==> s[i] != s[j]
    ensures |Words(s)| == |s|
  {
    if |s| > 0 {
      var n := |s| - 1;
      DistinctCount(s[..n]);
      assert Words(s) == Words(s[..n]) + {s[n]};
      assert s[n] !in Words(s[..n]);
    }
  }

  /** getWordCount: the number of distinct words in the lexicon. */
  function GetWordCount(lexicon: seq<string>): (n: nat)
    requires Ascending(lexicon)
    ensures n == |Words(lexicon)|
  {
    AscendingDistinct(lexicon);
    DistinctCount(lexicon);
    |lexicon|
  }

  /** isWord: membership in the lexicon. */
  function IsWord(lexicon: seq<string>, str: string): (b: bool)
    ensures b <==> str in Words(lexicon)
  {
    str in lexicon
  }

  /** The words getNeighbors actually tests: every lexicon word but the last
      (the greatest, for a sorted lexicon), since the iterator is advanced
      before hasNext is asked. */
  function Candidates(lexicon: seq<string>): seq<string>
  {
    if |lexicon| == 0 then [] else lexicon[..|lexicon| - 1]
  }

  /** s is among the neighbors getNeighbors reports for word. */
  predicate Edge(lexicon: seq<string>, word: string, s: string)
  {
    s in Candidates(lexicon) && Distance(s, word) == 1
  }

  /** The words of ws at distance one from word, in the order of ws. */
  function Adjacent(ws: seq<string>, word: string): seq<string>
  {
    if |ws| == 0 then []
    else
      var n := |ws| - 1;
      Adjacent(ws[..n], word) + (if Distance(ws[n], word) == 1 then [ws[n]] else [])
  }

  /** Adjacent keeps exactly the words of ws at distance one from word. */
  lemma {:induction false} AdjacentMembers(ws: seq<string>, word: string)
    ensures forall s :: s in Adjacent(ws, word) <==> s in ws && Distance(s, word) == 1
  {
    if |ws| > 0 {
      var n := |ws| - 1;
      AdjacentMembers(ws[..n], word);
      assert ws == ws[..n] + [ws[n]];
    }
  }

  lemma {:induction false} AdjacentAscending(ws: seq<string>, word: string)
    requires Ascending(ws)
    ensures Ascending(Adjacent(ws, word))
  {
    if |ws| > 0 {
      var n := |ws| - 1;
      var front := Adjacent(ws[..n], word);
      AdjacentAscending(ws[..n], word);
      AdjacentMembers(ws[..n], word);
      var r := Adjacent(ws, word);
      forall i, j | 0 <= i < j < |r| ensures Below(r[i], r[j]) {
        if j >= |front| {
          assert r[i] in ws[..n];
          var k :| 0 <= k < n && ws[k] == r[i];
          assert r[j] == ws[n];
        }
      }
    }
  }

  /** getNeighbors: scan the lexicon with an iterator that is primed before
      the loop, keeping the words at distance one from word. */
  method GetNeighbors(lexicon: seq<string>, word: string) returns (list: seq<string>)
    requires |lexicon| > 0
    ensures list == Adjacent(Candidates(lexicon), word)
    ensures forall s :: s in list <==> Edge(lexicon, word, s)
  {
    var s := lexicon[0];
    var k := 1;
    list := [];
    while k < |lexicon|
      invariant 1 <= k <= |lexicon|
      invariant s == lexicon[k - 1]
      invariant list == Adjacent(lexicon[..k - 1], word)
    {
      var d := GetHammingDistance(s, word);
      assert lexicon[..k] == lexicon[..k - 1] + [s];
      if d == 1 {
        list := list + [s];
      }
      s := lexicon[k];
      k := k + 1;
    }
    AdjacentMembers(Candidates(lexicon), word);
  }

  /** Over a sorted lexicon the neighbors come out in ascending order, and the
      greatest word is never among them. */
  lemma NeighborsAscending(lexicon: seq<string>, word: string)
    requires Ascending(lexicon) && |lexicon| > 0
    ensures Ascending(Adjacent(Candidates(lexicon), word))
    ensures lexicon[|lexicon| - 1] !in Adjacent(Candidates(lexicon), word)
  {
    var n := |lexicon| - 1;
    assert Ascending(lexicon[..n]);
    AdjacentAscending(lexicon[..n], word);
    AdjacentMembers(lexicon[..n], word);
    AscendingDistinct(lexicon);
    assert lexicon[n] !in lexicon[..n];
  }

  /** The neighbor scan as evidently intended: every lexicon word is tested,
      the greatest included. */
  method GetAllNeighbors(lexicon: seq<string>, word: string) returns (list: seq<string>)
    ensures list == Adjacent(lexicon, word)
    ensures forall s :: s in list <==> s in lexicon && Distance(s, word) == 1
  {
    list := [];
    var k := 0;
    while k < |lexicon|
      invariant 0 <= k <= |lexicon|
      invariant list == Adjacent(lexicon[..k], word)
    {
      var d := GetHammingDistance(lexicon[k], word);
      assert lexicon[..k + 1] == lexicon[..k] + [lexicon[k]];
      if d == 1 {
        list := list + [lexicon[k]];
      }
      k := k + 1;
    }
    assert lexicon[..k] == lexicon;
    AdjacentMembers(lexicon, word);
  }

  /** Every neighbor is a lexicon word of the same length at distance one,
      in both argument orders. */
  lemma EdgeFacts(lexicon: seq<string>, word: string, s: string)
    requires Edge(lexicon, word, s)
    ensures s in Words(lexicon) && |s| == |word|
    ensures Distance(word, s) == 1 && Distance(s, word) == 1
  {
    DistanceSymmetric(s, word);
  }
}
