# Doublets word-ladder engine in Dafny

This project models `Doublets.java`, a word-ladder engine over a fixed lexicon of
lowercase words. A word ladder is a sequence of lexicon words in which each pair of
neighbouring words has the same length and differs in exactly one position. The model
covers:

- **Hamming distance** (`Hamming` module). `getHammingDistance` returns -1 when the
  lengths differ. Otherwise it counts the mismatching positions in a loop.
  `Distance` is the reference function and `GetHammingDistance` is the loop, proved
  equal to it.
- **Lexicon and neighbors** (`Lexicon` module). The lexicon, a `TreeSet<String>` in
  the source, is a strictly ascending `seq<string>` in lexicographic order
  (`Below`, `Ascending`), which is Java's `compareTo` order for text in the Basic
  Multilingual Plane. `Words` gives it as a set. `GetNeighbors` is the source's
  iterator loop, kept as written: the iterator is advanced before `hasNext` is
  checked, so the last lexicon word (the greatest, since the lexicon is sorted) is
  never tested. An empty lexicon makes the
  first `next()` throw, so `GetNeighbors` requires a non-empty lexicon. `Candidates`
  (every word but the last) and `Adjacent` (filter to distance one) specify the
  result exactly. `Edge(lexicon, word, s)` means "s is among the neighbors reported
  for word", and it is the edge relation of the word graph that both searches explore.
  `IsWord` and `GetWordCount` are the two plain queries.
- **Ladder validation** (`Ladder` module). `IsWordLadder` is the source's two loops:
  first the adjacent pairs (indices `i`, `j`), then lexicon membership (index `k`).
  It is proved equal to the predicate `ValidLadder`.
- **Searches and path reconstruction** (`Search` module).
  - `GetLadder` uses a LIFO frontier (`addFirst`/`removeFirst`).
  - `GetMinLadder` uses a FIFO frontier (`addLast`/`removeFirst`).
  - Both keep the `visited` set and the `prev` predecessor map, short-circuit when
    `start == end`, and return as soon as `end` is discovered.
  - `Copy` walks `prev` back from `end` until a word has no entry (Java's `null`,
    modelled as `Option`), then reverses the list.
  - A ghost discovery rank (`rank`) proves that this walk terminates. It records the
    order in which words were first visited, and each predecessor ranks below its key.

  Both searches are proved sound: a non-empty result is a walk along `Edge` from
  `start` to `end`. They are also proved complete: an empty result means no such walk
  exists. Completeness is relative to the edge relation the source actually uses,
  which never leads into the last lexicon word. The loop invariants state the
  shared frame (`Frame`):
  - `start` never gets a predecessor;
  - the keys of `prev` are exactly the visited words other than `start`;
  - a predecessor is recorded once, when its key is first marked visited (`Discover`);
  - every frontier word is visited;
  - every expanded word has all its neighbors visited.

The searches use the neighbor scan as written, so the skipped last word is part of
the graph they explore; "## Findings" shows what that costs on a concrete lexicon
and gives the scan over every word, `GetAllNeighbors`, beside it.

## Model

| member | source | states |
|---|---|---|
| `Hamming.Mismatches` | Doublets.java:93-99 | the mismatch count of two equal-length strings is at most their length, and is 0 exactly when the strings are equal |
| `Hamming.Distance` | Doublets.java:86-101 | the distance is -1 exactly when the lengths differ; otherwise it lies between 0 and the length; it is 0 exactly when the strings are equal |
| `Hamming.GetHammingDistance` | Doublets.java:86-101 | the early return and the counting loop over the two character arrays compute exactly `Distance` |
| `Hamming.DistanceSymmetric` | Doublets.java:86-101 | the distance does not depend on argument order |
| `Hamming.DistanceOneIff` | Doublets.java:86-101 | distance 1 holds exactly when the strings have equal length and differ at one position and nowhere else |
| `Lexicon.GetWordCount` | Doublets.java:221-223 | the count is the number of distinct words in the lexicon |
| `Lexicon.IsWord` | Doublets.java:232-237 | true exactly when the string is a lexicon word |
| `Lexicon.AdjacentMembers` | Doublets.java:206-209 | the neighbor filter keeps exactly the scanned words at distance 1 from the query word |
| `Lexicon.AdjacentAscending` | Doublets.java:204-211 | filtering an ascending scan keeps the result ascending |
| `Lexicon.GetNeighbors` | Doublets.java:201-213 | the result is the distance-1 filter of every lexicon word except the last, in lexicon order; a word is in it exactly when it is an `Edge` of the query word; requires a non-empty lexicon, because the first `next()` throws otherwise |
| `Lexicon.NeighborsAscending` | Doublets.java:201-213 | over a sorted lexicon the neighbors are strictly ascending, and the greatest lexicon word is never among them |
| `Lexicon.EdgeFacts` | Doublets.java:207 | every reported neighbor is a lexicon word of the query word's length, at distance 1 in both argument orders |
| `Ladder.IsWordLadder` | Doublets.java:264-285 | the result is true exactly when the sequence is non-empty, every adjacent pair is at distance 1, and every word is in the lexicon |
| `Ladder.Reverse` | Doublets.java:190 | the reversal has the same length, with element i taken from position length-1-i |
| `Ladder.ReverseValid` | Doublets.java:264-285 | a valid ladder read backwards is still valid |
| `Search.Copy` | Doublets.java:185-192 | the result ends with key and its first word has no predecessor; each word is the recorded predecessor of the word after it |
| `Search.ChainUnique` | Doublets.java:185-192 | at most one sequence satisfies copy's contract, so that contract determines the reconstructed path |
| `Search.Discover` | Doublets.java:128-131 | marking an unvisited neighbor visited, recording its predecessor at that moment and ranking it last keeps the search frame; the recorded words grow by exactly that neighbor |
| `Search.ChainIsWalk` | Doublets.java:132-134 | the chain copy rebuilds from a visited end starts at start and follows neighbor edges |
| `Search.WalkStaysInside` | Doublets.java:125-139 | a walk that starts in a set closed under the neighbor relation stays in it, so a search whose frontier empties has no path to the unvisited end |
| `Search.WalkIsLadder` | Doublets.java:201-213 | along a walk every adjacent pair is at distance 1 and every word after the first is in the lexicon |
| `Search.WalkFromWordIsValid` | Doublets.java:264-285 | a walk whose first word is in the lexicon is a ladder that isWordLadder accepts |
| `Search.GetLadder` | Doublets.java:115-140 | start == end gives [start], with no membership requirement; a non-empty result is a neighbor walk from start to end; an empty result means no such walk exists; requires a non-empty lexicon unless start == end |
| `Search.GetMinLadder` | Doublets.java:155-181 | the same three facts for the FIFO search |
| `Lexicon.GetAllNeighbors` | Doublets.java:201-213 | the scan as evidently intended: the result is the distance-1 filter of every lexicon word, and a word is in it exactly when it is a lexicon word at distance 1 |
| `Search.GreatestWordUnreachable` | Doublets.java:202-211 | over the lexicon cat, cog, cot, dog the sequence cat, cot, cog, dog is a valid ladder, yet no neighbor walk leads from cat to dog |
| `Search.MissedLadder` | Doublets.java:155-181 | getMinLadder("cat", "dog") over that lexicon returns the empty ladder |

## Left out

- The constructor's stream reading (Doublets.java:48-67), with its `Scanner`, lowercasing, `in.close()` and `System.exit` on an I/O error. This is I/O. The lexicon is passed in as an ascending sequence of words.
- The library internals of `TreeSet`, `TreeMap`, `ArrayDeque` and `Collections.reverse`. These are Dafny `seq`, `set` and `map` values, and `Reverse` is a function that builds a new sequence rather than reversing a list in place.
- The aliasing of the shared mutable `EMPTY_LADDER` field (Doublets.java:35). It is the empty sequence here.
- The commented-out code in `isWordLadder` (Doublets.java:248-263), which does not run.
- The second `visited.add(string)` at Doublets.java:133 and 174. The word is already visited, so it has no effect; the model leaves it out and says so in a comment.
- Search.GetMinLadder: minimality of the breadth-first ladder (the doc comment at Doublets.java:143-153) is not proved. The model proves the same soundness and completeness facts for both searches. It follows that the comparison "min ladder no longer than any ladder" is not proved either.
- Search.GetLadder: which particular ladder is returned when several exist (the tie-breaking by sorted neighbor order) is not stated. The contract admits any neighbor walk from start to end.
- Lexicon.GetWordCount: Java's `int` result is modelled as an unbounded `nat`, since a lexicon of more than 2^31-1 words is out of reach.
- Complexity and performance claims.
- Hamming.Distance, Lexicon.Below: words are sequences of Unicode code points, while Java's `length`, `toCharArray` and `compareTo` work on UTF-16 code units. The two agree on text inside the Basic Multilingual Plane, such as a lowercase English lexicon; a character outside it counts as two positions in Java and one here.
- Lexicon.GetNeighbors: on an empty lexicon the first `itr.next()` (Doublets.java:203) throws `NoSuchElementException`; the model states this as the precondition `|lexicon| > 0` instead of modelling the exception.
- Search.GetLadder: the precondition `start == end || |lexicon| > 0` stands for the same exception, raised through the first `getNeighbors` call.
- Search.GetMinLadder: the precondition `start == end || |lexicon| > 0` stands for the same exception, raised through the first `getNeighbors` call.

## Findings

| source | as written | input that shows it | evidently intended | confidence | as-written member | corrected member |
|---|---|---|---|---|---|---|
| Doublets.java:202-211 | the iterator is advanced once before the loop and the loop tests `hasNext` before the word it holds, so the last (greatest) lexicon word is never compared and never reported as a neighbor | lexicon {cat, cog, cot, dog}: `getMinLadder("cat", "dog")` returns the empty ladder although cat, cot, cog, dog is a ladder | every lexicon word is tested | not executed | `Search.GreatestWordUnreachable` | `Lexicon.GetAllNeighbors` |

The searches keep the scan as written, so that their contracts describe what the code
returns; `GetAllNeighbors` is the corrected scan with its membership property proved.
