/** The two ladder searches (getLadder, getMinLadder) and the path
    reconstruction they share (copy). */
module Search {
  import opened Hamming
  import opened Lexicon
  import opened Ladder

  datatype Option<T> = None | Some(value: T)

  /** Map.get: the predecessor of key, or None (Java's null). */
  function Lookup(m: map<string, string>, key: string): Option<string>
  {
    if key in m then Some(m[key]) else None
  }

  // ---------------------------------------------------------------------------
  // Walks in the word graph

  /** p is a walk along the edges getNeighbors reports. */
  predicate IsWalk(lexicon: seq<string>, p: seq<string>)
  {
    |p| > 0 && forall i :: 0 <= i < |p| - 1 ==> Edge(lexicon, p[i], p[i + 1])
  }

  /** p is a walk from start to end. */
  predicate Connects(lexicon: seq<string>, p: seq<string>, start: string, end: string)
  {
    IsWalk(lexicon, p) && p[0] == start && p[|p| - 1] == end
  }

  /** A walk has the shape of a ladder: adjacent words at distance one and
      every word after the first in the lexicon. */
  lemma WalkIsLadder(lexicon: seq<string>, p: seq<string>)
    requires IsWalk(lexicon, p)
    ensures forall i :: 0 <= i < |p| - 1 ==> Distance(p[i], p[i + 1]) == 1
    ensures forall i :: 0 < i < |p| ==> p[i] in Words(lexicon)
  {
    forall i | 0 < i < |p| ensures Distance(p[i - 1], p[i]) == 1 && p[i] in Words(lexicon) {
      EdgeFacts(lexicon, p[i - 1], p[i]);
    }
  }

  /** A walk from a lexicon word is a ladder that isWordLadder accepts. */
  lemma WalkFromWordIsValid(lexicon: seq<string>, p: seq<string>)
    requires IsWalk(lexicon, p) && p[0] in Words(lexicon)
    ensures ValidLadder(lexicon, p)
  {
    WalkIsLadder(lexicon, p);
  }

  /** A walk that starts inside a set closed under the edges never leaves it. */
  lemma {:induction false} WalkStaysInside(lexicon: seq<string>, inside: set<string>, p: seq<string>)
    requires IsWalk(lexicon, p) && p[0] in inside
    requires forall w, x :: w in inside && Edge(lexicon, w, x) ==> x in inside
    ensures p[|p| - 1] in inside
  {
    if |p| > 1 {
      var n := |p| - 1;
      WalkStaysInside(lexicon, inside, p[..n]);
      assert Edge(lexicon, p[n - 1], p[n]);
    }
  }

  // ---------------------------------------------------------------------------
  // Path reconstruction

  /** Every predecessor ranks strictly below its key, so following
      predecessors always stops. */
  ghost predicate RankedTree(m: map<string, string>, rank: map<string, nat>)
  {
    forall k :: k in m ==> k in rank && m[k] in rank && rank[m[k]] < rank[k]
  }

  /** r is the predecessor chain ending at key: each word is the recorded
      predecessor of the next, and the first word has no predecessor. */
  ghost predicate PredecessorChain(m: map<string, string>, key: string, r: seq<string>)
  {
    && |r| > 0 && r[|r| - 1] == key && r[0] !in m
    && forall i :: 0 < i < |r| ==> r[i] in m && m[r[i]] == r[i - 1]
  }

  ghost function Height(m: map<string, string>, rank: map<string, nat>, k: Option<string>): nat
    requires RankedTree(m, rank)
  {
    match k
    case None => 0
    case Some(x) => if x in m then rank[x] + 2 else 1
  }

  /** copy: collect key, its predecessor, its predecessor's predecessor, ...
      until none is recorded, then reverse. */
  method Copy(m: map<string, string>, key: string, ghost rank: map<string, nat>) returns (doub: seq<string>)
    requires RankedTree(m, rank)
    ensures PredecessorChain(m, key, doub)
  {
    var walk: seq<string> := [];
    var k := Some(key);
    while k.Some?
      invariant walk == [] ==> k == Some(key)
      invariant walk != [] ==> walk[0] == key
      invariant walk != [] && k.Some? ==> walk[|walk| - 1] in m && m[walk[|walk| - 1]] == k.value
      invariant k.None? ==> walk != [] && walk[|walk| - 1] !in m
      invariant forall i :: 0 <= i < |walk| - 1 ==> walk[i] in m && m[walk[i]] == walk[i + 1]
      decreases Height(m, rank, k)
    {
      walk := walk + [k.value];
      k := Lookup(m, k.value);
    }
    doub := Reverse(walk);
    var n := |walk|;
    forall i | 0 < i < n ensures doub[i] in m && m[doub[i]] == doub[i - 1] {
      assert doub[i] == walk[n - 1 - i] && doub[i - 1] == walk[n - i];
    }
  }

  /** The chain copy returns is the only one: copy's contract determines its result. */
  lemma {:induction false} ChainUnique(m: map<string, string>, key: string, r1: seq<string>, r2: seq<string>)
    requires PredecessorChain(m, key, r1) && PredecessorChain(m, key, r2)
    ensures r1 == r2
    decreases |r1|
  {
    var n1, n2 := |r1| - 1, |r2| - 1;
    if n1 == 0 || n2 == 0 {
      assert r1[n1] == key && r2[n2] == key;
      assert key !in m;
    } else {
      assert r1[n1] in m;
      ChainUnique(m, m[key], r1[..n1], r2[..n2]);
      assert r1 == r1[..n1] + [key] && r2 == r2[..n2] + [key];
    }
  }

  // ---------------------------------------------------------------------------
  // The frame shared by both searches

  /** All words a search can ever mark visited. */
  function Universe(lexicon: seq<string>, start: string): set<string>
  {
    Words(lexicon) + {start}
  }

  /** w is visited but has no recorded predecessor. */
  predicate Unrecorded(prev: map<string, string>, visited: set<string>, w: string)
  {
    w in visited && w !in prev
  }

  /** The state of visited, prev (and the ghost discovery ranks) during a
      search: prev is a tree rooted at start whose keys are exactly the
      visited words other than start, and each entry is an edge. */
  ghost predicate Frame(lexicon: seq<string>, start: string, visited: set<string>,
                        prev: map<string, string>, rank: map<string, nat>, n: nat)
  {
    && start in visited && visited <= Universe(lexicon, start)
    && start !in prev && prev.Keys <= visited
    && (forall w :: Unrecorded(prev, visited, w) ==> w == start)
    && rank.Keys == visited
    && (forall w :: w in rank ==> rank[w] < n)
    && RankedTree(prev, rank)
    && (forall k :: k in prev ==> Edge(lexicon, prev[k], k))
  }

  /** Marking a newly discovered neighbor visited and recording its predecessor
      at that moment keeps the frame; earlier entries are left as they were. */
  lemma Discover(lexicon: seq<string>, start: string, visited: set<string>, prev: map<string, string>,
                 rank: map<string, nat>, n: nat, node: string, neighbor: string)
    requires Frame(lexicon, start, visited, prev, rank, n)
    requires node in visited && neighbor !in visited && Edge(lexicon, node, neighbor)
    ensures Frame(lexicon, start, visited + {neighbor}, prev[neighbor := node], rank[neighbor := n], n + 1)
    ensures neighbor !in prev && prev[neighbor := node].Keys == prev.Keys + {neighbor}
  {
    EdgeFacts(lexicon, node, neighbor);
    var visited', prev' := visited + {neighbor}, prev[neighbor := node];
    forall w | Unrecorded(prev', visited', w) ensures w == start {
      assert Unrecorded(prev, visited, w);
    }
  }

  /** The chain copy reconstructs from a visited end is a walk from start. */
  lemma ChainIsWalk(lexicon: seq<string>, start: string, visited: set<string>, prev: map<string, string>,
                    rank: map<string, nat>, n: nat, end: string, r: seq<string>)
    requires Frame(lexicon, start, visited, prev, rank, n)
    requires end in visited && PredecessorChain(prev, end, r)
    ensures Connects(lexicon, r, start, end)
  {
    assert Unrecorded(prev, visited, r[0]) by {
      if |r| > 1 {
        assert prev[r[1]] == r[0];
      }
    }
    forall i | 0 <= i < |r| - 1 ensures Edge(lexicon, r[i], r[i + 1]) {
      assert r[i + 1] in prev && prev[r[i + 1]] == r[i];
    }
  }

  // ---------------------------------------------------------------------------
  // The searches

  /** getLadder: depth-first search with a LIFO frontier (addFirst/removeFirst);
      returns as soon as end is discovered. */
  method GetLadder(lexicon: seq<string>, start: string, end: string) returns (ladder: seq<string>)
    requires start == end || |lexicon| > 0
    ensures start == end ==> ladder == [start]
    ensures ladder != [] ==> Connects(lexicon, ladder, start, end)
    ensures ladder == [] ==> forall p :: !Connects(lexicon, p, start, end)
  {
    var s: seq<string> := [start];
    var visited: set<string> := {start};
    var prev: map<string, string> := map[];
    ghost var rank: map<string, nat> := map[start := 0];
    ghost var n: nat := 1;
    ghost var closed: set<string> := {};
    if start == end {
      ladder := Copy(prev, end, rank);
      return;
    }
    while end !in visited && |s| > 0
      invariant Frame(lexicon, start, visited, prev, rank, n)
      invariant end !in visited
      invariant forall w :: w in s ==> w in visited
      invariant closed <= visited
      invariant forall w :: w in visited ==> w in closed || w in s
      invariant forall w, x :: w in closed && Edge(lexicon, w, x) ==> x in visited
      decreases Universe(lexicon, start) - visited, |s|
    {
      var node := s[0];
      s := s[1..];
      var neighbors := GetNeighbors(lexicon, node);
      ghost var visited0, s0 := visited, s;
      var i := 0;
      while i < |neighbors|
        invariant 0 <= i <= |neighbors|
        invariant Frame(lexicon, start, visited, prev, rank, n)
        invariant end !in visited
        invariant visited0 <= visited && (visited == visited0 ==> s == s0)
        invariant forall w :: w in s ==> w in visited
        invariant node in visited && closed <= visited
        invariant forall w :: w in visited ==> w in closed || w in s || w == node
        invariant forall w, x :: w in closed && Edge(lexicon, w, x) ==> x in visited
        invariant forall j :: 0 <= j < i ==> neighbors[j] in visited
      {
        var neighbor := neighbors[i];
        if neighbor !in visited {
          Discover(lexicon, start, visited, prev, rank, n, node, neighbor);
          visited := visited + {neighbor};
          s := [neighbor] + s;
          prev := prev[neighbor := node];
          rank := rank[neighbor := n];
          n := n + 1;
          if neighbor == end {
            // Doublets.java:133 adds node to visited again; it is already there.
            ladder := Copy(prev, end, rank);
            ChainIsWalk(lexicon, start, visited, prev, rank, n, end, ladder);
            return;
          }
        }
        i := i + 1;
      }
      closed := closed + {node};
      if visited != visited0 {
        var x :| x in visited && x !in visited0;
        assert x in Universe(lexicon, start) - visited0;
      }
    }
    ladder := [];
    forall p | IsWalk(lexicon, p) && p[0] == start ensures p[|p| - 1] != end {
      WalkStaysInside(lexicon, visited, p);
    }
  }

  /** getMinLadder: breadth-first search with a FIFO frontier (addLast/removeFirst);
      otherwise the same frame as getLadder. */
  method GetMinLadder(lexicon: seq<string>, start: string, end: string) returns (ladder: seq<string>)
    requires start == end || |lexicon| > 0
    ensures start == end ==> ladder == [start]
    ensures ladder != [] ==> Connects(lexicon, ladder, start, end)
    ensures ladder == [] ==> forall p :: !Connects(lexicon, p, start, end)
  {
    var q: seq<string> := [start];
    var visited: set<string> := {start};
    var prev: map<string, string> := map[];
    ghost var rank: map<string, nat> := map[start := 0];
    ghost var n: nat := 1;
    ghost var closed: set<string> := {};
    if start == end {
      ladder := Copy(prev, end, rank);
      return;
    }
    while end !in visited && |q| > 0
      invariant Frame(lexicon, start, visited, prev, rank, n)
      invariant end !in visited
      invariant forall w :: w in q ==> w in visited
      invariant closed <= visited
      invariant forall w :: w in visited ==> w in closed || w in q
      invariant forall w, x :: w in closed && Edge(lexicon, w, x) ==> x in visited
      decreases Universe(lexicon, start) - visited, |q|
    {
      var node := q[0];
      q := q[1..];
      var neighbors := GetNeighbors(lexicon, node);
      ghost var visited0, q0 := visited, q;
      var i := 0;
      while i < |neighbors|
        invariant 0 <= i <= |neighbors|
        invariant Frame(lexicon, start, visited, prev, rank, n)
        invariant end !in visited
        invariant visited0 <= visited && (visited == visited0 ==> q == q0)
        invariant forall w :: w in q ==> w in visited
        invariant node in visited && closed <= visited
        invariant forall w :: w in visited ==> w in closed || w in q || w == node
        invariant forall w, x :: w in closed && Edge(lexicon, w, x) ==> x in visited
        invariant forall j :: 0 <= j < i ==> neighbors[j] in visited
      {
        var neighbor := neighbors[i];
        if neighbor !in visited {
          Discover(lexicon, start, visited, prev, rank, n, node, neighbor);
          visited := visited + {neighbor};
          q := q + [neighbor];
          prev := prev[neighbor := node];
          rank := rank[neighbor := n];
          n := n + 1;
          if neighbor == end {
            // Doublets.java:174 adds node to visited again; it is already there.
            ladder := Copy(prev, end, rank);
            ChainIsWalk(lexicon, start, visited, prev, rank, n, end, ladder);
            return;
          }
        }
        i := i + 1;
      }
      closed := closed + {node};
      if visited != visited0 {
        var x :| x in visited && x !in visited0;
        assert x in Universe(lexicon, start) - visited0;
      }
    }
    ladder := [];
    forall p | IsWalk(lexicon, p) && p[0] == start ensures p[|p| - 1] != end {
      WalkStaysInside(lexicon, visited, p);
    }
  }

  // ---------------------------------------------------------------------------
  // The skipped greatest word, on a concrete lexicon

  /** Over the lexicon cat, cog, cot, dog no neighbor walk reaches dog, the
      greatest word, although cat, cot, cog, dog is a valid ladder. */
  lemma GreatestWordUnreachable()
    ensures ValidLadder(["cat", "cog", "cot", "dog"], ["cat", "cot", "cog", "dog"])
    ensures forall p :: !Connects(["cat", "cog", "cot", "dog"], p, "cat", "dog")
  {
    var lexicon := ["cat", "cog", "cot", "dog"];
    assert DiffersOnlyAt("cat", "cot", 1);
    assert DiffersOnlyAt("cot", "cog", 2);
    assert DiffersOnlyAt("cog", "dog", 0);
    DistanceOneIff("cat", "cot");
    DistanceOneIff("cot", "cog");
    DistanceOneIff("cog", "dog");
    assert Candidates(lexicon) == ["cat", "cog", "cot"];
    forall p | IsWalk(lexicon, p) && p[0] == "cat" ensures p[|p| - 1] != "dog" {
      if |p| > 1 {
        assert Edge(lexicon, p[|p| - 2], p[|p| - 1]);
      }
    }
  }

  /** getMinLadder("cat", "dog") over that lexicon returns the empty ladder. */
  method MissedLadder() returns (ladder: seq<string>)
    ensures ladder == []
  {
    ladder := GetMinLadder(["cat", "cog", "cot", "dog"], "cat", "dog");
    GreatestWordUnreachable();
  }
}
