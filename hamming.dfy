/** Hamming distance between two words, as computed by Doublets.getHammingDistance. */
module Hamming {

  /** Number of positions at which two equal-length strings differ. */
  function Mismatches(a: string, b: string): (r: nat)
    requires |a| == |b|
    ensures r <= |a|
    ensures r == 0 <==> a == b
  {
    if |a| == 0 then 0
    else
      var n := |a| - 1;
      assert a == a[..n] + [a[n]] && b == b[..n] + [b[n]];
      Mismatches(a[..n], b[..n]) + (if a[n] != b[n] then 1 else 0)
  }

  /** The distance the source reports: -1 when the lengths differ, otherwise the
      number of mismatching positions. */
  function Distance(str1: string, str2: string): (r: int)
    ensures r == -1 <==> |str1| != |str2|
    ensures |str1| == |str2| ==> 0 <= r <= |str1|
    ensures r == 0 <==> str1 == str2
  {
    if |str1| != |str2| then -1 else Mismatches(str1, str2)
  }

  /** The two strings have equal length and differ at position i and nowhere else. */
  predicate DiffersOnlyAt(a: string, b: string, i: int)
  {
    |a| == |b| && 0 <= i < |a| && a[i] != b[i] &&
    forall j :: 0 <= j < |a| && j != i ==> a[j] == b[j]
  }

  /** The counting loop of getHammingDistance over the two character arrays. */
  method GetHammingDistance(str1: string, str2: string) returns (d: int)
    ensures d == Distance(str1, str2)
  {
    if |str1| != |str2| {
      return -1;
    }
    d := 0;
    var i := 0;
    while i < |str1|
      invariant 0 <= i <= |str1|
      invariant d == Mismatches(str1[..i], str2[..i])
    {
      assert str1[..i + 1][..i] == str1[..i] && str2[..i + 1][..i] == str2[..i];
      if str1[i] != str2[i] {
        d := d + 1;
      }
      i := i + 1;
    }
    assert str1[..i] == str1 && str2[..i] == str2;
  }

  lemma {:induction false} MismatchesSymmetric(a: string, b: string)
    requires |a| == |b|
    ensures Mismatches(a, b) == Mismatches(b, a)
  {
    if |a| > 0 {
      var n := |a| - 1;
      MismatchesSymmetric(a[..n], b[..n]);
    }
  }

  /** The distance does not depend on the order of its arguments. */
  lemma DistanceSymmetric(str1: string, str2: string)
    ensures Distance(str1, str2) == Distance(str2, str1)
  {
    if |str1| == |str2| {
      MismatchesSymmetric(str1, str2);
    }
  }

  lemma {:induction false} MismatchesOneIff(a: string, b: string)
    requires |a| == |b|
    ensures Mismatches(a, b) == 1 <==> exists i :: DiffersOnlyAt(a, b, i)
  {
    if |a| == 0 {
      return;
    }
    var n := |a| - 1;
    var a', b' := a[..n], b[..n];
    MismatchesOneIff(a', b');
    if Mismatches(a, b) == 1 {
      if a[n] != b[n] {
        assert a' == b';
        assert DiffersOnlyAt(a, b, n) by {
          forall j | 0 <= j < |a| && j != n ensures a[j] == b[j] {
            assert a[j] == a'[j] && b[j] == b'[j];
          }
        }
      } else {
        var i :| DiffersOnlyAt(a', b', i);
        assert DiffersOnlyAt(a, b, i) by {
          forall j | 0 <= j < |a| && j != i ensures a[j] == b[j] {
            if j < n {
              assert a[j] == a'[j] && b[j] == b'[j];
            }
          }
        }
      }
    }
    if exists i :: DiffersOnlyAt(a, b, i) {
      var i :| DiffersOnlyAt(a, b, i);
      if i == n {
        assert a' == b' by {
          forall j | 0 <= j < n ensures a'[j] == b'[j] {
            assert a[j] == b[j];
          }
        }
      } else {
        assert DiffersOnlyAt(a', b', i);
      }
    }
  }

  /** Distance one means: same length, and exactly one position differs. */
  lemma DistanceOneIff(str1: string, str2: string)
    ensures Distance(str1, str2) == 1 <==>
              |str1| == |str2| && exists i :: DiffersOnlyAt(str1, str2, i)
  {
    if |str1| == |str2| {
      MismatchesOneIff(str1, str2);
    }
  }
}
