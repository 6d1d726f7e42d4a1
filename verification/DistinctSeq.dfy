/** Sequences in which no element occurs twice. */
module DistinctSeq {

  ghost predicate Differ<T>(s: seq<T>, i: nat, j: nat)
    requires i < |s| && j < |s|
  {
    s[i] != s[j]
  }

  ghost predicate Distinct<T>(s: seq<T>)
  {
    forall i: nat, j: nat {:trigger Differ(s, i, j)} :: i < j < |s| ==> Differ(s, i, j)
  }

  lemma DifferAt<T>(s: seq<T>, i: nat, k: nat)
    requires Distinct(s) && i < |s| && k < |s| && i != k
    ensures s[i] != s[k]
  {
    assert if k < i then Differ(s, k, i) else Differ(s, i, k);
  }

  lemma DistinctInserted<T>(s: seq<T>, i: nat, x: T)
    requires i <= |s| && Distinct(s) && x !in s
    ensures Distinct(s[..i] + [x] + s[i..])
  {
    var after := s[..i] + [x] + s[i..];
    forall j: nat, k: nat | j < k < |after| ensures Differ(after, j, k) {
      if j != i && k != i {
        assert Differ(s, if j < i then j else j - 1, if k < i then k else k - 1);
      }
    }
  }

  lemma DistinctRemoved<T>(s: seq<T>, i: nat)
    requires i < |s| && Distinct(s)
    ensures Distinct(s[..i] + s[i + 1..])
  {
    var after := s[..i] + s[i + 1..];
    forall j: nat, k: nat | j < k < |after| ensures Differ(after, j, k) {
      assert Differ(s, if j < i then j else j + 1, if k < i then k else k + 1);
    }
  }

  /** No more elements than there are in a set that contains them all. */
  lemma DistinctSize<T>(s: seq<T>, all: set<T>)
    requires Distinct(s) && forall k :: 0 <= k < |s| ==> s[k] in all
    ensures |s| <= |all|
    decreases |s|
  {
    if s != [] {
      var n := |s| - 1;
      forall i: nat, j: nat | i < j < n ensures Differ(s[..n], i, j) { assert Differ(s, i, j); }
      forall k: nat | k < n ensures s[..n][k] in all - {s[n]} { assert Differ(s, k, n); }
      DistinctSize(s[..n], all - {s[n]});
    }
  }
}
