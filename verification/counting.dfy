/**
 Counting facts about sequences of node indices: a sequence whose entries are
 pairwise distinct and all below `m` has at most `m` entries, and when it has
 exactly `m` of them it mentions every index below `m`. The playlist uses these
 to show that one lap of the ring visits every node.
 */
module Counting {

  /** No index occurs twice. */
  ghost predicate Distinct(s: seq<nat>) {
    forall i, j :: 0 <= i < j < |s| ==> s[i] != s[j]
  }

  /** Every entry is an index into a collection of size `m`. */
  ghost predicate Below(s: seq<nat>, m: nat) {
    forall i :: 0 <= i < |s| ==> s[i] < m
  }

  /** Pigeonhole: at most `m` distinct indices lie below `m`. */
  lemma {:induction false} DistinctBelowIsShort(s: seq<nat>, m: nat)
    requires Distinct(s) && Below(s, m)
    ensures |s| <= m
    decreases m
  {
    if |s| == 0 {
    } else if p :| 0 <= p < |s| && s[p] == m - 1 {
      // drop the one occurrence of m - 1; what is left lies below m - 1
      var t := seq(|s| - 1, i requires 0 <= i < |s| - 1 => if i < p then s[i] else s[i + 1]);
      forall i, j | 0 <= i < j < |t| ensures t[i] != t[j] {
        var i' := if i < p then i else i + 1;
        var j' := if j < p then j else j + 1;
        assert i' < j';
        assert t[i] == s[i'] && t[j] == s[j'];
      }
      forall i | 0 <= i < |t| ensures t[i] < m - 1 {
        var i' := if i < p then i else i + 1;
        assert t[i] == s[i'] && i' != p;
      }
      DistinctBelowIsShort(t, m - 1);
    } else {
      assert s[0] < m;
      forall i | 0 <= i < |s| ensures s[i] < m - 1 {
        assert s[i] != m - 1;
      }
      DistinctBelowIsShort(s, m - 1);
    }
  }

  /** A missing index leaves room for only `m - 1` distinct entries. */
  lemma {:induction false} MissingMakesShort(s: seq<nat>, m: nat, v: nat)
    requires Distinct(s) && Below(s, m) && v < m
    ensures v !in s ==> |s| <= m - 1
  {
    if v !in s {
      // close the gap at v: every entry above v moves down by one
      var t := seq(|s|, i requires 0 <= i < |s| => if s[i] > v then s[i] - 1 else s[i]);
      forall i, j | 0 <= i < j < |t| ensures t[i] != t[j] {
        assert s[i] != v && s[j] != v;
      }
      forall i | 0 <= i < |t| ensures t[i] < m - 1 {
        assert s[i] != v;
      }
      DistinctBelowIsShort(t, m - 1);
    }
  }

  /** Pigeonhole, the other way round: `m` distinct indices below `m` are all of them. */
  lemma {:induction false} DistinctBelowCovers(s: seq<nat>, m: nat)
    requires Distinct(s) && Below(s, m) && |s| == m
    ensures forall v :: 0 <= v < m ==> v in s
  {
    forall v | 0 <= v < m ensures v in s {
      MissingMakesShort(s, m, v);
    }
  }

  /** Rotating a sequence keeps its entries distinct. */
  lemma {:induction false} DistinctRotate(s: seq<nat>, j: nat)
    requires Distinct(s) && j <= |s|
    ensures Distinct(s[j..] + s[..j])
  {
    var t := s[j..] + s[..j];
    forall a, b | 0 <= a < b < |t| ensures t[a] != t[b] {
      var a' := if a < |s| - j then a + j else a - (|s| - j);
      var b' := if b < |s| - j then b + j else b - (|s| - j);
      assert t[a] == s[a'] && t[b] == s[b'];
      assert a' != b';
    }
  }
}
