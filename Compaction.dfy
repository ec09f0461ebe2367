/** Removing the unused entries of a vector while a `deleted` counter runs,
    as `prune_unused` does for nodes and for edges, and the old-index to
    new-index mapping this produces. `keep[i]` says whether entry `i`
    survives. */
module Compaction {
  import opened Wrappers

  /** The number of kept entries among the first `i`. */
  function Rank(keep: seq<bool>, i: nat): (r: nat)
    requires i <= |keep|
    ensures r <= i
  {
    if i == 0 then 0 else Rank(keep, i - 1) + (if keep[i - 1] then 1 else 0)
  }

  /** The number of removed entries among the first `i`: the value of the
      `deleted` counter when entry `i` is reached. */
  function Deleted(keep: seq<bool>, i: nat): nat
    requires i <= |keep|
  {
    if i == 0 then 0 else Deleted(keep, i - 1) + (if keep[i - 1] then 0 else 1)
  }

  lemma {:induction false} RankPlusDeleted(keep: seq<bool>, i: nat)
    requires i <= |keep|
    ensures Rank(keep, i) + Deleted(keep, i) == i
  {
    if i > 0 {
      RankPlusDeleted(keep, i - 1);
    }
  }

  /** Ranks grow with the position, strictly past a kept entry: the
      surviving entries keep their relative order. */
  lemma {:induction false} RankMonotone(keep: seq<bool>, i: nat, j: nat)
    requires i <= j <= |keep|
    ensures Rank(keep, i) <= Rank(keep, j)
    ensures i < j && keep[i] ==> Rank(keep, i) < Rank(keep, j)
    decreases j - i
  {
    if i < j {
      RankMonotone(keep, i, j - 1);
    }
  }

  /** The kept entries among the first `n`, in order. */
  function CompactUpTo<T>(s: seq<T>, keep: seq<bool>, n: nat): (r: seq<T>)
    requires |s| == |keep| && n <= |s|
    ensures |r| == Rank(keep, n)
  {
    if n == 0 then [] else CompactUpTo(s, keep, n - 1) + (if keep[n - 1] then [s[n - 1]] else [])
  }

  function Compact<T>(s: seq<T>, keep: seq<bool>): (r: seq<T>)
    requires |s| == |keep|
    ensures |r| == Rank(keep, |keep|)
  {
    CompactUpTo(s, keep, |s|)
  }

  /** A kept entry `i` lands at position `Rank(keep, i)`. */
  lemma {:induction false} CompactAt<T>(s: seq<T>, keep: seq<bool>, n: nat, i: nat)
    requires |s| == |keep| && i < n <= |s| && keep[i]
    ensures Rank(keep, i) < Rank(keep, n)
    ensures CompactUpTo(s, keep, n)[Rank(keep, i)] == s[i]
  {
    RankMonotone(keep, i, n);
    if i < n - 1 {
      CompactAt(s, keep, n - 1, i);
    }
  }

  /** Every position of the compacted vector holds some kept entry. */
  lemma {:induction false} CompactOrigin<T>(s: seq<T>, keep: seq<bool>, n: nat, p: nat) returns (i: nat)
    requires |s| == |keep| && n <= |s| && p < Rank(keep, n)
    ensures i < n && keep[i] && Rank(keep, i) == p
    ensures CompactUpTo(s, keep, n)[p] == s[i]
  {
    if p < Rank(keep, n - 1) {
      i := CompactOrigin(s, keep, n - 1, p);
    } else {
      i := n - 1;
    }
  }

  /** One round of the in-place removal loop: with the first `i` entries
      compacted and the rest untouched (`cur`), entry `i` sits at
      `Rank(keep, i)`, and removing it there when it is not kept (leaving
      it otherwise) compacts the first `i + 1`. Entries past `|keep|` are
      never touched. */
  lemma CompactRemoveStep<T>(s: seq<T>, keep: seq<bool>, i: nat, cur: seq<T>, r: nat)
    requires |keep| <= |s| && i < |keep|
    requires cur == CompactUpTo(s[..|keep|], keep, i) + s[i..] && r == Rank(keep, i)
    ensures r < |cur| && cur[r] == s[i]
    ensures keep[i] ==> cur == CompactUpTo(s[..|keep|], keep, i + 1) + s[i + 1..]
    ensures !keep[i] ==> cur[..r] + cur[r + 1..] == CompactUpTo(s[..|keep|], keep, i + 1) + s[i + 1..]
  {
    var pre := CompactUpTo(s[..|keep|], keep, i);
    assert cur[r] == s[i];
    if keep[i] {
      assert CompactUpTo(s[..|keep|], keep, i + 1) == pre + [s[i]];
      assert pre + [s[i]] + s[i + 1..] == cur;
    } else {
      assert cur[..r] == pre;
      assert cur[r + 1..] == s[i + 1..];
    }
  }

  /** The node or edge mapping returned by `prune_unused`: a kept entry `i`
      maps to its new index, a removed one to `None`. */
  function Mapping(keep: seq<bool>): (m: seq<Option<nat>>)
    ensures |m| == |keep|
  {
    seq(|keep|, i requires 0 <= i < |keep| => if keep[i] then Some(Rank(keep, i)) else None)
  }

  /** The mapping sends a kept entry `i` to `i` minus the number of
      removed entries before it, a new index below the number of kept
      entries, and sends a removed entry to `None`. */
  lemma MappingShift(keep: seq<bool>, i: nat)
    requires i < |keep|
    ensures keep[i] ==> Mapping(keep)[i] == Some(i - Deleted(keep, i))
    ensures keep[i] ==> Mapping(keep)[i].value < Rank(keep, |keep|)
    ensures !keep[i] ==> Mapping(keep)[i] == None
  {
    RankPlusDeleted(keep, i);
    RankMonotone(keep, i, |keep|);
  }

  /** The surviving entries keep their relative order. */
  lemma MappingOrder(keep: seq<bool>, i: nat, j: nat)
    requires i < j < |keep| && keep[i] && keep[j]
    ensures Mapping(keep)[i].value < Mapping(keep)[j].value
  {
    RankMonotone(keep, i, j);
  }

  /** Every new index comes from exactly one old index. */
  lemma MappingOrigin(keep: seq<bool>, p: nat) returns (i: nat)
    requires p < Rank(keep, |keep|)
    ensures i < |keep| && keep[i] && Mapping(keep)[i] == Some(p)
  {
    var s := seq(|keep|, j => j);
    i := CompactOrigin(s, keep, |keep|, p);
  }
}
