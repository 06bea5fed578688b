/**
  The torrent snapshot and the pure definitions the clean-up decisions are
  specified by: the ordering by upload ratio, the minimum-ratio filter, the
  total size of a list and the greedy free-space selection.
 */
module Torrents {

  /** One entry of the daemon's torrent list, reduced to the fields the clean-up reads. */
  datatype Torrent = Torrent(id: int, totalSize: nat, uploadRatio: real)

  // ---------------------------------------------------------------------------
  // Ordering by upload ratio, highest first, equal ratios in input order
  // ---------------------------------------------------------------------------

  ghost predicate SortedByRatioDesc(s: seq<Torrent>) {
    forall i, j :: 0 <= i < j < |s| ==> s[i].uploadRatio >= s[j].uploadRatio
  }

  /** Places `t` in front of the first entry of `s` whose ratio is not above its own. */
  function InsertByRatio(t: Torrent, s: seq<Torrent>): (r: seq<Torrent>)
    ensures multiset(r) == multiset(s) + multiset{t}
  {
    if s == [] || s[0].uploadRatio <= t.uploadRatio then [t] + s
    else
      assert s == [s[0]] + s[1..];
      [s[0]] + InsertByRatio(t, s[1..])
  }

  /** The list ordered as a stable sort on descending upload ratio leaves it. */
  function SortByRatio(s: seq<Torrent>): (r: seq<Torrent>)
    ensures multiset(r) == multiset(s)
  {
    if s == [] then []
    else
      assert s == [s[0]] + s[1..];
      InsertByRatio(s[0], SortByRatio(s[1..]))
  }

  /** The entries of `s` whose ratio is exactly `x`, in their order in `s`. */
  function WithRatio(s: seq<Torrent>, x: real): seq<Torrent> {
    if s == [] then []
    else (if s[0].uploadRatio == x then [s[0]] else []) + WithRatio(s[1..], x)
  }

  lemma {:induction false} InsertKeepsSorted(t: Torrent, s: seq<Torrent>)
    requires SortedByRatioDesc(s)
    ensures SortedByRatioDesc(InsertByRatio(t, s))
  {
    if s == [] || s[0].uploadRatio <= t.uploadRatio {
    } else {
      var rest := InsertByRatio(t, s[1..]);
      InsertKeepsSorted(t, s[1..]);
      forall i | 0 <= i < |rest| ensures rest[i].uploadRatio <= s[0].uploadRatio {
        assert rest[i] in multiset(rest);
        assert rest[i] == t || rest[i] in multiset(s[1..]);
        if rest[i] != t {
          var j :| 0 <= j < |s[1..]| && s[1..][j] == rest[i];
          assert s[j + 1] == rest[i];
        }
      }
    }
  }

  /** The ordering is non-increasing in upload ratio. */
  lemma {:induction false} SortByRatioSorted(s: seq<Torrent>)
    ensures SortedByRatioDesc(SortByRatio(s))
  {
    if s != [] {
      SortByRatioSorted(s[1..]);
      InsertKeepsSorted(s[0], SortByRatio(s[1..]));
    }
  }

  lemma {:induction false} InsertWithRatio(t: Torrent, s: seq<Torrent>, x: real)
    ensures WithRatio(InsertByRatio(t, s), x)
         == (if t.uploadRatio == x then [t] else []) + WithRatio(s, x)
  {
    if s == [] || s[0].uploadRatio <= t.uploadRatio {
      assert ([t] + s)[1..] == s;
    } else {
      var r := InsertByRatio(t, s);
      InsertWithRatio(t, s[1..], x);
      assert r[1..] == InsertByRatio(t, s[1..]);
    }
  }

  /** Torrents with equal upload ratios keep their original relative order. */
  lemma {:induction false} SortByRatioStable(s: seq<Torrent>, x: real)
    ensures WithRatio(SortByRatio(s), x) == WithRatio(s, x)
  {
    if s != [] {
      SortByRatioStable(s[1..], x);
      InsertWithRatio(s[0], SortByRatio(s[1..]), x);
    }
  }

  // ---------------------------------------------------------------------------
  // Minimum-ratio filter
  // ---------------------------------------------------------------------------

  /** The entries whose ratio is at least `minRatio` (inclusive), in list order. */
  function Eligible(s: seq<Torrent>, minRatio: real): (r: seq<Torrent>)
    ensures forall t :: t in r <==> t in s && t.uploadRatio >= minRatio
    ensures |r| <= |s|
  {
    if s == [] then []
    else
      assert s == [s[0]] + s[1..];
      (if s[0].uploadRatio >= minRatio then [s[0]] else []) + Eligible(s[1..], minRatio)
  }

  /** The tail of a descending list is descending, and its head is the largest entry. */
  lemma SortedTail(s: seq<Torrent>)
    requires SortedByRatioDesc(s) && s != []
    ensures SortedByRatioDesc(s[1..])
    ensures forall i :: 0 <= i < |s| ==> s[i].uploadRatio <= s[0].uploadRatio
  {
    forall i, j | 0 <= i < j < |s[1..]| ensures s[1..][i].uploadRatio >= s[1..][j].uploadRatio {
      assert s[1..][i] == s[i + 1] && s[1..][j] == s[j + 1];
    }
  }

  /**
    On a list sorted by descending ratio the eligible torrents form a prefix,
    and every torrent after that prefix is below the minimum ratio.
   */
  lemma {:induction false} EligibleIsPrefix(s: seq<Torrent>, minRatio: real)
    requires SortedByRatioDesc(s)
    ensures Eligible(s, minRatio) == s[..|Eligible(s, minRatio)|]
    ensures forall i :: |Eligible(s, minRatio)| <= i < |s| ==> s[i].uploadRatio < minRatio
  {
    if s != [] {
      var tail := Eligible(s[1..], minRatio);
      SortedTail(s);
      EligibleIsPrefix(s[1..], minRatio);
      if s[0].uploadRatio >= minRatio {
        assert Eligible(s, minRatio) == [s[0]] + tail;
        assert s[..|tail| + 1] == [s[0]] + s[1..][..|tail|];
        forall i | |tail| + 1 <= i < |s| ensures s[i].uploadRatio < minRatio {
          assert s[i] == s[1..][i - 1];
        }
      } else {
        assert Eligible(s, minRatio) == tail;
      }
    }
  }

  // ---------------------------------------------------------------------------
  // Total size
  // ---------------------------------------------------------------------------

  /** The sum of `totalSize` over a list. */
  function TotalSize(s: seq<Torrent>): nat {
    if s == [] then 0 else TotalSize(s[..|s| - 1]) + s[|s| - 1].totalSize
  }

  lemma {:induction false} TotalSizeConcat(a: seq<Torrent>, b: seq<Torrent>)
    ensures TotalSize(a + b) == TotalSize(a) + TotalSize(b)
  {
    if b != [] {
      assert (a + b)[..|a + b| - 1] == a + b[..|b| - 1];
      TotalSizeConcat(a, b[..|b| - 1]);
    } else {
      assert a + b == a;
    }
  }

  /** Extending a prefix by one torrent adds that torrent's size. */
  lemma TotalSizePrefixStep(s: seq<Torrent>, i: nat)
    requires i < |s|
    ensures TotalSize(s[..i + 1]) == TotalSize(s[..i]) + s[i].totalSize
  {
    assert s[..i + 1][..i] == s[..i];
  }

  lemma TotalSizeCons(t: Torrent, s: seq<Torrent>)
    ensures TotalSize([t] + s) == t.totalSize + TotalSize(s)
  {
    TotalSizeConcat([t], s);
    assert [t][..0] == [];
  }

  // ---------------------------------------------------------------------------
  // Free-space selection
  // ---------------------------------------------------------------------------

  /** Walks `s`, taking each torrent while `total` is below `target`, and stops at the first that fails. */
  function GreedyTake(s: seq<Torrent>, target: int, total: int): (r: seq<Torrent>)
    ensures |r| <= |s|
    decreases |s|
  {
    if s == [] || total >= target then []
    else [s[0]] + GreedyTake(s[1..], target, total + s[0].totalSize)
  }

  /** The torrents the free-space mode picks from `eligible` to free `spaceToFree` bytes. */
  function FreeSpaceSelection(eligible: seq<Torrent>, spaceToFree: int): seq<Torrent> {
    GreedyTake(eligible, spaceToFree, 0)
  }

  /**
    `k` is where a walk over `s` that adds each size while the running total is
    below `target` stops: every shorter prefix is below the target, and either
    the walk reached the end or the first `k` sizes reach the target.
   */
  ghost predicate IsGreedyCut(s: seq<Torrent>, target: int, k: nat) {
    && k <= |s|
    && (forall j :: 0 <= j < k ==> TotalSize(s[..j]) < target)
    && (k == |s| || TotalSize(s[..k]) >= target)
  }

  lemma {:induction false} GreedyTakeStops(s: seq<Torrent>, target: int, total: int)
    ensures var r := GreedyTake(s, target, total);
      && r == s[..|r|]
      && (forall j :: 0 <= j < |r| ==> total + TotalSize(s[..j]) < target)
      && (|r| == |s| || total + TotalSize(s[..|r|]) >= target)
  {
    if s == [] || total >= target {
      assert s[..0] == [];
    } else {
      var total' := total + s[0].totalSize;
      var rest := GreedyTake(s[1..], target, total');
      GreedyTakeStops(s[1..], target, total');
      assert s[..|rest| + 1] == [s[0]] + s[1..][..|rest|];
      forall j | 0 <= j <= |rest|
        ensures TotalSize(s[..j + 1]) == s[0].totalSize + TotalSize(s[1..][..j])
      {
        assert s[..j + 1] == [s[0]] + s[1..][..j];
        TotalSizeCons(s[0], s[1..][..j]);
      }
      forall j | 0 <= j < |rest| + 1 ensures total + TotalSize(s[..j]) < target {
        if j == 0 {
          assert s[..0] == [];
        } else {
          assert total' + TotalSize(s[1..][..j - 1]) < target;
        }
      }
    }
  }

  /** The free-space selection is a prefix of the eligible list cut where the greedy walk stops. */
  lemma FreeSpaceSelectionIsCut(s: seq<Torrent>, spaceToFree: int)
    ensures var r := FreeSpaceSelection(s, spaceToFree);
      r == s[..|r|] && IsGreedyCut(s, spaceToFree, |r|)
  {
    GreedyTakeStops(s, spaceToFree, 0);
  }

  /** There is only one place where the greedy walk can stop, so it determines the selection. */
  lemma GreedyCutDeterminesSelection(s: seq<Torrent>, spaceToFree: int, k: nat)
    requires IsGreedyCut(s, spaceToFree, k)
    ensures FreeSpaceSelection(s, spaceToFree) == s[..k]
  {
    var r := FreeSpaceSelection(s, spaceToFree);
    FreeSpaceSelectionIsCut(s, spaceToFree);
  }

  /**
    What the free-space walk promises about its selection: it is a prefix of
    the eligible list, each torrent was taken while the running total was still
    below the amount to free, the walk either took everything or reached that
    amount with its last pick, and nothing is taken when nothing is to be freed.
   */
  lemma FreeSpaceSelectionProperties(s: seq<Torrent>, spaceToFree: int)
    ensures var r := FreeSpaceSelection(s, spaceToFree);
      && r == s[..|r|]
      && (forall j :: 0 <= j < |r| ==> TotalSize(r[..j]) < spaceToFree)
      && (|r| == |s| || TotalSize(r) >= spaceToFree)
      && (spaceToFree <= 0 ==> r == [])
  {
    var r := FreeSpaceSelection(s, spaceToFree);
    FreeSpaceSelectionIsCut(s, spaceToFree);
    forall j | 0 <= j < |r| ensures TotalSize(r[..j]) < spaceToFree {
      assert r[..j] == s[..j];
    }
    assert r != [] ==> r[..0] == [];
  }

  /**
    The free-space selection over the eligible part of the sorted list is a
    prefix of the sorted list itself, and only holds torrents that meet the
    minimum ratio: no torrent is skipped and then followed by a lower-ratio one.
   */
  lemma SelectionIsPrefixOfSorted(fetched: seq<Torrent>, minRatio: real, spaceToFree: int)
    ensures var sorted := SortByRatio(fetched);
      var r := FreeSpaceSelection(Eligible(sorted, minRatio), spaceToFree);
      && r == sorted[..|r|]
      && (forall t :: t in Eligible(sorted, minRatio) ==> t in fetched && t.uploadRatio >= minRatio)
      && (forall t :: t in r ==> t in fetched && t.uploadRatio >= minRatio)
  {
    var sorted := SortByRatio(fetched);
    var eligible := Eligible(sorted, minRatio);
    var r := FreeSpaceSelection(eligible, spaceToFree);
    SortByRatioSorted(fetched);
    EligibleIsPrefix(sorted, minRatio);
    FreeSpaceSelectionIsCut(eligible, spaceToFree);
    assert r == sorted[..|r|];
    forall t | t in eligible ensures t in fetched && t.uploadRatio >= minRatio {
      assert t in multiset(sorted);
    }
    forall t | t in r ensures t in eligible {
    }
  }
}
