/**
  The clean-up driver: the helper object that fetches the torrent list, keeps
  the sorted list, the minimum-ratio sublist and the free-space selection in
  its fields, and decides which torrents to ask the daemon to remove.

  The daemon's torrent list and each free-space probe of the disk are inputs;
  the removal request is the list of IDs in the outcome.
 */
module Helper {
  import opened Torrents
  import opened CleanModes

  /** Minimum seeding ratio a torrent needs before it may be removed. */
  const MinSeedRatioThreshold: real := 3.0

  /** Free space, in bytes, the clean-up tries to keep (100 GiB). */
  const MinFreeSpaceBytes: nat := 100 * 1024 * 1024 * 1024

  /** The gate in front of the clean-up: strictly more free space than the minimum. */
  predicate IsEnoughFreeSpace(free: nat) {
    free > MinFreeSpaceBytes
  }

  /** The report after the clean-up: at least the minimum free space. */
  predicate IsTargetReached(free: nat) {
    free >= MinFreeSpaceBytes
  }

  /**
    Exactly at the minimum the gate lets the clean-up run, yet the final report
    already calls the target reached; above it both agree, below it neither holds.
   */
  lemma GateAndReportDisagreeOnlyAtTarget(free: nat)
    ensures IsEnoughFreeSpace(free) ==> IsTargetReached(free)
    ensures IsTargetReached(free) && !IsEnoughFreeSpace(free) <==> free == MinFreeSpaceBytes
  {
  }

  /** The IDs of the given torrents, in the same order. */
  function Ids(s: seq<Torrent>): (ids: seq<int>)
    ensures |ids| == |s|
    ensures forall i :: 0 <= i < |s| ==> ids[i] == s[i].id
  {
    seq(|s|, i requires 0 <= i < |s| => s[i].id)
  }

  /** How a clean-up run ends; the first two are the early exits. */
  datatype Outcome =
    | AlreadyEnoughSpace        // exit status 0 before anything is fetched
    | NoEligibleTorrent         // exit status 1: nothing of size above zero meets the ratio
    | Cleaned(targetIds: seq<int>, removalRequested: bool, targetReached: bool)

  class TransmissionHelper {
    var torrentList: seq<Torrent>
    var torrentListMinRatio: seq<Torrent>
    var torrentListMinRatioSize: nat
    var torrentListMinFreeSpace: seq<Torrent>
    var torrentListMinFreeSpaceSize: nat

    /** The fetched list is kept sorted, and the minimum-ratio list is filtered from it. */
    ghost predicate Valid()
      reads this`torrentList, this`torrentListMinRatio
    {
      && SortedByRatioDesc(torrentList)
      && torrentListMinRatio == Eligible(torrentList, MinSeedRatioThreshold)
    }

    constructor ()
      ensures Valid()
      ensures torrentList == [] && torrentListMinRatio == [] && torrentListMinRatioSize == 0
      ensures torrentListMinFreeSpace == [] && torrentListMinFreeSpaceSize == 0
    {
      torrentList := [];
      torrentListMinRatio := [];
      torrentListMinRatioSize := 0;
      torrentListMinFreeSpace := [];
      torrentListMinFreeSpaceSize := 0;
    }

    /**
      Stores the fetched list sorted by descending ratio, keeps the torrents at
      or above the minimum ratio, and adds their sizes to the (never reset)
      eligible-size counter.
     */
    method GetTorrentsData(fetched: seq<Torrent>)
      modifies this
      ensures Valid()
      ensures torrentList == SortByRatio(fetched)
      ensures torrentListMinRatio == Eligible(torrentList, MinSeedRatioThreshold)
      ensures torrentListMinRatioSize == old(torrentListMinRatioSize) + TotalSize(torrentListMinRatio)
      ensures torrentListMinFreeSpace == old(torrentListMinFreeSpace)
      ensures torrentListMinFreeSpaceSize == old(torrentListMinFreeSpaceSize)
    {
      torrentList := fetched;
      torrentList := SortByRatio(torrentList);
      SortByRatioSorted(fetched);
      torrentListMinRatio := Eligible(torrentList, MinSeedRatioThreshold);
      AddMinRatioSizes();
    }

    /** Adds the sizes of the minimum-ratio list to its (never reset) counter. */
    method AddMinRatioSizes()
      modifies this`torrentListMinRatioSize
      ensures torrentListMinRatioSize == old(torrentListMinRatioSize) + TotalSize(torrentListMinRatio)
    {
      var eligible := torrentListMinRatio;
      ghost var start := torrentListMinRatioSize;
      for i := 0 to |eligible|
        invariant torrentListMinRatioSize == start + TotalSize(eligible[..i])
      {
        TotalSizePrefixStep(eligible, i);
        torrentListMinRatioSize := torrentListMinRatioSize + eligible[i].totalSize;
      }
      assert eligible[..|eligible|] == eligible;
    }

    /**
      Appends to the free-space list the torrents of the minimum-ratio list
      taken in order while their running total is below `spaceToFree`, then
      adds the sizes of the whole free-space list to its (never reset) counter.
     */
    method SelectForFreeSpace(spaceToFree: int)
      requires Valid()
      modifies this
      ensures Valid()
      ensures torrentListMinFreeSpace
           == old(torrentListMinFreeSpace) + FreeSpaceSelection(torrentListMinRatio, spaceToFree)
      ensures torrentListMinFreeSpaceSize
           == old(torrentListMinFreeSpaceSize) + TotalSize(torrentListMinFreeSpace)
      ensures torrentList == old(torrentList) && torrentListMinRatio == old(torrentListMinRatio)
      ensures torrentListMinRatioSize == old(torrentListMinRatioSize)
    {
      TakeForFreeSpace(spaceToFree);
      AddFreeSpaceSizes();
    }

    /**
      The walk over the minimum-ratio list: each torrent is appended to the
      free-space list while the running total of the appended sizes is below
      `spaceToFree`; the walk stops at the first torrent that finds it reached.
     */
    method TakeForFreeSpace(spaceToFree: int)
      modifies this`torrentListMinFreeSpace
      ensures torrentListMinFreeSpace
           == old(torrentListMinFreeSpace) + FreeSpaceSelection(torrentListMinRatio, spaceToFree)
    {
      var eligible := torrentListMinRatio;
      var total := 0;
      var i := 0;
      while i < |eligible|
        invariant i <= |eligible|
        invariant total == TotalSize(eligible[..i])
        invariant torrentListMinFreeSpace == old(torrentListMinFreeSpace) + eligible[..i]
        invariant forall j :: 0 <= j < i ==> TotalSize(eligible[..j]) < spaceToFree
      {
        if total < spaceToFree {
          TotalSizePrefixStep(eligible, i);
          total := total + eligible[i].totalSize;
          torrentListMinFreeSpace := torrentListMinFreeSpace + [eligible[i]];
          assert eligible[..i + 1] == eligible[..i] + [eligible[i]];
          i := i + 1;
        } else {
          break;
        }
      }
      GreedyCutDeterminesSelection(eligible, spaceToFree, i);
    }

    /** Adds the sizes of the whole free-space list to its (never reset) counter. */
    method AddFreeSpaceSizes()
      modifies this`torrentListMinFreeSpaceSize
      ensures torrentListMinFreeSpaceSize
           == old(torrentListMinFreeSpaceSize) + TotalSize(torrentListMinFreeSpace)
    {
      var selected := torrentListMinFreeSpace;
      ghost var start := torrentListMinFreeSpaceSize;
      for k := 0 to |selected|
        invariant torrentListMinFreeSpaceSize == start + TotalSize(selected[..k])
      {
        TotalSizePrefixStep(selected, k);
        torrentListMinFreeSpaceSize := torrentListMinFreeSpaceSize + selected[k].totalSize;
      }
      assert selected[..|selected|] == selected;
    }

    /**
      One clean-up run. `freeAtGate`, `freeAtDeficit` and `freeAtReport` are the
      three separate readings of the disk's free space (before fetching, when
      the amount to free is computed, and after the removal request).
     */
    method Cleanup(mode: CleanMode, execute: bool, fetched: seq<Torrent>,
                   freeAtGate: nat, freeAtDeficit: nat, freeAtReport: nat)
      returns (outcome: Outcome)
      requires Valid()
      modifies this
      ensures Valid()
      ensures outcome == AlreadyEnoughSpace <==> IsEnoughFreeSpace(freeAtGate)
      ensures IsEnoughFreeSpace(freeAtGate) ==>
        && torrentList == old(torrentList)
        && torrentListMinRatio == old(torrentListMinRatio)
        && torrentListMinRatioSize == old(torrentListMinRatioSize)
      ensures !IsEnoughFreeSpace(freeAtGate) ==>
        && torrentList == SortByRatio(fetched)
        && torrentListMinRatioSize == old(torrentListMinRatioSize) + TotalSize(torrentListMinRatio)
      ensures outcome == NoEligibleTorrent <==>
        !IsEnoughFreeSpace(freeAtGate) && torrentListMinRatioSize == 0
      ensures outcome.Cleaned? ==>
        outcome.removalRequested == execute && outcome.targetReached == IsTargetReached(freeAtReport)
      ensures outcome.Cleaned? && mode == MinFreeSpace ==>
        && torrentListMinFreeSpace == old(torrentListMinFreeSpace)
             + FreeSpaceSelection(torrentListMinRatio, MinFreeSpaceBytes - freeAtDeficit)
        && torrentListMinFreeSpaceSize == old(torrentListMinFreeSpaceSize) + TotalSize(torrentListMinFreeSpace)
        && outcome.targetIds == Ids(torrentListMinFreeSpace)
      ensures outcome.Cleaned? && mode == MinSeedRatio ==> outcome.targetIds == Ids(torrentListMinRatio)
      ensures !(outcome.Cleaned? && mode == MinFreeSpace) ==>
        && torrentListMinFreeSpace == old(torrentListMinFreeSpace)
        && torrentListMinFreeSpaceSize == old(torrentListMinFreeSpaceSize)
    {
      if IsEnoughFreeSpace(freeAtGate) {
        return AlreadyEnoughSpace;
      }
      GetTorrentsData(fetched);
      if torrentListMinRatioSize == 0 {
        return NoEligibleTorrent;
      }
      var ids: seq<int>;
      match mode {
        case MinFreeSpace =>
          var spaceToFree := MinFreeSpaceBytes - freeAtDeficit;
          SelectForFreeSpace(spaceToFree);
          ids := Ids(torrentListMinFreeSpace);
        case MinSeedRatio =>
          ids := Ids(torrentListMinRatio);
      }
      outcome := Cleaned(ids, execute, IsTargetReached(freeAtReport));
    }
  }

  /**
    A run on a freshly built helper, as the command line performs it: the
    outcome depends only on the inputs. Nothing is removed when the gate finds
    enough space; the run stops when the eligible torrents add up to nothing;
    otherwise the removal list is the free-space selection over the eligible
    torrents, or all eligible torrents in seed-ratio mode (both lists hold only
    torrents that meet the minimum ratio, see Torrents.SelectionIsPrefixOfSorted).
   */
  method FreshCleanup(mode: CleanMode, execute: bool, fetched: seq<Torrent>,
                      freeAtGate: nat, freeAtDeficit: nat, freeAtReport: nat)
    returns (outcome: Outcome)
    ensures outcome == AlreadyEnoughSpace <==> IsEnoughFreeSpace(freeAtGate)
    ensures outcome == NoEligibleTorrent <==>
      !IsEnoughFreeSpace(freeAtGate)
      && TotalSize(Eligible(SortByRatio(fetched), MinSeedRatioThreshold)) == 0
    ensures outcome.Cleaned? ==>
      var eligible := Eligible(SortByRatio(fetched), MinSeedRatioThreshold);
      && outcome.targetIds == Ids(if mode == MinFreeSpace
                                  then FreeSpaceSelection(eligible, MinFreeSpaceBytes - freeAtDeficit)
                                  else eligible)
      && outcome.removalRequested == execute
      && outcome.targetReached == IsTargetReached(freeAtReport)
  {
    var helper := new TransmissionHelper();
    outcome := helper.Cleanup(mode, execute, fetched, freeAtGate, freeAtDeficit, freeAtReport);
  }
}
