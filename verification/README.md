# TransmissionHelper clean-up logic in Dafny

This project models the decision logic of TransmissionHelper, a command-line
tool that frees disk space by removing torrents (and their data) from a
Transmission daemon. The model covers four parts:

- which clean-up mode a command-line label selects;
- which binary unit (B to PiB) the human-readable size display picks;
- the gate that skips the clean-up when there is already more free space than
  the minimum, and the final report that compares the free space with it;
- the helper object's torrent bookkeeping. It sorts the fetched list by upload
  ratio, highest first. It keeps the torrents at or above the minimum seeding
  ratio and totals their sizes. In free-space mode it picks, greedily and in
  order, the torrents needed to make up the deficit. It then builds the list of
  IDs to remove.

Files:

- `clean_mode.dfy`: module `CleanModes`, the `CleanMode` enumeration and its label parser.
- `human_size.dfy`: module `HumanSize`, the unit-choice loop of the size display.
- `torrents.dfy`: module `Torrents`. It holds the torrent record and the pure
  definitions the decisions are specified by: the stable descending sort, the
  minimum-ratio filter, size totals and the greedy free-space walk. Lemmas
  state what each promises.
- `transmission_helper.dfy`: module `Helper`. It holds the constants, the two
  free-space comparisons and the class `TransmissionHelper`. The class has the
  source's five list and counter fields and methods that update them in place.

The daemon's torrent list is an input sequence of `(id, totalSize, uploadRatio)`
records. Each probe of the disk's free space is an input number. The removal
request to the daemon is the ID list in the returned `Outcome`. The source
terminates the process early in two places (status 0 when there is already
enough space, status 1 when no eligible size is found). These become the
outcome tags `AlreadyEnoughSpace` and `NoEligibleTorrent`.

The model follows the code as written on these points:

- The minimum-ratio test is inclusive (`ratio >= 3.0`, TransmissionHelper.py:145), not strict.
- The ratio filter is applied to the whole sorted list before the free-space walk. The walk itself only compares the running total.
- The gate skips the clean-up only when free space is strictly above the minimum (TransmissionHelper.py:136). The final report uses `>=` (TransmissionHelper.py:216).
- Once past the gate, seed-ratio mode removes every eligible torrent, regardless of the deficit computed at TransmissionHelper.py:170.
- The eligible-size and selected-size counters are instance fields that are never reset. The second summing loop (TransmissionHelper.py:179-180) totals the whole free-space list, not only the torrents just appended. The contracts state these sums relative to the fields' previous values; on a fresh object (`FreshCleanup`) they are plain sums.

The upload ratio is a `real`: the source only compares it. The unit choice is
stated over integers. Dividing by 1024 is exact in floating point. Any size
large enough for its conversion to a float to round (above 2^53) is already at
or above 1024^5 and so displays in PiB either way.

## Model

The constants `Helper.MinSeedRatioThreshold` (3.0) and `Helper.MinFreeSpaceBytes`
(100 GiB) are the class attributes at TransmissionHelper.py:33 and 36. The
datatype `CleanModes.CleanMode` is the enumeration at TransmissionHelper.py:13-18.
`Helper.Outcome` replaces the process exits at TransmissionHelper.py:157 and 165.
The rows below cite them where they are used.

| member | source | states |
|---|---|---|
| CleanModes.FromStr | TransmissionHelper.py:20-28 | a successful parse returns the mode whose command-line choice is exactly the label; the error is returned exactly when no mode has that label as its choice |
| CleanModes.ChoiceRoundTrip | TransmissionHelper.py:21-28 | `'seed_ratio'` parses to the seed-ratio mode and `'free_space'` to the free-space mode |
| CleanModes.ValuesRejected | TransmissionHelper.py:13-28 | the enumeration's own values `'seed-ratio'` and `'free-space'` are rejected by the parser |
| HumanSize.HumanReadableUnit | TransmissionHelper.py:128-133 | the chosen unit k satisfies 1024^k <= size (unless bytes) and size < 1024^(k+1) (unless PiB), so it is the first unit at which the value is below 1024, capped at PiB; the magnitude times 1024^k is the size |
| Torrents.SortByRatio | TransmissionHelper.py:143 | the sorted list is a permutation of the fetched list |
| Torrents.SortByRatioSorted | TransmissionHelper.py:142-143 | the sorted list is non-increasing in upload ratio |
| Torrents.SortByRatioStable | TransmissionHelper.py:143 | for every ratio value, the torrents with that ratio appear in the same relative order as in the fetched list |
| Torrents.Eligible | TransmissionHelper.py:144-146 | a torrent is in the minimum-ratio list exactly when it is in the input and its ratio is at least the minimum (inclusive) |
| Torrents.EligibleIsPrefix | TransmissionHelper.py:141-146 | on the ratio-sorted list the minimum-ratio list is a prefix, and every torrent after it is below the minimum ratio |
| Torrents.TotalSizeConcat | TransmissionHelper.py:148-149 | the size total of two lists joined is the sum of their totals, so summing item by item gives the total of the list |
| Torrents.FreeSpaceSelectionIsCut | TransmissionHelper.py:170-177 | the free-space selection is the prefix of the eligible list that ends where the greedy walk stops: every shorter prefix totals less than the space to free, and the walk either took everything or its total reached that amount |
| Torrents.GreedyCutDeterminesSelection | TransmissionHelper.py:172-177 | any stopping point meeting that description equals the selection's length, so the description fixes the selection uniquely |
| Torrents.FreeSpaceSelectionProperties | TransmissionHelper.py:170-177 | the selection is a prefix of the eligible list; each torrent was appended while the running total was below the space to free; either all were taken or the total reached that amount; nothing is taken when the space to free is zero or negative |
| Torrents.SelectionIsPrefixOfSorted | TransmissionHelper.py:141-177 | the free-space selection is a prefix of the ratio-sorted list; it and the minimum-ratio list hold only fetched torrents that meet the minimum ratio |
| CleanModes.CleanMode.Value | TransmissionHelper.py:13-18 | definition: the enumeration's own values `'seed-ratio'` and `'free-space'`; their rejection by the parser is stated by `CleanModes.ValuesRejected` |
| CleanModes.CleanMode.Choice | TransmissionHelper.py:48-49 | definition: the command-line choices `'seed_ratio'` and `'free_space'`; `CleanModes.FromStr` and `CleanModes.ChoiceRoundTrip` state that the parser inverts it |
| Torrents.TotalSize | TransmissionHelper.py:148-149 | definition: the sum of `total_size` over a list; additivity is stated by `Torrents.TotalSizeConcat`, and both summing loops (lines 148-149, 179-180) are proved against it |
| Torrents.GreedyTake | TransmissionHelper.py:172-177 | the walk that appends each torrent while the running total is below the target and stops at the first that fails; never longer than its input; its stopping point is characterised by `Torrents.FreeSpaceSelectionIsCut` |
| Torrents.FreeSpaceSelection | TransmissionHelper.py:170-177 | definition: the walk started from a running total of 0 over the eligible list; its properties are stated by `Torrents.FreeSpaceSelectionIsCut`, `Torrents.GreedyCutDeterminesSelection` and `Torrents.FreeSpaceSelectionProperties` |
| Helper.IsEnoughFreeSpace | TransmissionHelper.py:135-136 | definition: free space strictly above `MinFreeSpaceBytes` (100 GiB, line 36); `Cleanup` exits with `AlreadyEnoughSpace` (the `exit(0)` at line 157) exactly when it holds |
| Helper.IsTargetReached | TransmissionHelper.py:216 | definition: free space at or above `MinFreeSpaceBytes`; its relation to the gate is stated by `Helper.GateAndReportDisagreeOnlyAtTarget` |
| Helper.GateAndReportDisagreeOnlyAtTarget | TransmissionHelper.py:216 | the gate (`free > minimum`) implies the report's `free >= minimum`; the two differ exactly when free space equals the minimum |
| Helper.Ids | TransmissionHelper.py:190 | the ID list has one entry per torrent, in the same order |
| Helper.TransmissionHelper.constructor | TransmissionHelper.py:98-103 | all three lists start empty and both size counters start at zero |
| Helper.TransmissionHelper.GetTorrentsData | TransmissionHelper.py:138-149 | the torrent list becomes the stable ratio-descending sort of the fetched list; the minimum-ratio list is its inclusive filter at `MinSeedRatioThreshold` (3.0, line 33); the eligible-size counter grows by that list's total; the free-space fields are untouched |
| Helper.TransmissionHelper.AddMinRatioSizes | TransmissionHelper.py:148-149 | the eligible-size counter grows by exactly the total size of the minimum-ratio list and no other field changes |
| Helper.TransmissionHelper.SelectForFreeSpace | TransmissionHelper.py:170-180 | keeps the class invariant (sorted torrent list, minimum-ratio list filtered from it); the free-space list gets the greedy selection over the minimum-ratio list appended; its counter grows by the total of the whole free-space list; the other fields are untouched |
| Helper.TransmissionHelper.TakeForFreeSpace | TransmissionHelper.py:171-177 | the loop that appends while the running total is below the amount to free leaves the free-space list extended by exactly `FreeSpaceSelection` of the minimum-ratio list, and changes no other field |
| Helper.TransmissionHelper.AddFreeSpaceSizes | TransmissionHelper.py:179-180 | the free-space counter grows by exactly the total size of the free-space list and no other field changes |
| Helper.TransmissionHelper.Cleanup | TransmissionHelper.py:151-225 | exits with nothing changed iff free space at the gate is above the minimum; otherwise fetches and filters; stops iff the eligible-size counter is zero; in free-space mode the removal IDs are those of the free-space list, with the deficit computed from the second probe; in seed-ratio mode they are the IDs of the whole minimum-ratio list; the tags `AlreadyEnoughSpace` and `NoEligibleTorrent` of `Outcome` stand for the `exit(0)` at line 157 and the `exit(1)` at line 165; the report compares the last probe with `>=`; the class invariant (sorted list, filtered sublist) is kept |
| Helper.FreshCleanup | TransmissionHelper.py:284-307 | for a freshly built helper: the two early exits are characterised by the gate and by a zero eligible total; otherwise the removal IDs are those of the greedy selection over the eligible torrents (free-space mode) or of all eligible torrents (seed-ratio mode); the request is sent iff `execute` |

## Left out

- Command-line parsing and `main` (TransmissionHelper.py:43-87, 283-314), apart from the single helper-then-clean-up call modelled by `FreshCleanup`. The `min-ratio` and `min-free-space` overrides (lines 294, 298) look up hyphenated keys that argparse never produces, so they never take effect. The thresholds are therefore the constants 3.0 and 100 GiB.
- `configure` (TransmissionHelper.py:260-280): reading the JSON configuration file and setting up the log file are file I/O.
- `__connect`, `get_torrents`, `__remove_torrents` and `remove_torrent`: calls into the `transmission_rpc` library. Their source is not part of this model. The fetched list is an input and the removal request is the ID list in the outcome; a failed connection (exit -1) is not modelled.
- `shutil.disk_usage` probes: each free-space reading that affects a decision is an input (gate, deficit, final report). The readings used only inside log messages are left out.
- The size display's text (`f"{size:.{decimal_places}f} {unit}"`) and all log messages: float formatting and logging. Only the unit choice and the exact magnitude are modelled.
- `list_torrents` and `__get_torrent_list_as_matrix` (TransmissionHelper.py:237-258): unfinished display code that only prints.
- Torrent fields other than id, total size and upload ratio (name, added date, progress, status): the clean-up decisions never read them.
- Not-a-number upload ratios: the ratio is a `real`, so the model does not cover the comparisons Python makes with NaN.
- The removal of orphaned files from the download directory does not appear in TransmissionHelper.py and is not part of this model.
