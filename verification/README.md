# grlevel3-aws-polling: the Level III sync pipeline in Dafny

`getL3.py` polls the public NEXRAD Level III bucket for a fixed list of radar sites and
products. For every (site, product) pair it runs one sync:

1. List today's keys under the prefix `SITE_PRODUCT_YYYY_MM_DD_` and keep the `MAX_FILES`
   (10) most recently modified ones.
2. Fetch each key that is not already on disk. The local file is named after the key's scan
   time, written as `YYYYMMDD_HHMMSS`. The download goes to a temporary file in the same
   directory, which is then renamed.
3. Delete all but the 10 newest such files.
4. Write `dir.list`, which lists the 10 newest files, newest first.

After all pairs it writes `config.cfg`. It then copies that file to `grlevel3.cfg`, turning
each `Site: X` line into `Site: KX`.

This project models that pipeline as pure Dafny functions and methods over an in-memory file
tree. It proves the properties each step promises.

- A directory is a `map<string, Content>`. The tree maps each (site, product) `Pair` to its
  directory. It also holds the root directory, where the two configuration files live. A
  pair missing from the map is a directory that does not exist.
- Date-times are records with a validity predicate covering months, leap years, hours,
  minutes and seconds. The key time `YYYY_MM_DD_HH_MM_SS` and the local name
  `YYYYMMDD_HHMMSS` are fixed-width codecs over that record, proved to round-trip.
- The remote listing, the download outcome (`Transfer`) and the clock are inputs:
  - the listing is a `Result` so that it can raise;
  - the download outcome is delivered, interrupted, or refused by the rename;
  - the clock is a function from pair to date, because each pair reads the clock when it
    lists.
- `Retention` states what pruning and the manifest mean declaratively:
  - `KeepNewest` keeps every non-artifact and the `n` newest artifacts;
  - `IsManifestOf` is "the `n` newest artifacts, newest first".

  `Housekeeping` holds the scanning methods (`prune_old`, `write_dir_list`), proved equal to
  those definitions.
- `sync_once` runs the pairs on a thread pool. Here it is a sequential loop over the pairs.
  This is sound because each pair's step changes only that pair's directory: `SyncPair`
  promises `SameOutside` (nothing outside its pair changes) and that its directory ends as
  `Synced`, a function of that directory alone. So the outcome of a cycle does not depend
  on the order in which the pairs run, and one pair's failure cannot reach another.

Modules, in dependency order:
- `Wrappers`, `Calendar`, `Digits`: basics.
- `Stamp`: the two timestamp codecs and `split`.
- `Remote`: `list_today_files`.
- `Files`: the tree.
- `Fetch`: `download_and_place`.
- `Lines`: joining and splitting text, text-mode reading, `str.split()`.
- `Retention`, `Housekeeping`: pruning and the manifest.
- `Config`: `write_global_config`.
- `Sync`: `sync_site_product` and `sync_once`.

## Model

| member | source | states |
|---|---|---|
| Calendar.DaysInMonth | getL3.py:89 | the day bound `strptime` enforces: 28 to 31 days, and 29 exactly in February of a leap year |
| Calendar.BeforeStrictTotal | getL3.py:142 | date-time order, the sort key of the scans, is a strict total order |
| Digits.PadValue | getL3.py:94 | a digit string is the zero-padded text of its own value, so zero-padded fields read back exactly |
| Stamp.AfterFirstOf | getL3.py:88 | cutting at the first `_` of `a_b`, where `a` has no `_`, leaves exactly `b` |
| Stamp.BaseName | getL3.py:106 | `split("/")[-1]` is the longest suffix of the key containing no `/`: the whole key, or what follows its last `/` |
| Stamp.Take | getL3.py:89 | `tail[:19]` is the prefix of length min(19, length) |
| Stamp.KeyTimeText | getL3.py:89 | the text `YYYY_MM_DD_HH_MM_SS`: 19 characters, zero-padded fields, underscores at the five separator positions |
| Stamp.ParseKeyTimeText | getL3.py:89 | parsing the 19-character text of a valid date-time gives that date-time back |
| Stamp.TextOfParseKeyTime | getL3.py:89 | any text that parses is the canonical text of the result, so the key-time parser accepts only canonical forms |
| Stamp.DtFromKey | getL3.py:87-89 | `dt_from_key` succeeds exactly when the first 19 characters after the second `_` are the canonical text of a valid date-time, yields that date-time, and otherwise fails on that key |
| Stamp.DtFromKeyRoundTrip | getL3.py:87-89 | a key `site_product_<time text><anything>`, with no `_` in site or product, yields exactly that time |
| Stamp.StampText | getL3.py:108 | the local name `YYYYMMDD_HHMMSS`: 15 characters, `_` at index 8, digits elsewhere, zero-padded fields |
| Stamp.ParseStampText | getL3.py:137 | the scan parser reads every formatted stamp back to its date-time |
| Stamp.StampTextOfParse | getL3.py:155 | every name the scan parser accepts is the formatted stamp of a valid date-time |
| Stamp.ParseStampInjective | getL3.py:137 | two names that parse to the same date-time are the same name, so the scan order has no ties |
| Remote.DayPrefix | getL3.py:94 | the day prefix is `site_product_` and the 11-character zero-padded `YYYY_MM_DD_` |
| Remote.DayText | getL3.py:94 | the date part of the prefix holds year, month and day zero-padded to 4, 2 and 2 digits, with `_` after each (at positions 4, 7 and 10) |
| Remote.UnderPrefix | getL3.py:96-100 | the listing holds exactly the bucket objects whose key starts with the prefix |
| Remote.SortNewestFirst | getL3.py:101 | the reverse sort on last-modified is non-increasing and a permutation of the listing |
| Remote.SelectNewest | getL3.py:101-102 | taking `MAX_FILES` gives min(n, count) objects from the listing, newest first, and leaves out no object strictly newer than one it keeps |
| Remote.SelectToday | getL3.py:92-102 | `list_today_files` keeps at most `MAX_FILES` objects, drawn without repetition from those listed under today's prefix (a sub-multiset of them), in non-increasing order, with none left out that is strictly newer than one kept; when there are at most `MAX_FILES`, it keeps exactly the listed objects |
| Remote.Keys | getL3.py:102 | the result keeps the selected keys in the selected order |
| Remote.KeyTailAfterPair | getL3.py:88 | for a key `site_product_x`, the piece after the second `_` is `x` |
| Remote.ListedKeyHasDate | getL3.py:92-94 | a listed key whose time parses carries today's year, month and day |
| Files.MakeDirs | getL3.py:111 | `mkdir(parents=True, exist_ok=True)` leaves an existing directory as it is, creates a missing one empty, and touches nothing else |
| Files.Replace | getL3.py:122 | `Path.replace` puts the source's content under the destination, overwriting it, removes the source, and keeps every other entry |
| Fetch.TempNameIsNoStamp | getL3.py:117 | a `tmp…` temporary name never parses as a stamp, so scans and the manifest ignore it |
| Fetch.MakeTemp | getL3.py:117 | the temporary name has the `tmp` prefix and is not yet in the directory |
| Fetch.StampOfKey | getL3.py:106-108 | a key has a stamp exactly when its last path segment yields a time; the stamp parses back to that time; otherwise the key is reported unreadable |
| Fetch.Place | getL3.py:110-125 | an existing stamp means no download and no change; a delivered transfer leaves exactly the stamp added, holding the data, with no temporary entry; a failed transfer or rename leaves the directory with no stamp, no temporary entry and every other entry unchanged, and raises the error; other directories are untouched |
| Fetch.DownloadAndPlace | getL3.py:105-125 | an unreadable key raises before the directory is created and changes nothing; a readable key is placed under its stamp |
| Fetch.SecondFetchIsNoop | getL3.py:113-115 | after a successful fetch of a key, fetching it again downloads nothing and changes nothing, whatever the second transfer would do |
| Lines.SplitJoinLines | getL3.py:160-162 | names without a newline, written one per line, read back as exactly those names in order |
| Lines.UniversalNewlinesNoCR | getL3.py:177 | reading text with no carriage return in text mode returns it unchanged |
| Lines.SplitConcat | getL3.py:178 | iterating over text made of newline-terminated lines yields exactly those lines |
| Lines.Word | getL3.py:180 | a word is the prefix of the text up to the first whitespace character |
| Lines.WordsCons | getL3.py:180 | `split()` on a word followed by whitespace gives that word, then the split of the rest |
| Lines.WordsSkipSpaces | getL3.py:180 | `split()` ignores leading whitespace |
| Retention.TimeOf | getL3.py:137 | every scanned artifact carries a valid date-time |
| Retention.NewerTotal | getL3.py:142 | of two distinct artifacts exactly one is newer |
| Retention.NewerTransitive | getL3.py:142 | the newest-first order of artifacts is transitive |
| Retention.KeepNewest | getL3.py:128-144 | pruning deletes only artifacts: every kept entry was there with the same content, every non-artifact stays, and the artifacts kept are the `n` newest |
| Retention.KeptNewerThanDropped | getL3.py:142-144 | every artifact kept is newer than every artifact deleted |
| Retention.KeepNewestIdempotent | getL3.py:128-144 | pruning twice is the same as pruning once |
| Retention.KeepNewestCount | getL3.py:143-144 | after pruning, min(n, K) of the K artifacts remain |
| Retention.NewestFirstUnique | getL3.py:142 | two newest-first listings of the same artifacts are equal, so the scan result does not depend on `iterdir` order |
| Retention.PrefixIsManifest | getL3.py:159-161 | the first min(n, K) names of a newest-first listing of all artifacts are the manifest |
| Retention.ManifestDetermined | getL3.py:159-162 | the manifest of a directory is unique, has min(n, K) names, and lists only entries present in the directory |
| Retention.ManifestAfterPrune | getL3.py:194-195 | pruning before listing does not change the manifest |
| Housekeeping.InsertByTime | getL3.py:142 | inserting a new artifact into a newest-first listing keeps it newest-first and adds exactly that name |
| Housekeeping.SortByTime | getL3.py:142 | sorting distinct artifacts by time gives a newest-first listing of exactly those names |
| Housekeeping.ScanNewestFirst | getL3.py:133-142 | the scan of a directory, in any `iterdir` order, lists exactly its artifacts, newest first |
| Housekeeping.KeptIffBefore | getL3.py:142-144 | an entry survives the delete loop exactly when it is not in the tail past index `n` of the sorted scan |
| Housekeeping.DropTailIsKeepNewest | getL3.py:142-144 | deleting the tail of the sorted scan leaves exactly the declarative `KeepNewest` |
| Housekeeping.PruneOld | getL3.py:128-144 | a missing directory is left alone; otherwise the directory becomes `KeepNewest` of itself and nothing else in the tree changes |
| Housekeeping.WriteDirList | getL3.py:147-162 | a missing directory is left alone and nothing is listed; otherwise the names listed are the manifest of the directory, `dir.list` is overwritten with them one per line, and no other entry changes |
| Housekeeping.ArtifactHasNoNewline | getL3.py:162 | an artifact name contains no newline, so each listed name is one line of `dir.list` |
| Housekeeping.ManifestKeepsArtifacts | getL3.py:160 | writing `dir.list` adds and removes no artifact |
| Housekeeping.ManifestReadsBack | getL3.py:160-162 | `dir.list` read back line by line gives exactly the names listed |
| Housekeeping.SortedEnumeration | getL3.py:142 | every set of artifacts has a newest-first listing of exactly its names |
| Housekeeping.Manifest | getL3.py:159-161 | every directory has a manifest of its `n` newest artifacts, newest first |
| Housekeeping.PruneThenListSettles | getL3.py:194-195 | after prune and manifest write, a directory holds at most `n` artifacts, and `dir.list` reads back as exactly those artifacts, newest first |
| Config.ConfigLines | getL3.py:168-174 | `config.cfg` holds the three header lines, one `Site: s` line per site in order, an empty line, then one `Product: p   SSS/p` line per product in order |
| Config.ReadBackConfig | getL3.py:177-178 | reading `config.cfg` back line by line gives exactly the lines written, when no site or product contains a line break or, for sites, whitespace |
| Config.CloneLine | getL3.py:179-183 | lines not starting `Site: ` are copied unchanged; a `Site: ` line raises exactly when it has fewer than two words |
| Config.SiteLineWords | getL3.py:180 | `Site: s\n` splits into the words `Site:` and `s` when `s` is a non-empty word |
| Config.EmptySiteLineWords | getL3.py:180 | `Site: \n` splits into the single word `Site:`, so indexing the second word raises |
| Config.SiteLineClone | getL3.py:179-181 | a site line for `s` is copied as the site line for `Ks` |
| Config.OtherLineClone | getL3.py:182-183 | a line starting with anything but `S` is copied unchanged |
| Config.CloneLines | getL3.py:177-183 | the copy fails exactly when some line read raises |
| Config.CloneLinesMatch | getL3.py:177-183 | when every line copies to its counterpart, the clone is those counterparts concatenated, with no failure |
| Config.ConfigLinesClone | getL3.py:176-183 | line by line, the copy of `config.cfg` is the same layout with `K` before every site |
| Config.GrLevel3Rewrite | getL3.py:176-183 | with non-empty sites, the copy completes and `grlevel3.cfg` is `config.cfg` with every `Site: X` line turned into `Site: KX` |
| Config.WriteGlobalConfig | getL3.py:165-183 | only `config.cfg` and `grlevel3.cfg` are written at the root, both always exist afterwards, they hold the configuration text and its copy, and the call completes exactly when the copy raises nothing |
| Config.EmptySiteAborts | getL3.py:180 | an empty site name makes the copy raise, so `write_global_config` does not complete |
| Config.CodeRowsOneLine | getL3.py:35-77 | no product code contains a line break |
| Config.AscendingIncreasing | getL3.py:35-77 | codes whose rank rises from each to the next are strictly increasing throughout |
| Config.ShippedListsStrictlySorted | getL3.py:21-77 | `PRODUCT_CODES`, being `sorted` of a set, is strictly increasing, and the two `SITES` differ |
| Config.ShippedConfigCompletes | getL3.py:165-183 | with the shipped sites and product codes, `write_global_config` completes and `grlevel3.cfg` is the `K`-prefixed reference text |
| Sync.FetchAllKeeps | getL3.py:189-193 | fetching the keys never changes or removes an entry that was already there |
| Sync.FetchAllDelivers | getL3.py:189-193 | every readable key whose transfer delivers has its stamp present afterwards, whatever failed before or after it |
| Sync.FetchAllOnlyStamps | getL3.py:189-193 | every entry that appears is the stamp of an attempted key whose transfer delivered |
| Sync.UnreadableReported | getL3.py:192-193 | every unreadable key is reported |
| Sync.ErrorsAreFailures | getL3.py:192-193 | every reported error is an unreadable key or a readable key whose transfer failed |
| Sync.FetchAllUnreadable | getL3.py:105-107 | when no key is readable, fetching changes nothing |
| Sync.PlaceIsStep | getL3.py:191 | one call of `download_and_place` has the effect of one step of the reference fold on the pair directory, and raises that step's error |
| Sync.FetchOne | getL3.py:190-193 | one attempt changes the tree as the fold step does, creating the directory only for a readable key, and returns the step's error instead of raising it |
| Sync.FetchKeys | getL3.py:189-193 | the loop over the keys ends in the reference fold's tree and reports exactly the fold's errors, in key order |
| Sync.SyncSiteProduct | getL3.py:186-197 | only the pair's directory changes; a failed listing changes nothing; the attempted keys are the listing's selection; the failures reported are the fetch errors; a missing directory stays missing when no key is readable; otherwise the directory ends as `KeepNewest` of the fetched directory plus a `dir.list` listing its manifest, and is settled; in all cases the directory is what `Synced` makes of the one before |
| Sync.SyncedSettles | getL3.py:194-195 | after a successful listing, a pair directory that exists ends settled: at most `n` artifacts, and `dir.list` lists exactly them, newest first |
| Sync.SyncedKeepsDir | getL3.py:196-197 | a sync never removes a pair directory, and a failed listing, caught by the handler, leaves it exactly as it was |
| Sync.Pairs | getL3.py:203-204 | the pairs enumerated are exactly the configured site and product combinations |
| Sync.PairsDistinct | getL3.py:203-204 | with no site and no product repeated, no pair is submitted twice |
| Sync.ShippedListsDistinct | getL3.py:21-77 | the shipped `SITES` and `PRODUCT_CODES` repeat no entry |
| Sync.SyncPair | getL3.py:186-197 | one pair's sync leaves the root and every other pair's directory unchanged, its directory ends as `Synced` of the one before, and it is settled when its listing succeeds |
| Sync.SyncPairs | getL3.py:201-207 | after the pairs run, each pair's directory is `Synced` of its own directory before the cycle, whatever the other pairs did, and every other directory and the root are unchanged |
| Sync.CycleOutcomes | getL3.py:186-207 | per configured pair, that exact outcome means: a failed listing leaves the directory untouched, a successful one leaves it settled, and no directory disappears |
| Sync.SyncOnce | getL3.py:200-208 | one cycle makes every configured pair's directory `Synced` of its own previous state, so a pair's failed listing leaves just that pair untouched and other pairs still settle; no directory is removed; unconfigured directories are unchanged; the root is then what `write_global_config` writes, and the cycle completes exactly when that does, which it always does for the shipped sites and products |

## Left out

- The S3 client, pagination and `download_file` are not modelled. The listing is an input sequence of (key, last-modified) objects. A transfer's outcome is an input `Transfer` value.
- `datetime.now` is not modelled: each pair's date comes from an input clock function.
- The thread pool is not modelled. Pairs run one after another in list order, which is sound because each pair's step changes only its own directory.
- The `print` logging is not modelled: reported errors are returned as a sequence instead.
- The Flask app and routes, the `while True` / `sleep` polling loop, and the constants `BUCKET`, `POLL_INTERVAL`, `WORKER_COUNT` and `ROOT` are not modelled. `ROOT` is the tree's root directory.
- `tempfile.mkstemp`'s random suffix is not modelled: `MakeTemp` picks any fresh name with the `tmp` prefix.
- File descriptors are not modelled: the temporary file is created empty, then written.
- Stamp.DtFromKey: accepts only the fixed-width form of each field, whereas `strptime` also reads shorter numbers such as `2024_5_1_…`. Such keys are reported unreadable here.
- Stamp.ParseStamp: same fixed-width restriction for names like `2024501_123456`. Such non-canonical names count as non-artifacts here and are never pruned or listed.
- Digits are ASCII only. Years run from 1 to 9999, as Python's `datetime` allows.
- Stamp.StampText: always pads the year to four digits. Python's `%Y` under glibc does not pad years before 1000.
- Remote.SelectNewest: does not state the relative order of objects with equal last-modified times. Python's stable sort keeps listing order there. The contract states selection only up to ties.
- Errors from `unlink` inside `prune_old` and from writing `dir.list` are not modelled. In the source such an error aborts the pair's sync, and the pruning and manifest steps here always succeed.
- Errors from `mkdir` and from `mkstemp` are not modelled either.
- Sync.SyncOnce: an exception from `write_global_config` escapes `sync_once`. Here it is the `completed` flag, and the tree it leaves is the one written up to the failure.
- Sync.SyncOnce: requires that no site and no product is listed twice. A repeated entry would submit the same pair twice, and the model's single pass per pair does not cover that. `Sync.ShippedListsDistinct` shows that the shipped `SITES` and `PRODUCT_CODES` meet this.
