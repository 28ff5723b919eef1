# wurstminebackup retention engine in Dafny

wurstminebackup copies a Minecraft world into `/media/backup/world/<world>/`.
Before each copy it makes room on the backup filesystem, one round at a time,
re-reading the free space each round. While space is short, a round compresses
the smallest uncompressed snapshot into a `.tar.gz` archive if that snapshot
fits strictly in the space left. Otherwise the round evicts one snapshot of
the world: the one that lies closest to its neighbours in (version, time)
order. Compression and eviction rounds can interleave.

This project models that engine over immutable values instead of a real
filesystem:

- `common.dfy` (`Common`): `Option`, `Result` and the program's error kinds.
- `order.dfy` (`Order`): the snapshot key `(major, minor, patch, time)`. It also has the tuple and sorted-pair orders, and a first-minimum search modelled on `min_by_key`.
- `fs.dfy` (`Fs`): directory trees of files, symlinks and directories, and `dir_size`.
- `names.dfy` (`Names`): the snapshot-name grammar as a hand-written matcher, `split('.')`, the `i64` parse, `resize(3, 0)`, the key, the jar version and the name of a new snapshot.
- `catalog.dfy` (`Catalog`): the `BTreeMap` of keys to names that `delete_one` builds. It is a sorted association list.
- `eviction.dfy` (`Eviction`): the distance, window scores, the choice of victim and `delete_one`.
- `mount.dfy` (`Mount`): the search for the deepest mounted ancestor of the backup path.
- `room.dfy` (`Room`): the backup tree, the smallest uncompressed snapshot, compression, eviction, one round of `make_room`, the `make_room` loop, `do_backup` and the result combination of `main`.

The free space is an oracle. It takes the current tree and a path and gives
the available bytes if that path is a mount point. It is consulted afresh on
every round, as the program does with `systemstat`. The length of the archive
`tar` writes is a second oracle.

Points of the code's behaviour worth knowing:

- Version parts are parsed as signed `i64`, so `-1` and `+2` are accepted parts.
- Compression happens only inside a `make_room` round while space is short; there is no compression pass of its own.
- `make_room` answers `false` when `delete_one` sees at most one distinct key. That can happen with several entries left if their keys collide.
- A stamp with second `60` is a leap second to chrono. It sorts after second `59` of its minute and before the next minute.

## Model

| member | source | states |
|---|---|---|
| Fs.EntryWithinDir | src/main.rs:80-94 | No entry of a directory measures more than the directory itself. |
| Fs.SizeIsLeafSum | src/main.rs:71-101 | The size of a node is the sum of the lengths of its non-directory descendants. Symlinks count their own length. A file counts as itself. Directories add nothing of their own. |
| Fs.ChildrenSizeAppend | src/main.rs:82-94 | A directory's size is additive over any split of its listing. |
| Fs.ChildOrderIrrelevant | src/main.rs:82-94 | Any two listings with the same entries have the same size, whatever order `read_dir` yields them in. |
| Order.QuadOrderIsTotal | src/main.rs:116 | The key tuples, compared lexicographically as the `BTreeMap` does, form a strict total order. |
| Order.ScoreOrderIsTotal | src/main.rs:132-134 | The sorted pairs of distances, compared lexicographically, form a strict total order. |
| Order.FirstMin | src/main.rs:124 | `min_by_key` yields an index no other element is below, and every earlier element is strictly above it: the first minimum. |
| Names.MatchName | src/main.rs:112 | A match gives a 19-character `YYYY-MM-DD_HH-MM-SS` stamp and a non-empty, single-line version, separated by `_`, optionally followed by `.tar.gz`. |
| Names.MatchNameIsLazy | src/main.rs:112 | Whenever the name splits by the grammar, the matcher succeeds with that stamp and the shortest version: the lazy group. |
| Names.NameRoundTrip | src/main.rs:112 | A stamp and a version not ending in `.tar.gz` are recovered from both `<stamp>_<version>` and `<stamp>_<version>.tar.gz`. |
| Names.Split | src/main.rs:113 | `split('.')` always yields at least one part. |
| Names.JoinSplit | src/main.rs:113 | Rejoining the parts with `.` gives back the text. |
| Names.SplitJoin | src/main.rs:113 | Splitting dot-free parts joined by `.` gives back the parts. |
| Names.SplitAppend | src/main.rs:113 | Splitting `a.b` gives the parts of `a` followed by the parts of `b`. |
| Names.ParseI64 | src/main.rs:113 | An accepted part lies in the `i64` range and is a non-empty, dot-free, single-line text ending in a digit. |
| Names.ParseI64Accepts | src/main.rs:113 | A part is accepted exactly when it is ASCII digits, `+` and digits, or `-` and digits, with a value in the `i64` range; the value is the digits' value, negated after `-`. |
| Names.IntTextRoundTrip | src/main.rs:113 | Every `i64` printed in decimal parses back to itself. |
| Names.ParseParts | src/main.rs:113 | The parts parse exactly when each does, giving one value per part, each that part's value. |
| Names.ParseVersionParts | src/main.rs:113 | A version parses exactly when each of its dot-separated parts is an `i64`, and then gives one value per part, in order. |
| Names.ParsePartsOf | src/main.rs:113 | Parts that each parse to a given value yield exactly those values, in order. |
| Names.Resize | src/main.rs:114-115 | `resize(3, 0)` keeps the first three values and fills the missing ones with 0. |
| Names.KeyOf | src/main.rs:114-116 | The key's major, minor and patch are the first three parsed parts, 0 for each missing one, and its time is the stamp's instant. |
| Names.Instant | src/main.rs:116 | The instant is odd exactly for a leap second, second `60`. |
| Names.LeapSecondBetween | src/main.rs:116 | A leap second comes right after second `59` of its minute, shares its instant with no other second, and precedes every later second. |
| Names.CivilAnchors | src/main.rs:116 | Day 0 is 1970-01-01; 2000 has a February 29th and 366 days; 1900 has no February 29th. |
| Names.DaysFromCivilNextDay | src/main.rs:116 | For every valid Gregorian date, the next calendar day is valid and has the next day count, across month ends, year ends and February 29th alike. |
| Names.DaysFollowCalendar | src/main.rs:116 | Of any two valid dates, the later one has the larger day count. |
| Names.CivilInstantIncreases | src/main.rs:116 | Of any two valid timestamps, including leap seconds, the later one has the larger instant. |
| Names.InstantFollowsCalendar | src/main.rs:116 | On valid timestamps, one is earlier exactly when its instant is smaller, and two share an instant exactly when their fields are equal. |
| Names.ParseKey | src/main.rs:112-118 | An unparseable name gives `FilenameFormat`, and a parsed name matched the grammar. |
| Names.ParseKeyAccepts | src/main.rs:112-118 | A name is rejected exactly when it does not match the grammar or one of its version parts is not an `i64`. |
| Names.ParseKeyOfParts | src/main.rs:112-116 | A name built from a stamp and a parseable version has the key of those parts, with or without `.tar.gz`. |
| Names.KeyRoundTrip | src/main.rs:112-116 | The name for `major.minor.patch` at a stamp parses to exactly that key, compressed or not. |
| Names.VersionRoundTrip | src/main.rs:113 | Printing three `i64` values joined by dots and parsing the result gives the three values back. |
| Names.ShortVersionPads | src/main.rs:114 | A one-part version `<major>` has the key `(major, 0, 0, time)`. |
| Names.ParseVersionAppend | src/main.rs:113 | Appending `.<part>` to a parseable version appends that part's value. |
| Names.ExtraComponentsCollapse | src/main.rs:113-116 | A version of three or more parts and the same version with one more part have the same key, so `1.2.3.4` and `1.2.3` collide. |
| Names.IndexOf | src/main.rs:152 | The first occurrence of a character, or none when it is absent. |
| Names.LastIndexOf | src/main.rs:152 | The last occurrence of a character, or none when it is absent. |
| Names.FileStem | src/main.rs:152 | The stem is the name cut before its last `.`, unless that `.` leads the name or the name is `..`; then it is the whole name. |
| Names.JarVersion | src/main.rs:152 | `JarPath` exactly when there is no file name or its stem has no `.`; otherwise the text after the stem's first `.`. |
| Names.MakeBackupName | src/main.rs:152-155 | `JarPath` exactly when the jar's version cannot be read; otherwise `<now>_<version>`. |
| Names.BackupNameRoundTrip | src/main.rs:152-155 | For a jar `<prefix>.<version>.jar` with a dotted-digit version, the new snapshot is named `<now>_<version>`. The matcher recovers `now` and `version` from that name, with or without `.tar.gz`. |
| Catalog.Insert | src/main.rs:116 | Inserting keeps the map sorted. It holds the new pair, drops the old pair of that key, and keeps every other pair. |
| Catalog.InsertKeys | src/main.rs:116 | Inserting adds its key to the map's keys and removes none. |
| Catalog.ParseAll | src/main.rs:110-119 | The listing reads as one item per entry exactly when every name parses, otherwise `FilenameFormat`. |
| Catalog.ParseAllItems | src/main.rs:110-116 | Item `i` of a parsed listing is entry `i`'s key and name. |
| Catalog.FromItems | src/main.rs:108-116 | Inserting the items in turn gives a sorted map of listed items that has every listed key. |
| Catalog.Build | src/main.rs:108-120 | The map exists exactly when every name parses. It is sorted and no longer than the listing. It maps each key to a listed name of that key and covers every listed key. |
| Catalog.LastInsertWins | src/main.rs:116 | Among items sharing a key, the one inserted last is the one the map keeps. |
| Catalog.ListedLastWins | src/main.rs:110-116 | Among listed names sharing a key, the one listed last is the one the map keeps. |
| Eviction.Distance | src/main.rs:125-130 | The distance is zero exactly between equal keys, and positive in tuple order exactly when the first key is smaller. |
| Eviction.Sort2 | src/main.rs:132-134 | Sorting the two distances gives the same pair in ascending order. |
| Eviction.WindowScore | src/main.rs:124-134 | A window's score is its middle key's distances from its left and to its right neighbour, smaller first. |
| Eviction.VictimIndex | src/main.rs:121-135 | No victim with at most one key. The smaller key with two. With three or more, the middle of the first window whose score is least, never the first or last key. |
| Eviction.DeleteOne | src/main.rs:106-136 | `delete_one` fails exactly when some name does not parse, with `FilenameFormat`. A victim it names is a listed entry. |
| Eviction.CatalogKeyListed | src/main.rs:108-120 | Every key in the map is the key of some listed entry. |
| Eviction.NothingDeletedIffOneKey | src/main.rs:121-122 | `delete_one` deletes nothing exactly when every name parses and all share one key. |
| Eviction.SmallCatalogOneKey | src/main.rs:121-122 | A map of at most one key means all listed names share a key. |
| Eviction.LargeCatalogTwoKeys | src/main.rs:121-123 | A map of two or more keys means two listed names differ in key. |
| Eviction.TwoKeysEvictSmaller | src/main.rs:123 | With exactly two keys, the victim has the smaller key: no listed key is below it and one is above it. |
| Eviction.VictimIsInterior | src/main.rs:124-135 | With three or more keys, the victim has a listed key below it and one above it: neither the oldest nor the newest is evicted. |
| Mount.MountDepth | src/main.rs:169 | The deepest prefix of the path that is a mount point, none when no prefix is. |
| Mount.MountAvail | src/main.rs:169 | `NoMount` exactly when no ancestor is mounted; otherwise the available bytes of the deepest mounted ancestor. |
| Room.WorldCandidates | src/main.rs:176-183 | The directory entries of one world, in listing order, each an uncompressed snapshot, and all of them. |
| Room.Candidates | src/main.rs:171-185 | Every uncompressed snapshot of every world, each once, in listing order. |
| Room.FirstLeastCandidate | src/main.rs:180-181 | The first least size among the candidates is no larger than any snapshot's size, and strictly smaller than every earlier one's. |
| Room.SmallestUncompressed | src/main.rs:171-185 | None exactly when no snapshot is a directory. Otherwise the directory of least size, strictly smaller than every directory listed before it (strict `<`). |
| Room.Without | src/main.rs:140-145 | Removing a name keeps exactly the other entries, and shortens the listing when the name was there. |
| Room.WithoutKeepsDirs | src/main.rs:196 | Removing a name that no directory has keeps the number of uncompressed snapshots. |
| Room.Evict | src/main.rs:140-145 | Eviction removes exactly the entries of the victim's name from that world's listing; the world keeps its name and every other world is unchanged. |
| Room.EvictShrinks | src/main.rs:140-145 | Evicting a listed name shrinks the tree and loses snapshots of that world only. |
| Room.FindWorld | src/main.rs:107 | The first world of the given name, or none when there is no such world. |
| Room.DeleteOneIn | src/main.rs:106-110 | `delete_one` on a world fails only with `FilenameFormat`, or `Io`, and with `Io` exactly when the world's directory is missing. |
| Room.DeleteOneInWorld | src/main.rs:106-110 | In a world's directory, `delete_one` is the eviction policy applied to that directory's listing. |
| Room.StripArchiveName | src/main.rs:192 | Removing `.tar.gz` from the archive name gives the directory's name back. |
| Room.PackAddsNoStem | src/main.rs:189-196 | Compression creates no snapshot: every entry afterwards stands for a snapshot that was there before. |
| Room.PackLosesNoStem | src/main.rs:189-196 | Compression loses no snapshot: the archive stands for the directory, and an archive it overwrote stood for the same snapshot. |
| Room.PackKeepsStems | src/main.rs:189-196 | After `tar` and `remove_dir_all`, the world holds exactly the same snapshots. |
| Room.PackListingContents | src/main.rs:189-196 | After packing, the listing holds the archive; every other entry it holds was there before under another name, and every other entry not named like the archive is still there. |
| Room.PackNoLonger | src/main.rs:189-196 | Compression adds no entry. |
| Room.PackShrinks | src/main.rs:189-196 | Compression removes exactly one uncompressed directory. |
| Room.Compress | src/main.rs:189-196 | `Io` exactly when a directory already has the archive's name. Otherwise only the compressed snapshot's world changes, to the packed listing, and keeps its name. |
| Room.ReplaceTotals | src/main.rs:166-205 | Replacing one world's listing changes the tree's entry and directory totals by exactly that listing's change. |
| Room.ProbeDeepestMount | src/main.rs:169 | The probe fails with `NoMount` exactly when neither the backup path nor any ancestor is mounted; otherwise it reads the deepest mounted one. |
| Room.CompressRound | src/main.rs:189-197 | The round compresses, or fails with `Io` exactly when `Compress` fails. A compressing round leaves the tree `Compress` computes, which shrinks and keeps every snapshot. |
| Room.EvictRound | src/main.rs:200-201 | The round fails exactly when `delete_one` fails, with its error; stops with `false` exactly when it deletes nothing; otherwise removes the victim from this world alone, and the tree shrinks. |
| Room.RoomRound | src/main.rs:169-204 | `true` exactly when the available space reaches `amount`; `NoMount` when no mount is found. It compresses only the smallest uncompressed snapshot, and only when it fits strictly in the space left. It evicts or stops only when no snapshot fits. It stops with `false` exactly when nothing fits and nothing can be evicted. |
| Room.ShortRound | src/main.rs:170-201 | When space is short and the smallest snapshot fits, the round is the compression or its `Io` failure; otherwise it is exactly `delete_one`'s outcome: its error, a stop, or the tree without its victim. |
| Room.MakeRoom | src/main.rs:166-205 | Terminates, and returns the run of rounds it made, each tree the one the previous round left. The final round decides the answer: its error, `true` exactly when the free space reaches `amount`, `false` exactly when space is short, no uncompressed snapshot fits and `delete_one` would delete nothing. No world loses snapshots except this one. |
| Room.DoBackup | src/main.rs:217-226 | After the run of rounds for the world's size: the backup name when the space suffices, `DiskSpace` when space stays short with nothing to compress or evict, and the failing round's error otherwise. |
| Room.Both | src/main.rs:236 | Success exactly when both succeed; the backup's error takes precedence over the `save-on` error. |
| Room.Run | src/main.rs:229-237 | A failed `save-off` or `save-all` stops everything before the backup. Otherwise the result is the backup's outcome combined with `save-on`'s: `DiskSpace` or a round's error wins over it, and after room was made, the name's error or else `save-on`'s. |

## Left out

- Real filesystem I/O (`read_dir`, `symlink_metadata`, `remove_dir_all`, `remove_file`, `read_link`): the filesystem is an immutable value, so their I/O errors are not modelled. The exceptions are a missing world directory and an archive name taken by a directory, which give `Io`.
- Non-directory entries directly under the backup root: the tree holds world directories only, so the `read_dir` failure on such an entry is not modelled.
- The `tar` command's output: an archive's length is an oracle of the compressed directory.
- The copy by `fs_extra::dir::copy` and its destination path built with `Path::join` are path plumbing.
- Room.DoBackup: does not add the copied snapshot to the tree, because the copy and its path are not modelled.
- The `systemstat` mount statistics: the available bytes are an oracle.
- The Minecraft `save-off`, `save-all` and `save-on` commands: their outcomes are parameters of `Run`.
- The ten-second `sleep`, `println!` for `--verbose`, and the `clap` argument parsing: no behaviour to verify.
- Names.ParseKey: accepts calendar-invalid stamps such as month 13. chrono rejects those with `ChronoParse`, but the model computes the instant arithmetically from any digits. On the stamps chrono accepts (`ValidCivil`), instants follow the calendar, as `Names.InstantFollowsCalendar` states.
- Names.JarVersion: the file name is given as already-decoded text, so the `Utf8` error for a non-UTF-8 stem is not modelled.
- Eviction.DeleteOne: non-UTF-8 file names (`OsString` errors) are not modelled, since names are text.
- Eviction.Distance: uses unbounded integers, so the `i64` overflow of the subtractions is not modelled.
- Room.PackListing: the archive takes the compressed directory's place in the world's listing. The program re-reads the directory with `fs::read_dir` every round, in an order the OS chooses. On a key collision the later-listed name is the one catalogued (`Catalog.ListedLastWins`), so which file a later `delete_one` removes depends on that order, and the archive's position is a modelling choice.
- Names.Instant: time is counted in half-seconds so that a leap second gets an instant of its own. Distances are compared only with one another, so doubling them changes no comparison, but a distance to a leap second is not chrono's exact duration.
- Fs.DirSize: sizes are unbounded naturals, so the `u64` width of the `ByteSize` sums (src/main.rs:78-96) and of `avail` (src/main.rs:170) is not modelled. No real disk holds 2^64 bytes.
- The doc comment's "amount % of the disk" condition: the code never checks it, so only `avail < amount` is modelled.
- Removal by `remove_dir_all` versus `remove_file`: both remove the named entry, so the model removes it regardless of kind.
- Evictions remove every entry of the victim's name. A real directory has one entry per name, so this is the same.
- Asynchrony (`Pin<Box<dyn Future>>`, `async`): no effect on the results.
