# Verified models of NMiner and its copy of hwloc

NMiner is a Monero miner and mining proxy. The parts of it whose correctness rests on more than
reading one function are modelled here in Dafny, and the properties they are meant to have are
proved for all inputs, all runs and all reachable states. `dafny verify dfyconfig.toml` checks
the whole project.

## What is modelled

**Bitmaps of hwloc** (`Words`, `Bitmap`, `BitmapQueries`). A set of naturals that may be
infinite is an array of 64-bit words with a count and a flag for everything behind them. The
class does what the C code does in place; its contracts speak of the mathematical set
(`Members`), so growing the array, differing word counts and operands that are also the result
cannot show. What does show is a 32-bit product that wraps at 2^26 words. The comparison of
inclusion is a state machine over words; it is proved to give exactly the relation of the two sets.

**The three texts of a bitmap** (`CText`, `HexWords`, `HexFormat`, `HexRoundTrip`, `ListFormat`,
`ListRoundTrip`, `TasksetFormat`, `TasksetRoundTrip`, `CanonicalTexts`). What `printf`, `strtoul`
and `strtol` do with numbers is spelled out, the printers and parsers are methods with the loops of
the source, and printing and scanning any bitmap gives the same set back in each format; a set has
one text.

**Synthetic topologies** (`Arithmetic`, `Interleaving`, `Synthetic`, `SyntheticText`,
`Chains`, `SyntheticExport`, `ExportSearch`, `SyntheticRoundTrip`). Interleaved indexes are
mixed-radix numbers whose digits are taken in another order. Level names always give a permutation, loops written by
hand do under an exact condition, the exporter finds loops wherever they chain, and importing what
it wrote gives the indexes back.

**CPU kinds** (`Permutations`, `Infos`, `CpuKinds`, `CpuKindsAtoms`, `CpuKindsTable`). Registering
a set of processing units splits the kinds that are there. Over any run the kinds are the atoms of
the registered sets, and the slots asked for are enough.

**The PCI tree** (`PciTree`, `PciOrder`, `PciShapes`, `PciCells`). Objects are inserted one by
one, and a bridge that comes late takes over siblings. For compatible objects the tree does not
depend on the order. The objects are cells with links to the next sibling, the first child and
the parent, which are rewired in place; that they end up linked as the tree is proved as well.

**Topology diffs** (`Diff`, `DiffTotals`, `DiffUndo`, `DiffApply`) and **base64** (`Base64`,
`Base64Codec`, section 4 of RFC 4648).

**The datagram protocol** (`Datagram`, `DatagramText`, `DatagramProtocol`). Two ends and the set
of all packets ever written: the network may deliver any of them any number of times, in any
order, or never. The links of a process share a timer.

**Work accounting of the proxy** (`Nonce`, `NonceRuns`, `Ledger`, `NicehashSlots`, `Grants`,
`LinkBooks`, `Upstream`, `Targets`, `VarDiff`, `Shares`, `Hub`). Nonce ranges for miners and
links, the ledger of who owns what, loads under migration, share targets, and the fast path of a
worker against the primary. Every method of an upstream keeps its grants in order (`Orderly`): no
nonce of a job on a link is granted twice, and the ledgers hold what was granted.

**Lines that arrive in chunks** (`Lines`).

## How it is modelled

A class with the fields of the source stands for each object that its methods update; methods
have the loops of the source. Each is proved against a function of the values before the call,
and the properties are lemmas about those functions. Machine integers are naturals with their
bounds written out where they matter: words are 64 bits, indexes and slots are 32-bit where a
text or a conversion depends on it, memory totals wrap at 2^64. Allocation succeeds. The time,
what the pool answers, what a sort makes of its input and the link that picking ends with are
parameters; `Options` has the type for results that may be missing. Where the code does less
than its messages say, the code is followed: the last check of the synthetic importer reports
duplicate indexes but looks only for a second 0, and `Synthetic.LoopsMayRepeat` shows a text that
passes it and repeats another index.

Some properties hold only under a condition, and it is stated exactly:
`LinkBooks.HouseKeeps` (no miner is housed twice), `VarDiffs.FirstIssueIsFair` (difficulties
below 2^32), `Targets.MeetingIsDifficult` (targets that are not zero),
`SyntheticRoundTrip.ExportImportRoundTrip` (not the single object 0),
`Base64.EncodedDecodes` (room in the target), `Lines.Feed` (no line too long),
`Shares.LearnAfterTune` and `Shares.LoginAgrees` (when a worker agrees with the primary;
`Shares.LoginCreditsDiffer` and `Shares.SecondLoginDiffers` are logins after which it does not),
`Shares.CurrentIsEnough` (targets that count in their order; `Shares.SolutionRefused` is a share for
the pool that is refused), `Bitmaps.AllWhole` (less than 2^26 words), `Chains.LoopsPermuteExactly`
(digits that tell positions apart), `DatagramProtocol.TimerIsLost` (no link that dies after it was
stopped), `VarDiffs.SettlesExactly` (`VarDiffs.NotSettled` is a difficulty that changes again),
`NicehashSlots.ExclusiveExactly` and `Grants.FreshSpaceIsProper` (no slot twice in one space),
`LinkBooks.AttachKeeps` (no house by the end of attaching), `DiffUndo.FailureRestoresExactly` (the
applied entries unwind;
`DiffTotals.RepeatedAttributeIsNotRestored` is a diff whose entries do not).

## Model

| member | source | states |
|---|---|---|
| `Bitmaps.Bitmap.constructor` | 3rdparty/hwloc/src/bitmap.c:84-116 | A new bitmap is the empty set, or the set of all indexes. |
| `Bitmaps.Bitmap.EnlargeByUlongs` | 3rdparty/hwloc/src/bitmap.c:137-149 | Room for the words asked for, in the same array or a fresh one, and the same words as before. |
| `Bitmaps.Bitmap.ReallocByUlongs` | 3rdparty/hwloc/src/bitmap.c:157-175 | At least the words asked for, with every word of the set, present or not, reading as before: the set does not change. |
| `Bitmaps.Bitmap.ResetByUlongs` | 3rdparty/hwloc/src/bitmap.c:186-192 | Exactly the words asked for, with enough room for them. |
| `Bitmaps.SameMembers` | 3rdparty/hwloc/src/bitmap.c:73-73 | Two bitmaps, whatever their word counts, are the same set exactly when all their words read the same. |
| `Bitmaps.Bitmap.Or` | 3rdparty/hwloc/src/bitmap.c:1187-1226 | The result is the union of the two operands as they were, also when it is one of them, and whichever of them is longer or infinite. |
| `Bitmaps.Bitmap.And` | 3rdparty/hwloc/src/bitmap.c:1228-1267 | The same for the intersection. |
| `Bitmaps.Bitmap.AndNot` | 3rdparty/hwloc/src/bitmap.c:1269-1308 | The same for the difference. |
| `Bitmaps.Bitmap.Xor` | 3rdparty/hwloc/src/bitmap.c:1310-1343 | The same for the symmetric difference. |
| `Bitmaps.Bitmap.Not` | 3rdparty/hwloc/src/bitmap.c:1345-1361 | The result is the complement of the operand as it was, also in place. |
| `Bitmaps.OrMembers` | 3rdparty/hwloc/src/bitmap.c:1203-1224 | Words that are or-ed as far as both operands reach, then cut off behind an infinite operand or copied from the longer one, denote the union. |
| `Bitmaps.AndMembers` | 3rdparty/hwloc/src/bitmap.c:1244-1265 | The same for words that are and-ed. |
| `Bitmaps.AndNotMembers` | 3rdparty/hwloc/src/bitmap.c:1285-1306 | The same for words that are and-ed with a complement. |
| `Bitmaps.XorMembers` | 3rdparty/hwloc/src/bitmap.c:1326-1341 | The same for words that are xor-ed. |
| `Bitmaps.Bitmap.SetRange` | 3rdparty/hwloc/src/bitmap.c:912-966 | Adds exactly the indexes from begin to the unsigned end, or all from begin on for an end of -1, but for those that an infinite bitmap is taken to have from the 32-bit product of its word count on; nothing for a reversed range. |
| `Bitmaps.Bitmap.ClrRange` | 3rdparty/hwloc/src/bitmap.c:996-1051 | Removes exactly those indexes, but for those that a finite bitmap is taken not to have. |
| `Bitmaps.MaskMembers` | 3rdparty/hwloc/src/bitmap.c:951-962 | Or-ing (or clearing) in every word the mask of a range adds (removes) exactly the indexes of the range. |
| `Bitmaps.OpenMembers` | 3rdparty/hwloc/src/bitmap.c:933-940 | The same for a range without an end, where all later words and the tail are overwritten. |
| `Bitmaps.Bitmap.Set` | 3rdparty/hwloc/src/bitmap.c:895-910 | Adds one index and no other, but for an infinite bitmap that is taken to have it. |
| `Bitmaps.WholeExactly` | 3rdparty/hwloc/src/bitmap.c:922-946 | What is left out of a range makes no difference if and only if the bitmap has all of it as wanted already. |
| `Bitmaps.AllWhole` | 3rdparty/hwloc/src/bitmap.c:1007-1031 | Ranges are added (or removed) as a whole, all of them, if and only if the tail is not as wanted or everything from that product on is; it is as long as there are less than 2^26 words. |
| `Bitmaps.NothingReached` | 3rdparty/hwloc/src/bitmap.c:902-903 | With 2^26 words, as index 4294967295 needs them, a finite bitmap cannot be cleared, nor can an infinite one be added to. |
| `Bitmaps.Bitmap.Reset` | 3rdparty/hwloc/src/bitmap.c:749-781 | One word and no other: the empty set, or the full one. |
| `BitmapQueries.Next` | 3rdparty/hwloc/src/bitmap.c:1439-1501 | Returns the least index above prev whose membership is the wanted one, or -1 exactly when there is none, in the words or in the tail. |
| `BitmapQueries.Classify` | 3rdparty/hwloc/src/bitmap.c:1662-1724 | For a pair of words, the case distinction of the loop (both zero, one zero, equal, included, containing, overlapping, disjoint) is decided by whether either has a bit of its own and whether they share one. |
| `BitmapQueries.CompareWords` | 3rdparty/hwloc/src/bitmap.c:1658-1728 | One iteration keeps the running state equal to the verdict for the words so far, and an early return happens only when the sets intersect for good. |
| `BitmapQueries.VerdictIsRelation` | 3rdparty/hwloc/src/bitmap.c:1647-1760 | The three facts that the state stands for decide the relation of the two sets. |
| `BitmapQueries.CompareInclusion` | 3rdparty/hwloc/src/bitmap.c:1647-1760 | The result is exactly the relation of the two sets: equal, strictly included, strictly containing, disjoint and both non-empty, or intersecting; early returns and infinite tails included. |
| `CText.Scan` | 3rdparty/hwloc/src/bitmap.c:419-419 | What strtoul and strtol find: it is behind the position exactly when there are digits, and all of them are digits of the base. |
| `CText.ScanDec` | 3rdparty/hwloc/src/bitmap.c:527-527 | What %d and %u print is read back by strtoul in base 10 or 0, stopping right behind it. |
| `CText.ScanHex` | 3rdparty/hwloc/src/bitmap.c:419-419 | Hexadecimal digits behind 0x are read back, stopping right behind them. |
| `CText.NoCommaInNumber` | 3rdparty/hwloc/src/bitmap.c:383-419 | Parsing a number never runs past a comma. |
| `HexWords.Digits` | 3rdparty/hwloc/src/bitmap.c:319-319 | Hexadecimal digits of bits, four bits each, that stand for exactly those bits. |
| `HexFormat.Snprintf` | 3rdparty/hwloc/src/bitmap.c:252-358 | The loop over 32-bit halves prints the hex text of the bitmap: leading tail words skipped, a full first half merged with the infinite prefix, zero substrings as empty fields. |
| `HexFormat.OneSubstring` | 3rdparty/hwloc/src/bitmap.c:383-437 | Each strtoul consumes one comma-separated substring, so the comma count announces the number of substrings. |
| `HexFormat.Sscanf` | 3rdparty/hwloc/src/bitmap.c:375-447 | The in-place parser computes the scan of the text: the words and the flag it describes, or the empty set and a failure. |
| `HexRoundTrip.ScanFields` | 3rdparty/hwloc/src/bitmap.c:416-437 | Scanning printed substrings from any position gathers exactly them, top half first. |
| `HexRoundTrip.GatherWords` | 3rdparty/hwloc/src/bitmap.c:424-428 | Halves gathered with shifts and ors are the words they came from. |
| `HexRoundTrip.TrimmedMembers` | 3rdparty/hwloc/src/bitmap.c:291-299 | The words that the text leaves out do not change the set. |
| `HexRoundTrip.HexRoundTrip` | 3rdparty/hwloc/src/bitmap.c:252-447 | For every bitmap, finite or infinite, printing and scanning the hex text gives the same set, and the text never starts with a comma. |
| `ListFormat.NextIsFrom` | 3rdparty/hwloc/src/bitmap.c:1439-1501 | What next and next_unset return is determined by the set. |
| `ListFormat.ListSnprintf` | 3rdparty/hwloc/src/bitmap.c:449-496 | The loop driven by next and next_unset prints one piece for each maximal run of members. |
| `ListFormat.ListSscanf` | 3rdparty/hwloc/src/bitmap.c:513-566 | The parser computes the scan of the text: the set of its indexes and ranges, as far as the words reach, with their count and the tail; or the empty set and a failure. Conversions from long to unsigned and int are spelled out. |
| `ListRoundTrip.RunAbove` | 3rdparty/hwloc/src/bitmap.c:466-492 | Adding the run from the next member to the next non-member to the members so far gives the members up to its end. |
| `ListRoundTrip.ScanPiece` | 3rdparty/hwloc/src/bitmap.c:521-558 | One printed piece is read as the run it stands for, and then what is behind its comma. |
| `ListRoundTrip.ListRoundTrip` | 3rdparty/hwloc/src/bitmap.c:449-566 | For every bitmap whose words hold indexes of an int, finite or infinite, printing and scanning the list text gives the same set. |
| `TasksetFormat.TasksetSnprintf` | 3rdparty/hwloc/src/bitmap.c:568-652 | The loops print one hexadecimal number: leading tail words skipped, the first word short, the others in full, a first word with a full high half halved behind the infinite prefix. |
| `TasksetFormat.TasksetSscanf` | 3rdparty/hwloc/src/bitmap.c:669-739 | The in-place parser reads 16 digits at a time from the low end, a short first chunk filled up when infinite, or fails and leaves the empty set. |
| `TasksetRoundTrip.MergedIs` | 3rdparty/hwloc/src/bitmap.c:721-724 | The halved first word is read back with its full high half. |
| `TasksetRoundTrip.ReadAfter` | 3rdparty/hwloc/src/bitmap.c:697-729 | A short first chunk and full ones behind it are read back as the words they came from. |
| `TasksetRoundTrip.TasksetRoundTrip` | 3rdparty/hwloc/src/bitmap.c:568-739 | For every bitmap, finite or infinite, printing and scanning the taskset text gives the same set. |
| `CanonicalTexts.HexIsCanonical` | 3rdparty/hwloc/src/bitmap.c:252-358 | Two bitmaps, however many words they have, have the same hex text if and only if they are the same set. |
| `CanonicalTexts.ListIsCanonical` | 3rdparty/hwloc/src/bitmap.c:449-496 | The same for the list text, for bitmaps whose words hold indexes of an int. |
| `CanonicalTexts.TasksetIsCanonical` | 3rdparty/hwloc/src/bitmap.c:568-652 | The same for the taskset text. |
| `Interleaving.Fill` | 3rdparty/hwloc/src/topology-synthetic.c:283-291 | The loops over the array give every position the mixed-radix number of its digits. |
| `Interleaving.IndexBelow` | 3rdparty/hwloc/src/topology-synthetic.c:286-290 | Indexes stay below the product of the loop widths. |
| `Interleaving.IndexDeterminesDigits` | 3rdparty/hwloc/src/topology-synthetic.c:286-290 | An index determines every digit (j / step) % nb that went into it. |
| `Interleaving.NamedProduct` | 3rdparty/hwloc/src/topology-synthetic.c:239-265 | For distinct named levels, in any order of the names, the widths of the loops multiply to the width of the deepest level named. |
| `Interleaving.NamedMinStep` | 3rdparty/hwloc/src/topology-synthetic.c:262-264 | The smallest step is that of the deepest level named. |
| `Interleaving.NamedCompleted` | 3rdparty/hwloc/src/topology-synthetic.c:269-281 | For named levels, the one missing loop can always be added when one is missing. |
| `Interleaving.NamedPermutation` | 3rdparty/hwloc/src/topology-synthetic.c:239-291 | For distinct named levels whose widths divide the total along the arity chain, the completed loops permute all positions. |
| `Synthetic.FindAbove` | 3rdparty/hwloc/src/topology-synthetic.c:244-254 | The inner loop finds whether a name is repeated, and the deepest level named above it. |
| `Synthetic.ComputeLoops` | 3rdparty/hwloc/src/topology-synthetic.c:239-266 | Steps and widths from the levels, with their least step and their product; rejected exactly when a level is named twice. |
| `Synthetic.Generate` | 3rdparty/hwloc/src/topology-synthetic.c:267-309 | The repair with a missing loop, the filling and the sanity checks, in place: rejected exactly when the loops cannot be repaired or the checks find an index too large or a second zero. |
| `Synthetic.NamedInterleaved` | 3rdparty/hwloc/src/topology-synthetic.c:239-309 | What named levels are made into is a permutation that passes the sanity checks: they never fire. |
| `Synthetic.ImportNamed` | 3rdparty/hwloc/src/topology-synthetic.c:239-309 | Importing level names gives a permutation of all positions, and is rejected exactly when a level is named twice. |
| `Synthetic.LoopsMayRepeat` | 3rdparty/hwloc/src/topology-synthetic.c:295-307 | The checks are not enough for arbitrary loops: 1*2:3*2:2*2 with 8 positions passes them and gives index 4 twice. |
| `Chains.ChainedInterleaved` | 3rdparty/hwloc/src/topology-synthetic.c:142-309 | Loops whose steps in some order chain by their widths, each step times its width being the next and the last one the total, are accepted and permute all positions, in whatever order they are written; a first width may be missing. |
| `Chains.LoopsPermuteExactly` | 3rdparty/hwloc/src/topology-synthetic.c:267-309 | Loops give every position an index of its own if and only if they can be repaired and some digit tells any two positions apart. |
| `Chains.AcceptedExactly` | 3rdparty/hwloc/src/topology-synthetic.c:267-309 | Loops are accepted if and only if their widths multiply to the total, or the least step is the width that is missing, and no position but the first gets index 0; the check for indexes out of range never fires. |
| `Chains.RemaindersPermute` | 3rdparty/hwloc/src/topology-synthetic.c:283-291 | Steps need not chain for that: 1*2:1*3 permutes 6 positions. |
| `SyntheticText.ImportList` | 3rdparty/hwloc/src/topology-synthetic.c:94-117 | The loop over an explicit list reads exactly as many numbers as positions, with commas between them. |
| `SyntheticText.ParseLoops` | 3rdparty/hwloc/src/topology-synthetic.c:142-186 | The loop over step*nb fields reads them all, with their least step and their product, or rejects the text. |
| `SyntheticText.ProcessIndexes` | 3rdparty/hwloc/src/topology-synthetic.c:72-318 | Importing computes the array that the text describes, a list, loops or level names as its first character and the commas decide, or nothing when it is malformed. |
| `SyntheticExport.FindLoops` | 3rdparty/hwloc/src/topology-synthetic.c:1189-1215 | The search for loops ends, and gives the loops that the index positions determine, or none. |
| `SyntheticExport.CheckLoops` | 3rdparty/hwloc/src/topology-synthetic.c:1217-1227 | Accepts loops exactly when they give every index of the level. |
| `SyntheticExport.SearchFinds` | 3rdparty/hwloc/src/topology-synthetic.c:1192-1215 | Loops that are found have positive steps and widths no larger than the level, and their widths multiply to its size. |
| `SyntheticExport.Export` | 3rdparty/hwloc/src/topology-synthetic.c:1176-1255 | In place: loops when the search finds some that give the indexes, and all indexes otherwise; the next rows say when that is. |
| `ExportSearch.LoopsAreFound` | 3rdparty/hwloc/src/topology-synthetic.c:1189-1233 | For every level whose indexes are those of some loops whose steps chain in some order from 1 to its size, whatever their widths, the exported text is that of loops that give the indexes; the list is printed only when there are no such loops. |
| `ExportSearch.ImportedIsFound` | 3rdparty/hwloc/src/topology-synthetic.c:1189-1233 | So what is imported from hand-written loops that chain, with or without a width missing, is exported as loops. |
| `ExportSearch.NamedIsFound` | 3rdparty/hwloc/src/topology-synthetic.c:1189-1233 | So is what is imported from distinct level names. |
| `SyntheticRoundTrip.ReadExportedLoops` | 3rdparty/hwloc/src/topology-synthetic.c:146-186 | Printed loops are parsed back. |
| `SyntheticRoundTrip.ReadExportedList` | 3rdparty/hwloc/src/topology-synthetic.c:96-116 | A printed list is parsed back. |
| `SyntheticRoundTrip.ExportImportRoundTrip` | 3rdparty/hwloc/src/topology-synthetic.c:1176-1255 | For every level with distinct 32-bit indexes, importing the exported text gives exactly its indexes, never rejecting it; the text is empty exactly for the single object 0. |
| `CpuKinds.Cpuset.Compare` | 3rdparty/hwloc/src/cpukinds.c:181-181 | The comparison used on cpusets is their relation as sets. |
| `CpuKinds.AddInfosIsUnion` | 3rdparty/hwloc/src/cpukinds.c:118-127 | Adding infos gives the union of both as sets, without duplicates when there were none. |
| `CpuKindsTable.AppendInfos` | 3rdparty/hwloc/src/cpukinds.c:105-127 | The loop appends exactly the infos that are not there yet. |
| `CpuKindsTable.Wanted` | 3rdparty/hwloc/src/cpukinds.c:158-164 | The slots asked for are at least 2N+1 for N kinds. |
| `CpuKindsTable.Table.Enlarge` | 3rdparty/hwloc/src/cpukinds.c:166-177 | At least 2N+1 slots, and the same kinds. |
| `CpuKindsTable.Table.VisitSlot` | 3rdparty/hwloc/src/cpukinds.c:181-210 | One kind is split, extended or left alone in place; a piece split off goes into the next free slot, and no other slot changes. |
| `CpuKindsTable.Table.SweepSlots` | 3rdparty/hwloc/src/cpukinds.c:179-215 | The loop over the kinds in place does what sweeping them as values does, and stays below the allocated slots. |
| `CpuKindsTable.Table.Register` | 3rdparty/hwloc/src/cpukinds.c:130-230 | Registering in place: refused for an empty cpuset or unknown flags with nothing changed, and the registered kinds otherwise. |
| `CpuKindsTable.Table.FinalizeRanking` | 3rdparty/hwloc/src/cpukinds.c:459-467 | After sorting, efficiencies are 0 to N-1 in order of the ranking values, and nothing else about the kinds changes. |
| `CpuKindsAtoms.SweepCount` | 3rdparty/hwloc/src/cpukinds.c:180-215 | A sweep neither loses nor doubles a processing unit, and leaves over exactly the registered ones that no kind held. |
| `CpuKindsAtoms.SweepPieces` | 3rdparty/hwloc/src/cpukinds.c:180-215 | Every kind after a sweep is the part of one kind inside or outside the registered cpuset, with the new infos exactly when inside; its forced efficiency is the old one outside, the new one when split off, and otherwise the new one only when the old one is unknown or to be overwritten. |
| `CpuKindsAtoms.RegistrationKeepsAtoms` | 3rdparty/hwloc/src/cpukinds.c:130-230 | If the kinds are the atoms of the registered cpusets before a registration, they are afterwards. |
| `CpuKindsAtoms.RankingKeepsAtoms` | 3rdparty/hwloc/src/cpukinds.c:459-467 | Ranking and sorting keep the kinds the atoms. |
| `CpuKindsAtoms.KindsAreAtoms` | 3rdparty/hwloc/src/cpukinds.c:130-230 | After every run of registrations and rankings the kinds are non-empty, their union is that of the registered cpusets, and each is the class of units with the same registrations, with the duplicate-free union of their infos, and with the forced efficiency of the last of them that covers it, but for those that told nothing apart, were not to overwrite and found a known one. |
| `CpuKindsAtoms.AtomsPartition` | 3rdparty/hwloc/src/cpukinds.c:130-230 | Such kinds are pairwise disjoint, and two units share one exactly when they are covered and no registration tells them apart. |
| `PciCells.MoveCell` | 3rdparty/hwloc/src/pci-common.c:330-337 | The four writes that take one sibling out of its row and put it behind those below the bridge. |
| `PciCells.SiftCells` | 3rdparty/hwloc/src/pci-common.c:316-338 | In place: the later siblings whose bus is in the range of a new bridge, and no others, are linked below it, with it as their parent and in order; the others are linked behind it; no link changes elsewhere. |
| `PciCells.AddObject` | 3rdparty/hwloc/src/pci-common.c:294-364 | In place: cells that were linked as a tree are linked as the tree that inserting gives, each cell once and none lost; links outside the tree do not change. |
| `PciCells.Discover` | 3rdparty/hwloc/src/pci-common.c:367-371 | Objects inserted one by one into an empty tree end up linked as the tree that inserting them as values gives. |
| `PciOrder.CompareMeans` | 3rdparty/hwloc/src/pci-common.c:251-291 | For compatible objects the comparison says whether one covers the other, and otherwise their order by bus id. |
| `PciOrder.SiftSplits` | 3rdparty/hwloc/src/pci-common.c:316-338 | The siblings taken over are exactly those whose bus is below the new bridge, and both parts stay in order. |
| `PciOrder.InsertKeepsOrder` | 3rdparty/hwloc/src/pci-common.c:294-364 | Inserting into a tree in order gives a tree in order with one object more. |
| `PciOrder.TreeDetermined` | 3rdparty/hwloc/src/pci-common.c:294-364 | Two trees in order with the same compatible objects are the same tree. |
| `PciOrder.DiscoveryInOrder` | 3rdparty/hwloc/src/pci-common.c:294-364 | Inserting compatible objects in any order gives a tree in order with all of them. |
| `PciOrder.OrderIndependent` | 3rdparty/hwloc/src/pci-common.c:294-364 | Inserting the same compatible objects in two orders gives the same tree. |
| `PciOrder.ParentIsInnermost` | 3rdparty/hwloc/src/pci-common.c:306-338 | Each object hangs below the innermost bridge whose range has its bus. |
| `PciOrder.DuplicateDropped` | 3rdparty/hwloc/src/pci-common.c:341-357 | An object whose bus id is in the tree already is dropped, and the tree stays as it is. |
| `PciOrder.OrderMattersOtherwise` | 3rdparty/hwloc/src/pci-common.c:294-364 | For ranges that are not nested the order matters: three objects, and the two different trees that two orders give. |
| `Datagrams.Timer.Retransmit` | src/js/udp.ts:21-29 | Every link that waits makes a pass over its outbox, and is stopped by its owner when it dies; those that died or have nothing left do not wait any longer, and the timer stops exactly when nobody does. |
| `Datagrams.Datagram.Send` | src/js/udp.ts:42-53 | The next number, in the outbox with one try and a due time, and its packet on the wire; the link waits, and the timer runs. |
| `Datagrams.Datagram.Resend` | src/js/udp.ts:55-71 | Writes again what is due, in order, one try more each; ends the link at the first number that has had all its tries, and its owner then stops it; then, or when nothing is left, the link does not wait any longer. |
| `Datagrams.Datagram.Dead` | src/js/udp.ts:132-155 | What both owners do when a link dies: they stop it, unless they have let go of it before. |
| `Datagrams.Datagram.Receive` | src/js/udp.ts:73-98 | Every data packet is acknowledged; one whose number is not in the window is noted in place of the oldest and delivered; an acknowledgement clears its number, and with the last one the link waits no longer. |
| `Datagrams.Datagram.Stop` | src/js/udp.ts:100-103 | The outbox is empty and the link does not wait. |
| `DatagramText.TextRoundTrip` | src/js/udp.ts:42-98 | A packet is parsed back from its text, whatever its payload. |
| `DatagramProtocol.PassEffect` | src/js/udp.ts:55-71 | What a pass of resending does to each number: it is written at most once, only when due, and always then unless the link dies; then it has one try more and is due again later; what is not written does not change. |
| `DatagramProtocol.DiesExactly` | src/js/udp.ts:59-64 | A link dies in a pass if and only if some due number has had all its tries. |
| `DatagramProtocol.RetriedInTime` | src/js/udp.ts:42-71 | A number that was sent is not written again before 700 milliseconds have passed, and is at the next pass after that. |
| `DatagramProtocol.ReceivingDoes` | src/js/udp.ts:73-98 | A data packet is acknowledged, and delivered exactly when its number is not among the last 256 delivered; an acknowledgement clears its number and no other. |
| `DatagramProtocol.OneExchange` | src/js/udp.ts:42-98 | When a number in the outbox reaches the other end once and the acknowledgement comes back once, it was delivered and is out of the outbox. |
| `DatagramProtocol.DeliveryKeepsWindow` | src/js/udp.ts:88-96 | Ring and set hold exactly the last 256 numbers delivered. |
| `DatagramProtocol.StepKeeps` | src/js/udp.ts:21-104 | Every event at either end keeps the invariant of the two ends. |
| `DatagramProtocol.InvariantHolds` | src/js/udp.ts:21-104 | The invariant holds in every state of every run over a network that loses, duplicates and reorders. |
| `DatagramProtocol.Promises` | src/js/udp.ts:21-104 | In every run: all that is delivered was sent, with its payload; a number gone from the outbox of a link that has not been stopped was delivered; no number is transmitted more than 5 times; between two deliveries of a number there are at least 256 others; an outbox that is not empty has a running timer, unless something was sent on a stopped link that then died. |
| `DatagramProtocol.TimerIsLost` | src/js/udp.ts:55-71 | A run of the timer leaves an outbox without one if and only if a link dies that was stopped before, with more than one number left. |
| `DatagramProtocol.LateSendsAreLost` | src/js/udp.ts:55-71 | Two sends on a stopped link and five passes leave the second one in the outbox without a timer. |
| `Nonce.NonceSpace.Take` | src/js/nonce.ts:85-106 | The loop ends with a range of free nonces that are free no longer: as many as asked for and at least one, from the first that is left of the segment at hand on, and fewer only where the range ends with its segment or before the last nonce; or with nothing when none but the last nonce is left. |
| `Nonce.TakeDoes` | src/js/nonce.ts:85-106 | A range that is taken is not empty, below 0xFFFFFFFF and was free; every other nonce stays as it was, and with separate segments those of the range are free no longer; nothing is taken only when nothing is left. |
| `Nonce.TakesAsked` | src/js/nonce.ts:85-106 | How large a range is and where it starts, whatever is left of the space. |
| `NonceRuns.SpaceLeft` | src/js/nonce.ts:41-46 | The sum over the segments that are left. |
| `NonceRuns.LeftIsFree` | src/js/nonce.ts:41-46 | The sum is the number of free nonces, and zero exactly when there are none. |
| `NonceRuns.ChunkSize` | src/js/nonce.ts:52-57 | Between 2^12 and 2^28 nonces; above the least size within the share and less than one nonce above rate times window; below both upper bounds it lasts for the whole window. |
| `NonceRuns.RangesAreExclusive` | src/js/upstream.ts:204-215 | Over any run of grants on one space, to any miners and of any sizes, the ranges are non-empty, pairwise disjoint and inside the space; with what is left they make up the space but for its last nonce. |
| `NonceRuns.FullSpaceIsShared` | src/js/nonce.ts:25-25 | On a link without a nonce byte every run hands out disjoint ranges, and each nonce but the last is either handed out or left. |
| `Ledgers.AddedCovers` | src/js/nonce.ts:71-74 | Joining a range to the last one covers exactly what recording it apart would. |
| `Ledgers.RecordKeeps` | src/js/nonce.ts:64-75 | Recording keeps the ledger to the ranges of the last two runs of jobs in the history. |
| `Ledgers.Ledger.Record` | src/js/nonce.ts:64-75 | The history of the ledger grows by one record, and the ledger keeps to it. |
| `Ledgers.Ledger.Owns` | src/js/nonce.ts:77-82 | Owns a nonce exactly when a range recorded for the current or the previous run of jobs has it, despite joining. |
| `NicehashSlots.SlotOfNonce` | src/js/nonce.ts:27-27 | A nonce is in a nicehash space exactly when its top byte is one of the slots. |
| `Upstreams.Upstream.Reslice` | src/js/upstream.ts:392-400 | In place: every link with a slot gets its share of the free slots when expanding and none otherwise; links without one keep what they have. |
| `NicehashSlots.ExtraOwner` | src/js/upstream.ts:396-399 | Every slot that no link owns is the extra slot of exactly one link, and no owned slot is an extra one. |
| `NicehashSlots.SlotsTile` | src/js/upstream.ts:392-400 | After reslicing links with distinct positive slots, every 32-bit nonce is in the space of exactly one of them. |
| `NicehashSlots.NicehashIsProper` | src/js/upstream.ts:332-332 | The space of a resliced link consists of separate segments, so that ranges can be taken from it. |
| `NicehashSlots.LinksAreExclusive` | src/js/upstream.ts:392-400 | No nonce is granted on two resliced links, whatever their miners ask for. |
| `NicehashSlots.ExclusiveExactly` | src/js/nonce.ts:27-27 | The ranges of every run on the space of some slots are disjoint if and only if no slot is named twice. |
| `NicehashSlots.AcceptedIsProper` | src/js/upstream.ts:331-332 | The space of a new job has separate segments exactly when its slot is not one of the extra slots that the link has from before. |
| `Grants.FreshSpaceIsProper` | src/js/upstream.ts:331-332 | The same for links with and without a slot. |
| `Grants.TakingKeepsOrder` | src/js/upstream.ts:204-226 | A grant on any link keeps three things: ranges logged for one job on one link are disjoint, what is granted can not be granted again, and each ledger holds exactly what was logged for its miner since it was opened. |
| `Grants.NoNonceTwice` | src/js/upstream.ts:204-230 | A nonce that is in two entries of the ledgers, of one miner or of two, was granted on two different jobs or links, or on a space in which a slot is named twice. |
| `LinkBooks.TakeOut` | src/js/upstream.ts:198-198 | A sum of rates is the rate of any one client and the sum of the others. |
| `LinkBooks.HouseKeeps` | src/js/upstream.ts:185-191 | Housing keeps homes and client sets inverse and loads equal to the sums of rates exactly when the miner has no house yet. |
| `LinkBooks.EvictKeeps` | src/js/upstream.ts:193-202 | Evicting keeps them, and the load is never below the rate taken off, so the clamp at zero never bites. |
| `LinkBooks.ReportKeeps` | src/js/upstream.ts:131-138 | A report keeps them: the load changes by the difference of the rates. |
| `LinkBooks.SeverKeeps` | src/js/upstream.ts:346-358 | A link that goes down keeps them. |
| `LinkBooks.MigrateKeeps` | src/js/upstream.ts:373-389 | The synchronous end of a migration keeps them, rolled back or not. |
| `LinkBooks.HomesDetermine` | src/js/upstream.ts:185-202 | Books in this state with the same homes and rates are the same books. |
| `LinkBooks.RollbackRestores` | src/js/upstream.ts:384-387 | A migration that is rolled back leaves the books exactly as they were. |
| `LinkBooks.MigratedHomes` | src/js/upstream.ts:373-389 | After a migration the miner lives on the new link when that granted a range or the old one is down, and on the old one otherwise; nobody else moves. |
| `LinkBooks.HouseThenEvict` | src/js/upstream.ts:105-122 | Housing a miner and evicting it again changes nothing. |
| `LinkBooks.AttachKeeps` | src/js/upstream.ts:105-122 | Attaching, with or without a range, keeps the books sound exactly when the miner has no house by then; without a range it changes nothing. |
| `LinkBooks.RunsAreSound` | src/js/upstream.ts:131-202 | At every point of every run of opening, housing (of unhoused miners), evicting, reporting, severing and migrating, homes and client sets are inverse and every load is the sum of its clients' rates. |
| `Upstreams.Upstream.House` | src/js/upstream.ts:185-191 | In place: one link gains the miner and its rate, and is its home; other links do not change. |
| `Upstreams.Upstream.Evict` | src/js/upstream.ts:193-202 | In place: the home loses the miner and its rate; nothing happens to a miner without one. |
| `Upstreams.Upstream.Report` | src/js/upstream.ts:131-138 | In place: the rate is the reported one, and the load of the home changes with it; nothing happens for a rate that is not positive. |
| `Upstreams.Upstream.Sever` | src/js/upstream.ts:346-367 | In place: the link leaves the list and has no job, no clients and no load; its miners have no home; the slots are shared out anew; then each miner begins to attach again, for which at most one link is opened; the upstream retires exactly when no link and no miner is left. |
| `Upstreams.Upstream.BeginAttach` | src/js/upstream.ts:105-109 | What attaching does before it waits: the miner is live, and a link is picked, or a new one is listed and connecting. |
| `Upstreams.Upstream.Rehome` | src/js/upstream.ts:363-364 | Each orphan picks by the links there are, until a link is opened for one of them, which the others find connecting. |
| `Upstreams.Upstream.AddLink` | src/js/upstream.ts:265-271 | A new link at the end of the list, without miners, load or nonces. |
| `Upstreams.Upstream.Narrow` | src/js/upstream.ts:402-406 | In place: no longer expanding; when it was, no link keeps extra slots. |
| `Upstreams.Upstream.Survey` | src/js/upstream.ts:243-251 | The loop finds the link with the least room that is enough, and the one with the most room, among those with a job and nonces left but for the excluded one. |
| `Upstreams.Upstream.Pick` | src/js/upstream.ts:237-286 | One round: the tightest link that fits, whose load with the miner stays within 80 percent of what its nonces last for; else to wait for one that is connecting; else a new one while there are fewer than the maximum, with the roomiest to fall back on; else the roomiest, or none. |
| `Upstreams.Upstream.Accept` | src/js/upstream.ts:315-344 | In place: a new job with its slot and its fresh space, of which each miner of the link gets its range, recorded for the job, one after the other in some order; a miner gets none only when no nonce is left. |
| `Upstreams.Upstream.Chunk` | src/js/upstream.ts:140-150 | Retry without a link or a job, expired for another job than that of the link, else a range, recorded for the job; a move is tried only when the link has nothing left. |
| `Upstreams.Upstream.Owns` | src/js/upstream.ts:228-230 | Exactly when the nonce is in a range that was recorded for the miner in its last two runs of jobs. |
| `Upstreams.Upstream.Record` | src/js/upstream.ts:217-226 | The history of the miner grows by the range, in a ledger opened when there is none; other miners' histories do not change. |
| `Grants.GrantIsSized` | src/js/upstream.ts:204-215 | A range is as large as rate, share and deadline ask for, unless it ends with its segment or before the last nonce; never above 2^28 nonces, and above 2^12 neither above the share nor a nonce above rate times window. |
| `Grants.SharesAddUp` | src/js/upstream.ts:208-209 | The shares of all miners of a link add up to what is left of its space. |
| `Upstreams.Upstream.GrantTo` | src/js/upstream.ts:204-215 | Grants a range of that size, records it for the job, and grants nothing only when no nonce is left; over any run no nonce of a job is granted twice. |
| `Upstreams.Upstream.Migrate` | src/js/upstream.ts:369-390 | In place: a miner that gets a range, which is recorded, lives on the new link and on no other; one that gets none, because the new link has none left, lives on its old link when that is up and on the new one otherwise; nothing happens to a miner that is gone; books stay sound and grants in order. |
| `Upstreams.Upstream.Attach` | src/js/upstream.ts:105-122 | In place, for any miner: with a range its home is the link; without one it has no home, is not live and has no ledger, as is one that has gone. The books stay sound exactly when it has gone or has no house by then. |
| `Upstreams.Upstream.Detach` | src/js/upstream.ts:124-129 | In place: the miner is evicted, and neither live nor in the ledgers. |
| `Targets.ReadBack` | src/js/vardiff.ts:45-48 | A number written as little-endian hexadecimal bytes is read back. |
| `Targets.QuotientBounds` | src/js/vardiff.ts:26-40 | Dividing twice gives at least the divisor, and a third time the first quotient. |
| `Targets.DifficultyRoundTrip` | src/js/vardiff.ts:15-54 | From difficulty to target and back: at least the difficulty exactly when it is below 2^32, the same when it is at most 65535, and once more changes nothing. |
| `Targets.NotExactAbove` | src/js/vardiff.ts:26-40 | The bound is tight: 65536 comes back as 65537. |
| `Targets.HashReads` | src/js/vardiff.ts:56-61 | A text of at least 64 hexadecimal digits, and no other, has a value: the number that its last eight of 32 bytes spell, the lowest first. |
| `Targets.ClaimReads` | src/js/hub.ts:138-141 | A nonce of at least eight hexadecimal digits, and no other, claims the number that its first four bytes spell. |
| `Targets.MeetsExactly` | src/js/vardiff.ts:63-70 | A hash meets a compact target if and only if it is worth its difficulty, which is when value times difficulty is below 2^64. |
| `Targets.WideIs` | src/js/vardiff.ts:15-24 | A wide target is the highest hash that meets it, and its difficulty is how often that fits into 2^64 - 1. |
| `Targets.EasiestTarget` | src/js/vardiff.ts:37-54 | The target made for a difficulty below 2^32 is the easiest compact one that is at least as hard. |
| `Targets.MeetingIsDifficult` | src/js/vardiff.ts:63-70 | Every hash that meets a target is worth its difficulty, exactly when the target is not zero and its difficulty is a safe integer. |
| `Targets.ValueOf` | src/js/vardiff.ts:15-35 | Difficulty and limit of a non-zero target are quotients of each other, in the wide and the compact form. |
| `Targets.EasierPasses` | src/js/vardiff.ts:63-65 | A compact target that is no more difficult lets every hash pass that passes the other, compact or wide. |
| `VarDiffs.FirstIssueIsFair` | src/js/vardiff.ts:94-99 | The first target is worth what it is credited with exactly when its difficulty is below 2^32. |
| `VarDiffs.TunedLosesNothing` | src/js/vardiff.ts:137-155 | For a pool target that is not zero, the tuned target is no harder, not zero, and met by every hash that meets the pool's. |
| `VarDiffs.VarDiff.constructor` | src/js/vardiff.ts:94-99 | The starting state, with a fair target when its difficulty is below 2^32. |
| `VarDiffs.VarDiff.Floor` | src/js/vardiff.ts:104-104 | The easier of the current and the prior target. |
| `VarDiffs.VarDiff.Submitted` | src/js/vardiff.ts:107-126 | Work and count grow by what is submitted, and the window takes it in; only at the end of a window, and only for a miner that never stated one, is the hashrate estimated anew. |
| `VarDiffs.TunedFollows` | src/js/vardiff.ts:137-155 | With want the lesser of the pool's difficulty and 15 seconds of the hashrate, at least 1000: the difficulty a target is made for is within a factor of 1.3 of want, the old one while that is, and want otherwise; the target is the pool's exactly when that reaches it, and up to 65535 has exactly that difficulty. |
| `VarDiffs.FallsWithTheRate` | src/js/vardiff.ts:143-146 | A stated hashrate of 1000 takes a miner of 30 threads from 450000 to 15000. |
| `VarDiffs.SettlesExactly` | src/js/vardiff.ts:137-155 | Tuning once more for the same hashrate and pool changes nothing if and only if the target is worth a difficulty near the one that is wanted, or is the one made for that itself. |
| `VarDiffs.TuningSettles` | src/js/vardiff.ts:137-155 | So it is for a difficulty up to 65535 or one that was given up. |
| `VarDiffs.NotSettled` | src/js/vardiff.ts:137-155 | A difficulty above that for which it changes again, because of rounding. |
| `VarDiffs.EstimateConverges` | src/js/vardiff.ts:120-121 | When windows keep showing one rate, the error of the estimate after n of them is 0.6 to the n of what it was. |
| `VarDiffs.WindowMoves` | src/js/vardiff.ts:107-126 | Only the end of a window of four shares and 30 seconds, for a miner that never stated a rate, moves the estimate, and takes off four tenths of its distance from the work per second. |
| `VarDiffs.VarDiff.Tune` | src/js/vardiff.ts:137-155 | The tuned target, which follows the hashrate; a change keeps the one before as prior; nothing changes for a pool target that cannot be read; targets stay fair exactly when the new one is not zero. |
| `Shares.VerdictIs` | src/js/hub.ts:126-159 | A share goes to the pool if and only if there is a job, the nonce is owned, the value meets the pool's target, and it meets the target that counts as the easier of the current and the prior one; it is settled here if and only if it only fails the pool's; and which of the reasons it is refused for. |
| `Shares.CreditIs` | src/js/hub.ts:143-154 | A share is credited with the greatest difficulty of the targets still taken that it meets, and reported with its hash's worth; the prior target is settled exactly when it meets the current one. |
| `Shares.ReplyIs` | src/js/hub.ts:288-312 | What a worker asks for, refuses, passes on to the pool and takes, each if and only if. |
| `Shares.ReplyCreditIs` | src/js/hub.ts:303-309 | What a worker takes has the greatest difficulty met and its hash's worth. |
| `Shares.CurrentIsEnough` | src/js/hub.ts:143-144 | Every share that meets the current target is taken, and all that also meet the pool's are forwarded, if and only if the prior target, while it counts as the easier one, lets all hashes pass that the current one does. |
| `Shares.OrderedWhen` | src/js/hub.ts:143-144 | That is so when both targets count as what they decode to. |
| `Shares.CompactIsOrdered` | src/js/hub.ts:77-105 | It is so after a first login to any pool with a compact target. |
| `Shares.SolutionRefused` | src/js/hub.ts:143-144 | It is not so after a login with 30 threads to a pool with a wide target of difficulty 450010: a share that solves for the pool is refused as below the assigned difficulty. |
| `Shares.CreditIsFair` | src/js/hub.ts:143-154 | For targets that are not zero and difficulties that are safe integers, the primary never credits a share, whatever its texts, with more than its hash is worth. |
| `Shares.WorkerCreditIsFair` | src/js/hub.ts:288-312 | Nor does a worker, whether or not it agrees with the primary. |
| `Shares.LearningKeepsWorth` | src/js/hub.ts:340-361 | What a worker learns keeps this so, for any target it is sent that is not zero and of a safe difficulty. |
| `Shares.WorkerSimulatesPrimary` | src/js/hub.ts:288-312 | A worker that agrees with the primary on current target, job, ranges and easier target makes the same of every share of the current job: deny, absorb with the same credit, or forward; they still agree, and if they had the same prior target they still have. |
| `Shares.LearnAfterTune` | src/js/hub.ts:340-361 | Whatever a worker knew before, what it has after learning what was tuned, and exactly when it then follows the primary and has its prior target; a worker that agrees with the primary still does. |
| `Shares.FirstTarget` | src/js/vardiff.ts:137-155 | A login starts with the target of the pool, unless that is harder both than the difficulty aimed at and than the target made for it. |
| `Shares.LoginAgrees` | src/js/hub.ts:77-105 | After a login, the first or a later one of a session, a worker agrees with the primary if and only if nothing is left in its ledger from before, it has the difficulty that the primary has for the target, and what it has as prior target is the one of the primary where that is easier, and no easier one otherwise. |
| `Shares.FirstLoginAgrees` | src/js/hub.ts:77-105 | After the first login of a session it agrees if and only if the first target stands for exactly the first difficulty, or the pool has another target that is no harder. |
| `Shares.SecondLoginDiffers` | src/js/hub.ts:279-282 | A second login with one thread for the same job: targets agree, and yet the worker credits a share, with a nonce of the first login, that the primary refuses. |
| `Shares.TwoJobsLater` | src/js/hub.ts:340-361 | Two new jobs after any disagreement the ledgers are the same again, and the worker follows if and only if it has the difficulty that the primary has for the target. |
| `Shares.LoginCreditsDiffer` | src/js/hub.ts:340-361 | With 30 threads and a harder pool, one share is credited with 450000 by the primary and with 450017 by the worker. |
| `Hub.WorkerBackend.Judge` | src/js/hub.ts:288-306 | In place: the reply to a share and the prior target that is kept, from its texts. |
| `Hub.WorkerBackend.Submit` | src/js/hub.ts:288-312 | In place: what is taken is added to the tallies, what is forwarded or asked is sent, also for sessions that are not known; no tally is worth more than the hashes in it. |
| `Hub.WorkerBackend.Add` | src/js/hub.ts:314-326 | One share more in the tally of its session; every share taken is still in the tallies or was sent once. |
| `Hub.WorkerBackend.Flush` | src/js/hub.ts:328-338 | All tallies go into one message, and none is left. |
| `Hub.WorkerBackend.Close` | src/js/hub.ts:363-370 | A session with a tally is flushed before it is forgotten. |
| `Hub.WorkerBackend.Learn` | src/js/hub.ts:340-361 | In place: what the worker knows of the session becomes what it learns. |
| `Hub.FlushingBalances` | src/js/hub.ts:328-338 | Sending the tallies keeps the balance between shares taken, shares sent and tallies. |
| `Hub.RoundingIsNear` | src/js/hub.ts:182-185 | Rounding work per share changes the work by at most half a unit per share. |
| `Hub.FlushedIsNear` | src/js/hub.ts:314-338 | Once a worker has flushed, the sum of the rounded credits of its messages is within half a unit per share of the work of all shares taken. |
| `Hub.LocalBackend.AccountAll` | src/js/hub.ts:425-433 | The messages of a worker add these credits to the work that the primary keeps for the session. |
| `Hub.LocalBackend.AccountFlushed` | src/js/hub.ts:177-189 | Tallying, flushing and accounting move the work of all shares taken into the work that the primary keeps, within half a unit per share. |
| `Hub.LocalBackend.Settle` | src/js/hub.ts:126-152 | In place: the verdict on a share, its credit added to the work, and the prior target settled when the current one is met. |
| `Hub.LocalBackend.Submit` | src/js/hub.ts:126-175 | In place: the verdict on the texts of a share; reports add up to the work and the solved difficulty that the primary keeps, one report for each share accepted; the pool's difficulty is credited as solved exactly when a forwarded share is accepted; an estimated hashrate is reported; unknown sessions are refused without a change. |
| `Hub.ReportIs` | src/js/hub.ts:154-174 | What a report says: accepted unless the pool did not accept a forwarded share, the credit, the worth, and the pool's difficulty as solved exactly when it did. |
| `Hub.LocalBackend.Account` | src/js/hub.ts:177-189 | In place: the sums are credited at the rounded difficulty, with one report per share that add up to the credit, and an estimated hashrate is reported; nothing happens for unknown sessions or no shares. |
| `Hub.ReportsAreNear` | src/js/hub.ts:182-186 | Each of these reports is of an accepted share, with its part of work and worth to half a unit. |
| `Hub.LocalBackend.Push` | src/js/upstream.ts:232-235 | A job and a range for a session: the range is recorded, the target tuned to the pool's, and both are sent. |
| `Hub.LocalBackend.Chunk` | src/js/hub.ts:107-124 | A stated hashrate counts from then on; with a range the target is tuned, and the job is sent again exactly when that changes it; unknown sessions are refused. |
| `Diffs.UndoOne` | 3rdparty/hwloc/src/diff.c:450-520 | An entry that applies is undone by applying it in reverse, for objects with unique info names. |
| `Diffs.OthersCommute` | 3rdparty/hwloc/src/diff.c:450-520 | Entries about different attributes apply in either order with the same result; totals that both change included. |
| `Diffs.ReverseRestores` | 3rdparty/hwloc/src/diff.c:544-561 | Applying a list in reverse, the first entry first, restores what it was applied to, for entries about distinct attributes. |
| `Diffs.FailureRestores` | 3rdparty/hwloc/src/diff.c:544-564 | A diff that fails names the first entry that could not be applied; when the entries before it are about distinct attributes, all objects are exactly as they were. |
| `DiffUndo.LooseWalks` | 3rdparty/hwloc/src/diff.c:555-563 | After a pass that skips what does not apply, each attribute has the value that the old and new values of the entries alone lead to, and nothing else has changed but totals. |
| `DiffUndo.FailureRestoresExactly` | 3rdparty/hwloc/src/diff.c:544-564 | For any diff that fails, the objects are as they were if and only if the entries before the failing one unwind: there and back by their old and new values, each attribute comes out as it went in. |
| `DiffUndo.FailureWithoutRepeats` | 3rdparty/hwloc/src/diff.c:544-564 | When no value of an attribute comes up twice among those entries, that is so if and only if they are about distinct attributes. |
| `Diffs.ThereAndBack` | 3rdparty/hwloc/src/diff.c:523-564 | Applying such a diff and then applying it in reverse succeeds and changes nothing. |
| `DiffTotals.TotalsStayRight` | 3rdparty/hwloc/src/diff.c:464-480 | Any diff, applied or failed, keeps every total equal to the sum of the memory of the nodes below, modulo 2^64. |
| `DiffTotals.RepeatedAttributeIsNotRestored` | 3rdparty/hwloc/src/diff.c:555-563 | Without distinct attributes a failed diff need not restore: a to b, b to c and a failure leave b. |
| `DiffApply.Topology.ShiftAbove` | 3rdparty/hwloc/src/diff.c:474-478 | The loop up the parents changes the totals of the object and of all it is in, and no others. |
| `DiffApply.Topology.ApplyEntry` | 3rdparty/hwloc/src/diff.c:450-520 | In place: the objects after one entry, or as before when it does not apply. |
| `DiffApply.Topology.Apply` | 3rdparty/hwloc/src/diff.c:523-564 | In place: the objects and the result of the diff, with entries undone after a failure; refused without a change when not loaded, adopted, or for other flags. |
| `Base64Codec.Encode` | 3rdparty/hwloc/src/base64.c:134-185 | The text of the bytes and a NUL, with its length, exactly when there is room for both, and -1 otherwise; nothing behind them changes. |
| `Base64.GroupIs` | 3rdparty/hwloc/src/base64.c:134-185 | Each group of four characters spells the 24-bit number of its three bytes, six bits a character; a last group of one or two bytes spells them with zero bits behind and as many pads as bytes are missing. |
| `Base64Codec.OrParts` | 3rdparty/hwloc/src/base64.c:227-249 | Or-ing bits into the clear low bits of a byte adds them. |
| `Base64Codec.Store` | 3rdparty/hwloc/src/base64.c:214-254 | The switch over the states: refused exactly when there is no room, and otherwise the target holds one digit more. |
| `Base64Codec.Decode` | 3rdparty/hwloc/src/base64.c:194-309 | The state machine, its padding check and its bound checks decode the text but for its white space; without a target it counts the bytes. |
| `Base64.EncodedDecodes` | 3rdparty/hwloc/src/base64.c:134-309 | An encoding decodes to its bytes exactly when the target has room for them, and for one more when their number is not a multiple of 3. |
| `Base64.AcceptedIsEncoded` | 3rdparty/hwloc/src/base64.c:194-309 | A text that is accepted is the encoding of what comes out. |
| `Base64.DecodesExactly` | 3rdparty/hwloc/src/base64.c:194-309 | Decoding gives some bytes exactly when the text, but for its white space, is their encoding and the target has room. |
| `Base64.RoundTrip` | 3rdparty/hwloc/src/base64.c:134-309 | Decoding an encoding with room for one byte more than there are gives the bytes back. |
| `Lines.SplitIsExact` | src/js/connect.ts:142-204 | The lines of a stream, each with its newline, and the rest make up the stream, and none of them holds a newline. |
| `Lines.SplitIsUnique` | src/js/connect.ts:142-204 | There is no other way to split a stream into lines and a rest. |
| `Lines.Splitter.Data` | src/js/connect.ts:139-205 | After a chunk the lines passed on are those that all chunks complete, the chunks kept are the line that has begun, and the connection is closed exactly when that is above the maximum. |
| `Lines.Feed` | src/js/connect.ts:136-205 | However a stream is cut into chunks, the lines passed on are the ones it completes and what is kept is the trailing part, unless a line is too long at the end of a chunk, which is exactly when the connection is closed. |

## Left out

- HexFormat.Sscanf: a text with fewer substrings than commas leaves words that nobody has written; only the flag is stated for it. Texts that are empty, behind whose end the source reads, or start with a comma, for which it asserts, are not modelled.
- HexFormat.Snprintf: writes into a buffer that is large enough; cutting off at the end of a shorter one is not modelled, here and in the other printers.
- BitmapQueries.Next: the result is unbounded, where the source returns an int.
- ListRoundTrip.ListRoundTrip: bitmaps with words for indexes above 2^31 - 1 are excluded, because the source counts indexes as int there.
- SyntheticText.ParseLoops: a width right before the end of the text is rejected, where the source takes it and reads on behind the end.
- SyntheticText.ProcessIndexes: level names are looked up by hwloc_type_sscanf, which is not part of this model; the levels they stand for, or that there is none for one of them, are a parameter.
- Synthetic.Generate: products and indexes are unbounded, where the source has 64 bits for the product of the widths and 32 for indexes.
- SyntheticExport.Export: products of step and position are unbounded, where the source has 32 bits.
- SyntheticRoundTrip.ExportImportRoundTrip: indexes of a level are taken to be distinct, as hwloc numbers objects.
- CpuKinds.Cpuset.Compare: cpusets of kinds are values with the results that the bitmap operations are proved to have, not bitmaps on the heap.
- CpuKindsTable.Table.FinalizeRanking: takes what qsort makes of the kinds as a parameter; computing ranking values and restricting a topology, which leaves stale slots, are left out.
- DiffUndo.FailureRestoresExactly: totals are taken to be right before the diff, as the loader leaves them.
- DiffApply.Topology.Apply: objects are found by a map from depth and index, in place of hwloc_get_obj_by_depth; building a diff from two topologies is left out.
- Datagrams.Datagram.Receive: packets with numbers that do not parse or are negative, which no sender writes, are left out, as are names and addresses of peers.
- Datagrams.Datagram.Dead: an edge drops whoever has the address of a link that dies; when that is another peer by then, its link is stopped, which is Datagrams.Datagram.Drop of that one.
- DatagramProtocol.Promises: other links of a process are present only as members of the waiting set.
- Ledgers.Ledger.Record: grants are values. The source shares one object between the reply and the ledger, and joining ranges changes it.
- NonceRuns.RangesAreExclusive: a run lies between two jobs on a link; a link whose slot is 0 has the whole nonce space, which overlaps that of other links.
- Grants.NoNonceTwice: the job that a link gets may bring a slot that the link, or another one, has been given as an extra slot for an earlier job; then ranges can overlap, as NicehashSlots.ExclusiveExactly says.
- NicehashSlots.SlotsTile: new extra slots are used from the next job on; until then links work on the spaces that they have.
- Upstreams.Upstream.Migrate: waiting for a link to connect, opening it and its errors lie between Upstreams.Upstream.Pick and this method, which gets the link as a parameter, as it gets the deadline. So does Upstreams.Upstream.Attach; rebalancing, which closes idle links and starts migrations off overloaded ones, is left out.
- Upstreams.Upstream.Attach: a migration that ends meanwhile can have housed the miner; the contract covers it, and says that the books are then not sound.
- Upstreams.Upstream.Accept: the estimates of the time between jobs are left out; Upstreams.Link.interval is a value that a link has from the start. Miners that get nothing of a new job migrate, which is Upstreams.Upstream.Migrate.
- Upstreams.Upstream.Chunk: ends with the link to move from; the time after which to retry when moving fails depends on the clock and is left out.
- Upstreams.Upstream.Sever: what the orphans do after Upstreams.Upstream.BeginAttach, when picking comes to an end or fails, is Upstreams.Upstream.Attach or Upstreams.Upstream.Detach, one by one; closing an upstream, which drops its links, is left out.
- VarDiffs.VarDiff.Submitted: JavaScript numbers are integers and reals; rounding of doubles, also of difficulties above 2^53, is not modelled.
- Shares.WorkerSimulatesPrimary: one step. Shares that a worker absorbs do not settle the prior target of the primary, so the two can differ until the next change of target.
- Hub.LocalBackend.Submit: the job of the miner's link is a field that Hub.LocalBackend.Push sets; a report of hashrate sets a field here, and what it does to the loads of links is Upstreams.Upstream.Report.
- Hub.WorkerBackend.Submit: the answer to a call, its deadline and the timer that flushes are left out.
- Hub.LocalBackend.Chunk: what the upstream answers is a parameter, which Upstreams.Upstream.Chunk gives.
- Lines.Splitter.Data: what is done with a line (trimming, JSON, promises) is left out.
- Bitmap queries such as isset, isequal, weight, first, last and compare, which add nothing harder.
- Sockets, name resolution, TLS, logging, the RandomX engine and hardware discovery.
