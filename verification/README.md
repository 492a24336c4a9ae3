# Muak: verified models of its algorithmic libraries

Muak is an operating system written from scratch. Many of its libraries are self-contained
algorithms and on-disk format builders. This project models the hard ones in Dafny and proves what
they are for: that the fast code does what its simple meaning says, that what is written reads back,
and that state machines keep their promises over every run.

| file | component |
|---|---|
| `Glob`, `Text`, `Aliases` | alias patterns and the `modules.alias` database (`libs/kmod`) |
| `DepDb`, `LoadOrder`, `Loader` | the `modules.dep` index, load orders and the module loader (`libs/kmod`) |
| `Cycles`, `Vars` | dependency cycles between services and variables in their commands (`init/granola`) |
| `FatTypes`, `FatLayout`, `FatSize`, `FatLeast`, `FatTable`, `DirForest`, `FatTree` | FAT32 image planning (`libs/fatfs`) |
| `ErofsDir` | EROFS directory blocks (`libs/erofs`) |
| `Xts`, `AntiForensic`, `Keyslots`, `Header`, `Metadata`, `Luks2`, `TornWrite` | LUKS2 volumes on a device (`libs/luks2`) |
| `Signature` | EFI signature lists (`libs/firmware`) |
| `Monitor` | the netlink link monitor (`libs/netlib`) |
| `Timestamp` | timestamps as calendar fields (`cli`) |
| `Prelude`, `Graph`, `Order`, `Bytes`, `Decimal` | results, graphs, stable sorting, little-endian bytes, decimal numbers |

How things are represented:

- Text is bytes. A `char` of a kmod, FAT or JSON string stands for one byte, white space is ASCII.
- Integers are unbounded, and every place where a 32- or 64-bit width matters is written out: the
  wrapping subtractions of the FAT geometry search, the saturating token id, the checked sums.
- A hash map is a `map`. Where the source iterates one, the model picks any order (`Enumerate`, `:|`);
  where it sorts first, the model sorts.
- `slice::sort_by` is the stable sort `Order.SortBy`. `slice::binary_search_by` is the loop of the
  current standard library, which finds the last of several equal entries; on unique names this
  choice cannot be observed.
- AES, SHA-256, Argon2id, PBKDF2, Base64 and the JSON library are function values. All that is known
  of them is stated in `Xts.Lawful`, `AntiForensic.HashLaw`, `Metadata.CodecLaw` and
  `Keyslots.PrimsLaw`: a block permutation and its inverse, fixed output lengths, decode after encode,
  no NUL in JSON text, at most one token per byte of JSON.
- Random bytes, file existence and the kernel's answer to a module are parameters. So is where each
  device write fails: after any number of bytes, or not at all.
- Emitted events and initialised modules are recorded as sequences.

Properties that turned out false of the code, with an input and the exact condition under which they hold:

- The geometry search does not reject every image below the advertised floor. Images of 2 to 15
  sectors other than 8 make an unsigned subtraction wrap and are accepted with a FAT that cannot fit
  (`OneKibibyteIsAccepted`). `Compute` states the exact set of accepted sizes and that the layout is
  sound exactly outside that family.
- The sizing loop need not give the smallest volume, since it steps by 4 MiB: for 30 MiB of data it gives
  79872 sectors where 73000 would do (`ThirtyMebibytes`). It gives the smallest volume if and only if the
  target is at most 65525 sectors or the volume given has no sector to spare (`SmallestExactly`). For
  targets up to 33251335 sectors the bound of 65525 alone decides (`SmallTargets`); at 33251336 it no
  longer does (`TightTarget`).
- The directory index is not a tree for every file set. A path that starts with a slash registers the
  root twice and leaves the real root without entries. `Collect` states that the index is a tree if and
  only if no path starts with a slash.
- A module order need not put every dependency first (`MutualModules`). It does if and only if no module
  reachable from the start lies on a cycle (`DepsFirstExactly`), and a loader's history does if and only
  if no initialised module lies on one (`HistoryExactly`).
- A tracked link need not have the carrier of its last report (`LongNameIsMissed`). It has it if and only
  if that report was of an untracked link, did not change the carrier or had a valid name
  (`CarrierExactly`).
- The EROFS packing loop need not end (`LongNameSpins`). It does if and only if every entry fits a block
  on its own (`PackingEnds`). A directory whose block ends in a name with a NUL does not read back as
  written (`NulNameIsCut`); any other does, so this is an if and only if (`AsReadIsSame`).
- A TPM2 token write changes the data segment, because the second JSON copy lies in the opened volume
  (`VolumeCoversSecondCopy`). The first one after a format always does (`FirstTokenAltersSegment`). A
  write leaves the segment alone if and only if the second copy already is the new JSON
  (`SegmentSurvives`), and a stretch of it if and only if the overlap is (`StretchSurvives`).
- A failed token write can leave a primary copy that is neither the old nor the new text and does not
  decode (`TornCall`). Some failure of a write does so if and only if the old area and the new JSON differ
  at two places, the first within the old text and the second within the new (`CanTear`). A given failure
  does if and only if both the part stored and the part not stored change the text (`TornExactly`).
  Opening the device and reading its token then fail, although the second copy is whole
  (`TearHidesWholeCopy`).

The search for a token id has no bound of its own and saturates at the largest 32-bit number. It still ends
for the metadata of every device, because it ends if and only if an id is free (`IdSearchEnds`) and no JSON
area has room for enough tokens to take them all (`AreaLeavesRoom`).

## Model

| member | source | states |
|---|---|---|
| Glob.GlobMatchBytes | libs/kmod/src/aliases.rs:93-141 | The matcher that backtracks only to the last star returns true exactly when the declarative meaning does (star any run, question mark one byte, ASCII case ignored), for every pattern and text |
| Glob.NewStarSubsumesOld | libs/kmod/src/aliases.rs:100-106 | Forgetting earlier stars at a new star loses no match |
| Glob.AcceptsMeans | libs/kmod/src/aliases.rs:107-116 | A byte is accepted exactly by itself, by its letter in the other case and by a question mark |
| Text.SpanRoundTrip | libs/kmod/src/text.rs:10-23 | A span taken for a piece of the arena slices back to that piece trimmed |
| Text.SplitPiecesAt | libs/kmod/src/text.rs:25-32 | The running offset of the line loop is where each line really is |
| Text.SplitJoins | libs/kmod/src/text.rs:28 | The pieces of a split are all of the text: joined with the separator they give it back, and none of them holds it |
| Text.SplitUndoesJoin | libs/kmod/src/text.rs:28 | No other pieces do |
| Text.TrimMeans | libs/kmod/src/text.rs:16-23 | Trimming takes off white space at both ends, and all of it |
| Text.PiecesDenote | libs/kmod/src/text.rs:25-32 | If a callback's spans denote what one line says, the loop's spans denote what all lines say |
| Aliases.FileDenotes | libs/kmod/src/aliases.rs:63-91 | The spans of every alias line slice back to its trimmed pattern and module |
| Aliases.RuleMeans | libs/kmod/src/aliases.rs:74-91 | A line says a rule exactly if it is the keyword, the pattern and, after the last space, the module; each part trimmed |
| Aliases.RulesReadBack | libs/kmod/src/aliases.rs:63-91 | A written file of rules reads back, in order |
| Aliases.ParseText | libs/kmod/src/aliases.rs:63-72 | The parsed database denotes exactly the rules of the file, in order |
| Aliases.FindModule | libs/kmod/src/aliases.rs:38-48 | Returns the module of the first rule whose pattern means a match, or nothing if none does |
| DepDb.NameSpanDenotes | libs/kmod/src/deps.rs:169-183 | A name span slices back to the stripped file name, and exists exactly for module files |
| DepDb.NameMeans | libs/kmod/src/deps.rs:169-183 | A path has a name exactly if it is some directory, that name without a slash, and one of the two suffixes |
| DepDb.FoldMeans | libs/kmod/src/deps.rs:185-188 | Two names are the same exactly if they differ in dashes for underscores only |
| DepDb.LineDenotes | libs/kmod/src/deps.rs:137-167 | The spans of a line slice back to its trimmed path, its name and its stripped dependency names |
| DepDb.LineMeans | libs/kmod/src/deps.rs:137-167 | A line says a module exactly if it is a path up to the first colon and pieces between spaces, with the path's name and, in order, the names of the pieces that have one |
| DepDb.PushLinesDenote | libs/kmod/src/deps.rs:150-166 | Sharing one dependency table loses nothing: each entry still denotes its own line |
| DepDb.FileDenotes | libs/kmod/src/deps.rs:78-84 | All spans of a file slice back to what its lines say |
| DepDb.FileReadsBack | libs/kmod/src/deps.rs:78-84 | A written file reads back: every line says its module, with all its dependencies, in order |
| DepDb.Index | libs/kmod/src/deps.rs:78-91 | The index denotes exactly the parsed lines, stably sorted by dash-folded name |
| DepDb.Find | libs/kmod/src/deps.rs:93-99 | Binary search agrees with a linear scan for every key, duplicates included |
| DepDb.SortIsStable | libs/kmod/src/deps.rs:85-87 | Sorting does not change which module a name denotes |
| Order.LexLeMeans | libs/kmod/src/deps.rs:85-87 | Names compare as a prefix or by the byte at the first difference |
| DepDb.IndexAnswersForFile | libs/kmod/src/deps.rs:78-99 | A name denotes the same module in the index as in a linear scan of the file's lines |
| DepDb.GetPath | libs/kmod/src/deps.rs:47-53 | Returns the path of the module the name denotes, or nothing |
| LoadOrder.Successors | libs/kmod/src/deps.rs:113-119 | The resolved dependencies of a module are its edges in the dependency graph, in order |
| LoadOrder.EdgeMeans | libs/kmod/src/deps.rs:113-119 | The graph has an edge exactly where some dependency name of a module denotes another |
| LoadOrder.EmitKeepsWalk | libs/kmod/src/deps.rs:105-122 | Emitting a module after its dependencies keeps the walk duplicate-free, closed and in order |
| LoadOrder.Visit | libs/kmod/src/deps.rs:101-123 | Terminates on every graph, emits exactly the newly visited nodes, all reachable, each after its non-mutual dependencies |
| LoadOrder.ResolveLoadOrder | libs/kmod/src/deps.rs:55-64 | Lists exactly the modules that the start needs through dependency names, each once, the start last, each after every module one of its names denotes unless that one needs it in turn |
| LoadOrder.DepsFirstExactly | libs/kmod/src/deps.rs:55-64 | The order puts every dependency first if and only if no module reachable from the start lies on a cycle |
| LoadOrder.MutualModules | libs/kmod/src/deps.rs:101-123 | Two modules that depend on each other have no order with every dependency first |
| Loader.ModuleLoader.LoadByPathWith | libs/kmod/src/kernel.rs:63-85 | Initialises a module unless its canonical name is loaded; only a success changes the state |
| Loader.ModuleLoader.LoadModuleWith | libs/kmod/src/kernel.rs:116-134 | Keeps the history sound and in order of dependency names whatever happens, returns exactly the growth of the loaded set, succeeds exactly when everything the module needs is loaded |
| Loader.ModuleLoader.LoadAll | libs/kmod/src/kernel.rs:102-134 | Any run of requests, failed ones included, leaves no module initialised twice or before what one of its dependency names denotes, unless that needs it in turn |
| Loader.ModuleLoader.LoadNext | libs/kmod/src/kernel.rs:116-134 | One step of a load keeps the history sound and either loads the module or leaves it unloaded |
| Loader.AcyclicHistory | libs/kmod/src/kernel.rs:116-134 | A module on no cycle was initialised after all its known dependencies, whatever the rest of the database |
| Loader.HistoryExactly | libs/kmod/src/kernel.rs:116-134 | A history has every dependency before its module if and only if no initialised module lies on a cycle |
| Cycles.DfsCycle | init/granola/src/loader.rs:98-124 | Terminates even for unknown names; an error names a real dependency path back to a service on it; success leaves a topological order |
| Cycles.DetectCycles | init/granola/src/loader.rs:83-96 | Returns an error if and only if the dependency graph has a cycle |
| Cycles.LastDefinitionWins | init/granola/src/loader.rs:127-128 | A name stands for its last definition |
| Cycles.EdgeMeans | init/granola/src/loader.rs:98-124 | The graph has an edge exactly where the last definition of a service lists another |
| Cycles.Prepare | init/granola/src/loader.rs:126-141 | Rejects exactly the sets in which some chain of last definitions comes back to its start, naming such a chain, and otherwise substitutes in the commands and changes nothing else |
| Vars.PiecesSpell | init/granola/src/loader.rs:46-81 | Splitting a command into plain characters and references loses nothing and makes every name as long as possible |
| Vars.PiecesUnique | init/granola/src/loader.rs:46-81 | No other split of a command does |
| Vars.UnknownStay | init/granola/src/loader.rs:75-80 | References to unknown names stay as they are |
| Vars.ReferenceBecomes | init/granola/src/loader.rs:46-81 | Wherever a reference stands, it becomes the value of its variable, and the text around it is treated on its own |
| Vars.PlainStays | init/granola/src/loader.rs:46-58 | Text without a dollar sign stays as it is |
| Vars.SubstituteVars | init/granola/src/loader.rs:46-58 | Replaces exactly the known references of that split, and does not look at what it put in |
| Graph.OrderedIsAcyclic | init/granola/src/loader.rs:83-96 | A topological order of all nodes with successors rules out cycles |
| FatTypes.AlignIsLeast | libs/fatfs/src/types.rs:146-155 | The aligned FAT size is the least one that ends on a page boundary |
| FatTypes.CeilDivMeans | libs/fatfs/src/builder/clusters.rs:23 | The clusters counted for a payload hold it, with less than a cluster to spare |
| FatLayout.AlignedFat | libs/fatfs/src/layout.rs:47-52 | Rounding to sectors and then to pages gives the whole pages that hold an entry per cluster |
| FatLayout.TestSpcMeans | libs/fatfs/src/layout.rs:41-62 | From 16 sectors on nothing wraps and the search computes the plain geometry |
| FatLayout.OneSectorThreshold | libs/fatfs/src/layout.rs:41-62 | With one-sector clusters FAT32 starts exactly at 66581 sectors |
| FatLayout.NotMonotone | libs/fatfs/src/layout.rs:53-56 | The cluster count can drop when the image grows |
| FatLayout.FewClusters | libs/fatfs/src/layout.rs:20-34 | The search order keeps every cluster number below the reserved range |
| FatLayout.FloorIsExact | libs/fatfs/src/types.rs:157-168 | The separately computed floor is the exact threshold of the search |
| FatLayout.TinyImages | libs/fatfs/src/layout.rs:15-34 | Below 16 sectors a cluster size is accepted exactly when a subtraction wraps |
| FatLayout.OneKibibyteIsAccepted | libs/fatfs/src/layout.rs:42-55 | An image of two sectors is accepted with 288160007407534079 clusters |
| FatLayout.Compute | libs/fatfs/src/layout.rs:9-39 | Accepts exactly the sizes within the limits and those that wrap; within the limits it gives the plain geometry, which is aligned, has FAT room, fits with less than a cluster left, and uses the widest clusters; those that wrap cannot fit |
| FatSize.LargestHoldsMost | libs/fatfs/src/builder/mod.rs:33-38 | No volume holds more than the largest one, although the cluster count is not monotone |
| FatSize.ImageSizeFor | libs/fatfs/src/builder/mod.rs:22-51 | Ends, succeeds exactly when the largest volume would do, and gives the first size whose clusters hold data, overhead and slack, of the sizes from the first one on, each the next after the one before |
| FatSize.FindsOne | libs/fatfs/src/builder/mod.rs:22-51 | That determines the result |
| FatSize.NothingSmaller | libs/fatfs/src/builder/mod.rs:28-31 | No smaller volume than the first size tried holds the data |
| FatSize.FirstHoldsExactly | libs/fatfs/src/builder/mod.rs:28-41 | The first size holds the data exactly for targets up to 65525 sectors |
| FatLeast.CapacityGrows | libs/fatfs/src/layout.rs:20-62 | A volume holds at least what any volume smaller by eight sectors or more holds, although the cluster count is not monotone |
| FatLeast.SmallestExactly | libs/fatfs/src/builder/mod.rs:22-51 | The result is the smallest volume that holds the data if and only if the target is at most 65525 sectors or a volume one sector smaller than the result does not hold it |
| FatLeast.SmallTargets | libs/fatfs/src/builder/mod.rs:22-51 | For targets up to 33251335 sectors, the result is the smallest volume if and only if the target is at most 65525 sectors |
| FatLeast.ThirtyMebibytes | libs/fatfs/src/builder/mod.rs:22-51 | For 30 MiB of data the result is 79872 sectors, although 73000 hold them |
| FatLeast.TightTarget | libs/fatfs/src/builder/mod.rs:22-51 | For a target of 33251336 sectors the result is the smallest volume, so beyond `SmallTargets` the bound stops deciding |
| FatTable.AssignClusters | libs/fatfs/src/builder/clusters.rs:13-63 | On any layout, succeeds exactly when every file fits a directory entry, all payloads fit the layout and no start, count or end is too wide; every directory and file then has room for its bytes with less than a cluster to spare, and the runs follow each other from cluster 2 |
| FatTable.FittingIsAddressable | libs/fatfs/src/builder/clusters.rs:65-75 | On a layout with 32-bit cluster numbers nothing that fits is too wide |
| FatTable.PlanIsDisjoint | libs/fatfs/src/builder/clusters.rs:19-48 | Allocated runs never overlap, stay in range and use exactly what is needed |
| FatTable.FillFatChain | libs/fatfs/src/table.rs:36-48 | Links the run's entries in place and touches no other entry |
| FatTable.TableEntry | libs/fatfs/src/table.rs:3-23 | Inside a run the table holds that run's link, outside all runs it is untouched |
| FatTable.MakeFat | libs/fatfs/src/table.rs:3-34 | The bytes decode entry by entry to the table of all runs and are zero-padded to the FAT's sectors |
| FatTable.ChainReads | libs/fatfs/src/table.rs:13-23 | Following the table from a run's start visits exactly that run, in order, and then ends |
| FatTable.OutsideRuns | libs/fatfs/src/table.rs:6-12 | Outside all runs the table holds the two reserved entries and zeros |
| FatTable.FreeCountIsExact | libs/fatfs/src/types.rs:108-125 | The recorded free count is the number of zero entries |
| FatTable.NextFreeIsFirst | libs/fatfs/src/types.rs:115-119 | For an allocated map the recorded next free cluster is the first zero entry |
| FatTable.PlanImage | libs/fatfs/src/builder/mod.rs:58-79 | Succeeds exactly within the limits when the payloads fit the geometry; then every payload has room, the table is exactly the FAT's sectors, every chain reads back, every free entry is counted and the first one recorded |
| FatTree.EmptyAncestor | libs/fatfs/src/tree.rs:120-128 | The root is registered again exactly for paths that start with a slash |
| FatTree.AncestorsMean | libs/fatfs/src/tree.rs:120-128 | The directories registered for a path are exactly the path cut at each of its slashes |
| FatTree.ParentMeans | libs/fatfs/src/tree.rs:112-117 | The parent of a path without a leading slash is the one directory that it is an entry of, under a name without a slash |
| FatTree.RegisterAncestors | libs/fatfs/src/tree.rs:120-128 | Registers every directory a path lies in, each once |
| FatTree.CollectDirs | libs/fatfs/src/tree.rs:83-89 | Every directory on the way to a file, root first, shorter paths first |
| FatTree.BuildIndex | libs/fatfs/src/tree.rs:90-91 | Maps each directory to its last position |
| FatTree.GroupFiles | libs/fatfs/src/tree.rs:130-147 | Each directory lists, in input order, exactly the files it is the parent of |
| FatTree.LinkChildren | libs/fatfs/src/tree.rs:149-169 | Each directory lists, in order, exactly the directories linked under it |
| FatTree.VisitIsWalk | libs/fatfs/src/tree.rs:64-80 | Following a directory's entries is the walk of the parent-indexed tree |
| DirForest.WalkCount | libs/fatfs/src/tree.rs:64-80 | A file is met exactly once from a directory it lies below, else never |
| DirForest.WalkIsComplete | libs/fatfs/src/tree.rs:64-80 | A walk from the root meets every file exactly once and nothing else |
| FatTree.SlashFreeIsTree | libs/fatfs/src/tree.rs:82-102 | Without leading slashes the index is a tree with parents first and every file reached once |
| FatTree.LeadingSlashEmptiesRoot | libs/fatfs/src/tree.rs:120-128 | With one, directories repeat and the real root has no entries |
| FatTree.Collect | libs/fatfs/src/tree.rs:82-102 | The directories are exactly the root and every path before a slash, sorted; the index is a tree if and only if no path starts with a slash, and then each directory lists, in order, exactly the files and directories that are its entries |
| ErofsDir.FitMeans | libs/erofs/src/dir.rs:95-109 | A block reaches as far as its entries fit and no further |
| ErofsDir.PackingEnds | libs/erofs/src/dir.rs:53-109 | The packing loop reaches the end of the entries if and only if every entry fits a block on its own |
| ErofsDir.LongNameSpins | libs/erofs/src/dir.rs:95-109 | An entry with a name of 4085 bytes is never packed |
| ErofsDir.BlockEndLoop | libs/erofs/src/dir.rs:95-109 | The loop computes the greedy block end |
| ErofsDir.DataSize | libs/erofs/src/dir.rs:27-42 | On any entries the predicted size has room for all of them, and where the packing ends it is exactly what the packing takes |
| ErofsDir.WriteBlock | libs/erofs/src/dir.rs:53-81 | Stores every entry of a block in bounds, leaves zeros after its names and earlier blocks alone |
| ErofsDir.ReadsBlock | libs/erofs/src/dir.rs:53-81 | A stored block decodes, by its first name offset, to its entries, the last name up to its first NUL |
| ErofsDir.AsReadIsSame | libs/erofs/src/dir.rs:53-81 | That is the original list if and only if no block ends in a name with a NUL |
| ErofsDir.NulNameIsCut | libs/erofs/src/dir.rs:53-81 | A directory of one entry whose name holds a NUL reads back as something else |
| ErofsDir.SerializeEntries | libs/erofs/src/dir.rs:44-93 | Terminates, fills exactly the predicted size, and decodes block by block to the original list, up to a NUL in the last name of a block |
| Xts.MulXIsTimesX | libs/luks2/src/xts.rs:94-106 | Doubling is multiplication by x modulo x^128 + x^7 + x^2 + x + 1, coefficient by coefficient |
| Xts.Gf128MulX | libs/luks2/src/xts.rs:94-106 | The in-place shift computes that doubling |
| Xts.XorBlock | libs/luks2/src/xts.rs:87-92 | Masks exactly one block in place |
| Xts.XtsProcess | libs/luks2/src/xts.rs:37-85 | Block j goes through the cipher masked with the encrypted tweak times x^j, a partial tail is untouched, errors are exactly a bad key or too little data |
| Xts.ProcessedExists | libs/luks2/src/xts.rs:37-85 | Every buffer has a result in either direction |
| Xts.ProcessedUndoes | libs/luks2/src/xts.rs:21-35 | Decrypting undoes encrypting for any block permutation |
| Xts.TweakAdds | libs/luks2/src/xts.rs:94-106 | The masks are the powers of one doubling |
| Xts.CryptMasks | libs/luks2/src/xts.rs:37-85 | What is added to both tweak and block is added to the result, and a zero tweak is the bare cipher, in both directions |
| AntiForensic.AfDiffuse | libs/luks2/src/keyslot.rs:109-137 | Each 32-byte chunk, and the remainder, becomes the hash of its index and itself; fails exactly for too many chunks |
| AntiForensic.ChunkAt | libs/luks2/src/keyslot.rs:109-137 | The hashed chunks are the whole buffer, each byte in the chunk of its index |
| AntiForensic.AfSplit | libs/luks2/src/keyslot.rs:40-82 | Gives the random stripes and the key masked by their diffusion; the errors are exact |
| AntiForensic.AfMerge | libs/luks2/src/keyslot.rs:84-107 | Computes the merge of the stripes; the errors are exact |
| AntiForensic.MergeUndoesSplit | libs/luks2/src/keyslot.rs:40-107 | Merging undoes splitting for any length-preserving diffusion, key, stripe count and random stripes |
| AntiForensic.TwoStripes | libs/luks2/src/keyslot.rs:84-107 | Of two stripes the second hides the key behind the diffusion of the first |
| Keyslots.EncryptKeyslot | libs/luks2/src/keyslot.rs:139-150 | Succeeds exactly when a 64-byte key can be derived and the stripes fit, and then wraps the key |
| Keyslots.WrappedUnwraps | libs/luks2/src/keyslot.rs:139-172 | Wrapped data unwraps to the wrapped key |
| Keyslots.UnwrapsToOne | libs/luks2/src/keyslot.rs:152-172 | Data unwraps to at most one key under a passphrase |
| Keyslots.DecryptKeyslot | libs/luks2/src/keyslot.rs:152-172 | Returns exactly the key the data unwraps to, and fails exactly when there is none |
| Keyslots.CreatedDigestVerifies | libs/luks2/src/digest.rs:15-57 | A digest accepts exactly the keys with the PBKDF2 value of the key it was made from |
| Keyslots.CandidateMeans | libs/luks2/src/lib.rs:193-204 | A candidate passes exactly if some digest of its keyslot is a digest of it |
| Metadata.JsonRoundTrip | libs/luks2/src/metadata.rs:199-229 | Metadata written to a padded JSON area reads back |
| Header.ParseUndoesSerialize | libs/luks2/src/header.rs:77-189 | Either copy of a serialized header parses to the header with its checksum |
| Header.SerializedLayout | libs/luks2/src/header.rs:77-120 | Where each field of the header lies |
| Header.ParseAccepts | libs/luks2/src/header.rs:122-189 | A header is accepted exactly with the right magic, version and checksum, whoever wrote it |
| Header.ChecksumCovers | libs/luks2/src/header.rs:108-115 | Zeroing the checksum field gives back exactly what was summed |
| Metadata.SameText | libs/luks2/src/metadata.rs:219-229 | Two JSON areas have the same text if and only if they agree up to its end |
| Metadata.IdSearchEnds | libs/luks2/src/metadata.rs:260-264 | The saturating id search stops if and only if a 32-bit id is free |
| Metadata.AreaLeavesRoom | libs/luks2/src/metadata.rs:219-265 | The metadata of any JSON area on a device leaves an id free, so there the search always ends |
| Metadata.TakenBound | libs/luks2/src/metadata.rs:260-264 | A map cannot hold more decimal ids than entries |
| Metadata.FindOrAllocId | libs/luks2/src/metadata.rs:251-265 | Returns the TPM2 token's id, or else the smallest free decimal id |
| Metadata.OneTokenId | libs/luks2/src/metadata.rs:251-265 | With at most one TPM2 token there is no choice of id |
| Metadata.WithTokenHolds | libs/luks2/src/metadata.rs:231-237 | A token stored under its id is the only TPM2 token and nothing else changes |
| Metadata.SetTpm2Token | libs/luks2/src/metadata.rs:231-237 | Stores the token under its id, failing exactly when it has no JSON form |
| Metadata.GetTpm2Token | libs/luks2/src/metadata.rs:239-249 | Returns the TPM2 token held, and reports its absence exactly |
| Decimal.ParseUndoesShow | libs/luks2/src/metadata.rs:187-193 | Numbers stored as decimal text parse back |
| Decimal.ValueMeans | libs/luks2/src/metadata.rs:187-193 | Numbers are decimal, most significant digit first |
| Luks2.WriteTpm2Token | libs/luks2/src/lib.rs:225-246 | Succeeds exactly when the new JSON can be made and neither write fails; the disk is then, and after any failure, exactly what the two writes stored of it |
| Luks2.WritesKeepRest | libs/luks2/src/lib.rs:238-243 | Whatever fails, only the two JSON copies change, the second only once the primary is complete |
| Luks2.TornExactly | libs/luks2/src/lib.rs:238-243 | A write leaves neither the old nor the new text if and only if both the part stored and the rest change the text |
| Luks2.CanTear | libs/luks2/src/lib.rs:238-243 | Some failure of a write does so if and only if the old area and the new JSON differ at two places, the first within the old text and the second within the new |
| TornWrite.TornCall | libs/luks2/src/lib.rs:225-243 | A token write whose new JSON is made from the metadata on the device, and that fails after one byte, leaves a primary copy that does not decode |
| TornWrite.TwoTextsLawful | libs/luks2/src/metadata.rs:199-229 | The JSON library of that example is one that the laws allow |
| Luks2.TearNeedsFault | libs/luks2/src/lib.rs:238 | That takes a failure of the primary write inside the new text |
| Luks2.TearSparesSecond | libs/luks2/src/lib.rs:238-243 | If the copies were equal before, the second one is then still whole |
| Luks2.TearHidesWholeCopy | libs/luks2/src/lib.rs:99-223 | After a tear to text that does not decode, the primary copy is what makes both opening and reading the token fail, although the second copy still decodes to the old metadata |
| Luks2.SuccessMirrors | libs/luks2/src/lib.rs:238-243 | A success leaves both copies equal to the new JSON |
| Luks2.EffectSeals | libs/luks2/src/lib.rs:225-246 | A write that landed in the primary copy gives the new token and the old key, even if the second write failed; one that did not gives the old token |
| Luks2.ReadTpm2Token | libs/luks2/src/lib.rs:213-223 | Returns the last token written, or reports that there is none, whatever the second copy holds; unreadable and undecodable areas are reported exactly |
| Luks2.TrySlot | libs/luks2/src/lib.rs:162-188 | A slot gives a key that it unwraps to and a digest of it accepts, or nothing when there is no such key; it is an error exactly when its area cannot be read |
| Luks2.TryKeyslots | libs/luks2/src/lib.rs:157-204 | A key comes from the first slot, by id, that does not reject the passphrase; a wrong passphrase means that every slot rejects it, any other error that the first slot that does not is unreadable |
| Luks2.TriedOne | libs/luks2/src/lib.rs:157-204 | Where the keyslots can give a key, they give that key and nothing else |
| Luks2.UnlockedAccepts | libs/luks2/src/lib.rs:157-204 | The slot of a device that unlocks accepts the volume key and no other |
| Luks2.WrongPassphraseExactly | libs/luks2/src/lib.rs:157-204 | On a formatted device, any passphrase gives a key exactly if the keyslot area unwraps to it under that passphrase and it has the volume key's digest, and is wrong exactly if there is no such key |
| Luks2.OpenVolumeKey | libs/luks2/src/lib.rs:106 | What the keyslots give for the primary metadata; the volume key on a sealed device |
| Luks2.Open | libs/luks2/src/lib.rs:99-141 | Succeeds exactly when the header parses, the metadata decodes, a keyslot gives a key and the segment maps, and then maps that key as these say; a header error and undecodable metadata are reported as such; a sealed device gives its own volume |
| Luks2.Format | libs/luks2/src/lib.rs:34-87 | Succeeds exactly on a large enough device without write faults when Argon2id gives a key and the metadata can be made, and then seals the device with equal copies |
| Luks2.FreshDerives | libs/luks2/src/keyslot.rs:16-38 | The key of a fresh keyslot is Argon2id of the passphrase and the stored salt, at fixed costs |
| Luks2.FormatSameDigest | libs/luks2/src/digest.rs:15-57 | On a formatted device a key has the volume key's digest exactly if it has its PBKDF2 value |
| Luks2.StepIsExplained | libs/luks2/src/lib.rs:225-246 | The result and the faults determine what a token write did: past the first write it landed, without a new JSON it changed nothing, and only a failed first write tears |
| Luks2.RunOps | libs/luks2/src/lib.rs:225-246 | Any run of token writes and volume writes, failing anywhere, goes from disk to disk exactly by the steps of its operations, with their results |
| Luks2.RunKeepsHeader | libs/luks2/src/lib.rs:225-246 | Every such run keeps the header and the wrapped key |
| Luks2.RunSeals | libs/luks2/src/lib.rs:225-246 | At every point of a run without a tear that starts sealed, the device is sealed with the last token that landed |
| Luks2.RunMirrors | libs/luks2/src/lib.rs:225-246 | Both JSON copies are equal at every point of a run where, since a successful token write or since equal copies at the start, no token write failed with an I/O error and no volume write went over the second copy |
| Luks2.RunIsExplained | libs/luks2/src/lib.rs:225-246 | Over a run every effect follows from its result and faults as for one step |
| Luks2.RunFormatted | libs/luks2/src/lib.rs:225-246 | A run on a formatted device has explained effects and keeps the header, the seal and the equal copies as the three results above say |
| Luks2.Lifecycle | libs/luks2/src/lib.rs:34-246 | After a format and any such run the effects are explained, the copies are equal where the results say so, and without a tear the passphrase opens the formatted volume and the last token that landed reads back |
| Luks2.VolumeCoversSecondCopy | libs/luks2/src/lib.rs:108-137 | The opened volume covers the second JSON copy |
| Luks2.StretchSurvives | libs/luks2/src/lib.rs:238-243 | A token write keeps a stretch of the segment if and only if the new JSON has the same bytes in the overlap |
| Luks2.SegmentSurvives | libs/luks2/src/lib.rs:238-243 | It keeps the whole segment if and only if the second copy already is the new JSON |
| Luks2.FirstTokenAltersSegment | libs/luks2/src/lib.rs:225-246 | The first token write to a freshly formatted device alters its data segment |
| Signature.X509ListContains | libs/firmware/src/signature.rs:53-89 | True exactly when some whole signature of the list is the certificate |
| Signature.ContainsX509 | libs/firmware/src/signature.rs:12-51 | On any bytes, the answer for the lists before the first malformed one |
| Signature.EncodedContains | libs/firmware/src/signature.rs:12-89 | On well-formed lists laid out in bytes, exact: some X.509 list holds the certificate |
| Monitor.Watcher.EmitLinkAdded | libs/netlib/src/monitor.rs:213-240 | Tracks a new link and reports it if it has an address and a valid name |
| Monitor.Watcher.HandleNewLink | libs/netlib/src/monitor.rs:179-211 | Updates the link map and emits events as the step function says |
| Monitor.Watcher.HandleDelLink | libs/netlib/src/monitor.rs:242-260 | Reports and forgets a validly named Ethernet link, and nothing else |
| Monitor.Watcher.HandleMessage | libs/netlib/src/monitor.rs:151-170 | Dispatches by message kind and configuration |
| Monitor.Watch | libs/netlib/src/monitor.rs:104-106 | The message loop goes through exactly the run of its messages |
| Monitor.RunKeeps | libs/netlib/src/monitor.rs:151-260 | Over every run the tracked carriers agree with the last events and no rise follows a rise |
| Monitor.RunAlternates | libs/netlib/src/monitor.rs:151-260 | Between two Up events of one link lies a Down or Deleted of it, and between two Down events an Up or Deleted |
| Monitor.EthernetMeans | libs/netlib/src/interface.rs:292-303 | The links watched are exactly those whose name has one of five prefixes |
| Monitor.StepEmits | libs/netlib/src/monitor.rs:151-260 | Each kind of event is emitted exactly for a message about a validly named Ethernet link that gains or loses the carrier, is new with an address, or is deleted |
| Monitor.StepTracks | libs/netlib/src/monitor.rs:151-260 | Which links are tracked after a message |
| Monitor.CarrierExactly | libs/netlib/src/monitor.rs:179-211 | Over every run a tracked link has the carrier of its last report if and only if that report was of an untracked link, no change, or validly named; a link never reported is as scanned |
| Monitor.LongNameIsMissed | libs/netlib/src/monitor.rs:191-209 | A link reported down under a name that is too long stays up |
| Monitor.CarrierIsLastReport | libs/netlib/src/monitor.rs:179-211 | If the last report of a tracked link is validly named, its carrier is the tracked one, whatever else came before |
| Timestamp.SplitYears | cli/src/format/time.rs:19-30 | Ends in the year that contains the day |
| Timestamp.SplitMonths | cli/src/format/time.rs:32-46 | Ends in the month that contains the day |
| Timestamp.FormatFields | cli/src/format/time.rs:7-53 | The fields are a valid date and time that counts back to the timestamp |
| Timestamp.DayFormula | cli/src/format/time.rs:19-61 | The days of a date are the closed Gregorian formula over its year, month and day |
| Timestamp.OrderPreserving | cli/src/format/time.rs:7-53 | Valid fields compare exactly as their instants, so the conversion is injective |

## Left out

- PlanImage: requires a size that does not wrap, because a layout that wraps has more clusters than 32-bit cluster numbers; `Compute` and `AssignClusters` cover those sizes.
- ImageSizeFor: rounding a size within 512 bytes of 2^64 wraps to zero, as in a build without overflow checks; either way there is no volume.
- SerializeEntries: requires entries that fit a block, since with another one the source never returns (`PackingEnds`).
- FindOrAllocId: requires a TPM2 token or a free 32-bit id, since without either the source never returns (`IdSearchEnds`).
- SetTpm2Token: requires what `FindOrAllocId` requires; metadata read from a device always meets it.
- RunSeals: says nothing of the token after a torn primary copy, since what that text decodes to is up to the JSON parser.
- WriteAt: a write past the end stores what fits, as on a block device; a regular file would grow instead. Reads fail only past the end.
- Index: gathers the parsed lines before it fills the two tables, where the source does both line by line; the tables are the same.
- UTF-8 boundaries and Unicode white space in kmod text, and file loading.
- Short names, long names, directory entry bytes, boot sectors and image streaming of the FAT builder.
- The device-mapper request itself, the text form of a volume's UUID, zeroizing and any strength of the cryptography.
- The scan of netlink attributes for a name and address, the initial link scan and channel delivery.
- EROFS inodes, superblocks, layout and compression; GPT and btrfs formatting.
- Network, HTTP, gRPC and command-line code, and the rendering of calendar fields as text.
