# The Cutefish file and system-service clients, modelled and proved

This project states and proves how the algorithmic parts of the libraries behave: the layout
search of the display settings, the row synchronisation of folder views, MIME matching, copying,
moving and trashing files, the pools and protocols between threads, the bus and the user, and the
parsers and printers of the network settings.

Code that changes fields becomes a class with the same fields, and its methods are proved against
functions of the old state; loops stay loops. The file system is a tree of values, two folders at
a time. Calls on the bus are entries in a table until their reply, which comes as a step of its
own; signals, timers and changes of the owner are steps too, in any order. Threads are
interleaved at the points where they hold the mutex or touch a shared counter. What the kernel, the
compositor, BlueZ or UDisks answer is arbitrary within the contract that the caller relies on.
Integers are unbounded except where bits matter (UTF-8, MD5, the base 64 buffer); for the layout
search it is proved apart when nothing leaves the 32-bit integers.

The modules, by component:

- Display settings: `DisplayLayout` (the slot search and its geometry), `OutputDraft` (the edited
  draft of `OutputModel`), `DisplayProtocol` (the client of the compositor).
- Folder views: `RowSync`; `Listing` and `BlockSharing` (filling a listing on several threads),
  `HelperPool` (the threads themselves).
- MIME types: `Wildcard`, `Globs`, `NameMatching` (the suffix tree and the choice of the best
  matches), `TypeGraph` (aliases and parents), `MagicRules`.
- File operations: `FileCopy`, `FileTree` (the staged merge), `FileMove`, `TrashInfo` and
  `TrashFolder`, `PathText`, `TaskHistory` (undo and redo), `ConflictHandshake`; `OperationContext`
  holds what they share.
- Devices: `Discovery` and `RemoteObject` (Bluetooth), `VolumeChains` (UDisks).
- Network settings: `WireGuard`, `WireGuardLines` (what each line means) and `WireGuardRoundTrip`,
  `VpnSchema`, `Ipv4`, `Utf8`, over `ConfigText`, `Texts` and `Decimals`. `Md5` names thumbnails.

Some promises hold only under a condition, and are stated with it:

- The layout search needs room in an int. With it, no step of a search leaves the 32-bit integers
  (`EverySearchFits`) and every display finds its place (`EveryDisplayIsAttached`). Displays at
  opposite corners overflow as soon as they lie a little further apart (`OppositeCorners`).
- Disabling the primary display can leave no primary, as three edits show (`LosePrimary`);
  `PrimarySurvives` says exactly when.
- The shortcuts for the recording and animation globs accept digits beyond ASCII that their
  wildcards refuse (`VdrAgrees`, `AnimAgrees`, `DigitsBeyondAscii`).
- The compositor's tokens are taken as the compositor sends them. A result with an empty token that
  comes while nothing is pending clears `named`, and a token used for two requests at once clears
  `unique`. While `named` is set each operation is reported once; the step that clears it leaves an
  operation of before pending again, which the next state can report twice (`ReportedTwice`). While
  `unique` is set no request whose sender wants an answer is forgotten. In any case success is
  reported only as heard, and no request is answered twice.
- A trashed item's place reads back, in the home trash and in a volume's (`TrashFrom`). When the
  volume is mounted elsewhere it reads back from there, except for an item of the root folder of a
  volume that was the root and no longer is (`RemountedReadsBack`).
- A field of a VPN form reads back as it was written exactly when it fits (`FieldReadsBack`); a
  PAP or CHAP that the user allows for SSTP does not (`AllowedIsLost`). The other fields of such a
  form do (`FormReadsBack`).

## Model

| member | source | states |
|---|---|---|
| `DisplayLayout.IntersectsMeansCommonPixel` | clients/display/output_model.cpp:47-53 | two rectangles intersect exactly when some pixel lies in both; an empty one intersects nothing |
| `DisplayLayout.NearestIsFirstNearest` | clients/display/output_model.cpp:583-640 | the search keeps the first of the nearest free slots, and ends without one exactly when every free slot is INT_MAX away or farther |
| `DisplayLayout.ArrangeIsConsistent` | clients/display/output_model.cpp:577-646 | after any list of displays there is one placement each, in order, and every placed display has a rectangle of its size |
| `DisplayLayout.LayoutIsDisjoint` | clients/display/output_model.cpp:597-642 | no two placed displays share a pixel, over the integers |
| `DisplayLayout.TopmostExists` | clients/display/output_model.cpp:610-642 | some placed display is at least as high as every rectangle |
| `DisplayLayout.AboveTopmostIsFree` | clients/display/output_model.cpp:614-634 | the slot above a topmost display overlaps nothing, so the search always has a free slot |
| `DisplayLayout.SpotTouches` | clients/display/output_model.cpp:615-628 | every slot lies outside its parent, against the chosen edge, and overlaps it there over at least min(32, both extents) |
| `DisplayLayout.SpotWithin` | clients/display/output_model.cpp:615-628 | a slot stays within the room that its parent and both extents leave |
| `DisplayLayout.SpotDistance` | clients/display/output_model.cpp:625-626 | a distance is the way from where the display was to where the slot puts it, bounded by the positions, the room and the extents of the display |
| `DisplayLayout.SizeIsShown` | clients/display/output_model.cpp:592-599 | a display is as wide as the fewest layout units that show its selected mode at its scale, and as high likewise, the two exchanged for an odd rotation; without a selected mode it is 1 by 1 |
| `DisplayLayout.OffsetIsNearest` | clients/display/output_model.cpp:613-620 | the offset of a slot is the one nearest to where the display was that leaves the overlap required |
| `DisplayLayout.RootStays` | clients/display/output_model.cpp:600-603 | the root lies where it was, with its size |
| `DisplayLayout.BestIsASlot` | clients/display/output_model.cpp:606-641 | with coordinates that leave room in an int, the slot taken is one against a placed display |
| `DisplayLayout.PlaceAttaches` | clients/display/output_model.cpp:603-643 | placing one more display finds a free slot, attaches to a placed parent and keeps the layout in bounds |
| `DisplayLayout.EveryDisplayIsAttached` | clients/display/output_model.cpp:577-646 | main result: with unique ids, positive sizes and room in an int, every display gets a placement against the root or an earlier display, and its rectangle touches that parent's edge as far as required |
| `DisplayLayout.EveryDisplayIsNearest` | clients/display/output_model.cpp:606-641 | over the integers, each placement is the first nearest free slot given the displays before it, and is missing exactly when all of them are INT_MAX away |
| `DisplayLayout.EverySearchFits` | clients/display/output_model.cpp:606-641 | with room in an int, every extent, offset, distance and bound of every search lies in an int, and each placement is the first nearest free slot |
| `DisplayLayout.OppositeCorners` | clients/display/output_model.cpp:613-628 | two displays of one unit dragged p away in opposite directions: the search stays in int exactly while 4p + 1 does, and there is room exactly while 4p + 8 is below INT_MAX |
| `OutputDraft.OutputModel.SetEnabled` | clients/display/output_model.cpp:307-339 | refused for a bad row, no change and the last enabled display; otherwise the rows are as specified and both flags are set |
| `OutputDraft.DisablingIsSafe` | clients/display/output_model.cpp:307-339 | disabling one of several enabled displays leaves one enabled, nothing mirroring the disabled one, and at most one primary |
| `OutputDraft.DisablingRows` | clients/display/output_model.cpp:307-339 | disabling a display changes no other row but those that mirrored it and, if it was the primary, the first that then shows its own content, field by field |
| `OutputDraft.PrimarySurvives` | clients/display/output_model.cpp:328-336 | after the primary is disabled there is a primary exactly when another enabled display shows its own content or mirrored the disabled one |
| `OutputDraft.PrimaryIsLost` | clients/display/output_model.cpp:328-336 | three displays of which the second mirrors the third, which is off: disabling the first, the primary, leaves no primary |
| `OutputDraft.LosePrimary` | clients/display/output_model.cpp:307-476 | three edits lead there from every draft of three displays that are on and mirror nothing |
| `OutputDraft.DisabledIsSound` | clients/display/output_model.cpp:307-339 | disabling keeps a draft sound: ids unique, nothing mirroring itself, one primary at most, and still a display that is enabled |
| `OutputDraft.OutputModel.SetPrimary` | clients/display/output_model.cpp:341-353 | only an enabled display that is not primary yet becomes the primary |
| `OutputDraft.PrimaryIsUnique` | clients/display/output_model.cpp:348-350 | afterwards that row alone is primary and nothing else has changed |
| `OutputDraft.PrimaryIsSound` | clients/display/output_model.cpp:348-350 | choosing a primary keeps a draft sound |
| `OutputDraft.OutputModel.SetReplicationSourceIndex` | clients/display/output_model.cpp:436-476 | the source chosen by index, refused when it changes nothing |
| `OutputDraft.ChoiceIsOther` | clients/display/output_model.cpp:441-450 | the choice is none or the id of another display |
| `OutputDraft.ChoicesAreOthers` | clients/display/output_model.cpp:441-450 | the choices offered are none and then the other displays in the order of the rows |
| `OutputDraft.MirroringIsSafe` | clients/display/output_model.cpp:451-473 | a display that starts to mirror is the source of none, nothing mirrors itself, and the primary is kept and unique |
| `OutputDraft.MirroringRows` | clients/display/output_model.cpp:451-473 | each row after a source was chosen, field by field: what mirrored the display mirrors its heir, and which row is primary |
| `OutputDraft.MirroringIsSound` | clients/display/output_model.cpp:451-473 | choosing a source keeps a draft sound |
| `OutputDraft.OutputModel.SetState` | clients/display/output_model.cpp:478-528 | a state replaces the draft and clears both flags |
| `OutputDraft.RefreshedRows` | clients/display/output_model.cpp:485-521 | after the first n displays each has one row, rows stay unique, and each refreshed row has what the state says of its display, field by field |
| `OutputDraft.RowsStay` | clients/display/output_model.cpp:485-521 | rows of displays that are known keep their places and order, and one that no area shows its position, scale and rotation |
| `OutputDraft.StateRowsAreSound` | clients/display/output_model.cpp:478-528 | rows stand for exactly the connected displays, agree with the state, and hold at most one primary when the state does |
| `OutputDraft.StateIsSound` | clients/display/output_model.cpp:478-528 | a state makes any draft sound, so that it is after every sequence of edits |
| `OutputDraft.OutputModel.Placements` | clients/display/output_model.cpp:577-581 | an untouched layout answers what was applied, a touched one the search |
| `OutputDraft.DraftPlacements` | clients/display/output_model.cpp:582-646 | the nested loops compute the specified layout of the draft |
| `OutputDraft.NearestSlot` | clients/display/output_model.cpp:606-639 | the loops over parents and edges end with the nearest free slot |
| `OutputDraft.SlotAgainst` | clients/display/output_model.cpp:612-628 | extents, clamped offset, distance and bounds of one slot |
| `OutputDraft.OverlapsAny` | clients/display/output_model.cpp:629-631 | the loop over the resolved rectangles finds an overlap exactly when the slot is not free |
| `OutputDraft.DraftLayoutIsComplete` | clients/display/output_model.cpp:577-646 | for every draft with unique ids, a primary and room in an int: all shown displays have the size that their modes, scales and rotations give, are attached and disjoint, the root is the primary and stays in place, and no search leaves the ints |
| `OutputDraft.ShownInOrder` | clients/display/output_model.cpp:603-605 | the displays that are laid out are those that show their own content, in the order of the rows |
| `RowSync.DirectoryModel.RowForUrl` | files/directory_model.cpp:40-52 | the lazily built index answers the last row of the URL, or -1, in every reachable state |
| `RowSync.DirectoryModel.Synchronize` | files/directory_model.cpp:75-215 | the rows become the specified ones, and the events sent rebuild them from the old rows in any view; between listings without duplicates no event resets the view or removes a row that is still listed |
| `RowSync.SynchronizedLists` | files/directory_model.cpp:75-215 | for all listings the rows hold exactly the URLs of the new listing |
| `RowSync.SynchronizedPermutes` | files/directory_model.cpp:75-215 | between listings without duplicates the rows are a permutation of the new listing |
| `RowSync.OrderIsKept` | files/directory_model.cpp:75-215 | between listings without duplicates, under each of the four strategies, the files of before that are still listed keep their old order |
| `RowSync.NewRowsInOrder` | files/directory_model.cpp:75-215 | for all listings, under each of the four strategies, the rows whose URL had none before are those of the listing in its order |
| `RowSync.RowsAreNew` | files/directory_model.cpp:75-215 | every row is an item of the new listing, and under the strategies that match rows one by one the last one listed of its URL |
| `RowSync.UnmovedIsMirrored` | files/directory_model.cpp:101-142 | where the listings have the same files at both ends and no file of both between them, the rows become the listing itself |
| `RowSync.SurvivorsKeepOrder` | files/directory_model.cpp:159-194 | under the general strategy the rows that stay keep their old order |
| `RowSync.NewRowsComeLast` | files/directory_model.cpp:190-215 | under the general strategy every new row comes after all that stayed |
| `RowSync.IndexSurvivesRefresh` | files/directory_model.cpp:40-52 | an index stays right while rows get new items of the same URLs |
| `RowSync.IndexAppend` | files/directory_model.cpp:40-52 | adding an item leads its URL to the new row |
| `RowSync.KeptAreSurvivors` | files/directory_model.cpp:159-194 | the in-place erasing and overwriting gives the survivors of the general strategy |
| `RowSync.Positions` | files/directory_model.cpp:144-151 | where each URL is listed last, and whether any is listed twice |
| `RowSync.Compare` | files/directory_model.cpp:79-153 | which of the four strategies is taken, and that its rows are the specified ones |
| `RowSync.DirectoryModel.SetDirLister` | files/directory_model.cpp:15-23 | another lister's rows replace all rows, explained by its events |
| `RowSync.DirectoryModel.DirectoryChanged` | files/directory_model.cpp:28-32 | a change of folder removes all rows, explained by its events |
| `RowSync.DirectoryModel.RefreshRows` | files/directory_model.cpp:88-99 | identical listings give every row its new item |
| `RowSync.DirectoryModel.ReplaceMiddle` | files/directory_model.cpp:101-142 | between common ends the old middle is removed and the new one inserted |
| `RowSync.DirectoryModel.MatchRows` | files/directory_model.cpp:144-215 | the general strategy: survivors refreshed in place and newcomers appended |
| `RowSync.DirectoryModel.RemoveGone` | files/directory_model.cpp:170-188 | rows without a place go in runs from the end, and their places stay aligned with the rows |
| `RowSync.DirectoryModel.RemoveRows` | files/directory_model.cpp:178-187 | removing a run of rows is explained by its event |
| `RowSync.DirectoryModel.AppendRows` | files/directory_model.cpp:207-212 | appending rows is explained by its event |
| `RowSync.FindAdded` | files/directory_model.cpp:190-205 | the items to add are those whose URL had no row |
| `Wildcard.WildcardMatches` | files/mime_sniffer.cpp:154-227 | the loop with its single restart point returns true exactly when the recursive meaning of the pattern holds |
| `Wildcard.MatchSet` | files/mime_sniffer.cpp:161-190 | reading a bracket in place agrees with its token: negation, ranges, and an unclosed bracket as a literal |
| `Wildcard.SetOfCharacters` | files/mime_sniffer.cpp:161-190 | a bracket without ranges holds the characters between its ends |
| `Wildcard.SetOfRange` | files/mime_sniffer.cpp:161-190 | a range holds the characters from its first to its last |
| `Wildcard.SetOfOthers` | files/mime_sniffer.cpp:161-190 | a bracket that starts with a caret or an exclamation mark holds the others |
| `Wildcard.OtherTokens` | files/mime_sniffer.cpp:161-214 | a question mark stands for any character, and all else for itself, an unclosed bracket included |
| `Wildcard.FitsToken` | files/mime_sniffer.cpp:199-214 | a token that is no star takes one character and the rest takes the rest |
| `Wildcard.FitsStar` | files/mime_sniffer.cpp:193-197 | a star takes any run of characters |
| `Wildcard.StarFound` | files/mime_sniffer.cpp:193-197 | a new star makes the restarts of the one before needless |
| `Wildcard.TokenMatched` | files/mime_sniffer.cpp:199-214 | matching a token keeps the search complete |
| `Wildcard.TokenFailed` | files/mime_sniffer.cpp:216-220 | a mismatch without a star refutes, and with one restarts one character later, losing no match |
| `Wildcard.TextDone` | files/mime_sniffer.cpp:223-226 | at the end of the text only stars may be left |
| `Globs.Matches` | files/mime_sniffer.cpp:321-364 | every kind of glob decides what it accepts; an empty one accepts no name |
| `Globs.AcceptedMeans` | files/mime_sniffer.cpp:321-364 | any glob that is not empty accepts what its wildcard means, except that in the two special ones any digit is one |
| `Globs.PlainMeans` | files/mime_sniffer.cpp:295-318 | a literal glob's wildcard means equality |
| `Globs.SuffixMeans` | files/mime_sniffer.cpp:295-318 | a suffix glob's wildcard means the names with that ending |
| `Globs.PrefixMeans` | files/mime_sniffer.cpp:295-318 | a prefix glob's wildcard means the names with that beginning |
| `Globs.VdrMeans` | files/mime_sniffer.cpp:312-315 | what the wildcard for recordings means, character by character |
| `Globs.AnimMeans` | files/mime_sniffer.cpp:312-315 | what the wildcard for animations means, character by character |
| `Globs.VdrAgrees` | files/mime_sniffer.cpp:349-351 | the shortcut disagrees with the wildcard exactly at the names of that form with a digit beyond ASCII |
| `Globs.AnimAgrees` | files/mime_sniffer.cpp:352-358 | the same for animations, at the last digit |
| `Globs.DigitsBeyondAscii` | files/mime_sniffer.cpp:349-358 | names with an Arabic-Indic zero that the shortcuts accept and their wildcards refuse |
| `Globs.EndsAlike` | files/mime_sniffer.cpp:331-338 | the backward comparison decides the suffix |
| `Globs.StartsAlike` | files/mime_sniffer.cpp:339-346 | the forward comparison decides the prefix |
| `NameMatching.NameMatches.Insert` | files/mime_sniffer.cpp:234-264 | each call updates the matches as specified |
| `NameMatching.ListedOnce` | files/mime_sniffer.cpp:234-264 | no type is listed twice, and all listed types were offered |
| `NameMatching.HighestThenLongest` | files/mime_sniffer.cpp:234-264 | among the calls whose type was not listed yet, the matches are exactly the types of the highest weight and then of the longest pattern, in order |
| `NameMatching.AllAreListed` | files/mime_sniffer.cpp:234-264 | a type is in the list of all exactly when some call offered it, other than one of the weight that was the highest so far with a shorter pattern |
| `NameMatching.FindBranch` | files/mime_sniffer.cpp:639-652 | halving finds the branch of a character if there is one |
| `NameMatching.LongestBelow` | files/mime_sniffer.cpp:631-687 | the longest admissible suffix through a character is one longer than the longest below it, or the character alone |
| `NameMatching.AdmissibleAre` | files/mime_sniffer.cpp:674-674 | a leaf counts if its type is not excluded, and one that heeds case only where case is checked |
| `NameMatching.TreeMeans` | files/mime_sniffer.cpp:631-687 | the longest suffix that the search finds is the longest of those stored in the tree, read backwards, that has an admissible leaf |
| `NameMatching.AddLeaves` | files/mime_sniffer.cpp:662-681 | adds exactly the admissible leaves and tells whether there was one |
| `NameMatching.MatchChildren` | files/mime_sniffer.cpp:655-684 | deeper suffixes first, else the leaves of this one |
| `NameMatching.MatchSuffixTree` | files/mime_sniffer.cpp:631-687 | succeeds exactly when some suffix shorter than the name is admissible, and adds exactly the admissible types of the longest one with pattern length suffix + 1 |
| `MagicRules.MatchSubstring` | files/mime_sniffer.cpp:711-738 | tries exactly the places of the range where the value fits, with and without a mask |
| `MagicRules.MatchRule` | files/mime_sniffer.cpp:689-708 | a list of rules matches exactly when some rule holds with one of its children |
| `MagicRules.FullMask` | files/mime_sniffer.cpp:711-738 | a mask of ones is no mask |
| `MagicRules.MaskedBits` | files/mime_sniffer.cpp:711-738 | under a mask two bytes are alike exactly when every bit of the mask agrees |
| `TypeGraph.Database.Inherits` | files/mime_sniffer.cpp:831-853 | ends on every graph and returns true exactly when the ancestor is reached over resolved parents |
| `TypeGraph.Database.ResolvedOnce` | files/mime_sniffer.cpp:807-812 | an alias of a known type stands for that type and any other name for itself; resolving twice is resolving once, except exactly where the type is an alias of another |
| `TypeGraph.Database.ParentNames` | files/mime_sniffer.cpp:814-828 | the parents of a type, resolved |
| `TypeGraph.Database.ListedAreAll` | files/mime_sniffer.cpp:814-819 | a type that has parents listed has those and no others |
| `TypeGraph.Database.ListedInherits` | files/mime_sniffer.cpp:814-819 | a type inherits every parent that is listed for it |
| `TypeGraph.Database.TextInherits` | files/mime_sniffer.cpp:820-823 | a text inherits text/plain where nothing is listed for it |
| `TypeGraph.Database.BytesInherit` | files/mime_sniffer.cpp:824-827 | plain text, and any type that is no text and in none of the groups without contents, inherits application/octet-stream where nothing is listed for it |
| `TypeGraph.Database.NothingInherits` | files/mime_sniffer.cpp:824-827 | the default type and those of the five groups inherit only themselves where nothing is listed for them |
| `TypeGraph.Database.ClosedUnderParents` | files/mime_sniffer.cpp:831-853 | a set closed under parents holds whatever its members descend from |
| `TypeGraph.Database.Unreached` | files/mime_sniffer.cpp:831-853 | a closed set without the ancestor refutes descent |
| `FileCopy.Writeback.Push` | files/local_file_system.cpp:93-113 | pending bytes equal the queue's sum and are within both limits after every push, and no older range is waited for than the limits ask |
| `FileCopy.RegularFileCopy.Copy` | files/local_file_system.cpp:169-298 | a finished copy's output equals the source, progress equals its size, and the ranges handed over are consecutive and cover all that was written before them; it fails only through a failing call or a cancellation |
| `FileCopy.RegularFileCopy.CopyExtent` | files/local_file_system.cpp:233-289 | copies up to the end of the extent, whatever is cut short or interrupted |
| `FileCopy.RegularFileCopy.KernelStep` | files/local_file_system.cpp:236-255 | an in-kernel transfer makes progress, is interrupted, or leaves the rest to the buffer |
| `FileCopy.RegularFileCopy.BufferedStep` | files/local_file_system.cpp:257-288 | one buffer's worth is read and written in as many pieces as it takes |
| `FileCopy.RegularFileCopy.NextExtent` | files/local_file_system.cpp:204-231 | a hole is passed over only where the source reads as zeros |
| `FileCopy.RegularFileCopy.Wrote` | files/local_file_system.cpp:186-196 | writeback is handed over in consecutive chunks |
| `FileCopy.ConsecutiveCovers` | files/local_file_system.cpp:186-196 | consecutive ranges leave no byte before their end uncovered |
| `FileTree.MergeStaged` | files/local_file_system.cpp:346-367 | success leaves the overlay of staged over target and nothing staged; stopped midway, the overlay of what is left over what was merged is still the same |
| `FileTree.MergeOne` | files/local_file_system.cpp:350-363 | one name moved, merged or left keeps the overlay |
| `FileTree.OverlayHoldsStaged` | files/local_file_system.cpp:346-367 | the overlay holds the whole staged tree |
| `FileTree.OverlayKeepsTarget` | files/local_file_system.cpp:346-367 | what the staged tree does not name stays |
| `FileTree.OverlayAt` | files/local_file_system.cpp:350-363 | a change of one name keeps the overlay when that name's overlay is kept |
| `FileMove.KeptNamesDiffer` | files/local_file_system.cpp:376-386 | different suffixes give different names |
| `FileMove.KeptNameIs` | files/local_file_system.cpp:376-386 | the number comes before the extension of a file, with its dot, and at the end of a folder's name or of one without an extension |
| `FileMove.KeptNamesRunOut` | files/local_file_system.cpp:395-456 | a folder holds finitely many of them, so the search for a free one ends |
| `FileMove.Transfer.Publish` | files/local_file_system.cpp:395-456 | what is staged gets the name, the first free kept name, or replaces, as settled; nothing else in the folder is touched and the source is whole throughout |
| `FileMove.Transfer.KeptBeside` | files/local_file_system.cpp:376-417 | an item that is kept beside another has that name, with the first number from 1 on that gives a free one |
| `FileMove.Transfer.MergeFolders` | files/local_file_system.cpp:438-446 | replacing a folder by a folder merges them |
| `FileMove.Transfer.ReplaceTarget` | files/local_file_system.cpp:419-452 | replacing another item puts the original in its place |
| `FileMove.Transfer.Stage` | files/local_file_system.cpp:473-476 | the copy under the temporary name leaves the source alone |
| `FileMove.Transfer.CleanUp` | files/local_file_system.cpp:481-492 | a failed copy removes only what it staged |
| `FileMove.Transfer.Copy` | files/local_file_system.cpp:458-493 | copying keeps the source in every state; what is published is the item, or its overlay over the folder it was merged into |
| `FileMove.Transfer.KeepBeside` | files/local_file_system.cpp:575-585 | the first free name beside the taken one |
| `FileMove.Transfer.SettleByRename` | files/local_file_system.cpp:563-595 | which policies are settled by a rename, and what that leaves to do |
| `FileMove.Transfer.CopyAcross` | files/local_file_system.cpp:597-607 | the source goes only after its copy is published |
| `FileMove.Transfer.Move` | files/local_file_system.cpp:529-608 | in every intermediate state, failures and cancellation included, the item is whole at its source or where it was published, under a name that the policy allows; a result is published under an allowed name, skipped without a trace, or failed with the source in place |
| `FileMove.Transfer.Become` | files/local_file_system.cpp:529-608 | every change of the two folders is recorded and leaves the item whole, at its source or where the policy lets it be published |
| `FileMove.Transfer.PublishedIsWhole` | files/local_file_system.cpp:395-456 | whatever counts as published holds the whole item |
| `HelperPool.Helpers.TryStart` | files/async_p.cpp:43-65 | accepts work exactly when a thread is idle beyond the queue's needs or one may be started; queued work never exceeds the threads that are coming |
| `HelperPool.Helpers.Arrive` | files/async_p.cpp:14-32 | a thread that arrives takes the oldest work or goes idle |
| `HelperPool.Helpers.Wake` | files/async_p.cpp:14-32 | a woken thread takes the oldest work, or sleeps again after a spurious wake |
| `HelperPool.Helpers.NotifyOne` | files/async_p.cpp:50-54 | a notification wakes one thread if any sleeps, and none is lost |
| `HelperPool.Helpers.Drain` | files/async_p.cpp:14-32 | from every reachable state the threads that are coming take up all queued work, in order, while every busy thread stays busy |
| `HelperPool.NobodyAsleep` | files/async_p.cpp:14-65 | with nobody asleep, all idle threads are coming |
| `BlockSharing.Sharing.RunOnFreeThreads` | files/async_p.h:41-80 | returns only after all helpers did, for every interleaving; without a failure every item was made exactly once, as one thread would have made it |
| `BlockSharing.Sharing.Take` | files/async_p.h:41-80 | the shared counter hands each block to one run |
| `BlockSharing.Sharing.Fill` | files/async_p.h:41-80 | a run writes its own items only, or stops all |
| `BlockSharing.Sharing.Finish` | files/async_p.h:63-69 | a helper counts itself as finished once, after its run |
| `BlockSharing.Sharing.Step` | files/async_p.h:41-80 | every step keeps the invariant and makes progress |
| `BlockSharing.HelpersLeft` | files/async_p.h:73-76 | all helpers are counted exactly when only the calling run is not |
| `Listing.BlockHelpers` | files/async_p.h:27-30 | the most helpers that are fewer than the blocks and with this thread no more than half the processors |
| `BlockSharing.NextBlock` | files/directory_lister.cpp:97-128 | blocks are consecutive, not empty, and end at the count |
| `BlockSharing.BlockIsFull` | files/directory_lister.cpp:97-128 | every block has the given size but the last |
| `BlockSharing.BlockTaken` | files/directory_lister.cpp:97-128 | taking a block keeps the blocks apart and every written item written once |
| `BlockSharing.ItemWritten` | files/directory_lister.cpp:97-128 | an item of a run's block was not written before |
| `BlockSharing.RunTurned` | files/directory_lister.cpp:97-128 | a run that leaves or fails keeps the others apart |
| `BlockSharing.AllWritten` | files/directory_lister.cpp:97-128 | when all runs are past the loop and none failed, each item was written once |
| `PathText.ExistingAncestor` | files/directory_lister.cpp:81-91 | the walk up ends, at the nearest folder that exists or at the root |
| `Listing.List` | files/file_enumerator.cpp:144-189 | whatever threads help, a listing that is not interrupted is the folders' items in order |
| `Listing.Starts` | files/file_enumerator.cpp:144-152 | where each folder's items start, and how many there are |
| `Listing.LocateFinds` | files/file_enumerator.cpp:168-172 | the upper bound among the starts is the last folder that starts at or before the index |
| `Listing.LocatedIsListed` | files/file_enumerator.cpp:168-177 | the item made for an index is the one the sequential listing has there, empty folders notwithstanding |
| `Listing.ListedAt` | files/file_enumerator.cpp:144-177 | every name of a folder is listed after all items of the folders before it, with its path below the folder's |
| `DisplayProtocol.DisplayClient.constructor` | clients/display/display_client.cpp:28-64 | a client starts with nothing pending, reported or answered |
| `DisplayProtocol.DisplayClient.Apply` | clients/display/display_client.cpp:144-176 | accepted exactly when the service is known with its instance and neither a call, a token nor a result is outstanding |
| `DisplayProtocol.DisplayClient.FinishOperation` | clients/display/display_client.cpp:178-188 | the end is reported as heard, success only with a state at or past it; while named is set each operation is reported once, in order |
| `DisplayProtocol.DisplayClient.CompleteIfCurrent` | clients/display/display_client.cpp:202-213 | reported exactly when the cached state is lexicographically at or past the result |
| `DisplayProtocol.PastIsLexicographic` | clients/display/display_client.cpp:202-213 | a state is at or past a result in the order in which the generation decides before the revision; a result without a generation is in every state |
| `DisplayProtocol.DisplayClient.ApplyReply` | clients/display/display_client.cpp:158-172 | a reply counts only for its own epoch and operation, and finds a result that came first |
| `DisplayProtocol.DisplayClient.OperationNamed` | clients/display/display_client.cpp:162-171 | the token names the operation and takes up an early result |
| `DisplayProtocol.DisplayClient.OperationFinishedSignal` | clients/display/display_client.cpp:87-106 | answers the request that waits for the token, keeps a result that is early, and queues the operation's |
| `DisplayProtocol.DisplayClient.ResultHeard` | clients/display/display_client.cpp:99-105 | what a result does to the operation |
| `DisplayProtocol.DisplayClient.StateReply` | clients/display/display_client.cpp:118-141 | only the newest question counts; a queued result is reported once the state has it, and a failed read ends the operation |
| `DisplayProtocol.DisplayClient.ResultThenState` | clients/display/display_client.cpp:99-141 | a result and then two answers: only the answer to the question that the result gave rise to counts, and it brings the report exactly when its state has the result |
| `DisplayProtocol.ReportedTwice` | clients/display/display_client.cpp:99-105 | after an operation was reported, a result with an empty token makes the client report it again, so that named is needed |
| `DisplayProtocol.ReportedOnce` | clients/display/display_client.cpp:87-188 | with a token of its own and a state that has its result, an operation is reported once |
| `DisplayProtocol.DisplayClient.Timeout` | clients/display/display_client.cpp:34-37 | an operation that times out is reported as failed |
| `DisplayProtocol.DisplayClient.OwnerChanged` | clients/display/display_client.cpp:52-61 | a new owner leaves nothing pending and no request waiting |
| `DisplayProtocol.DisplayClient.ServiceChanged` | clients/display/display_client.cpp:73-85 | what the last owner left open fails: the operation, and every named request |
| `DisplayProtocol.DisplayClient.FailRequests` | clients/display/display_client.cpp:307-314 | every waiting request is answered, and calls in flight no longer count |
| `DisplayProtocol.DisplayClient.SendRequest` | clients/display/display_client.cpp:227-298 | a request in flight is counted for its epoch |
| `DisplayProtocol.DisplayClient.RequestReply` | clients/display/display_client.cpp:266-296 | the sender is answered at most once: at once for a failure or an early result, else later under its token |
| `DisplayProtocol.DisplayClient.ReplyAndResult` | clients/display/display_client.cpp:261-298 | reply first or result first, the sender gets the same answer |
| `DisplayProtocol.CallSent` | clients/display/display_client.cpp:261-298 | a new call keeps the ledger of requests |
| `DisplayProtocol.CallAnswered` | clients/display/display_client.cpp:261-298 | an answered call is answered once |
| `DisplayProtocol.CallNamed` | clients/display/display_client.cpp:261-298 | a named request is remembered as long as its token is its own |
| `DisplayProtocol.ResultArrived` | clients/display/display_client.cpp:87-97 | a result answers the one request of its token |
| `Discovery.QuiescentMatches` | clients/bluez/manager.cpp:629-686 | with no call in flight and no timer armed, an adapter is owned exactly when discovery is requested and the adapter powered, unless its start failed or three stops did |
| `Discovery.SentIsSound` | clients/bluez/manager.cpp:653-660 | a call is sent only where it is needed, and marks its adapter |
| `Discovery.EndedIsSound` | clients/bluez/manager.cpp:661-665 | a reply touches no other adapter, and none that took the path meanwhile |
| `Discovery.EndedIsSettled` | clients/bluez/manager.cpp:661-685 | only the replying adapter can be out of line after a reply |
| `Discovery.OwnedIsSettled` | clients/bluez/manager.cpp:678-684 | taking over what is wanted brings the adapter in line |
| `Discovery.StartRefusedIsSettled` | clients/bluez/manager.cpp:666-671 | a failed start ends the attempts |
| `Discovery.LostIsSound` | clients/bluez/manager.cpp:388-412 | an adapter that lost power owns nothing and has no past |
| `Discovery.PlacedIsSound` | clients/bluez/manager.cpp:320-343 | an object added or changed keeps the book sound |
| `Discovery.RemovedIsSound` | clients/bluez/manager.cpp:345-376 | a removed adapter leaves nothing behind |
| `Discovery.Manager.Discovery` | clients/bluez/manager.cpp:648-686 | sends a call unless one is pending, nothing would change, or it was given up |
| `Discovery.Manager.SyncDiscovery` | clients/bluez/manager.cpp:640-646 | afterwards every adapter is as wanted, or a call or an exception says why not |
| `Discovery.Manager.SetDiscoveryRequested` | clients/bluez/manager.cpp:629-638 | forgets failures and brings all adapters in line |
| `Discovery.Manager.Reply` | clients/bluez/manager.cpp:661-685 | a reply changes ownership only of the adapter object it was sent for |
| `Discovery.Manager.TimerFired` | clients/bluez/manager.cpp:140-144 | a timer brings all adapters in line |
| `Discovery.Manager.InterfacesAdded` | clients/bluez/manager.cpp:320-343 | which objects and adapters there are afterwards, and a look at all adapters soon |
| `Discovery.Manager.PropertiesChanged` | clients/bluez/manager.cpp:388-412 | a change keeps the other objects; power lost forgets ownership, failures and retries |
| `Discovery.Manager.Refetched` | clients/bluez/manager.cpp:413-436 | a property fetched again counts only for the object asked |
| `Discovery.Manager.InterfacesRemoved` | clients/bluez/manager.cpp:345-386 | nothing of an object that went as a whole is kept, and an object without interfaces goes unless it is an adapter |
| `Discovery.Manager.Reset` | clients/bluez/manager.cpp:239-264 | what BlueZ knew is gone, what the user wants stays |
| `Discovery.Manager.Load` | clients/bluez/manager.cpp:266-318 | the objects are those listed, changed by all events held back meanwhile in their order, and discovery is brought in line; a listing that fails resets |
| `Discovery.Manager.PlaceAll` | clients/bluez/manager.cpp:309-310 | the objects placed are exactly the ones listed |
| `RemoteObject.RevisionTells` | clients/bluez/bluetooth_object.cpp:238-267 | over every run of events a property keeps its revision exactly while nothing touches it, and then its value |
| `RemoteObject.AfterIsValid` | clients/bluez/bluetooth_object.cpp:238-267 | revisions stay fresh: none is ahead of the counter |
| `RemoteObject.BluetoothObject.Change` | clients/bluez/bluetooth_object.cpp:238-251 | a change gives its property a new revision |
| `RemoteObject.BluetoothObject.RemoveInterface` | clients/bluez/bluetooth_object.cpp:262-267 | an interface goes with its properties and revisions |
| `RemoteObject.BluetoothObject.Refetched` | clients/bluez/bluetooth_object.cpp:253-260 | a late value is taken exactly when nothing touched the property since it was asked for |
| `Discovery.Manager.AskAdapter` | clients/bluez/bluetooth_object.cpp:214-224 | asking one adapter leaves every other as it was and sends at most the call that it needs |
| `VolumeChains.DriveIsReleased` | files/volume_manager.cpp:293-308 | every mounted volume of the drive is unmounted, an encrypted one at its cleartext block and any other at its id, and every unlocked one is locked at its id, each unmounted before it is locked |
| `VolumeChains.NothingElseReleased` | files/volume_manager.cpp:293-308 | and every step of a release is needed for such a volume of that drive |
| `VolumeChains.OnlyReleases` | files/volume_manager.cpp:293-308 | the steps before the last only unmount and lock |
| `VolumeChains.EjectComesLast` | files/volume_manager.cpp:341-393 | a drive is ejected or powered off only for an eject of one of its volumes, after exactly the releases of all that was on it, which all succeeded |
| `VolumeChains.VolumeManager.EjectedWhenReleased` | files/volume_manager.cpp:293-393 | in every reachable state: each volume of a drive that was ejected had been unmounted, at the path it was mounted from, if mounted and locked if unlocked |
| `VolumeChains.PlanKept` | files/volume_manager.cpp:371-375 | only an unlock changes the plan of a chain, which keeps serving its operation |
| `VolumeChains.ChainStarted` | files/volume_manager.cpp:337-338 | a started chain makes its volume pending |
| `VolumeChains.ChainContinued` | files/volume_manager.cpp:371-375 | a chain that goes on stays the one chain of its volume |
| `VolumeChains.ChainEnded` | files/volume_manager.cpp:356-385 | a chain ends its operation once and frees the volume |
| `VolumeChains.StepSucceeded` | files/volume_manager.cpp:371-375 | each chain follows its plan: what was sent came after all steps before it |
| `VolumeChains.PlanEnded` | files/volume_manager.cpp:356-385 | a chain finishes only when its last step succeeded |
| `VolumeChains.VolumeManager.Start` | files/volume_manager.cpp:310-339 | refused while the volume, or for a drive any of its volumes, is pending |
| `VolumeChains.VolumeManager.MountVolume` | files/volume_manager.cpp:262-270 | accepted exactly for a file system that is not locked and not busy; it is mounted at its cleartext block if it is encrypted, else at its id |
| `VolumeChains.VolumeManager.UnmountVolume` | files/volume_manager.cpp:272-281 | accepted exactly where there is something to do and nothing busy; an encrypted volume is unmounted at its cleartext block if mounted and then locked at its id, any other unmounted at its id |
| `VolumeChains.VolumeManager.Unlock` | files/volume_manager.cpp:283-291 | a locked volume is unlocked and then mounted where the unlock says, any other mounted |
| `VolumeChains.VolumeManager.EjectVolume` | files/volume_manager.cpp:293-308 | accepted exactly for a drive that can and is not busy; the plan releases the drive and then ejects or powers it off |
| `VolumeChains.VolumeManager.ReleaseSteps` | files/volume_manager.cpp:293-306 | the loop collects the releases of the drive |
| `VolumeChains.VolumeManager.Reply` | files/volume_manager.cpp:341-393 | what is sent next and where, or how the operation ends: finished, failed or rejected; a stale owner or a vanished volume fails it |
| `VolumeChains.VolumeManager.Refresh` | files/volume_manager.cpp:129-142 | at most one listing is awaited |
| `VolumeChains.VolumeManager.ListingReply` | files/volume_manager.cpp:144-161 | once none is awaited, the last listing was asked for after the last known change |
| `VolumeChains.VolumeManager.OwnerChanged` | files/volume_manager.cpp:86-99 | the objects of the old owner go and its chains will fail |
| `ConflictHandshake.Task.AskUser` | files/task.cpp:352-361 | an answer for all is used at once; else a new number is announced and waited for |
| `ConflictHandshake.Task.Wake` | files/task.cpp:372-380 | the worker goes on with the answer to its own conflict, never Ask, or stops when canceled |
| `ConflictHandshake.Task.ResolveConflict` | files/task.cpp:286-305 | an answer is accepted exactly when it is for the pending conflict and is no question; a stale or second one changes nothing |
| `ConflictHandshake.Task.Cancel` | files/task.cpp:276-284 | a cancellation always signals |
| `ConflictHandshake.Task.NotifyAll` | files/task.cpp:276-305 | a signal reaches the waiting worker |
| `ConflictHandshake.Task.Announce` | files/task.cpp:361-370 | with nobody listening a conflict fails, unless it is over |
| `ConflictHandshake.Task.WorkerStops` | files/task.cpp:276-284 | after a cancellation no interleaving leaves the worker waiting |
| `TaskHistory.UndoRestores` | files/task.cpp:490-504 | moving everything back restores the world |
| `TaskHistory.WayBack` | files/task.cpp:477-508 | which operations can be taken back, and by which request: copies, links, folders and restored items go to the trash, trashed items are restored, moved ones move back unless one came out of a trash or was merged |
| `TaskHistory.TakenBack` | files/task.cpp:490-504 | the request that takes a move back restores the world |
| `TaskHistory.MovedInParts` | files/task.cpp:564-583 | a move in two parts is the move |
| `TaskHistory.CancelledUndoSplits` | files/task.cpp:564-583 | what a cancelled undo did and what it left add up to the whole undo, and each can be taken back |
| `TaskHistory.RedoRepeats` | files/task.cpp:490-504 | taking a move back twice moves the same items to the same places |
| `TaskHistory.Remaining` | files/task.cpp:567-577 | what was not reached keeps its own targets, duplicates included |
| `TaskHistory.TaskController.Submit` | files/task.cpp:512-550 | a new operation forgets what could be redone |
| `TaskHistory.TaskController.TakeBack` | files/task.cpp:598-618 | takes the newest entry and leaves the other stack |
| `TaskHistory.TaskController.Leftover` | files/task.cpp:564-583 | what was left of a cancelled run is an entry with the sources not reached and their targets, only where there is something |
| `TaskHistory.NewestStay` | files/task.cpp:557-562 | an entry goes on top, and the oldest of fifty makes room for it |
| `TaskHistory.RestoresGo` | files/task.cpp:585-592 | restores go, entry by entry, and the others stay in their order |
| `TaskHistory.TaskController.Record` | files/task.cpp:552-596 | which stack gets the inverse and the rest, bounded; emptying the trash forgets the restores |
| `Utf8.DecodeUtf8` | clients/networkmanager/wifi_utils.cpp:83-122 | accepts exactly the well-formed strings of section 4 of RFC 3629, and encoding what it gives gives the bytes back |
| `Utf8.DecodeEncoded` | clients/networkmanager/wifi_utils.cpp:83-141 | decoding an encoding gives back the scalar values |
| `Utf8.CharRoundTrip` | clients/networkmanager/wifi_utils.cpp:83-141 | a character is the encoding of its code point |
| `Utf8.ScalarRoundTrip` | clients/networkmanager/wifi_utils.cpp:124-141 | each scalar value is encoded as a character that decodes to it |
| `Utf8.EncodeIsWellFormed` | clients/networkmanager/wifi_utils.cpp:124-141 | encodings are well formed |
| `Utf8.EncodeIsInjective` | clients/networkmanager/wifi_utils.cpp:124-141 | different texts have different encodings |
| `Utf8.Checked` | clients/networkmanager/wifi_utils.cpp:113-116 | the checks for overlong forms, surrogates and large values shut out exactly what is no character |
| `Utf8.Boundary` | clients/networkmanager/wifi_utils.cpp:286-294 | well-formed text may be cut exactly where no character goes on |
| `Utf8.SsidBytes` | clients/networkmanager/wifi_utils.cpp:286-294 | valid text is cut to its longest whole-character prefix of at most 32 bytes |
| `Utf8.ChopCharacter` | files/trash.cpp:230-236 | takes off the last whole character |
| `Utf8.Shortened` | files/trash.cpp:269-271 | a name is cut to all the whole characters that fit |
| `TrashInfo.VolumeReadsBack` | files/trash.cpp:81-103 | on a volume the recorded path reads back as the resolved place of the item, the mount point being met on the way up from its folder |
| `TrashInfo.UpIsAbove` | files/trash.cpp:60-81 | wherever the walk up from a folder has come, it is at that folder or a clean one above it |
| `TrashInfo.MountPointOf` | files/trash.cpp:60-81 | the walk ends at the nearest mount point at or above the folder, the root at the latest |
| `TrashInfo.VolumeFor` | files/trash.cpp:85-103 | an item goes to the trash of its own volume, other than home's and taking one, or else to the home trash |
| `TrashInfo.RemountedReadsBack` | files/trash.cpp:287-295 | with the volume mounted elsewhere an item reads back at the same place from the mount point, except exactly where it lay in the root folder and the volume is no longer the root |
| `TrashInfo.HomeReadsBack` | files/trash.cpp:287-291 | in the home trash the recorded path reads back as the cleaned source |
| `TrashInfo.RecordedIs` | files/trash.cpp:287-295 | in a volume's trash what lies below the mount point is recorded by its path from there and anything else by its whole path; in the home trash everything by its clean path |
| `TrashInfo.InfoReadsBack` | files/trash.cpp:297-308 | the info file that is written reads back as what it records |
| `TrashInfo.InfoFormat` | files/trash.cpp:303-304 | the lines of an info file: the group, the path and the date |
| `TrashFolder.CandidatesRunOut` | files/trash.cpp:264-285 | a free name is found |
| `TrashFolder.Trash.TakeName` | files/trash.cpp:264-285 | the info file comes first, under the item's name or that with a suffix, which no item has |
| `TrashFolder.Trash.MoveIn` | files/trash.cpp:312-316 | the item moves in under its name, and nothing else changes |
| `TrashFolder.Trash.WriteInfo` | files/trash.cpp:297-311 | the info file holds the recorded path |
| `TrashFolder.Trash.TrashItem` | files/trash.cpp:245-322 | in every state each item has its info file; what is stored is the item, and its info file reads back |
| `TrashFolder.Trash.TrashFrom` | files/trash.cpp:245-322 | the place an item came from reads back: in the home trash the cleaned source, in that of a volume the resolved place |
| `TrashFolder.Trash.Remove` | files/trash.cpp:200-227 | an item goes before its info file |
| `TrashFolder.Trash.Restore` | files/trash.cpp:337-370 | the item leaves the trash for the folder of its recorded place, whole, under its name or as the policy settles a conflict, replaced or with a number; nothing else in either folder changes, only then its info file goes, and otherwise item and info file stay |
| `TrashFolder.Trash.MoveBack` | files/trash.cpp:366-366 | the item moves as every move does, and no state on the way has an item without its info file |
| `TrashFolder.Trash.TrashAndRestore` | files/trash.cpp:245-370 | an item that is trashed and put back is in its folder under its name, whole, with nothing else changed, when its name there is free |
| `TrashFolder.Trash.Empty` | files/trash.cpp:374-411 | stopped anywhere, no item is without its info file; at the end neither is left |
| `TrashInfo.NothingOutside` | files/trash_directory.cpp:328-350 | whatever an info file says, what is read back is clean, not the root, and in a volume's trash below the mount point |
| `TrashInfo.CleanFirst` | files/trash_directory.cpp:328-350 | cleaning the mount point beforehand changes nothing |
| `TrashInfo.CleanChild` | files/trash_directory.cpp:328-350 | an item in a clean folder has a clean path |
| `Texts.JoinedSplit` | files/path_utils_p.h:28-31 | the parts between separators, empty ones included, join to the text again |
| `Texts.SplitJoined` | files/path_utils_p.h:28-31 | parts without the separator are found again in their join |
| `PathText.CleanPath` | files/path_utils_p.h:19-54 | the scan gives the component-stack resolution of the path |
| `PathText.CleanTwice` | files/path_utils_p.h:19-54 | cleaning is idempotent |
| `PathText.CleanHasNames` | files/path_utils_p.h:19-54 | an absolute result has no empty, "." or ".." component |
| `PathText.CleanNamesSame` | files/path_utils_p.h:19-54 | the cleaned path leads to the same place from every folder |
| `PathText.ReducedLeadsSame` | files/path_utils_p.h:19-54 | dropping components leads nowhere else |
| `PathText.CleanNotLonger` | files/path_utils_p.h:19-54 | a cleaned path is not longer |
| `PathText.FolderIsShorter` | files/path_utils_p.h:79-86 | the folder of an absolute path other than the root is strictly shorter |
| `PathText.JoinedBack` | files/path_utils_p.h:72-104 | folder and name of a clean path join to it again |
| `Ipv4.Parse` | clients/networkmanager/inet.cpp:12-36 | takes four numbers up to 255 of at most three digits with dots between, and nothing else |
| `Ipv4.FormatParses` | clients/networkmanager/inet.cpp:46-50 | a printed address reads back |
| `Ipv4.PartsRead` | clients/networkmanager/inet.cpp:12-36 | the four parts are the bytes of the address, the highest first |
| `Ipv4.ParsedInRange` | clients/networkmanager/inet.cpp:12-36 | what reads is a 32-bit address |
| `Ipv4.ParsedIsPlain` | clients/networkmanager/inet.cpp:12-36 | what reads has only digits and dots |
| `Ipv4.ReadOctet` | clients/networkmanager/inet.cpp:22-28 | the digits of one part and their number |
| `Ipv4.NetmaskRoundTrip` | clients/networkmanager/ip_utils.cpp:100-127 | every prefix reads back from its netmask |
| `Ipv4.MaskIsOfPrefix` | clients/networkmanager/ip_utils.cpp:112-119 | only the netmask of a prefix is taken for one |
| `Ipv4.OnesThenZeros` | clients/networkmanager/ip_utils.cpp:115-118 | the bit test holds exactly for ones followed by zeros |
| `ConfigText.WordsOfJoined` | clients/networkmanager/text.cpp:51-73 | words that are not empty and have no comma come back from their join; empty parts are dropped |
| `ConfigText.TrimmedIs` | clients/networkmanager/text.cpp:18-26 | only whitespace is cut off, and all of it, on both sides |
| `ConfigText.LettersAreLowered` | clients/networkmanager/text.cpp:29-39 | capital letters become small ones and all else stays |
| `ConfigText.Strip` | clients/networkmanager/vpn_utils.cpp:469-474 | a line without its comment and without any whitespace |
| `ConfigText.OnlyTextStays` | clients/networkmanager/vpn_utils.cpp:469-474 | a comment goes with all that follows it, and so does every blank |
| `WireGuard.DecodeBase64` | clients/networkmanager/vpn_utils.cpp:144-168 | accepts exactly base 64 text with little padding; the bytes are the number the characters write, without the bits that fill no byte |
| `WireGuardLines.SextetIs` | clients/networkmanager/vpn_utils.cpp:146-156 | the characters stand for the numbers of section 4 of RFC 4648 |
| `WireGuardLines.KeyIs` | clients/networkmanager/vpn_utils.cpp:170-174 | a key is 43 characters of base 64, padded by up to two |
| `WireGuard.NumbersAreRead` | clients/networkmanager/vpn_utils.cpp:176-186 | a number of 32 bits is read as it is written, in decimal, and where any base is allowed in hexadecimal or octal |
| `WireGuardLines.DecimalIsRead` | clients/networkmanager/vpn_utils.cpp:176-186 | without a base, digits alone are read, for what they stand for |
| `WireGuardLines.NetworkTaken` | clients/networkmanager/vpn_utils.cpp:189-207 | an address stands for itself alone, or with a prefix of at most its length for a network, in its own family |
| `WireGuardLines.HeadTaken` | clients/networkmanager/vpn_utils.cpp:476-486 | a section starts with its name in brackets, in any case, and every peer is a new one |
| `WireGuardLines.NameIs` | clients/networkmanager/vpn_utils.cpp:493-541 | the fields have their names, in any case |
| `WireGuardLines.SettingTaken` | clients/networkmanager/vpn_utils.cpp:496-523 | what each setting of the interface is read as, and which are refused |
| `WireGuardLines.PeerSettingTaken` | clients/networkmanager/vpn_utils.cpp:524-543 | what each setting of a peer is read as: the last peer changes and no other |
| `WireGuardLines.ServersNeedAddress` | clients/networkmanager/vpn_utils.cpp:573-590 | servers count beside an address of their family, and are for all names without a domain |
| `WireGuard.ReadProfile` | clients/networkmanager/vpn_utils.cpp:439-592 | the loop over the lines reads exactly the specified profile, or nothing |
| `WireGuard.WriteConfig` | clients/networkmanager/vpn_utils.cpp:774-806 | the loops print the specified text |
| `WireGuardRoundTrip.PrintReadPrint` | clients/networkmanager/vpn_utils.cpp:439-806 | main result: for every text that is accepted, the printed profile is accepted again, as the same profile but for repeated domains, and prints identically |
| `WireGuardRoundTrip.ReadIsSane` | clients/networkmanager/vpn_utils.cpp:439-592 | whatever was read can be printed: keys, numbers, addresses, names and routes are in range |
| `WireGuardRoundTrip.ConfigReads` | clients/networkmanager/vpn_utils.cpp:594-646 | the lines that are printed read back |
| `WireGuardRoundTrip.InterfaceReads` | clients/networkmanager/vpn_utils.cpp:594-646 | the interface section reads back |
| `WireGuardRoundTrip.PeerReads` | clients/networkmanager/vpn_utils.cpp:620-646 | a peer's section reads back |
| `WireGuardRoundTrip.DnsWordsAre` | clients/networkmanager/vpn_utils.cpp:597-618 | servers and search domains as they are printed |
| `WireGuardRoundTrip.DnsAgain` | clients/networkmanager/vpn_utils.cpp:210-221 | printing the servers and domains that were read gives the same words |
| `WireGuardRoundTrip.NetworksRead` | clients/networkmanager/vpn_utils.cpp:189-207 | printed addresses read back in their families |
| `VpnSchema.Apply` | clients/networkmanager/vpn_schema.cpp:734-829 | accepted exactly when all shown fields are acceptable; the data is then as written field by field; each shown password is gone where its flags say so, or is the one that was typed, and every other secret stays |
| `VpnSchema.OffTexts` | clients/networkmanager/vpn_schema.cpp:586-590 | off is nothing, a zero, or the word false in any letters |
| `VpnSchema.ShownWhile` | clients/networkmanager/vpn_schema.cpp:601-632 | a field is shown always, or while the field its condition names has one of the values between the bars |
| `VpnSchema.SwitchWritten` | clients/networkmanager/vpn_schema.cpp:753-770 | what a switch that is on or off writes, the keys that it also sets included |
| `VpnSchema.TextWritten` | clients/networkmanager/vpn_schema.cpp:771-826 | what a choice, among keys or not, a number and a text write |
| `VpnSchema.PasswordWritten` | clients/networkmanager/vpn_schema.cpp:784-792 | the flags of a password, chosen or not, and the older key beside them |
| `VpnSchema.FlagsMean` | clients/networkmanager/vpn_schema.cpp:592-599 | which bits of the flags refuse a password, and what the older key says of them |
| `VpnSchema.NumbersAccepted` | clients/networkmanager/vpn_schema.cpp:799-812 | an optional sign and digits are accepted exactly within 32 bits and the field's bounds |
| `VpnSchema.OthersRefused` | clients/networkmanager/vpn_schema.cpp:799-821 | anything else that is asked for as a number, or nothing at all where something is required, is refused |
| `VpnSchema.FieldReadsBack` | clients/networkmanager/vpn_schema.cpp:661-829 | a field reads back as written exactly when it fits |
| `VpnSchema.AllowedIsLost` | clients/networkmanager/vpn_schema.cpp:355-358 | PAP or CHAP of SSTP, refused by default, reads back as refused after the user allowed it |
| `VpnSchema.ChoiceReadsBack` | clients/networkmanager/vpn_schema.cpp:661-829 | a choice reads back exactly when an exclusive one is among its keys |
| `VpnSchema.FieldLeavesRest` | clients/networkmanager/vpn_schema.cpp:734-829 | a field writes only keys it owns, a choice where it fits |
| `VpnSchema.OthersStay` | clients/networkmanager/vpn_schema.cpp:734-829 | keys that no shown field owns stay |
| `VpnSchema.FormReadsBack` | clients/networkmanager/vpn_schema.cpp:661-829 | written all together, each shown field reads back exactly when it fits, whatever the others are, and each hidden one stays |
| `Md5.ListedByFormula` | files/thumbnails/md5_p.cpp:35-71 | the word of each step is the one the four rounds of section 3.4 of RFC 1321 list |
| `Md5.StepMoves` | files/thumbnails/md5_p.cpp:35-71 | one turn of the four variables is one operation of the round |
| `Md5.Compress` | files/thumbnails/md5_p.cpp:35-71 | the loop does what the rounds do |
| `Md5.TailIsPadding` | files/thumbnails/md5_p.cpp:81-88 | the tail buffer is the padding of sections 3.1 and 3.2 |
| `Md5.FillTail` | files/thumbnails/md5_p.cpp:81-88 | rest, mark, zeros and length fill one block or two |
| `Md5.FoldBlocks` | files/thumbnails/md5_p.cpp:75-79 | the whole blocks are folded in order |
| `Md5.FoldTail` | files/thumbnails/md5_p.cpp:90-92 | the tail is folded as its one block or two |
| `Md5.LowByteFirst` | files/thumbnails/md5_p.cpp:97-103 | a word is printed as its bytes are in the text, the low one first |
| `Md5.FoldedTwo` | files/thumbnails/md5_p.cpp:73-92 | folding block by block is folding the whole |
| `Md5.Md5Hex` | files/thumbnails/md5_p.cpp:73-106 | the digest of the padded text, without a padded copy |

## Left out

Deliberately narrower than the code, by member:

- OutputDraft.OutputModel.Placements: takes a scale of at least 1/120 for every display of a touched draft; the code divides by the scale.
- DisplayLayout.EveryDisplayIsAttached: asks for room in an int, and what wraps or overflows without it is not modelled; nor is the product of a mode's length and 120, which the code forms before it divides.
- DisplayLayout.EveryDisplayIsNearest: is about unbounded integers; EverySearchFits gives the case in which the code computes the same.
- OutputDraft.MirroringIsSafe: does not exclude a chosen source that mirrors a third display; the code does not either.
- RowSync.SynchronizedLists: listings that name a URL twice are compared as sets of URLs; only duplicate-free ones as permutations.
- FileCopy.RegularFileCopy.Copy: the source does not change during the copy, and interruptions are finite in number; cloning all extents gives the output at once and needs no writeback, and permissions and times are not modelled.
- FileTree.MergeStaged: a file or link is one leaf, and folders are values, so hard links and other processes are not seen; the directories' permissions are not modelled.
- FileMove.Transfer.Move: sees the two folders of source and target, which no other process changes and which lie in no item that is moved; the renaming of a name to a new case is not modelled, a transfer object makes one move or one copy, and the handler for conflicts never answers with Ask.
- FileMove.Transfer.Stage: the copy is one step of unknown intermediate contents; how a regular file is copied is the subject of FileCopy.
- HelperPool.Helpers.Drain: work is a number; what it does while it runs is BlockSharing's subject, and exceptions that leave the work are not modelled.
- DisplayProtocol.DisplayClient.SendRequest: a reply comes as a later step; calls that are answered while they are sent, and listeners that call back at once, are not modelled.
- Discovery.Manager.Reply: replies come as later steps, also those of calls that fail at once.
- VolumeChains.VolumeManager.ListingReply: the volumes of a listing are given; how they are made from UDisks' objects is not modelled.
- VolumeChains.VolumeManager.Reply: the error text that tells a wrong passphrase is a flag.
- TaskHistory.TaskController.Record: one task ends before the next starts.
- TaskHistory.UndoRestores: for moves that replaced or merged nothing, to places that are free; the completed sources of a cancelled run are the first of the request.
- WireGuardRoundTrip.PrintReadPrint: the conversion of IPv6 addresses is any pair of functions that undo one another and whose text has colons and no separator; names of profiles and interfaces, and the texts and line numbers of errors, are not modelled, and a NUL character does not end a number.
- TrashFolder.Trash.TrashFrom: percent coding is any pair of functions that undo one another and give a word; what the file system tells of the source (its resolved folder, mount points and devices) is given and does not change meanwhile, and the lock is held throughout.
- TrashFolder.Trash.Restore: the folder it goes back to is given as it is once made; that it may lie outside of the volume by a link is a failure that can come at any time.
- VpnSchema.Apply: which fields there are is given; their owned keys do not overlap, and a choice among keys is taken from its own choices.
- Md5.Md5Hex: the texts are lists of bytes; the 64-bit length wraps as in section 3.2 of RFC 1321.
- Ipv4.NetmaskRoundTrip: of the two forms of a prefix, only the dotted netmask; plain lengths are read by the C library.

Not modelled:

- Creating links, deleting, making folders, scanning sizes and searching folders.
- The trash's directorysizes cache, its lock, the table of mount points, deletion dates and the size limit of info files.
- Pairing prompts, the Bluetooth agent, media commands and device information.
- The IP settings form, Wi-Fi security types, SSIDs in other character sets, and editing a WireGuard profile in its form.
- The offsets and string table of the MIME cache file; trees and rules are values with the order that the file keeps.
- The lister's refresh, watching folders, and comparing the previous items of a folder.
- Texts for users, icons, sorting by language, timers' durations and permissions asked of the user.
- Caches of properties such as power, sound, accounts and appearance, whose rules are one assignment each.
