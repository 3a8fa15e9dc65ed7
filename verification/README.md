# Verified model of the game portal's encoder, file transactions and tables

This project models, in Dafny, the parts of the portal where a small slip loses data or produces something unreadable,
and proves what they promise.

* **QR encoder.** The field GF(256) and its tables, Reed-Solomon and BCH codes, the bit buffer, block interleaving, the
  template, the zigzag, masks and the choice of a mask. Arrays and loops are proved against polynomials and closed forms;
  a reader written independently gets every payload of at most 213 bytes back from the picture. The template is this
  encoder's own: it reserves two modules more than the standard (version 1 is two bits short, `Capacity.RoomForCodewords`)
  and skips alignment centres on the timing lines.
* **File transactions.** Importing a package, deleting a game and installing an uploaded cover. The asset directory is a map
  from paths to trees, the database a few tables, and every step is atomic (`Storage`). A `Machine` takes steps until its
  fuse burns out, so one method models a run that completes, fails or dies at any step; each method is proved to leave the
  world its specification gives for every fuse. Where a failed request undoes itself, a second fuse says how many steps of
  the undo are possible.
* **Encrypted packages.** The framing of an ideal authenticated cipher, its header, and the size bound in 64-bit arithmetic.
* **Matchmaking tickets and public user numbers.** Transactions over tables, with the invariants every run keeps.
* **AVIF boxes and the rate limiter.**

## Findings

Places where the code does less than its comments say; each is stated exactly.

* Undoing an import is not safe to interrupt. Once an old tree has left the stage for its place, the next recovery takes it
  for the new tree and deletes it (`GameImports.InterruptedRecoveryLosesCover`); recovery is right if and only if that has
  not happened (`GameImports.RecoverAgain`). The comment at `apps/api/internal/data/game_import.go:219-220` calls recovery
  safe on every startup.
* A deletion that dies after creating its stage and before its manifest is in place has moved nothing, but recovery reports
  an error for that stage each time, and the server does not start (`GameDeletions.DeletionSurvives`,
  `apps/api/cmd/server/main.go:45-48`).
* Undoing a cover upload does not ask whether some game shows the file. If the undo of a failed upload deletes the file and
  then cannot drop the stage, and the same image is uploaded again with success, the next start deletes the cover the game
  shows (`CoverRetries.RetryLosesCover`, `CoverRetries.RetryHappens`). Over two uploads an undo that is cut short and the
  same image again is the only way (`CoverRetries.RetryLosesExactly`); in general a recovery takes a shown file if and only
  if a stage that was never committed says it brought the file (`CoverRecovery.RecoveriesLoseExactly`,
  `CoverUploads.UploadLosesExactly`).
* Deleting a game compares paths for equality. That covers every overlap but one: a cover file of another game below the
  name of a cover file (`AssetOwnership.DeletionSparesOthers`, `AssetOwnership.FileBelowFileHappens`). The exception loses
  nothing: staging refuses a directory where the row says file, and below a file there is nothing
  (`GameRemoval.OthersAreSpared`).
* Deleting a game does not look for covers inside bundles. A cover URL may name a file in the bundle of another game, from
  where it is served; deleting that game takes it (`AssetOwnership.CoverInBundleHappens`). Only URLs that lead outside the
  directories of their kind can lose their file like this (`AssetOwnership.DeletionSparesServed`, `GameRemoval.ServedIsSpared`).
* A ticket that expires when it is read is shown with the time of its last change before that
  (`Matchmaking.TicketTable.MatchTicketById`).
* The queue position of a waiting ticket is always one (`Matchmaking.WaitingIsFirst`).

## Layout

| files | contents |
|---|---|
| `bitwise`, `binary_polynomials`, `bch`, `bch_distance` | numbers as bit strings and as polynomials over GF(2), BCH codes and their distance |
| `octets`, `gf256`, `reed_solomon`, `reed_solomon_distance`, `reed_solomon_encoder` | the field, the code and the encoder's loops |
| `bit_stream`, `payload`, `interleaving`, `capacity` | from bytes to codewords |
| `template`, `placement`, `masking`, `symbol`, `qr_code` | from codewords to the picture and back |
| `standard_symbols` | the pieces of a symbol as the standard draws and lists them |
| `wrappers`, `text` | options and results; white space, path segments, the order of strings and pattern matching |
| `storage` | paths, trees, rows, atomic steps and the machine |
| `import_swaps`, `import_recovery`, `game_imports`, `import_stages`, `import_sparing` | imports |
| `asset_ownership`, `deletion_items`, `deletion_labels`, `game_deletions`, `deletion_stages`, `game_removal` | deletions |
| `game_covers`, `cover_recovery`, `cover_uploads`, `cover_retries`, `cover_stages` | uploaded covers |
| `recovery_bounds` | what the recoveries can touch on any disk |
| `machine_integers`, `big_endian`, `encrypted_packages` | encrypted packages |
| `matchmaking`, `user_numbers`, `image_boxes`, `rate_limiter` | tables, image sizes, limits |

## Model

| member | source | states |
|---|---|---|
| `GF256.Tables.constructor` | apps/web/src/lib/qrcode.ts:48-63 | fills the power and logarithm tables: entry i of the powers is alpha^i, with the second half repeating the first, and the logarithm of alpha^i is i |
| `GF256.Tables.Multiply` | apps/web/src/lib/qrcode.ts:65-68 | multiplication through the tables is multiplication in the field, zero included |
| `GF256.MulIsRemainder` | apps/web/src/lib/qrcode.ts:51-68 | that multiplication is the carry-less product reduced modulo 0x11d |
| `GF256.MulAssoc` | apps/web/src/lib/qrcode.ts:65-68 | field multiplication is associative |
| `GF256.NoZeroDivisors` | apps/web/src/lib/qrcode.ts:65-68 | a product of nonzero elements is nonzero |
| `GF256.PowerCycle` | apps/web/src/lib/qrcode.ts:51-63 | alpha^255 is one, so repeating the power table is right |
| `GF256.NoShortPeriod` | apps/web/src/lib/qrcode.ts:51-63 | no smaller power of alpha is one |
| `GF256.PowerInjective` | apps/web/src/lib/qrcode.ts:51-63 | the 255 powers are distinct, so every logarithm is written once |
| `GF256.Primitive` | apps/web/src/lib/qrcode.ts:51-63 | every nonzero element is a power of alpha, so every logarithm is written |
| `ReedSolomonEncoder.GeneratorPolynomial` | apps/web/src/lib/qrcode.ts:71-83 | the loops compute the product of the factors x + alpha^i |
| `ReedSolomon.GeneratorRoots` | apps/web/src/lib/qrcode.ts:71-83 | the generator of degree n vanishes at alpha^0 to alpha^(n-1) |
| `ReedSolomonEncoder.ErrorCorrection` | apps/web/src/lib/qrcode.ts:86-101 | the shift register ends in the check symbols of the block, and a check length of zero fails exactly if there is data |
| `ReedSolomon.EvalCheck` | apps/web/src/lib/qrcode.ts:86-101 | at a root of the generator the check symbols have the value of data(x) times x^n: the shift register is polynomial division |
| `ReedSolomon.CheckMakesCodeword` | apps/web/src/lib/qrcode.ts:86-101 | data followed by its check symbols vanishes at alpha^0 to alpha^(n-1), for every block and every check length |
| `ReedSolomonDistance.TermsVanish` | apps/web/src/lib/qrcode.ts:86-101 | n consecutive vanishing syndromes of at most n terms with distinct degrees force all coefficients to zero (the Vandermonde argument) |
| `ReedSolomonDistance.MinimumDistance` | apps/web/src/lib/qrcode.ts:86-101 | two codewords of at most 255 symbols that differ in at most n places are equal |
| `ReedSolomonDistance.UniqueCorrection` | apps/web/src/lib/qrcode.ts:86-101 | a received word is within half the check length of at most one codeword |
| `ReedSolomonDistance.CheckIsUnique` | apps/web/src/lib/qrcode.ts:86-101 | only the computed check symbols complete the data to a codeword |
| `Bch.MeasureBits` | apps/web/src/lib/qrcode.ts:113-117 | the shifting loop ends below 2^31 and counts the bits |
| `Bch.Bch` | apps/web/src/lib/qrcode.ts:105-111 | the loop ends, never leaves 31 bits, and returns the remainder of the division by the generator |
| `BinaryPolynomials.RemainderUnique` | apps/web/src/lib/qrcode.ts:105-111 | a value has only one remainder shorter than the generator |
| `BinaryPolynomials.CodewordIsMultiple` | apps/web/src/lib/qrcode.ts:105-111 | value plus remainder is a multiple of the generator over GF(2) |
| `Bch.FormatWordCarriesMask` | apps/web/src/lib/qrcode.ts:119-123 | all 32 format words are codewords that carry level and mask in their top bits |
| `Bch.VersionBitsCarryVersion` | apps/web/src/lib/qrcode.ts:126-128 | version information is a multiple of its generator and carries the version |
| `BchDistance.FormatDistance` | apps/web/src/lib/qrcode.ts:119-123 | any two of the 32 format words differ in at least 7 of their 15 bits |
| `BchDistance.FormatCorrects` | apps/web/src/lib/qrcode.ts:119-123 | a format word of which at most three bits are misread still tells level and mask |
| `BchDistance.VersionDistance` | apps/web/src/lib/qrcode.ts:125-128 | any two version words differ in at least 8 of their 18 bits |
| `BchDistance.FormatIsStandard` | apps/web/src/lib/qrcode.ts:119-123 | the eight words of level M are those that table C.1 of ISO/IEC 18004 lists, bit by bit |
| `BchDistance.VersionIsStandard` | apps/web/src/lib/qrcode.ts:125-128 | the words of versions 7 to 10 are those of its table D.1 |
| `BitBuffers.BitBuffer.Push` | apps/web/src/lib/qrcode.ts:135-139 | appends the binary digits of a value, most significant first |
| `BitBuffers.BitBuffer.ToCodewords` | apps/web/src/lib/qrcode.ts:146-168 | fails exactly if there are too many bits, and otherwise returns terminator, padding and pad codewords |
| `BitStream.CodewordsCarryBits` | apps/web/src/lib/qrcode.ts:146-168 | the codewords start with the bits that were pushed |
| `BitStream.FromToBits` | apps/web/src/lib/qrcode.ts:135-139 | a value can be read back from its digits |
| `Payload.ParseRoundTrip` | apps/web/src/lib/qrcode.ts:417-423 | mode, count and bytes can be parsed back from the message, whatever follows it |
| `Interleaving.PushColumns` | apps/web/src/lib/qrcode.ts:440-447 | the nested loops append the columns of the blocks |
| `Interleaving.DeinterleaveAll` | apps/web/src/lib/qrcode.ts:440-447 | blocks of different lengths can be recovered from their columns |
| `Interleaving.FlattenSplit` | apps/web/src/lib/qrcode.ts:427-437 | cutting into blocks loses nothing |
| `Interleaving.ColumnsSizeTotal` | apps/web/src/lib/qrcode.ts:440-447 | the columns are as long as the blocks together |
| `QrCode.CutBlocks` | apps/web/src/lib/qrcode.ts:427-437 | the loops cut the data blocks and compute the check block of each |
| `QrCode.BlocksAreCodewords` | apps/web/src/lib/qrcode.ts:427-437 | every data block with its check block is a codeword |
| `Template.FinderPattern` | apps/web/src/lib/qrcode.ts:207-219 | draws a finder pattern with its separator, clipped at the edges, and nothing else |
| `Template.AlignmentPatterns` | apps/web/src/lib/qrcode.ts:229-242 | draws an alignment pattern around exactly the centres that were free, timing lines included |
| `Template.ReserveFormatAreas` | apps/web/src/lib/qrcode.ts:245-254 | reserves row 8 and column 8 up to nine modules from each end, where the matrix was free |
| `Template.PlaceVersionInfo` | apps/web/src/lib/qrcode.ts:256-267 | writes both copies of the version information, from version 7 on |
| `Template.BuildTemplate` | apps/web/src/lib/qrcode.ts:450-458 | the drawing passes together give the closed form of the template at every module |
| `Placement.ZigzagVisits` | apps/web/src/lib/qrcode.ts:270-291 | the zigzag of every version visits every module outside column 6 exactly once |
| `Placement.PlaceData` | apps/web/src/lib/qrcode.ts:270-291 | bit k goes to the k-th free module of the zigzag, zeros after the last bit, and no function module changes |
| `Masking.ApplyMask` | apps/web/src/lib/qrcode.ts:304-312 | flips exactly the free modules the mask selects |
| `Masking.MaskInvolution` | apps/web/src/lib/qrcode.ts:304-312 | masking twice changes nothing and masking keeps function modules |
| `Masking.PlaceFormatBits` | apps/web/src/lib/qrcode.ts:314-331 | writes both copies of the format information and the dark module and nothing else |
| `Masking.FormatBitsReserved` | apps/web/src/lib/qrcode.ts:245-254 | the format information goes to reserved modules only |
| `Capacity.FreeCount` | apps/web/src/lib/qrcode.ts:245-291 | the exact number of free modules of each version |
| `Capacity.RoomForCodewords` | apps/web/src/lib/qrcode.ts:13-30 | all codewords fit into the free modules, except in version 1, which is two bits short; the data always fits |
| `Symbol.PayloadLimit` | apps/web/src/lib/qrcode.ts:409-415 | some version holds a payload exactly if it has at most 213 bytes |
| `Symbol.FormatReadsBits` | apps/web/src/lib/qrcode.ts:314-331 | both copies of the format information read back as written |
| `Symbol.DataReadsBits` | apps/web/src/lib/qrcode.ts:270-312 | unmasking the free modules gives the placed bits |
| `Symbol.SymbolRoundTrip` | apps/web/src/lib/qrcode.ts:405-483 | any picture that shows the symbol of a payload reads back as the payload |
| `QrCode.FinalCodewordsOf` | apps/web/src/lib/qrcode.ts:417-448 | the method computes the interleaved codewords of a payload |
| `QrCode.DrawCandidate` | apps/web/src/lib/qrcode.ts:462-466 | copying, placing, masking and writing the format give the candidate at every module |
| `QrCode.ChooseMask` | apps/web/src/lib/qrcode.ts:460-472 | the first mask of least penalty, for every penalty function |
| `QrCode.EncodeQR` | apps/web/src/lib/qrcode.ts:405-483 | refuses exactly more than 213 bytes; otherwise draws the smallest version that fits with the first best mask, and reading the picture returns the bytes |
| `QrCode.PictureRoundTrip` | apps/web/src/lib/qrcode.ts:405-483 | every payload that fits reads back from the picture of every mask with every quiet zone |
| `StandardSymbols.DataCodewordsExactly` | apps/web/src/lib/qrcode.ts:417-425 | the data codewords, octet by octet: mode, count and bytes moved on by four bits, then 236 and 17 in turn |
| `StandardSymbols.BlocksAreStandard` | apps/web/src/lib/qrcode.ts:15-30 | blocks and check symbols of each version are those of table 9 of ISO/IEC 18004, and twice the errors it says they correct, with two more in version 1 |
| `StandardSymbols.BlocksAreEven` | apps/web/src/lib/qrcode.ts:15-27 | the data codewords are dealt out as evenly as can be, shorter blocks first |
| `StandardSymbols.PatternPictures` | apps/web/src/lib/qrcode.ts:207-243 | finder and alignment pattern, module by module |
| `StandardSymbols.MaskPictures` | apps/web/src/lib/qrcode.ts:293-302 | each mask repeats a tile, module by module, over the whole symbol |
| `StandardSymbols.VersionReadsBits` | apps/web/src/lib/qrcode.ts:256-268 | from version 7 on both blocks of version information read back as the version word, whatever data and mask |
| `StandardSymbols.QuietZoneIsLight` | apps/web/src/lib/qrcode.ts:474-483 | the picture is the symbol in the middle of a light margin |
| `ImportSwaps.ActivatePrefix` | apps/api/internal/data/game_import.go:404-433 | after every step of activation each swap is waiting, backed up or installed, nothing else has changed, and the flags in memory are the ones recovery would infer |
| `ImportSwaps.RollbackItem` | apps/api/internal/data/game_import.go:439-469 | undoing one swap from any state brings the old tree back, unless backup and new tree have both left the stage |
| `ImportSwaps.RollbackPrefix` | apps/api/internal/data/game_import.go:439-475 | undoing all swaps, cut short or not, leaves only states that can be undone again, and touches nothing else |
| `ImportStages.ImportStage.Activate` | apps/api/internal/data/game_import.go:404-433 | the loop takes the specified steps, stops at the first that fails, and sets the flags of the swaps it has begun |
| `ImportStages.ImportStage.Rollback` | apps/api/internal/data/game_import.go:439-475 | undoes the begun swaps from the last to the first and drops the stage only if nothing failed |
| `ImportStages.LoadImportStage` | apps/api/internal/data/game_import.go:488-535 | a missing manifest and one with a bad token, slug or path are told apart; for a good one the flags are inferred from backup, new tree and target |
| `ImportRecovery.LoadsExactly` | apps/api/internal/data/game_import.go:488-535 | a manifest loads exactly if its slug is a plain name, its token not blank, and it has items whose paths lead straight to targets below the asset root and to places in the stage |
| `ImportStages.PrepareImportStage` | apps/api/internal/data/game_import.go:287-402 | gathers the trees, discards a package without a usable cover or bundle, and puts the manifest in place last |
| `ImportStages.RecoverGameImports` | apps/api/internal/data/game_import.go:227-285 | resolves every directory in turn, goes on after one with a bad manifest, and reports whether all could be resolved |
| `ImportRecovery.RecoverPrefix` | apps/api/internal/data/game_import.go:227-285 | recovery up to any step leaves the stage pending or undone, and in the end an empty workspace |
| `ImportRecovery.Sweep` | apps/api/internal/data/game_import.go:227-285 | directories without a manifest and committed stages are only removed |
| `GameImports.CrashedImport` | apps/api/internal/data/game_import.go:60-217 | a crash at any step followed by a recovery gives exactly the old disk and rows, or exactly the new ones if the receipt was committed, with no workspace left |
| `GameImports.RecoverAgain` | apps/api/internal/data/game_import.go:439-535 | a recovery after interrupted ones gives the old disk if and only if no replaced tree has left the stage already |
| `GameImports.InterruptedRecoveryLosesCover` | apps/api/internal/data/game_import.go:522-532 | for every import that replaces a cover a crash of the import and one of its recovery make the next recovery delete the restored cover |
| `ImportStages.ImportGame` | apps/api/internal/data/game_import.go:87-217 | the import refuses (an existing game, a source outside the workspace, a path another game owns), installs, or undoes itself, and leaves exactly the specified world whichever step fails first, whatever of the undo is possible, and whether or not the outcome of the commit is heard of or can be asked for |
| `ImportStages.ImportThenRecovery` | apps/api/internal/data/game_import.go:87-285 | an import that fails anywhere, with any outcome of its commit and as much of its undo as is possible, is put right by one recovery, unless its own undo was cut short with a tree endangered |
| `ImportSparing.ImportSucceedsExactly` | apps/api/internal/data/game_import.go:72-333 | an uninterrupted import succeeds if and only if it is asked for, its sources come from the workspace, no other game has a row at or below its paths, and cover and bundle are usable; otherwise no receipt is written |
| `ImportSparing.OwnedPathsRefuse` | apps/api/internal/data/game_import.go:101-117 | nothing changes if another game has a row for the cover or bundle path or for one below, whatever the slug |
| `ImportSparing.UnaskedRefuse` | apps/api/internal/data/game_import.go:78-100 | nothing changes if the game exists and is not to be replaced, or a source lies outside the workspace |
| `ImportSparing.OwnedAssetsAreSpared` | apps/api/internal/data/game_import.go:60-285 | wherever an import stops, whatever of its undo is possible and is heard of its commit, and after any recoveries, cut short or not: nothing at or below a path that another game has on record has changed |
| `RecoveryBounds.ImportRecoveryOnlyReverts` | apps/api/internal/data/game_import.go:439-535 | on any disk, resolving one directory touches, up to any step, only that directory and what lies at or below the targets of its uncommitted manifest, and no row |
| `DeletionItems.StagePrefix` | apps/api/internal/data/game_lifecycle.go:620-628 | after every step of staging the first assets are in the trash and the others in place, with their trees |
| `DeletionItems.RestorePrefix` | apps/api/internal/data/game_lifecycle.go:740-772 | on any disk, undoing up to any step never overwrites or drops an asset, and in the end all that could go back have; it reports no error exactly if each was at one place |
| `DeletionLabels.LabelsDiffer` | apps/api/internal/data/game_lifecycle.go:608-611 | assets of one deletion never share a name in the trash |
| `GameDeletions.ValidDistinct` | apps/api/internal/data/game_lifecycle.go:676-729 | the places of a manifest that loads are all different and apart from the stage's own files |
| `GameDeletions.LoadsExactly` | apps/api/internal/data/game_lifecycle.go:676-729 | a manifest loads exactly if it names a game and items, assets by straight paths in the three directories and their places in the files of the stage, no place twice |
| `GameDeletions.RollbackKeepsAssets` | apps/api/internal/data/game_lifecycle.go:740-782 | undoing a stage on any disk keeps every asset, changes nothing else, and removes the stage exactly if no error was found |
| `GameDeletions.CrashedDeletionState` | apps/api/internal/data/game_lifecycle.go:540-630 | where every step of a deletion leaves the world |
| `GameDeletions.RecoveryDecides` | apps/api/internal/data/game_lifecycle.go:136-189 | however many recoveries are cut short, one that completes restores everything if the row exists and removes exactly the assets if not; it fails exactly if the stage never got its manifest |
| `GameDeletions.DeletionSurvives` | apps/api/internal/data/game_lifecycle.go:198-332 | the same after a crash at any step of a deletion, with the two steps that leave a stage without manifest named |
| `GameDeletions.CleanRecoveryEmptiesTrash` | apps/api/internal/data/game_lifecycle.go:159-189 | a recovery that reports no error leaves nothing in the trash |
| `DeletionStages.AssetStage.Rollback` | apps/api/internal/data/game_lifecycle.go:740-782 | the loop restores from the last asset to the first and drops the stage only if nothing was wrong |
| `DeletionStages.RecoverManagedAssets` | apps/api/internal/data/game_lifecycle.go:136-189 | resolves every directory and reports whether all could be |
| `DeletionStages.StageAndDelete` | apps/api/internal/data/game_lifecycle.go:540-630 | refuses an asset that is a file where its row says directory, or the other way round, before anything is moved; otherwise leaves exactly the specified world whichever step fails first and whatever of the undo is possible |
| `DeletionStages.DeletionRunState` | apps/api/internal/data/game_lifecycle.go:198-332 | a deletion that fails before its commit and can finish undoing itself leaves the world as it was |
| `DeletionStages.DeletionSucceedsExactly` | apps/api/internal/data/game_lifecycle.go:198-332 | an uninterrupted deletion succeeds if and only if every asset on disk is a directory or a file as recorded, and then removes exactly the assets and the rows of the game; otherwise nothing changes |
| `RecoveryBounds.DeletionRecoveryOnlyGivesBack` | apps/api/internal/data/game_lifecycle.go:136-189 | on any disk, whatever the manifests say, resolving deletions changes no row and, up to any step, nothing that is there outside the trash; what it adds comes to free places in three directories, by paths that do not climb |
| `AssetOwnership.AssetsToDelete` | apps/api/internal/data/game_lifecycle.go:220-286 | takes exactly the recorded assets that no other game claims, and nothing if a record cannot be read |
| `AssetOwnership.TrackKeepsRows` | apps/api/internal/data/game_lifecycle.go:373-394 | every row that creating, updating or importing writes can be read by deletion |
| `AssetOwnership.UrlOverlap` | apps/api/internal/data/game_lifecycle.go:402-453 | an owned asset and one that any URL names overlap exactly if they are the same or a file lies below a file |
| `AssetOwnership.DeletionSparesOthers` | apps/api/internal/data/game_lifecycle.go:220-286 | no asset a deletion takes equals, contains or lies inside another game's, except exactly a file below a file |
| `AssetOwnership.FileBelowFileHappens` | apps/api/internal/data/game_lifecycle.go:415-430 | two games for which the exception occurs |
| `AssetOwnership.AssetHoldsServed` | apps/api/internal/data/game_lifecycle.go:402-453 | a clean URL names an asset exactly if it leads into the directories of its kind, and the asset is the directory of the game, or else the file, at or above what the URL is served from |
| `AssetOwnership.DeletionSparesServed` | apps/api/internal/data/game_lifecycle.go:220-286 | a deletion takes the file that a URL of another game is served from only if that is a file below a file, or a cover URL leads outside the cover directory, or a launch URL outside the bundle directories |
| `AssetOwnership.CoverInBundleHappens` | apps/api/internal/data/game_lifecycle.go:415-430 | two games for which a cover URL leads into the bundle that is deleted |
| `AssetOwnership.TrackExactly` | apps/api/internal/data/game_lifecycle.go:373-400 | what is put on record for a game is exactly what its two URLs own: the directory of its slug that they are served from, or a cover file named after it; earlier rows stay |
| `AssetOwnership.TrackKeepsNoneTwice` | apps/api/internal/data/game_lifecycle.go:377-386 | no path is put on record twice for a game |
| `AssetOwnership.RecordsExactly` | apps/api/internal/data/game_lifecycle.go:455-478 | the records that can be read are exactly what URLs can name, and the files in a cover directory besides |
| `AssetOwnership.ImportsAreRecorded` | apps/api/internal/httpapi/server.go:829-842 | the URLs an import gives a game are recorded as its cover and bundle directories |
| `GameRemoval.Choose` | apps/api/internal/data/game_lifecycle.go:213-286 | the assets in the order of their names, each once: exactly what the game has on record and no other game claims, with their kinds; nothing if a record cannot be read |
| `GameRemoval.ReadyAfterRecovery` | apps/api/internal/data/game_lifecycle.go:198-213 | after a recovery without an error the chosen assets and the empty trash are what the results about deletions start from |
| `GameRemoval.DeleteGame` | apps/api/internal/data/game_lifecycle.go:198-332 | deletes nothing while an earlier deletion cannot be resolved, the game is missing, a record cannot be read or an asset is of the wrong kind; otherwise the deletion of the chosen assets runs as specified |
| `GameRemoval.OthersAreSpared` | apps/api/internal/data/game_lifecycle.go:198-332 | wherever a deletion crashes or fails, whatever of its undo is possible, and after any number of interrupted recoveries and a complete one: nothing at or below an asset of another game has changed, and what has changed above it was no directory, with nothing at or below the asset |
| `GameRemoval.ServedIsSpared` | apps/api/internal/data/game_lifecycle.go:198-332 | the same for the file another game's URL is served from |
| `GameRemoval.RecordedIsSpared` | apps/api/internal/data/game_lifecycle.go:198-332 | the same for what another game has on record |
| `GameCovers.FinalizeShape` | apps/api/internal/data/game_cover.go:559-621 | finishing a committed stage on honest files never fails and takes at most four steps |
| `GameCovers.DirectoryPlan` | apps/api/internal/data/game_cover.go:233-278 | on honest files resolving a directory deletes at most two files, then the stage and, if it was committed, its receipt; it fails exactly for a bad manifest, or a committed stage whose receipt says otherwise or whose shown file is missing |
| `GameCovers.CoverPathsExactly` | apps/api/internal/data/game_cover.go:735-753 | cover paths are exactly those made of a plain name, a digest of 64 hexadecimal digits and one of four extensions |
| `GameCovers.LoadsExactly` | apps/api/internal/data/game_cover.go:510-557 | a manifest loads exactly if its token is not blank and target and replaced file are different cover paths |
| `RecoveryBounds.CoverRecoveryOnlyDiscards` | apps/api/internal/data/game_cover.go:208-283 | on any disk, whatever the manifests say, resolving uploads changes no row but receipts, which it only drops, and, up to any step, deletes outside the workspace only cover files whose content has the digest in their name |
| `CoverRecovery.RecoverPrefix` | apps/api/internal/data/game_cover.go:208-283 | recovery over any listing, up to any step, takes only files that the listed stages give up, and no stage goes before its files |
| `CoverRecovery.RecoverAll` | apps/api/internal/data/game_cover.go:208-283 | a complete recovery removes exactly the listed directories, the files their stages give up and the receipts of the committed ones |
| `CoverRecovery.AnyOrder` | apps/api/internal/data/game_cover.go:208-283 | the order in which the directories are met makes no difference |
| `CoverRecovery.RecoverySettles` | apps/api/internal/data/game_cover.go:208-283 | however many recoveries are cut short, one that completes takes exactly what the stages gave up at the start, raises no error and leaves no manifest |
| `CoverRecovery.RecoverySparesShown` | apps/api/internal/data/game_cover.go:559-647 | at no step has a recovery taken a file that a game shows, unless a listed stage that was never committed threatens one |
| `CoverRecovery.RecoveryLosesExactly` | apps/api/internal/data/game_cover.go:265-277 | a recovery takes a file that a game shows if and only if a listed stage threatens one: it was never committed, says it brought the file, the file is there and some game shows it |
| `CoverRecovery.RecoveriesLoseExactly` | apps/api/internal/data/game_cover.go:265-277 | the same over any number of interrupted recoveries and a complete one |
| `CoverRecovery.RollbackTakesShownFile` | apps/api/internal/data/game_cover.go:482-508 | undoing a stage takes a shown file if and only if the stage brought a file that is there and shown |
| `CoverUploads.StageFacts` | apps/api/internal/data/game_cover.go:285-305 | an accepted upload has a valid stage, and its commit a receipt for it; the replaced file is shown before the commit and not after it |
| `CoverUploads.ReplacedExactly` | apps/api/internal/data/game_cover.go:285-305 | the replaced file is what the game's URL names by its path and nothing more, if it is a cover, not the new one, and no row of another game names it; the commit changes the row of this game only |
| `CoverUploads.UploadSucceedsExactly` | apps/api/internal/data/game_cover.go:307-422 | an uninterrupted installation succeeds if and only if the target is a cover path and both the uploaded file and one already there have the digest in its name; otherwise nothing changes |
| `CoverUploads.ActivateIs` | apps/api/internal/data/game_cover.go:448-480 | in a prepared stage activation moves the file and its check succeeds |
| `CoverUploads.UploadMovesOn` | apps/api/internal/data/game_cover.go:97-203 | wherever an installation crashes or fails, and whatever of its undo is possible, it has only taken steps that recovery would take from the last step that counts |
| `CoverUploads.CoverSurvives` | apps/api/internal/data/game_cover.go:97-283 | with any leftover stages that recovery can resolve, a crash or failure anywhere, whatever of the undo is possible, any number of interrupted recoveries and a complete one: the old files and rows before the commit; after it the new file in place and the old one gone exactly if no other game shows it; in both cases without the files the leftovers give up |
| `CoverUploads.UploadLosesExactly` | apps/api/internal/data/game_cover.go:97-283 | once an upload is committed, recovery takes a shown file if and only if a stage that was never committed is left over and brought the same file or threatened a shown one already |
| `CoverUploads.FailedUploadIsUndone` | apps/api/internal/data/game_cover.go:179-203 | an installation that fails before its commit and can finish undoing itself leaves rows, files outside the workspace and all other stages as they were |
| `CoverRetries.RetryLosesCover` | apps/api/internal/data/game_cover.go:482-508 | an upload cut right before its commit and its undo cut after one step, the same file uploaded again with success, one recovery: the cover the game shows is gone |
| `CoverRetries.RetryHappens` | apps/api/internal/data/game_cover.go:482-508 | a disk and two uploads for which this happens |
| `CoverRetries.ReadyAgain` | apps/api/internal/data/game_cover.go:97-203 | after a first upload of any outcome a second one with other names starts from where the results about uploads start |
| `CoverRetries.RetryLosesExactly` | apps/api/internal/data/game_cover.go:97-283 | over two uploads of any outcome, the second one committed, with all shown covers there and earlier leftovers committed: recovery takes a shown file if and only if the undo of the first was cut short and both bring the same file |
| `CoverStages.CoverStage.Activate` | apps/api/internal/data/game_cover.go:448-480 | the four cases of staged and installed file, and the check at the end |
| `CoverStages.CoverStage.Rollback` | apps/api/internal/data/game_cover.go:482-508 | removes only a file this stage brought and that has the right content |
| `CoverStages.CoverStage.Finalize` | apps/api/internal/data/game_cover.go:559-621 | checks the receipt, keeps a shown target, deletes what nobody shows, then drops stage and receipt, stopping at the first error |
| `CoverStages.RecoverGameCoverUploads` | apps/api/internal/data/game_cover.go:208-283 | resolves every directory, goes on after one that cannot be resolved, and reports whether all could be |
| `CoverStages.InstallCover` | apps/api/internal/data/game_cover.go:97-203 | leaves exactly the specified world whichever step fails first and whatever of the undo is possible, and succeeds exactly if the commit is reached |
| `EncryptedPackages.NonceBytes` | apps/api/internal/gamepkg/encrypted.go:283-288 | a frame's nonce is the first four bytes of the header's and the frame number in eight, the highest first |
| `EncryptedPackages.AadBytes` | apps/api/internal/gamepkg/encrypted.go:290-295 | the data a frame is bound to is the whole header and the frame number in eight bytes |
| `EncryptedPackages.FramesDiffer` | apps/api/internal/gamepkg/encrypted.go:283-295 | two frames share their associated data if and only if header and number are the same, and their nonce if and only if the first four nonce bytes and the number are |
| `EncryptedPackages.FrameIsBound` | apps/api/internal/gamepkg/encrypted.go:224-281 | a frame opens behind exactly the header and at exactly the place it was sealed for |
| `EncryptedPackages.HeaderIsBound` | packages/game-kit/src/encryption.mjs:58-76 | the frames of a package behind any other header with the same wrapped key fail to authenticate |
| `EncryptedPackages.HeaderLayout` | apps/api/internal/gamepkg/encrypted.go:157-194 | a header is read exactly if its bytes are the magic, version 1, a key length from 1 to 16384, 12, 16, 0x100000, and it is complete; which bytes are key and nonce |
| `EncryptedPackages.DecryptPackageFrames` | apps/api/internal/gamepkg/encrypted.go:224-281 | the loop computes the specification of reading frames, without overflow |
| `EncryptedPackages.ReadsExactly` | apps/api/internal/gamepkg/encrypted.go:224-281 | a plaintext is accepted exactly from its one canonical framing and if it fits; a framing that does not fit is too large |
| `EncryptedPackages.BadLengthIsRefused` | apps/api/internal/gamepkg/encrypted.go:236-239 | a length below 16 or above 0x100010 is refused whatever follows |
| `EncryptedPackages.CutIsTruncated` | apps/api/internal/gamepkg/encrypted.go:224-281 | a framing that breaks off at any byte is refused as truncated |
| `EncryptedPackages.ExtraIsTrailing` | apps/api/internal/gamepkg/encrypted.go:255-262 | a framing with anything after it is refused for its trailing bytes |
| `EncryptedPackages.FramesSuffice` | apps/api/internal/gamepkg/encrypted.go:276-279 | the frame counter never runs out |
| `EncryptedPackages.HeaderExactly` | apps/api/internal/gamepkg/encrypted.go:157-194 | a header is read exactly from its own serialization |
| `EncryptedPackages.BoundIsExact` | apps/api/internal/gamepkg/encrypted.go:323-343 | the size bound is the exact container length, or the largest number where that does not fit; it never wraps |
| `EncryptedPackages.BoundIsMonotone` | apps/api/internal/gamepkg/encrypted.go:323-343 | the bound grows with the limit and the key length |
| `EncryptedPackages.FramingLength` | apps/api/internal/gamepkg/encrypted.go:224-281 | the exact length of a framing |
| `EncryptedPackages.DecryptEncryptedPackage` | apps/api/internal/gamepkg/encrypted.go:87-155 | size checks, header, key and frames in this order |
| `EncryptedPackages.AcceptsExactly` | apps/api/internal/gamepkg/encrypted.go:59-155 | whatever the limits, a file that starts with the magic is opened exactly if it is the package of a plaintext within the archive size, or within 512 MiB unless all limits are positive: the early checks turn none away; any other file is passed on |
| `EncryptedPackages.GuardedExactly` | apps/api/internal/gamepkg/package.go:379-382 | the limits that count: those given if all are positive, and otherwise the default ones |
| `EncryptedPackages.OpenArchive` | apps/api/internal/gamepkg/package.go:379-383 | replaces limits that are not all positive, passes a plain archive on and opens an encrypted one within the archive size |
| `EncryptedPackages.GuardIsNeeded` | apps/api/internal/gamepkg/package.go:380-382 | the guard makes unreachable the one case in which the early check and the frames disagree: an empty package under a limit that is not positive |
| `Matchmaking.TicketTable.CreateMatchTicket` | apps/api/internal/data/game_platform.go:414-482 | refuses disabled, anonymous, malformed and double requests without a change; otherwise the table with the new ticket, alone or matched |
| `Matchmaking.TicketTable.MatchTicketById` | apps/api/internal/data/game_platform.go:484-509 | ends a ticket whose time is over, and shows it with its old time of change; who still waits is first in the queue |
| `Matchmaking.TicketTable.CancelMatchTicket` | apps/api/internal/data/game_platform.go:511-537 | cancels a waiting ticket, once or again, but not a matched one |
| `Matchmaking.TicketExactly` | apps/api/internal/data/game_platform.go:403-435 | which requests get a ticket, and the ticket: waiting, for this player and game, mode and region as asked for without the white space around them or the fallbacks, for 120 seconds |
| `Matchmaking.ExpireExactly` | apps/api/internal/data/game_platform.go:495-501 | a waiting ticket whose time is over becomes expired and nothing else of it changes; any other stays as it is |
| `Matchmaking.ClearedExactly` | apps/api/internal/data/game_platform.go:436-448 | what a new ticket finds: active tickets unchanged, ended ones for a day, but not the player's own for the game |
| `Matchmaking.SecondTicketExactly` | apps/api/internal/data/game_platform.go:449-459 | a second ticket is refused exactly while the player has an active one for the game |
| `Matchmaking.ShrinkKeeps` | apps/api/internal/data/game_platform.go:436-448 | expiring, cancelling and pruning keep the invariant |
| `Matchmaking.CreateKeeps` | apps/api/internal/data/game_platform.go:414-482 | creating a ticket keeps it: one ticket a player and game, one waiting a room, matches on at most two tickets of one room and different players |
| `Matchmaking.OneCandidate` | apps/api/internal/data/game_platform.go:461-467 | there is never a choice of partners, so the order of the query does not matter |
| `Matchmaking.WaitingIsFirst` | apps/api/internal/data/game_platform.go:502-505 | the queue position of a waiting ticket is always one |
| `Matchmaking.EveryRunIsValid` | apps/api/internal/data/game_platform.go:414-537 | every table of every run is valid |
| `UserNumbers.Update` | apps/api/internal/data/store.go:515-520 | a number is only written while no other row holds it |
| `UserNumbers.Scan` | apps/api/internal/data/store.go:472-498 | one pass finds the administrator, the need to renumber and the largest number |
| `UserNumbers.Rebuild` | apps/api/internal/data/store.go:504-525 | renumbers everybody from one through an unused range, without overflow |
| `UserNumbers.BackfillUserNumbers` | apps/api/internal/data/store.go:449-540 | fails exactly without an administrator or out of range; otherwise renumbers or fills in |
| `UserNumbers.RepairIsGood` | apps/api/internal/data/store.go:449-540 | afterwards all numbers are positive and distinct, the administrator is number one, and unless all were renumbered nobody lost a number |
| `UserNumbers.GoodIsKept` | apps/api/internal/data/store.go:445-448 | good numbers are left as they are |
| `UserNumbers.RebuildExactly` | apps/api/internal/data/store.go:472-498 | everybody is renumbered exactly if the numbers that are there are not positive, distinct and one for the administrator; missing ones are no reason |
| `UserNumbers.SoundIsKept` | apps/api/internal/data/store.go:526-538 | otherwise all numbers are kept, and who has none gets one above them, in the order of the rows |
| `UserNumbers.FirstRestart` | apps/api/internal/data/store.go:545-562 | after the first restart the next number lies above all numbers |
| `UserNumbers.RunSettled` | apps/api/internal/data/store.go:545-562 | in every run the next number stays above every number ever issued |
| `UserNumbers.NeverIssuedTwice` | apps/api/internal/data/store.go:881-911 | no number is issued twice, however users come and go and the server restarts |
| `UserNumbers.UserTable.Restart` | apps/api/internal/data/store.go:365-375 | repairs numbers and sequence, or changes nothing |
| `UserNumbers.UserTable.CreateUser` | apps/api/internal/data/store.go:881-911 | takes the next number, which no row has and which was never issued |
| `Text.CleanExactly` | apps/api/internal/data/game_lifecycle.go:731-738 | the paths accepted from a manifest are those that lead, from anywhere, straight down to the place they name |
| `Text.BundleNamesExactly` | apps/api/internal/data/game_lifecycle.go:500-518 | a plain name consists of listed characters and is neither empty nor one or two dots |
| `Text.TrimExactly` | apps/api/internal/data/game_platform.go:403-412 | trimming takes away all white space around a string and nothing else |
| `Text.BlankCharacters` | apps/api/internal/data/game_platform.go:404 | white space is 25 characters |
| `Text.ByteLengthExactly` | apps/api/internal/data/game_platform.go:408 | the length counts bytes of UTF-8: one for every character, and one more from each of the codes 0x80, 0x800 and 0x10000 on |
| `Text.LowerExactly` | apps/api/internal/data/game_import.go:107-111 | the database compares the 26 letters without regard to case, and no others |
| `Text.AtMostExactly` | apps/api/internal/data/game_lifecycle.go:562 | the order of the assets compares strings at their first difference |
| `ImageBoxes.FindAvifDimensions` | apps/api/internal/httpapi/game_cover.go:354-391 | the recursive walk computes its specification with every slice in bounds and ends on any bytes |
| `ImageBoxes.FindsFirst` | apps/api/internal/httpapi/game_cover.go:354-410 | on the bytes of every well-formed box forest, however deep and in all three size forms, it returns the first image size in pre-order among those at most eight levels down |
| `ImageBoxes.AvifFile` | apps/api/internal/httpapi/game_cover.go:326-352 | the same for a file that starts with a file-type box that names the brand first or after the version, and nothing for one that does not |
| `ImageBoxes.OnlyAvif` | apps/api/internal/httpapi/game_cover.go:326-352 | no other file is measured, whatever its bytes |
| `ImageBoxes.StillPictureIsMeasured` | apps/api/internal/httpapi/game_cover.go:326-391 | every size that fits its fields is read back from the file of a still picture |
| `ImageBoxes.DimensionsBoundProduct` | apps/api/internal/httpapi/game_cover.go:260-265 | the limit by division is the limit on the product |
| `RateLimiter.WindowLimiter.Allow` | apps/api/internal/httpapi/server.go:1776-1794 | the new windows, the answer and the waiting time, with cleanup when it is due |
| `RateLimiter.CleanupIsInvisible` | apps/api/internal/httpapi/server.go:1779-1786 | for calls in order of time the answers are those of a limiter that never forgets |
| `RateLimiter.WindowDecides` | apps/api/internal/httpapi/server.go:1787-1793 | a call falls into the window that some call with its key opened and that lasts from then on; it is allowed exactly if the calls of the window up to it, with those refused, are within the limit |
| `RateLimiter.AllowedAgain` | apps/api/internal/httpapi/server.go:1787-1793 | a call that comes when the last window is over is allowed, whatever was refused before |
| `RateLimiter.LessThanTwiceTheLimit` | apps/api/internal/httpapi/server.go:1787-1793 | any stretch of time as long as a window sees at most twice the limit less one for a key |
| `RateLimiter.MostIsReached` | apps/api/internal/httpapi/server.go:1787-1793 | calls that reach this bound, for every limit and every window of at least two units |

## Left out

- QrCode.EncodeQR: the penalty score is a parameter, so which mask wins is stated for every score, not for the rules of the source; the text is given as its UTF-8 bytes.
- Symbol.SymbolRoundTrip: reads with this encoder's own template and does not claim that the template is the standard's.
- GameImports.CrashedImport: starts without leftover stages and ends with one uninterrupted recovery; interrupted ones are covered by the condition of GameImports.RecoverAgain.
- ImportStages.ImportGame: removing the stage after the commit may be cut short but is not followed by another import of the same slug, which would overwrite the receipt.
- ImportStages.LoadImportStage: a manifest of another version, or one that cannot be parsed, is some other entry at its place; back slashes in paths are not modelled.
- ImportStages.RecoverGameImports: steps succeed until one fails, and after it none does until the next request, undo or start; one failing step followed by successful ones inside the same undo or recovery is not modelled, here and in the recoveries of deletions and covers.
- ImportSparing.ImportSucceedsExactly: for slugs of small letters, digits and dashes, which is what a package manifest may have (`apps/api/internal/gamepkg/package.go:35`); with others the pattern of the query has wildcards, and OwnedPathsRefuse still holds.
- RecoveryBounds.ImportRecoveryOnlyReverts: about one directory at a time, since on an arbitrary disk undoing one manifest may move another.
- GameDeletions.DeletionSurvives: starts with an empty trash, which is what the recovery at the beginning of every deletion leaves when it reports no error (GameDeletions.CleanRecoveryEmptiesTrash).
- CoverUploads.CoverSurvives: files at cover paths have the content their names say, and leftover stages have different tokens and can be resolved whichever comes first; after the commit none of them clashes with the upload (CoverUploads.UploadLosesExactly says what a clash does).
- CoverRecovery.RecoverySettles: the same about files and leftover stages.
- GameRemoval.OthersAreSpared: a directory asset is one entry that holds its tree; a cover directory whose files are listed one by one, as the cover results list them, does not move as a whole.
- AssetOwnership.AssetsToDelete: URLs are given by the segments of their decoded paths.
- EncryptedPackages.AcceptsExactly: the cipher is ideal and unwrapping a key is a function; RSA, PEM parsing and the temporary file are not modelled.
- EncryptedPackages.HeaderIsBound: takes seals under different nonce or data to differ, beyond what AcceptsExactly takes of the cipher.
- Matchmaking.TicketTable.CreateMatchTicket: identities are fresh parameters, and the housekeeping statements do not fail.
- UserNumbers.UserTable.CreateUser: only the number is modelled, not the other columns; the administrator's row is never removed.
- RateLimiter.WindowLimiter.Allow: the count does not wrap and times are plain integers.
- In imports and deletions a directory is one entry that holds its tree; creating directories, permissions, symbolic links and removing empty directories are not modelled. Removing a directory is one step.
- A failing SQL statement is a step that fails; locking is not modelled, since all operations hold one lock.
- The shape of an imported package beyond its cover and bundle, and the game's other columns.
- Reclaiming a cover after a plain update of a game (`apps/api/internal/data/game_cover.go:156-177`): one conditional removal, easier than the stages.
- The WebP walker, header sniffing and image decoding: the box walker is the harder one of the same kind.
- The login limiter, whose cleanup is visible when a window ends at the moment of a call.
- Rendering a picture as an SVG path, HTTP handlers, pages, archives, synchronisation and tokens.
