# Farewell vault: a verified model

Farewell keeps files in an encrypted vault: a fixed array of 64 KiB chunks, one of which
holds the manifest, behind a key slot that a passphrase and optional hardware keys unlock.
This project models that vault in Dafny and proves that it behaves like a plain map from
names to bytes, through any sequence of operations, I/O failures and crashes.

`dafny verify dfyconfig.toml` checks everything.

## What is modelled

| part | files |
|---|---|
| bytes, text, ideal cryptography | `Bytes`, `Texts`, `Wrappers`, `Octets`, `Chunks` |
| manifest: value, codec laws, in-place serializer and cursor parser | `Manifests`, `Codecs`, `ManifestCodec`, `ManifestIO` |
| disk, chunk accounting, splicing | `Store`, `Space`, `Splices` |
| what each operation promises | `VaultSpec`, `RenameSpec`, `WriteSpec`, `TruncateSpec`, `ReadSpec`, `Erasure`, `Orders`, `Paths`, `Folders`, `FolderSpec`, `MigrationSpec` |
| when it is accepted, told without its checks | `Acceptance` |
| the vault as a class, whole runs, migration | `Vaults`, `Runs`, `Migration` |
| key slot: layout, in-place editing, state machine | `Labels`, `SlotSpec`, `Slots`, `KeySlots` |
| slot, manifest and files together, from creation to reopening | `Lifecycle` |
| license key, framing, payload; word choice | `Base32`, `LicenseErrors`, `LicenseKeys`, `LicensePayloads`, `Sampling` |
| the formats byte by byte | `Vectors` |

**The vault.** `Vaults.Vault` has the fields of the original (disk, live manifest, poison flag)
and five ghost fields: `files`, the contents known to be good; `images`, the disk after
every completed chunk write, which is what a crash can leave; `ticks`, the counter without
its 64-bit wrap-around; and `successor` and `arrived`, the manifest and contents that the
mutation which poisoned the session was about to publish. `Valid` says that chunk lists are duplicate-free, disjoint,
in range and off the manifest chunk, that every piece of every good file decrypts to its
bytes, and that the manifest chunk decodes to the live manifest unless the session is
poisoned; of a poisoned session it says that the chunk decodes to the old or to the coming
manifest or is garbage. A name missing from `files` is one that an I/O failure may have damaged.

**Failures and crashes.** Any read, write, sync or random draw may fail (`Io`), but only during a
call whose parameter `faulty` is true: every method ensures that without it the answer is not
`Io`, and "without I/O failures" means that no call of a run is faulty. A failed write may leave
the old cell, the new cell or garbage. Crash images take completed chunk writes as atomic and
in order.

**Secure deletion.** A chunk that a mutation gives up is overwritten with noise. Every successful
mutation ensures `Scrubbed`: what is free and not noise afterwards was so before.
`OnlyCurrentFiles` draws the conclusion for whole runs.

**Cryptography is ideal.** `Octets` makes bytes symbolic: a ciphertext byte remembers key,
nonce, associated data and text, so decryption succeeds exactly on an unmodified ciphertext
under the same three, a derived key determines its inputs, and a byte from the random source
is neither. Chunks are sealed the same way. An authenticator is a map from credentials to
secrets. Derived bytes have no numeric value; the number that places the manifest chunk is read from
a derived key by a parameter, `numeral`.

**Text** is UTF-8 bytes with its well-formedness as a type invariant, because paths and
labels are cut at byte positions.

## Where code and comments disagree

The model follows the code.

- `add_file` over an existing name overwrites the old chunks before the destructive phase,
  so an I/O failure there can lose the old content without poisoning the session: the first
  of two exceptions to the rule that an unpoisoned failure changes nothing. It can happen to
  every file that has chunks (`OverwriteLoses`) and to no other (`OverwriteSpares`).
- `write_file_range` moves every chunk from the first dirty one to the end of the file,
  not only the overlapping ones (`WroteFresh`).
- A growing truncate commits window by window, so one that fails after its first window has
  grown the file part of the way: the second exception (`FailuresAlone`). Its pre-flight
  check does not count the chunk a window re-encrypts when the old size is not on a chunk
  boundary; `GrowFits` and `TruncateLeavesPart` are the exact conditions and
  `PartlyGrownExample` an instance.
- A file of S bytes is said to fit if and only if S is at most the free bytes; an empty file
  added to a full vault is refused, so the exact bound is max(S, 1) (`NewFileFitsExactly`).
- `add_file` gives an empty file one chunk, `create_file` none (`Shaped`).
- The child-slot count is cut to one byte, and an empty owner reads back as none
  (`RoundTripIff`, `ChildSlotsExample`). Reading checks only the lengths of names and folders, so what was read
  can be refused when written again (`RewritableIff`).
- `delete_folder` and `rename_folder` compare names by prefix, so a name with untidy slashes can
  keep the folder reported (`UntidyNameKeepsFolder`, `UntidyNameStays`); `DeletionRemovesIff` and
  `NewPathIsReportedIff` say exactly when.
- Migration makes the folder closure explicit, so the destination manifest can outgrow its
  chunk although the source's did not (`DeepNamesOutgrow`); `PlannedLen` is the length that
  decides it (`MigrateVault`). `Exact(1)` on an empty source reports one chunk where the
  builder made two (`Migrated`).
- `wrap_pem` cuts bytes, on the ground that tokens are ASCII; on others it panics exactly when
  a cut falls inside a character (`FramedIff`, `SplitCharExample`).
- Two hardware keys may be enrolled with one credential; removing one of them then revokes
  nothing (`RevokedIff`, `SharedCredExample`).
- A credential of length zero can be pushed into an enrolment; the slot then wraps but its
  enrolment cannot be read, so it can be neither unlocked with a key nor edited
  (`EmptyCredExample`, `UnreadableIff`).
- THREAT_MODEL.md:150 says that the hardware key takes part in the derivation and is not just a
  software gate. That is so for a slot created or re-enrolled with a key. A key added to a slot
  that had none wraps the wrapping key the passphrase alone derives (slot.rs:603-604), so the
  passphrase alone still opens the master wrap until the slot is re-enrolled (`UngatedIff`,
  `AddingNeverGates`, `KeyAddedLater`, and the gate in `KeySlots.Run`).
- Base32 decoding narrows a character to eight bits, so some non-ASCII characters are read
  as letters; `Narrow` models this and nothing claims they are rejected.
- A signed payload is parsed up to its last serial and following bytes are ignored
  (`ParsesExactlyItsBytes`).

## Model

| member | source | states |
|---|---|---|
| `Runs.Run` | crates/farewell_format/src/vault.rs:993-2000 | Any sequence of adds, creates, writes, truncates, renames, deletes and folder operations, with I/O failures striking anywhere, keeps the representation invariant; each step is lawful against a plain map from names to contents, answers with exactly the refusal told from the manifest before it (or an I/O failure, or whatever a damaged file makes it meet), and keeps or changes explicit folders, owner and child slots as the operation says; a failure that does not poison leaves manifest and contents alone but for two named exceptions; a step that poisons leaves on the disk the old manifest, the complete result (or whole windows of a growth), or a torn manifest chunk; a poisoned step writes nothing; a successful step leaves no chunk behind that is free and not noise; and a crash after any completed chunk write of step i leaves every file that step does not change |
| `Runs.RunRefinesMap` | crates/farewell_format/src/vault.rs:993-1845 | When no call of a run is faulty, the vault equals the plain map, with its list of explicit folders, run through the same operations, and owner and child slots stay; a refused call changes nothing, except that a refused growing truncate may leave whole windows of zeros, fewer than asked for; the session is never poisoned |
| `Runs.AnswersAreTold` | crates/farewell_format/src/vault.rs:993-2000 | When no call of a run on an undamaged vault is faulty, the answer of every call is told from the manifest before it: its exact refusal, or success; no call answers with an I/O failure |
| `Runs.NothingLeftBehind` | ARCHITECTURE.md:405-416 | Over any stretch of a run in which no call is faulty, on an undamaged vault, a chunk that is free and not noise at the end was so at the start |
| `Runs.OnlyCurrentFiles` | ARCHITECTURE.md:405-416 | If such a vault started with nothing but noise in its free chunks, as a built one does, then at every moment every chunk is the manifest, a sealed piece of a current file in its place, or noise |
| `Runs.PoisonIsFinal` | crates/farewell_format/src/vault.rs:2029-2056 | Once poisoned, every later mutation is refused with the poison error and nothing changes any more: not the contents, not the manifest, not the disk |
| `Runs.FailuresAlone` | crates/farewell_format/src/vault.rs:2042-2056 | Anywhere in a run of successes and failures, a failed call that does not poison the session changes neither manifest nor contents, unless it was an add over a file with chunks or a truncate that grows by more than one window |
| `Runs.TicksGrow` | crates/farewell_format/src/manifest.rs:178-190 | Over a run the unwrapped counter never decreases, and it is unchanged only if the manifest is |
| `Runs.RollbackIsDetected` | crates/farewell_format/src/vault.rs:942-982 | Below wrap-around, an image saved earlier opens with a counter lower than a later recorded one if and only if something was committed in between |
| `Runs.OpenedNoOlder` | crates/farewell_format/src/vault.rs:942-982 | Opening an image saved at one moment of a run and requiring the counter recorded at a later one is refused, barring I/O, if and only if something was committed in between |
| `Runs.Step` | crates/farewell_format/src/vault.rs:993-2000 | One operation of any kind: its lawful outcome against the map, its exact answer, folders and owner, what a failure leaves alone, its effect on poison flag and counter, no write in a poisoned session, nothing left behind by a success, and what survives a crash inside it |
| `Vaults.Vault.WriteChunkRaw` | crates/farewell_format/src/vault.rs:2103-2112 | A chunk write is range-checked and changes one cell; a failed one may leave the old cell, the new one or garbage, and nothing else |
| `Vaults.Vault.UsedChunks` | crates/farewell_format/src/vault.rs:2124-2141 | The loop collects exactly the manifest chunk and every chunk of every file |
| `Vaults.Vault.AllocateChunks` | crates/farewell_format/src/vault.rs:2124-2176 | Fails with Full exactly when fewer free chunks exist than are needed beyond the reusable ones; otherwise returns distinct chunks, reusable ones first and free ones after |
| `Vaults.Vault.PublishManifest` | crates/farewell_format/src/vault.rs:2058-2092 | Writes the candidate into the manifest chunk and only then installs it; no other chunk changes |
| `Vaults.Vault.DestructivePhase` | crates/farewell_format/src/vault.rs:2042-2092 | Shreds the displaced chunks and publishes; any failure poisons the session and leaves the old manifest with the touched files lost, or the new state complete; every crash image is old, new, or old with a displaced chunk already noise; the disk of a poisoned session opens to the old manifest, opens to the new one, or has a torn manifest chunk |
| `Vaults.Vault.ShredAll` | crates/farewell_format/src/vault.rs:1836-1844 | The shredding loop turns exactly the listed chunks to noise; every image on the way is noise on a prefix of the list |
| `Erasure.GivenUpIsNoise` | ARCHITECTURE.md:405-416 | What Scrubbed, which every mutation ensures, means for a chunk: in use before and not after, it holds noise |
| `Erasure.NothingElse` | ARCHITECTURE.md:405-416 | If every free chunk is noise, each chunk of the disk is the sealed manifest, a sealed piece of a current file, or noise |
| `Vaults.Vault.AddFile` | crates/farewell_format/src/vault.rs:993-1042 | Exact refusal; on success the manifest is the old one with this entry upserted on chunks drawn reusable ones first, the name maps to the bytes, and every chunk of a replaced file that is no longer used is noise; after an I/O failure that does not poison, the manifest is unchanged and every file still reads except this one if its old content no longer does, which cannot happen to a file without chunks |
| `VaultSpec.OverwriteLoses` | crates/farewell_format/src/vault.rs:1004-1030 | For every file with chunks, a failed write that the disk may perform on the first chunk of an overwrite loses the old content although the old manifest is still live |
| `VaultSpec.OverwriteSpares` | crates/farewell_format/src/vault.rs:1004-1030 | A file without chunks survives every failed overwrite |
| `Vaults.Vault.CreateFile` | crates/farewell_format/src/vault.rs:1201-1217 | Creates an empty entry or leaves an existing file alone; exact refusal |
| `Vaults.Vault.CreateFileExclusive` | crates/farewell_format/src/vault.rs:1219-1233 | As create, but an existing name is refused |
| `Vaults.Vault.DeleteFile` | crates/farewell_format/src/vault.rs:1830-1845 | Removes the name, turns its chunks to noise, exact refusal |
| `Vaults.Vault.RenameFile` | crates/farewell_format/src/vault.rs:1548-1601 | Moves the content to the new name, displaces an old target and turns its chunks to noise, exact refusal |
| `Vaults.Vault.WriteFileRange` | crates/farewell_format/src/vault.rs:1275-1412 | On success the content is the splice of the data into the old content; the entry keeps its clean chunks and draws every later one from chunks free before the write, and the displaced chunks become noise; the refusal is exact whether or not the call is faulty, and changes nothing; before the first shred of a displaced chunk a crash image is entirely old or entirely new |
| `Vaults.Vault.PlanWrite` | crates/farewell_format/src/vault.rs:1275-1350 | Before the first disk write: the exact refusal, or drawn chunks, free until now, and a serialized manifest with the written entry on the clean chunks and those |
| `Vaults.Vault.RewritePieces` | crates/farewell_format/src/vault.rs:1320-1362 | The per-piece loop leaves every dirty piece of the spliced content sealed in its new chunk and touches no chunk in use |
| `Vaults.Vault.TruncateFile` | crates/farewell_format/src/vault.rs:1427-1530 | Succeeds on an undamaged file, barring I/O, exactly when TruncateFits holds, and is otherwise refused with the error told beforehand: shrinking, the entry keeps its chunks up to the straddled piece and the dropped ones become noise; growing, it keeps every whole chunk and takes as many as the new size needs; the same size succeeds without touching the device; when refused, either nothing changed or, exactly under TruncateLeavesPart, whole windows of the growth were committed; a crash image of a shrink is entirely old or entirely new until the first shred, and one of a growth holds the content grown to a window boundary until then; in every outcome folders, owner, child slots and all other entries are as before |
| `Vaults.Vault.Shrink` | crates/farewell_format/src/vault.rs:1468-1530 | Keeps the surviving prefix on the old chunks, re-encrypts the straddled piece into one chunk that was free, and turns every dropped chunk to noise; the manifest is the old one with exactly this shorter entry |
| `Vaults.Vault.Grow` | crates/farewell_format/src/vault.rs:1440-1466 | The window loop with its pre-flight check: success exactly when the growth fits, otherwise zeros appended in whole windows only and the error of the first window that is refused; the entry keeps its whole chunks, the straddled one becomes noise, and only this file's entry changes |
| `Vaults.Vault.ReadFile` | crates/farewell_format/src/vault.rs:1046-1069 | Returns exactly the recorded content of an undamaged file, through the per-piece decryption loop |
| `Vaults.Vault.ReadFileRange` | crates/farewell_format/src/vault.rs:1120-1193 | Returns exactly the window of the content of an undamaged file, through the piece range and the per-piece bounds; a read at or past the end, or of no bytes, yields no bytes and never fails; an I/O failure is answered only by a faulty call |
| `Vaults.Vault.ListFolders` | crates/farewell_format/src/vault.rs:1852-1871 | The two listing loops return exactly the folder set, ascending in byte order and without repeats |
| `Orders.Insert` | crates/farewell_format/src/vault.rs:1857-1871 | Ordered insertion keeps the list ascending and adds exactly the new path |
| `Orders.ListingIsUnique` | crates/farewell_format/src/vault.rs:1857-1871 | A set has one ascending listing only, so the listing is determined by the folder set |
| `Vaults.Vault.CreateFolder` | crates/farewell_format/src/vault.rs:1877-1892 | Adds the normalized path unless it is already explicit; exact refusal; no file changes |
| `Vaults.Vault.DeleteFolder` | crates/farewell_format/src/vault.rs:1898-1930 | Removes exactly the files and explicit folders under the normalized path, whose chunks become noise; every other file reads on through every crash image |
| `Vaults.Vault.RenameFolder` | crates/farewell_format/src/vault.rs:1942-2000 | Moves every name under the folder and every explicit folder at or below it, and only those, refuses collisions, and changes no chunk but the manifest's |
| `Vaults.Vault.Space` | crates/farewell_format/src/vault.rs:954-971 | The free figure is the size of the set the allocator draws from, in bytes |
| `Vaults.OpenVault` | crates/farewell_format/src/vault.rs:819-853 | Opening an intact image yields a valid session with the recorded files |
| `Vaults.Reopened` | crates/farewell_format/src/vault.rs:639-672 | Closing and reopening an unpoisoned session gives the same manifest, files and disk |
| `Vaults.Recovered` | crates/farewell_format/src/vault.rs:2029-2056 | Reopening a poisoned session fails only for I/O or a torn manifest chunk, and otherwise holds what the session still held or the complete result of the mutation that failed |
| `Vaults.BuildVault` | crates/farewell_format/src/vault.rs:547-680 | A new vault is valid, empty, has at least two chunks whatever was requested, every chunk but the manifest's is noise, and the manifest lies where the master key says |
| `Space.FreeIsExact` | crates/farewell_format/src/vault.rs:954-971 | By disjointness, the accounted free count equals the number of chunks the allocator can draw |
| `Acceptance.AddIsAccepted` | crates/farewell_format/src/vault.rs:993-1042 | An add under a valid name is accepted if and only if chunks can be drawn with which its entry suits its size and the manifest serializes; Full exactly when no such chunks exist |
| `Acceptance.ReplacingIsAccepted` | crates/farewell_format/src/vault.rs:993-1042 | Replacing a file by one that needs no more chunks is always accepted |
| `Acceptance.CreateIsAccepted` | crates/farewell_format/src/vault.rs:1201-1245 | An existing name is kept, or refused when it must be new; a new one is accepted if and only if the manifest with the empty entry serializes |
| `Acceptance.DeleteIsAccepted` | crates/farewell_format/src/vault.rs:1830-1845 | Every file there is can be deleted, however full the vault; any other name is not found |
| `Acceptance.RenameIsAccepted` | crates/farewell_format/src/vault.rs:1548-1601 | A rename of a known file to another valid name is accepted if and only if the renamed manifest serializes, whether or not the target exists |
| `Acceptance.RenameFits` | crates/farewell_format/src/vault.rs:1548-1601 | A rename onto an existing file, or to a name no longer than the old one, always fits |
| `Acceptance.WriteIsAccepted` | crates/farewell_format/src/vault.rs:1275-1345 | A write at any offset is accepted if and only if some chunks can be drawn with which the written entry suits its size and serializes; Full exactly when none can be drawn; Overflow exactly when the end or the piece count cannot be represented |
| `Acceptance.WriteIsRefused` | crates/farewell_format/src/vault.rs:1275-1300 | A write of no bytes is accepted before the file is looked for; otherwise an unknown name is not found |
| `Acceptance.WithinOnePiece` | crates/farewell_format/src/vault.rs:1275-1345 | In a file of one chunk, a write that ends within the chunk is accepted whenever a chunk is free, also past the end of the file |
| `Acceptance.HoleIsFilled` | crates/farewell_format/src/vault.rs:1248-1326 | One byte written at offset 5 of a two-byte file: accepted, with three zeros in between |
| `Acceptance.ShrinkIsAccepted` | crates/farewell_format/src/vault.rs:1468-1530 | A shrink is accepted if and only if a chunk list of the shorter size can be made of kept and free chunks; always at a chunk boundary or with a free chunk |
| `Acceptance.GrowIsAccepted` | crates/farewell_format/src/vault.rs:1440-1466 | A growth completes if and only if one write of all its zeros would be accepted |
| `Acceptance.TruncateIsAccepted` | crates/farewell_format/src/vault.rs:1427-1530 | A truncate of a known file: the same size is always accepted, a shrink if and only if a chunk list of the shorter size can be made of kept and free chunks, a growth if and only if one write of its zeros would be; with chunks and free bytes enough for that, only the manifest can stand in the way |
| `Acceptance.TruncateIsRefused` | crates/farewell_format/src/vault.rs:1427-1445 | A poisoned session, a bad name and an unknown file are refused in this order, whatever the size |
| `Acceptance.NormalizedIff` | crates/farewell_format/src/vault.rs:155-172 | A path names a folder if and only if it has a byte that is no slash and no control character |
| `Acceptance.MakeFolderIsAccepted` | crates/farewell_format/src/vault.rs:1877-1892 | A folder with a valid path is accepted if and only if it is there already or the manifest with it serializes |
| `Acceptance.RemoveFolderIsAccepted` | crates/farewell_format/src/vault.rs:1898-1930 | Every folder with a valid path can be deleted, also one that does not exist |
| `Acceptance.MoveFolderIsAccepted` | crates/farewell_format/src/vault.rs:1942-2000 | A folder rename is accepted if and only if no file would land on the name of an existing one and the relocated manifest serializes |
| `Acceptance.MoveFolderIsRefused` | crates/farewell_format/src/vault.rs:1942-1965 | A poisoned session comes first, then a path that names no folder or is too long |
| `VaultSpec.NewFileFitsExactly` | crates/farewell_format/src/vault.rs:945-971 | A new file is refused with Full if and only if max(size, 1) exceeds the reported free bytes |
| `VaultSpec.UpsertSerializes` | crates/farewell_format/src/manifest.rs:194-256 | A candidate with valid names is refused for its serialized size or not at all, the size computed from chunk counts |
| `VaultSpec.DrawnIsPlaced` | crates/farewell_format/src/vault.rs:2124-2176 | Allocated chunks are in range, never the manifest chunk, and disjoint from every other file's |
| `VaultSpec.ShredIsSafe` | crates/farewell_format/src/vault.rs:1836-1844 | After the first shredded chunk the old manifest still opens and every untouched file still reads |
| `VaultSpec.FinalIntact` | crates/farewell_format/src/vault.rs:2042-2092 | The disk after shredding and publishing opens to the new manifest with all its files |
| `Store.PublishedReopens` | crates/farewell_format/src/vault.rs:2058-2071 | A manifest that serializes reopens as itself from the sealed manifest chunk |
| `Store.IntactFrame` | crates/farewell_format/src/vault.rs:841-853 | A disk change that misses the manifest chunk and every listed file's chunks keeps the image intact |
| `WriteSpec.WriteReady` | crates/farewell_format/src/vault.rs:1320-1400 | Once the dirty pieces are in drawn chunks, the new entry holds the spliced content and the candidate is publishable |
| `WriteSpec.WriteDisplaces` | crates/farewell_format/src/vault.rs:1363-1411 | The chunks a write shreds are data chunks no other file and no entry of the candidate uses |
| `TruncateSpec.ShrinkReady` | crates/farewell_format/src/vault.rs:1468-1528 | Once the straddled piece is re-encrypted, the shorter entry holds the truncated content |
| `TruncateSpec.WindowVerdict` | crates/farewell_format/src/vault.rs:1440-1466 | Whether a window of a growth is refused, decided from the state the growth started in |
| `TruncateSpec.WindowError` | crates/farewell_format/src/vault.rs:1440-1466 | Which error the first refused window gives: Full from the pre-flight check or for want of the chunk it forgets in the last window, ManifestOverflow otherwise |
| `TruncateSpec.PartlyGrownExample` | crates/farewell_format/src/vault.rs:1440-1466 | A concrete vault in which the pre-flight check and the first window pass and the second window is refused |
| `RenameSpec.RenameReady` | crates/farewell_format/src/vault.rs:1548-1601 | The renamed candidate is publishable, keeps every other file, and its displaced chunks may be shredded |
| `RenameSpec.DeleteReady` | crates/farewell_format/src/vault.rs:1830-1845 | The manifest without the name is publishable and its chunks are used by nobody else |
| `Splices.SpliceIsConcat` | crates/farewell_format/src/vault.rs:1265-1274 | A range write is old bytes, zeros over any hole, the data, then the old tail |
| `Splices.CleanPieces` | crates/farewell_format/src/vault.rs:1310-1325 | Pieces before the first dirty one are the same in the old and the spliced content |
| `Splices.FirstDirtyIs` | crates/farewell_format/src/vault.rs:1315-1326 | The first piece rewritten is the one that holds the offset, or the last one when the write starts past the end |
| `Splices.MergedIsPiece` | crates/farewell_format/src/vault.rs:1326-1362 | Overlaying the data on the old piece gives the piece of the spliced content |
| `Splices.MergePiece` | crates/farewell_format/src/vault.rs:1326-1362 | The overlay computed in a buffer, for every position of the data relative to the piece |
| `ReadSpec.WindowStep` | crates/farewell_format/src/vault.rs:1150-1193 | The local bounds of one piece extend what was read so far to the next piece boundary |
| `ReadSpec.WindowsJoin` | crates/farewell_format/src/vault.rs:1120-1193 | Adjacent range reads join, and the range of a whole file is the file |
| `Paths.AncestorPaths` | crates/farewell_format/src/vault.rs:182-193 | The accumulator loop lists the ancestors of a path, root first |
| `Paths.AncestorsAre` | crates/farewell_format/src/vault.rs:182-193 | A path is listed exactly when it is tidy and its components are a prefix |
| `Folders.FolderSetIsClosure` | crates/farewell_format/src/vault.rs:1852-1871 | folders() is the ancestor closure of explicit folders and file parents |
| `Folders.ClosureIsIdempotent` | crates/farewell_format/src/vault.rs:391-394 | Making every reported folder explicit reports the same folders |
| `Folders.MovedStayUnique` | crates/farewell_format/src/vault.rs:1942-2000 | Without a collision, moving a folder keeps names unique |
| `Folders.RenameFolderUndone` | crates/farewell_format/src/vault.rs:1942-2000 | The reverse rename restores every name and folder when nothing was at or under the new path |
| `FolderSpec.WayBackIsAccepted` | crates/farewell_format/src/vault.rs:1942-2000 | Under the same conditions the reverse rename of a manifest that serializes is accepted |
| `FolderSpec.RenameRelocates` | crates/farewell_format/src/vault.rs:1942-2000 | Every explicit folder at or below the old path, and every name under it, has the old path replaced by the new one; everything else stays, in its place |
| `FolderSpec.OldPathIsFreed` | crates/farewell_format/src/vault.rs:1942-2000 | The old path is explicit afterwards if and only if a folder below it moved onto it |
| `FolderSpec.ReportedFollows` | crates/farewell_format/src/vault.rs:1942-2000 | With orderly names, every folder reported at or below the old path is reported at its relocated path |
| `FolderSpec.RenamedIsReported` | crates/farewell_format/src/vault.rs:1942-2000 | With orderly names, a folder that was reported is reported under its new path |
| `FolderSpec.NewPathIsReportedIff` | crates/farewell_format/src/vault.rs:1942-2000 | The new path is reported afterwards exactly when, before, an explicit folder lies at or below the old path or at or below the new one, or a file lies under the old path or has its place at or below the new one |
| `FolderSpec.UntidyNameStays` | crates/farewell_format/src/vault.rs:1942-2000 | With the name /a/x, renaming the folder a leaves it reported and reports nothing new |
| `Folders.ReportedIsNormal` | crates/farewell_format/src/vault.rs:158-193 | Every reported folder of a valid manifest is normalized, valid text |
| `FolderSpec.GoneIff` | crates/farewell_format/src/vault.rs:1898-1930 | No folder at or below a path is reported exactly when, slashes tidied, no explicit folder and no file's parent lies there |
| `FolderSpec.DeletionRemovesIff` | crates/farewell_format/src/vault.rs:1898-1930 | Told from the manifest before the call: after the deletion nothing at or below the folder is reported exactly when no explicit folder outside its prefix and no file outside it has, slashes tidied, its place there |
| `FolderSpec.DeletedFolderIsGone` | crates/farewell_format/src/vault.rs:1898-1930 | With orderly names a deleted folder leaves no file or folder at or below it, and every other file and explicit folder stays |
| `FolderSpec.UntidyNameKeepsFolder` | crates/farewell_format/src/vault.rs:1898-1930 | With the name /a/x the folder a is still reported after deleting it |
| `Migration.MigrateVault` | crates/farewell_format/src/vault.rs:328-470 | Success gives the same names, folders and owner, a counter past the source's, the content of every undamaged file, and a destination with nothing but noise in its free chunks; its size is the source's, or at most that with exactly max(needed / 4, 16) spare chunks if smaller, or the number asked for, and never below two; for an undamaged source the planned manifest length decides the overflow: success only if it fits a chunk, ManifestOverflow only if it does not, the other failures are I/O and a too small exact capacity (exactly then), and Full and a verification mismatch never occur; a damaged file may end the migration with an error or is copied as far as it reads; the source is not in the frame |
| `Migration.TotalIsSum` | crates/farewell_format/src/vault.rs:458-470 | The reported bytes of files together are those of each |
| `MigrationSpec.DeepNamesOutgrow` | crates/farewell_format/src/vault.rs:390-394 | Four empty files with 255-byte names: a publishable source of 1,097 bytes whose planned manifest is 66,629 bytes long |
| `MigrationSpec.ListingLen` | crates/farewell_format/src/vault.rs:390-394 | The printed folder list is as long as the set of folders says, in whatever order that is summed |
| `Migration.NeededFits` | crates/farewell_format/src/vault.rs:350-369 | The computed chunk need never exceeds what the source holds, so the three capacities suffice |
| `Migration.AppendFits` | crates/farewell_format/src/vault.rs:398-411 | An append is refused for its length only when the grown manifest exceeds a chunk, and with Full, at a chunk boundary, only when the chunks it adds are not free |
| `Migration.AppendCommitted` | crates/farewell_format/src/vault.rs:1320-1332 | An append leaves the file on exactly the chunks its size needs, and at a chunk boundary keeps every chunk it had; free count and manifest length change by exactly the chunks added |
| `Migration.CopyWindows` | crates/farewell_format/src/vault.rs:402-411 | The copy loop reproduces the content of an undamaged source file byte by byte and hashes exactly what it wrote; of a damaged one it copies what can be read, at most the recorded size |
| `Migration.CopyFolders` | crates/farewell_format/src/vault.rs:390-394 | The destination ends with exactly the reported folders of the source explicit, in listing order, and a manifest of exactly the planned length |
| `Migration.Verify` | crates/farewell_format/src/vault.rs:436-457 | The re-reading loop succeeds exactly when there are as many files as planned and each has its planned digest, also a copy shorter than planned |
| `ManifestCodec.RoundTripIff` | crates/farewell_format/src/manifest.rs:194-348 | A serialized manifest parses back to itself if and only if it has at most 255 child slots and its owner is not the empty string |
| `ManifestCodec.ChildSlotsExample` | crates/farewell_format/src/manifest.rs:194-348 | A manifest with 256 child slots serializes and does not parse back to itself |
| `ManifestCodec.PrintThenParse` | crates/farewell_format/src/manifest.rs:194-348 | When every length fits its field, parsing gives the manifest back, an empty owner read as none, whatever bytes follow |
| `ManifestCodec.CountsFit` | crates/farewell_format/src/manifest.rs:194-256 | In a serialized manifest no count but the child-slot count can be truncated |
| `ManifestCodec.ParsedIsCanonical` | crates/farewell_format/src/manifest.rs:258-348 | Whatever parses has at most 255 child slots and no empty owner |
| `ManifestCodec.ParsesExactly` | crates/farewell_format/src/manifest.rs:258-348 | Some buffer parses to a manifest if and only if its counts and text lengths fit their fields and its owner is not the empty string; control characters are not looked at |
| `ManifestCodec.RewritableIff` | crates/farewell_format/src/manifest.rs:194-348 | A manifest that was read is refused by serialize exactly when a name or folder has a control character, or when the bytes it was read from, plus the owner field version 3 lacks, exceed a chunk |
| `ManifestCodec.ReprintedParsesTheSame` | crates/farewell_format/src/manifest.rs:194-348 | Parse, serialize, parse is parse, for every buffer whose manifest can be rewritten |
| `ManifestCodec.TrailingBytesIgnored` | crates/farewell_format/src/manifest.rs:258-348 | Appending bytes to a buffer that parses does not change the result |
| `ManifestCodec.PreambleReads` | crates/farewell_format/src/manifest.rs:258-300 | Versions 3 and 4 are read, whatever the two reserved bytes are, and no other version |
| `ManifestCodec.Version3Reads` | crates/farewell_format/src/manifest.rs:258-348 | What version 3 wrote, without an owner, reads as the same manifest with none |
| `Vectors.ManifestVector` | crates/farewell_format/src/manifest.rs:194-256 | A manifest with one of everything, byte by byte |
| `Vectors.Version3Vector` | crates/farewell_format/src/manifest.rs:258-348 | The same manifest as version 3 wrote it, byte by byte |
| `Vectors.NameLimits` | crates/farewell_format/src/manifest.rs:45-82 | Names have 1 to 255 and folder paths 1 to 1024 bytes, none of them a control character |
| `ManifestCodec.CapSuffices` | crates/farewell_format/src/manifest.rs:366-369 | The pre-allocation bound never falls short of a list that parses |
| `ManifestCodec.CapIsTight` | crates/farewell_format/src/manifest.rs:366-369 | The bound never exceeds the count, and otherwise is one record more than the bytes left can hold |
| `ManifestIO.ManifestParser.ReadEntryList` | crates/farewell_format/src/manifest.rs:281-298 | Reads the specified list; reserves no more room than the remaining bytes could fill, and exactly what a list that parses needs |
| `ManifestIO.ParseBuffer` | crates/farewell_format/src/manifest.rs:258-348 | The cursor parser returns exactly the specified parse of every buffer and never reads out of range |
| `ManifestIO.Candidate.Serialize` | crates/farewell_format/src/manifest.rs:194-256 | The appending serializer writes exactly the specified bytes or the specified error |
| `Manifests.UpsertedFinds` | crates/farewell_format/src/manifest.rs:178-183 | After an upsert the name yields the new entry and every other name what it yielded before, and names stay unique |
| `Manifests.RemovedFinds` | crates/farewell_format/src/manifest.rs:185-190 | A removal hides its name and no other; putting the removed entry back makes every name yield what it did |
| `ManifestIO.ManifestParser.Take` | crates/farewell_format/src/manifest.rs:371-379 | Advances within the buffer or reports truncation |
| `Chunks.EncryptChunk` | crates/farewell_format/src/chunk.rs:45-80 | Pads in place, tags the length and seals under the chunk's key and index; refuses exactly an oversized payload |
| `Chunks.OpenSealed` | crates/farewell_format/src/chunk.rs:45-136 | A sealed payload comes back exactly, and only at its own index under its own master key |
| `Octets.DecryptEncrypted` | crates/farewell_format/src/slot.rs:373-377 | Ideal authenticated encryption: a ciphertext opens exactly under its own key, nonce and associated data |
| `KeySlots.Run` | crates/farewell_format/src/vault.rs:1648-1827 | Any sequence of additions, removals and re-enrolments, with any passphrases and I/O failures, keeps master and metadata keys; only calls with the right passphrase take effect, and the enrolled list is the list run through those that did; without re-enrolment the wrapping key stays, and whether the passphrase alone opens the master key is decided by the last re-enrolment; a write cut short leaves the old contents, the new ones, or a slot that opens under no key, after which no edit succeeds |
| `SlotSpec.CutShort` | crates/farewell_format/src/vault.rs:1683-1685 | A prefix of a new slot over an old one is the old slot, or holds the new contents, or opens under no key; once nonce and ciphertext are out it holds the new contents |
| `KeySlots.KeySlot.WriteSlot` | crates/farewell_format/src/vault.rs:1683-1685 | A failed slot write leaves the slot as it was, or with the new contents, or opening under no key |
| `KeySlots.UngatedIff` | crates/farewell_format/src/slot.rs:603-604 | The passphrase alone opens the wrap of the master key if and only if the wrapping key is the one it derives |
| `KeySlots.AddingNeverGates` | crates/farewell_format/src/slot.rs:603-604 | No additions and removals, in any order, change that; only a re-enrolment does |
| `KeySlots.KeyAddedLater` | THREAT_MODEL.md:150-150 | A slot made without a hardware key and given one later: unlocking asks for the key, while the passphrase alone still opens the wrap of the master key |
| `KeySlots.OpensExactlyForEnrolled` | crates/farewell_format/src/slot.rs:400-474 | With the right passphrase the two keys are given up exactly to authenticators holding an enrolled credential |
| `KeySlots.RevokedForGood` | crates/farewell_format/src/slot.rs:651-722 | After a removal and any further edits that do not bring the credential back, it is enrolled only if another entry shared it; otherwise an authenticator holding only it is refused if and only if the vault is still hardware-protected |
| `KeySlots.RevokedIff` | crates/farewell_format/src/slot.rs:651-722 | A removal locks out an authenticator holding only that credential if and only if no other entry shares the credential |
| `KeySlots.SharedCredExample` | crates/farewell_format/src/slot.rs:651-722 | One authenticator enrolled twice still opens the vault after one of the two entries is removed |
| `KeySlots.RemovedOpensNothing` | crates/farewell_format/src/slot.rs:704-708 | After a removal some place of the payload, occupied or vacated, opens for the removed key's output if and only if another entry gave the same output |
| `KeySlots.UnreadableIff` | crates/farewell_format/src/slot.rs:527-559 | A credential of length zero is enrolled if and only if every authenticator meets the length error |
| `KeySlots.EmptyCredExample` | crates/farewell_format/src/slot.rs:219-240 | An enrolment holding one zero-length credential refuses every authenticator |
| `KeySlots.RevokedCannotAdd` | crates/farewell_format/src/slot.rs:606-610 | The hmac output of a removed key recovers the wrapping key if and only if another entry gave the same output; that of every other key still does |
| `KeySlots.OtherKeysFail` | crates/farewell_format/src/slot.rs:406-412 | A slot opens under no other passphrase and no other profile |
| `KeySlots.KeySlot.AddHwCredential` | crates/farewell_format/src/vault.rs:1654-1692 | Finds the passphrase key, then edits exactly as the contents say, or refuses exactly, leaving the slot alone |
| `KeySlots.KeySlot.RemoveHwCredential` | crates/farewell_format/src/vault.rs:1703-1736 | As above for a removal, with the passphrase alone; the vacated place and its label are random bytes again |
| `KeySlots.KeySlot.Reenroll` | crates/farewell_format/src/vault.rs:1757-1827 | Unwraps with the present key and wraps the same two keys afresh under the profile the new enrolment calls for |
| `KeySlots.KeySlot.EnrollmentInfo` | crates/farewell_format/src/vault.rs:1621-1646 | Lists the enrolled credentials and their shown names for the right passphrase only |
| `KeySlots.KeySlot.Unlock` | crates/farewell_format/src/vault.rs:769-818 | Trying the profiles in order gives the held keys to the right passphrase and an enrolled authenticator; HardwareKeyRequired is answered exactly for the right passphrase of an untorn slot with an enrolled key and no authenticator, and every other failure is the one uniform error (or I/O) |
| `KeySlots.KeyIsAskedFor` | crates/farewell_format/src/vault.rs:769-818 | A passphrase without an authenticator is asked for a hardware key exactly when the slot has one enrolled, whatever edits led there |
| `KeySlots.AdditionIsAccepted` | crates/farewell_format/src/vault.rs:1654-1692 | A key can be added exactly while fewer than three are enrolled, under a credential of 1 to 256 bytes, with the output of some enrolled key at hand if there is any |
| `KeySlots.RemovalIsAccepted` | crates/farewell_format/src/vault.rs:1703-1736 | Any key of several can be removed, whatever its place; the only one never |
| `KeySlots.ForeignSecretIsRefused` | crates/farewell_format/src/slot.rs:774-837 | An authenticator that holds an enrolled credential under another secret than the one enrolled is refused, and so is the right one at a vault with another salt |
| `KeySlots.OpenWithKeys` | crates/farewell_format/src/vault.rs:724-853 | Whatever edits the slot went through, opening yields the files sealed under the original master key, reading the manifest where that key says; HardwareKeyRequired exactly when the slot holds a key and none is presented, otherwise the uniform error |
| `KeySlots.NewKeySlot` | crates/farewell_format/src/vault.rs:585-600 | A new slot holds the given keys and enrolment, hashed lightly exactly when a hardware key is enrolled, and the passphrase alone opens its master wrap exactly when none is |
| `KeySlots.CreateVault` | crates/farewell_format/src/vault.rs:547-680 | A new vault of one level: the slot protects the very master key under which the empty manifest is sealed, at the place that key gives, so the image is intact for whoever unlocks it, and every other chunk is noise |
| `Lifecycle.Use` | crates/farewell_format/src/vault.rs:547-853 | Any edits of the slot and any operations on the files, with failures anywhere, keep slot, master key and manifest place together; without I/O failures neither is the slot torn nor the session poisoned |
| `Lifecycle.Open` | crates/farewell_format/src/vault.rs:724-853 | Opening what is on the disk of an unpoisoned session yields its files and manifest to whoever unlocks the slot, and the exact error to anyone else |
| `Lifecycle.CreateUseOpen` | crates/farewell_format/src/vault.rs:547-2000 | Create a vault, edit its slot and run any operations without I/O failures, open it again: what is read is what a plain map holds after the same operations, starting empty, with its folders and owner |
| `Slots.Wrap` | crates/farewell_format/src/slot.rs:270-388 | The slot holds one key-wrapping key that wraps the master key and is wrapped for every enrolled key; everything else in it is random bytes, and so is the wrapping key unless no hardware key is enrolled |
| `Slots.ReadEnrollment` | crates/farewell_format/src/slot.rs:527-559 | Reads back exactly the enrolled credentials in order and their shown names; fails if a credential is empty or the passphrase key is wrong |
| `Slots.AddCredential` | crates/farewell_format/src/slot.rs:570-649 | Appends one entry that wraps the same key and leaves the unused places random, with every refusal exact |
| `Slots.RemoveCredential` | crates/farewell_format/src/slot.rs:662-722 | Drops one entry, keeps every other wrap and leaves the vacated entry and label random, with every refusal exact |
| `Slots.Vacate` | crates/farewell_format/src/slot.rs:704-711 | The last entry and its label become random bytes and the count drops; no other entry, label or key changes |
| `Slots.LevelEnrollment.PushLabeled` | crates/farewell_format/src/slot.rs:219-240 | Appends exactly one entry, or refuses an oversized credential or a fourth key and changes nothing |
| `Slots.ShiftDown` | crates/farewell_format/src/slot.rs:694-703 | The in-place shifting loop moves the entries and labels after the dropped one down by one and leaves every other place, master wrap, metadata key and count alone |
| `Slots.WriteEntry` | crates/farewell_format/src/slot.rs:613-629 | Writes one entry in place at its computed offset and no other byte |
| `Slots.RecoverKwkWithHmac` | crates/farewell_format/src/slot.rs:728-759 | Succeeds exactly for the hmac output of an enrolled key, and then returns the wrapping key |
| `Slots.UnwrapKwk` | crates/farewell_format/src/slot.rs:774-837 | Collects candidates, challenges the authenticator and opens the matched entry, with the exact outcome in terms of what the slot holds |
| `Slots.TryUnwrap` | crates/farewell_format/src/slot.rs:400-474 | The exact outcome of unwrapping in terms of what the slot holds; and from any bytes at all, keys are taken only out of a payload that opened, with a count in range and the right length tag |
| `Slots.ChallengeResponse` | crates/farewell_fido2/src/lib.rs:188-207 | Answers for the first candidate held |
| `SlotSpec.EntryOpens` | crates/farewell_format/src/slot.rs:725-772 | An entry opens under its own hardware key's combined key and no other, at any position |
| `SlotSpec.OpensForKnown` | crates/farewell_format/src/slot.rs:725-759 | Of all the places for an entry, used or not, one opens for an output if and only if an enrolled key gave it |
| `SlotSpec.MasterOpens` | crates/farewell_format/src/slot.rs:431-457 | The wrapping key and nothing else recovers the master key with its length tag |
| `SlotSpec.FidoSaltIsInjective` | crates/farewell_format/src/slot.rs:150-162 | Different vault salts give authenticators different challenges |
| `SlotSpec.HmacIsInjective` | crates/farewell_fido2/src/lib.rs:188-207 | An output determines the secret and the challenge it answers |
| `Vectors.PayloadLayout` | crates/farewell_format/src/slot.rs:61-88 | Every field of the decrypted payload at its byte position: credential length and id, wrapped keys with their nonces, metadata key, labels |
| `Labels.EncodeLabel` | crates/farewell_format/src/slot.rs:245-255 | The back-off loop keeps the longest run of whole characters that fits, zero-padded |
| `Labels.LastBoundary` | crates/farewell_format/src/slot.rs:249-253 | The last character boundary at or before a limit ends the longest run of whole characters that fits |
| `Labels.LabelRoundTrip` | crates/farewell_format/src/slot.rs:245-262 | A label reads back as itself if and only if it fits the field and has no NUL |
| `Labels.LossyIsText` | crates/farewell_format/src/slot.rs:257-262 | What is shown is well-formed text, whatever the bytes |
| `Vectors.LossyVector` | crates/farewell_format/src/slot.rs:257-262 | Broken characters, each shown as one replacement per maximal part |
| `Base32.Encode` | crates/farewell_license/src/key.rs:67-84 | The shift-buffer loop computes the base-32 digits of the bytes as one number, left-aligned in the last digit |
| `Base32.Decode` | crates/farewell_license/src/key.rs:86-115 | The shift-buffer loop computes the whole bytes of the digits as one number, or fails exactly on an unreadable character |
| `Base32.UnpackPack` | crates/farewell_license/src/key.rs:67-115 | Exactly the encoded bytes come back, none gained or lost |
| `Base32.RespelledReadsTheSame` | crates/farewell_license/src/key.rs:86-115 | Case, O, I, L and separators, told by character codes, do not change what a key stands for |
| `Base32.SymbolByCode` | crates/farewell_license/src/key.rs:86-115 | What the decoder makes of each character, told by its code alone |
| `LicenseKeys.KeyRoundTrip` | crates/farewell_license/src/key.rs:27-65 | A key, however respelled, decodes to its payload and signature if and only if the payload is shorter than 65536 bytes and there is a signature |
| `LicenseKeys.EncodeKey` | crates/farewell_license/src/key.rs:27-42 | The grouping loop writes the container's letters in groups of five |
| `LicenseKeys.GroupingIsRead` | crates/farewell_license/src/key.rs:34-40 | Grouping does not change what is read |
| `Vectors.KeyVector` | crates/farewell_license/src/key.rs:27-84 | The key for a one-byte payload and a three-byte signature, letter by letter |
| `Vectors.ContainerVector` | crates/farewell_license/src/key.rs:27-33 | The payload's length comes first, high byte first |
| `Vectors.FramedVector` | crates/farewell_license/src/token.rs:57-67 | The framed form of a two-letter and of an empty token |
| `Vectors.WhitespaceCodes` | crates/farewell_license/src/token.rs:28-35 | The 25 characters that are whitespace, by code |
| `Vectors.CharacterWidths` | crates/farewell_license/src/token.rs:57-67 | Where UTF-8 takes another byte |
| `LicenseKeys.WrapPem` | crates/farewell_license/src/token.rs:57-67 | The line loop writes the framed token in lines of 64 bytes, or panics |
| `LicenseKeys.FramedIff` | crates/farewell_license/src/token.rs:57-67 | Framing panics if and only if some multiple of 64 bytes before the end of the token falls inside a character |
| `LicenseKeys.SplitCharExample` | crates/farewell_license/src/token.rs:57-67 | 63 letters and a two-byte character: framing panics |
| `LicenseKeys.FramingIsTransparent` | crates/farewell_license/src/token.rs:28-78 | A token without whitespace that can be framed parses the same with and without framing |
| `LicenseKeys.WhitespaceIsIgnored` | crates/farewell_license/src/token.rs:28-35 | Whitespace around and inside an unframed token does not matter |
| `LicenseKeys.FramedKeyRoundTrip` | crates/farewell_license/src/token.rs:28-78 | Every key can be framed, and the framed key parses to its payload and signature under the same exact condition |
| `LicensePayloads.ToBytes` | crates/farewell_license/src/payload.rs:125-155 | Writes the layout field by field or reports the first refusal |
| `LicensePayloads.RefusesUnlessEncodable` | crates/farewell_license/src/payload.rs:125-155 | A payload is written if and only if its email, serial count and serials fit their fields and the serials are ASCII |
| `LicensePayloads.FromBytes` | crates/farewell_license/src/payload.rs:160-212 | The cursor parser computes the specified reading of every buffer |
| `LicensePayloads.ParsesExactlyItsBytes` | crates/farewell_license/src/payload.rs:125-212 | A buffer parses to a payload if and only if the payload is encodable and the buffer begins with its bytes |
| `LicensePayloads.PrefixIsTruncated` | crates/farewell_license/src/payload.rs:160-212 | Every proper prefix of a written payload is reported as truncated |
| `LicensePayloads.FirstWrongField` | crates/farewell_license/src/payload.rs:160-185 | A wrong magic, version or license type is reported by its own error, in this order |
| `Vectors.PayloadVector` | crates/farewell_license/src/payload.rs:125-155 | The bytes of a payload with two serials and a negative date |
| `Vectors.AsciiBytes` | crates/farewell_license/src/payload.rs:125-155 | A serial is ASCII if and only if no byte exceeds 127 |
| `LicensePayloads.LicenseRoundTrip` | crates/farewell_license/src/payload.rs:125-212 | Payload to bytes to key, respelled, back to bytes and payload |
| `Sampling.UniformIndex` | crates/farewell_passphrase/src/lib.rs:125-138 | Returns the residue of the first draw below the limit |
| `Sampling.EveryIndexEquallyLikely` | crates/farewell_passphrase/src/lib.rs:125-138 | Every index is yielded by exactly MAX / n draws |

## Left out

- RunRefinesMap: the reference state holds names, contents, explicit folders, owner and child slots; which chunks a file lies on is stated operation by operation instead.
- Leftovers after I/O failures: a mutation that fails, or that has to read a damaged file, may leave sealed pieces in free chunks, so `Scrubbed` is promised for successes and refusals only.
- Vaults opened from a manifest that serialize would refuse (`RewritableIff`: control characters in a name or folder, or a full version 3 manifest): `Valid` and `Intact` exclude them, so the error sets of the mutations are not stated for them.
- Real cryptography: AES-GCM-SIV, Argon2id, BLAKE3, ML-DSA, ML-KEM and ECDSA are library calls; no secrecy claim is made.
- The metadata blob and its attestation: the vault's total chunk count is part of the geometry instead.
- File handles, locks, memory locking, zeroization and what a sync makes durable: only "it may fail" is kept, so `durable` is a flag without effect.
- WriteSlot: a failing slot write leaves a prefix of the new slot over the old one; other outcomes of a torn write are not modelled.
- Crash images inside a single chunk write: completed chunk writes are atomic.
- A running session after power loss: images are reopened, not continued.
- ManifestChunk: reduces `numeral` of a derived key to the chunk range; that `numeral` is the first eight bytes as a little-endian number is not part of this model, since derived bytes are symbolic.
- BuildVault: makes the chunk array only; `CreateVault` adds the key slot, but the salt, the unused slots and the metadata blob of the file are not part of this model.
- The unmounted vault and the errors of calling an operation on it.
- The old multi-level design: the set of off-limits chunks is always empty and there is one slot, so stripes are the whole chunk range.
- Vaults of more than 2^32 - 1 chunks, whose indices the original would truncate.
- ReadFileRange: a slice panic on a file damaged by an earlier failure appears as the error `Panic`.
- `readdir`, `stat_file`, `list`, fingerprints and other getters of the manifest.
- Progress callbacks, talking to a hardware key to enrol it (also during migration), and paths of source and destination.
- MigrateVault: asks for an exact capacity of at most 2^32 - 1 chunks; which error a damaged file causes, or what of it reads, is not stated.
- The development build, in which the two passphrase-hash profiles coincide.
- An authenticator that answers with a credential it was not asked for.
- The base64 branch of dotted license tokens, signature checking, and the message texts and byte counts of license errors.
- UniformIndex: takes a finite list of draws, since the original loop ends only with probability one.
- The FFI crate, the command line, the Swift application, USB waits, audio decoding, passphrase scoring and the word list.
