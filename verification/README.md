# Veracruz in Dafny

A model of the most stateful parts of Veracruz, with proofs about every input, every run and every interleaving.

* **The virtual file system.** One inode table is shared by several capability handles. `Inodes`, `Vfs` and `VfsInit`
  give each operation as a function of table and handle; `VfsSteps` and `VfsWorld` turn them into steps and runs of any
  number of handles; `VfsRights`, `VfsPrivate`, `VfsNames`, `VfsOffsets`, `VfsCreation`, `VfsFiles`, `VfsListing` and
  `VfsLaws` prove what all runs keep and how operations relate, and `VfsExamples` holds reachable states where a
  condition fails.
  `FileSystems` has the objects the source has, with their loops and updates in place, every method proved equal to its
  function; the table below lists those that loop or compose.
  `Policy` holds the policy tables that seed the rights, `VfsReaddir` directory pages and their packing into
  memory, `VfsPages` a program that reads them there call after call.
* **Codecs and transport.** `Base64` (section 4 of RFC 4648, in place), `Responses`, `McuClient` and `RustClient` (the
  text protocol between server and clients), `Reassembly` (length-prefixed chunks per session) and `Framing` (framed
  messages over partial reads and writes).
* **Attestation.** `Attestation`, `Nitro` and `Psa`: concurrent start and token requests as a state machine over their
  atomic steps, which are the counter, the locked sections and what lies between them.
* **Tracing.** `Strace`, the printer of byte strings, with a reader for what it prints.

`Result` has a third case, `Panic`: an overflowing addition (as in a build with overflow checks), a slice out of
range, a vector of 2^63 bytes or more, or a failed debug assertion. `usize` has 64 bits. The order in which a hash map is
iterated is a parameter. Random challenges, HTTP replies, document authentication, signature checks, hashes, certificate
signing and the base64 crate are parameters. A path is the sequence of components that `Path::components` yields, rights
are sets of bit positions.

Where code and documentation disagree the model follows the code: execution-engine/README.markdown:187-192 says that
`fd_fdstat_set_rights` sets the rights of a descriptor, but the code updates a copy and the descriptor keeps its rights;
transport-protocol/src/custom.rs:66-67 speaks of `Ok(None)` for an incomplete buffer, the code returns an error.

## Model

| member | source | states |
|---|---|---|
| `Policy.FromBitsTruncate` | policy-utils/src/principal.rs:71-79 | exactly the defined right bits are kept |
| `Policy.RightMapIsLastEntry` | policy-utils/src/principal.rs:71-79 | a path listed several times gets the rights of its last entry |
| `Policy.AssertValid` | policy-utils/src/policy.rs:278-314 | the loop accepts exactly the policies whose certificates end well and whose ids are distinct; a rejection names a real offender |
| `Policy.GetRightsTable` | policy-utils/src/policy.rs:342-356 | the two loops fill exactly the table specified by identity and program rows |
| `Policy.OwnRow` | policy-utils/src/policy.rs:278-289 | in an accepted policy the row of every participant is its own rights map |
| `Inodes.WriteAtBytes` | execution-engine/src/fs.rs:250-272 | byte by byte, a write at an offset is the data there, the old bytes elsewhere and zeros in a gap, and it never shrinks the file |
| `Inodes.WriteAtAdjacent` | execution-engine/src/fs.rs:250-272 | two adjacent zero-padded writes are one write of the concatenation |
| `Inodes.WalkAppend` | execution-engine/src/fs.rs:562-578 | walking a concatenated path is walking its second part from where the first one ends |
| `Inodes.WalkStable` | execution-engine/src/fs.rs:562-578 | a path that resolves keeps its inode when names are kept |
| `Inodes.NewInodeOk` | execution-engine/src/fs.rs:581-594 | a new number is unused, below the next candidate, and the table invariant is kept |
| `Inodes.AddDirInv` | execution-engine/src/fs.rs:597-632 | a directory added under a fresh number keeps every clause of the table invariant |
| `Inodes.AddDirNames` | execution-engine/src/fs.rs:597-632 | what `add_dir` binds, and that it rebinds nothing when the name is new |
| `Inodes.AddAllDirOk` | execution-engine/src/fs.rs:635-659 | rebinds no name, keeps the invariant also when it fails midway, and returns what a later lookup finds |
| `Inodes.AddAllDirEnd` | execution-engine/src/fs.rs:635-659 | either nothing was created or the walk ends in a directory without names |
| `Inodes.AddFileOk` | execution-engine/src/fs.rs:663-715 | a path that did not resolve then resolves to the new file; nothing is rebound, and the invariant survives the early insertion of a create that fails |
| `VfsCreation.MissingIsLongest` | execution-engine/src/fs.rs:635-659 | the missing components are those after the longest beginning of the path that resolves |
| `VfsCreation.AddAllDirSucceeds` | execution-engine/src/fs.rs:635-659 | exactly when missing directories can be made: plain names, a directory to start from and enough inode numbers |
| `VfsCreation.AddFileSucceeds` | execution-engine/src/fs.rs:663-715 | exactly when a file that does not resolve can be added, from the state before the call |
| `VfsCreation.AddFileAdds` | execution-engine/src/fs.rs:663-715 | an added file comes with new directories only, and no new name leads to an inode that was there |
| `VfsCreation.WalkAdds` | execution-engine/src/fs.rs:562-578 | so along plain names a path that led nowhere can only lead to something new |
| `Vfs.PathOpen` | execution-engine/src/fs.rs:1482-1565 | a returned descriptor was free and is the only new one, is open on an inode of the table at offset zero, and has the requested base and inheriting rights cut to the inheriting rights of the directory descriptor |
| `VfsSteps.ByteStep` | execution-engine/src/fs.rs:1132-1143 | set-size, pwrite, seek and write change at most the bytes of the one inode behind the descriptor, and only with the right for it |
| `VfsSteps.OpenStep` | execution-engine/src/fs.rs:1482-1565 | an open extends the table, truncates at most the very inode its path leads to and only with the right for it, and installs at most one descriptor with attenuated rights |
| `VfsSteps.CreateStep` | execution-engine/src/fs.rs:1686-1723 | `fd_create` adds exactly one empty file without a name, also when it then finds no free descriptor number, and on success exactly one descriptor with all rights on it |
| `VfsSteps.CloseStep` | execution-engine/src/fs.rs:1070-1083 | a close removes one descriptor and clears at most a service file |
| `VfsSteps.StepInv` | execution-engine/src/fs.rs:1070-1723 | every operation, whatever its outcome, keeps the whole inode-table invariant and removes no inode |
| `VfsSteps.OtherHandle` | execution-engine/src/fs.rs:741-757 | the descriptors of every other handle over the same table stay valid |
| `VfsSteps.StepNames` | execution-engine/src/fs.rs:1393-1425 | a step keeps every name if and only if it is not a `path_create_directory` that succeeds in allocating under a first component already present |
| `VfsSteps.StepAuthority` | execution-engine/src/fs.rs:1005-1018 | capability safety: a step that changes a regular file uses a writing right of a descriptor on that file, or truncates along a path that leads to that file |
| `VfsWorld.PreopenOk` | execution-engine/src/fs.rs:891-955 | the pre-open loop only extends the table, and every descriptor it makes agrees with the root and carries a right of the row |
| `VfsWorld.SpawnOk` | execution-engine/src/fs.rs:818-829 | the same for `spawn`, including a spawn that fails |
| `VfsWorld.SpawnPrestat` | execution-engine/src/fs.rs:891-955 | a spawned handle pre-opens each path of its row but the standard streams, exactly once |
| `VfsWorld.RunInv` | execution-engine/src/fs.rs:818-1723 | in every run of any number of handles, with spawns in between, the table invariant holds and nothing is removed |
| `VfsRights.AttenuatedRun` | execution-engine/src/fs.rs:968-991 | a handle within its row stays within it, whatever all handles do |
| `VfsRights.RightsOnlyShrink` | execution-engine/src/fs.rs:891-991 | rights only shrink: in every reachable state each descriptor of a spawned handle is within one entry of the row, unless on a file of its own `fd_create` |
| `VfsRights.ReadOnlyParticipant` | execution-engine/src/fs.rs:1005-1018 | no step of a participant without a writing right changes a regular file that existed at its spawn, however the other handles interleave |
| `VfsRights.ReadOnlyAlone` | policy-utils/src/policy.rs:278-289 | so over every run of that handle those files keep their bytes |
| `VfsPrivate.StepUnnamed` | execution-engine/src/fs.rs:1393-1723 | no step of any handle names an inode that is there and has no name |
| `VfsPrivate.Unreachable` | execution-engine/src/fs.rs:562-578 | no path from a directory leads to a file without a name |
| `VfsPrivate.FdCreateIsPrivate` | execution-engine/src/fs.rs:1686-1723 | in every run after an `fd_create`, with spawns in between, no other handle gets a descriptor on the file and no event but a step of its own handle changes it |
| `VfsNames.ResolutionStable` | execution-engine/src/fs.rs:562-578 | in every run without a rebinding call a path that once resolves keeps resolving to the same inode |
| `VfsNames.RebindingMovesTheName` | execution-engine/src/fs.rs:1404-1425 | the condition is exact: after a rebinding call the name leads to another inode |
| `VfsExamples.RebindingReached` | execution-engine/src/fs.rs:1404-1425 | and such a call exists on every new file system: one directory created below `/services` hides the services |
| `VfsNames.FindPrestatDeepest` | execution-engine/src/fs.rs:1731-1750 | the deepest pre-opened ancestor is found, and the search fails only when there is none |
| `VfsNames.RoutesAgree` | execution-engine/src/fs.rs:1731-1750 | walking the remainder from that ancestor reaches the same inode as walking the whole path from the root |
| `VfsNames.AgreesRun` | execution-engine/src/fs.rs:931-953 | pre-opened descriptors keep agreeing with the root in stable runs that neither close nor renumber them |
| `VfsNames.RoutesAgreeInRuns` | execution-engine/src/fs.rs:1731-1750 | from its spawn on, both routes of a handle reach the same inode in every such run |
| `VfsExamples.PreopenClosed` | execution-engine/src/fs.rs:1070-1083 | a handle that closes a pre-opened descriptor loses the paths below it, although they still resolve from the root |
| `VfsOffsets.StepSizes` | execution-engine/src/fs.rs:1132-1541 | a step makes no file shorter if and only if it is not a set-size below the size, a truncating open of a file with bytes, or the close of a service with bytes, each with its right |
| `VfsOffsets.OffsetsInRuns` | execution-engine/src/fs.rs:1324-1360 | in every run of all handles without such a step each offset stays within the size of its file |
| `VfsExamples.ShrunkFile` | execution-engine/src/fs.rs:1132-1285 | with such a step a read panics: create, write, set the size to zero, read |
| `VfsOffsets.ReadInBounds` | execution-engine/src/fs.rs:1274-1285 | then `fd_read` never reads out of bounds |
| `VfsOffsets.WriteAdvances` | execution-engine/src/fs.rs:1378-1389 | then `fd_write` advances by exactly the bytes written, without a further resize |
| `VfsOffsets.WriteSeekRead` | execution-engine/src/fs.rs:1274-1389 | writing, seeking back and reading returns what was written |
| `VfsOffsets.ScatterContiguous` | execution-engine/src/fs.rs:226-247 | pouring data into buffers one by one is one contiguous copy over their concatenation |
| `VfsOffsets.PreadContiguous` | execution-engine/src/fs.rs:1185-1206 | `fd_pread` fills the buffers in order with the bytes from the offset on, up to the smaller of both lengths, and leaves the rest as it was |
| `VfsFiles.WriteFileIsRun` | execution-engine/src/fs.rs:1755-1795 | a write by absolute path, also one that fails midway, is a run of the primitive operations, so every run theorem covers it |
| `VfsFiles.ReadFileIsRun` | execution-engine/src/fs.rs:1800-1831 | the same for a read by absolute path |
| `VfsFiles.WriteFileOk` | execution-engine/src/fs.rs:1755-1795 | from every state, after a successful write the route of the handle ends at a file holding the data, or old ++ data after an append; no name is rebound, no other file changes, nothing but that file and directories is created and the invariant is kept |
| `VfsFiles.WriteFileSucceeds` | execution-engine/src/fs.rs:1755-1795 | exactly when a write by absolute path succeeds, also of a path that does not exist yet: rights of the nearest pre-opened ancestor, a free descriptor number, a file at the end of the route or room for the missing directories and the file, and a size below 2^63 |
| `VfsFiles.ReadFileRoute` | execution-engine/src/fs.rs:1800-1831 | a read returns the bytes of the file its route leads to, leaves only a used descriptor number behind, and its debug assertion never fails |
| `VfsFiles.ReadFileSucceeds` | execution-engine/src/fs.rs:1800-1831 | exactly when a read by absolute path succeeds: rights of the nearest pre-opened ancestor, a free descriptor number and a route to a file |
| `VfsFiles.ReadAfterWrite` | execution-engine/src/fs.rs:1755-1831 | from every state, reading back through any handle never panics and succeeds just when that handle may read; it returns what was written if its route ends where that of the writer does, and otherwise the bytes that the file its route ends at held before; that route ended there before if it ended anywhere or has neither `.` nor `..` |
| `VfsExamples.StaleReadBack` | execution-engine/src/fs.rs:1755-1831 | and the routes can differ: after three steps of one handle the superuser writes any data to a path, and the first handle reads back nothing |
| `VfsFiles.WriteFileFromRoot` | execution-engine/src/fs.rs:1755-1795 | with pre-opened descriptors that agree with the root, the same of the file the whole path names |
| `VfsFiles.ReadBackFromRoot` | execution-engine/src/fs.rs:1755-1831 | with agreeing descriptors, any two handles read back exactly the data, or old ++ data after an append |
| `VfsListing.ReadAll` | execution-engine/src/fs.rs:1836-1877 | the recursion terminates on every table that keeps the invariant, by a measure from the increasing directory links; whatever the outcome the tree is as it was and the invariant holds |
| `VfsListing.ReadAllIsRun` | execution-engine/src/fs.rs:1836-1877 | a listing, also one that fails midway, is a run of the primitive operations, so every run theorem covers it |
| `VfsListing.DownIsUp` | execution-engine/src/fs.rs:1836-1877 | directories reached downwards have larger inode numbers |
| `VfsListing.UniquePath` | execution-engine/src/fs.rs:372-397 | two downward paths to one inode are the same path |
| `VfsListing.ListsExactly` | execution-engine/src/fs.rs:1836-1877 | on every table, a successful listing holds exactly the paths of the files under the path, each once, each with the bytes its route led to at the call; a service read for an earlier path is empty by then |
| `VfsListing.ListsContents` | execution-engine/src/fs.rs:1836-1877 | a listed file carries the bytes of the file at its path if its route and its path lead to the same inode; for a service, if that also holds of the files listed before it |
| `VfsListing.ListsContentsExactly` | execution-engine/src/fs.rs:1836-1877 | exact for regular files: the listing shows the bytes of the file at a path, whatever they are, if and only if route and path lead to the same inode |
| `VfsListing.ListsFromRoot` | execution-engine/src/fs.rs:1836-1877 | so with agreeing pre-opened descriptors a listing shows every file under the path with its bytes at the call |
| `VfsExamples.StaleListing` | execution-engine/src/fs.rs:1800-1877 | and the condition can fail: after three steps of one handle with `/` and `/services` a file holds one byte and the listing shows none |
| `VfsLaws.SeeksWithin` | execution-engine/src/fs.rs:1324-1360 | any number of seeks within the file, from any origins, only move the offset, to where the last one leads |
| `VfsLaws.SeekForwardTwice` | execution-engine/src/fs.rs:1324-1360 | two forward seeks succeed exactly when one of both distances does, and leave the same table and handle |
| `VfsLaws.RenumberAlong` | execution-engine/src/fs.rs:1312-1321 | a descriptor renumbered any number of times ends at the last number, also when that is the first, and every other descriptor stays |
| `VfsLaws.SetSizesKeep` | execution-engine/src/fs.rs:1132-1143 | however often a size is set, exactly the bytes below the lowest size on the way are kept and the others are zeros |
| `VfsLaws.CreatedDirectory` | execution-engine/src/fs.rs:1393-1425 | a path that did not resolve then leads to a new directory without names, and no node but the parent changed |
| `VfsLaws.ExclusiveOnce` | execution-engine/src/fs.rs:1512-1541 | an exclusive create makes an empty file where nothing resolved, and repeating it through any handle fails |
| `VfsInit.NewTableInv` | execution-engine/src/fs.rs:442-509 | a new table keeps the invariant |
| `VfsInit.InstallServiceInv` | execution-engine/src/fs.rs:466-481 | installing a service anywhere but at a bare `.` or `..` keeps the invariant, also over a name in use; if its path did not resolve it then leads to the service and every pre-opened route is kept |
| `VfsInit.InstallServiceExact` | execution-engine/src/fs.rs:466-481 | the condition is exact: the invariant is lost if and only if the path is a bare `.` or `..` and an inode number was free |
| `VfsInit.NewFileSystemOk` | execution-engine/src/fs.rs:789-813 | creation succeeds for every rights table and yields a state to which all run theorems apply |
| `FileSystems.InodeTable.Find` | execution-engine/src/fs.rs:562-578 | the component loop finds what the recursive walk finds |
| `FileSystems.InodeTable.AddAllDir` | execution-engine/src/fs.rs:635-659 | the loop over the components does what the recursive specification does |
| `FileSystems.ReadBytesFromOffset` | execution-engine/src/fs.rs:226-247 | fills exactly the prefix of the buffer that the remaining bytes reach and leaves the rest |
| `FileSystems.ReadInto` | execution-engine/src/fs.rs:1185-1206 | the loop over distinct buffers is the specified scattered read, with its total length |
| `FileSystems.FileSystem.FdPread` | execution-engine/src/fs.rs:1185-1206 | buffers and result as one contiguous read |
| `FileSystems.FileSystem.Gather` | execution-engine/src/fs.rs:1231-1253 | the loop over the buffers is one zero-padded write of their concatenation; if it panics, the buffers before the first that does not fit are written |
| `FileSystems.FileSystem.FdPwrite` | execution-engine/src/fs.rs:1231-1253 | table and result as one contiguous write, or after a panic the buffers that fitted |
| `FileSystems.FileSystem.PathCreateDirectory` | execution-engine/src/fs.rs:1393-1425 | the loop makes a fresh directory per component, as the specification |
| `FileSystems.FileSystem.PathOpen` | execution-engine/src/fs.rs:1482-1565 | table, handle and result as the specification, with all flag combinations |
| `FileSystems.FileSystem.InstallPrestat` | execution-engine/src/fs.rs:891-955 | the pre-open loop is the specified recursion |
| `FileSystems.FileSystem.Spawn` | execution-engine/src/fs.rs:818-829 | a new handle object over the same table, as the specification; the spawning handle is unchanged |
| `FileSystems.FileSystem.FindPrestat` | execution-engine/src/fs.rs:1731-1750 | the loop over the ancestors finds what the recursive search finds |
| `FileSystems.FileSystem.WriteFile` | execution-engine/src/fs.rs:1755-1795 | table, handle and result as the specification |
| `FileSystems.FileSystem.ReadFile` | execution-engine/src/fs.rs:1800-1831 | table, handle and result as the specification |
| `FileSystems.FileSystem.ReadAllFiles` | execution-engine/src/fs.rs:1836-1877 | the recursion over the directory computes the specified listing, table and handle, on failure too |
| `VfsReaddir.ReadDir` | execution-engine/src/fs.rs:372-397 | the loop returns the specified entries or the first error |
| `VfsReaddir.DirentsOk` | execution-engine/src/fs.rs:380-396 | one entry per name, each with the cookie one past its own index |
| `VfsReaddir.ResumesAt` | execution-engine/src/fs.rs:1289-1307 | resuming at a cookie gives exactly the entries from that index on |
| `VfsReaddir.PagingListsOnce` | execution-engine/src/fs.rs:1297-1306 | however many entries are taken per call, paging lists each entry once and in order |
| `VfsReaddir.PackDirents` | execution-engine/src/wasi/common.rs:1355-1380 | the packing loop leaves memory and count as the specified field-by-field packing |
| `VfsReaddir.ReaddirInto` | execution-engine/src/wasi/common.rs:1355-1381 | the same with the count written at the result address |
| `VfsReaddir.PackInside` | execution-engine/src/wasi/common.rs:1355-1380 | no byte outside the buffer of the caller changes, whatever the outcome |
| `VfsReaddir.FittingIsLongest` | execution-engine/src/wasi/common.rs:1363-1377 | the packed part is the longest prefix of whole fields that fits |
| `VfsReaddir.PackIsPrefix` | execution-engine/src/wasi/common.rs:1355-1380 | success writes that prefix at the start of the buffer and reports the smaller of total length and buffer length |
| `VfsReaddir.PackSucceeds` | execution-engine/src/wasi/common.rs:1355-1380 | it succeeds when the buffer lies in memory and no sum reaches 2^32 |
| `VfsReaddir.ReportsLength` | execution-engine/src/wasi/common.rs:1380-1380 | the count read back at the result address is that smaller length |
| `VfsPages.LayoutReads` | execution-engine/src/wasi/common.rs:1355-1380 | the entry layout of WASI preview 1 can be read back, cookie, inode, name length and kind |
| `VfsPages.ParseSees` | execution-engine/src/wasi/common.rs:1363-1377 | a program that parses the buffer finds exactly the entries that fit whole, and never takes a stale byte for one |
| `VfsPages.CallSees` | execution-engine/src/wasi/common.rs:1355-1381 | so after a call it sees those entries in as much of the buffer as it is told is used |
| `VfsPages.PagesListAll` | execution-engine/src/fs.rs:1289-1307 | over any number of calls, each resuming at the cookie of the last entry seen, with any memory contents at each call, it sees the entries once and in order, at least one a call |
| `VfsPages.PagesListDirectory` | execution-engine/src/fs.rs:1289-1307 | so with a buffer that holds the longest entry it has seen the whole directory after as many calls as there are entries |
| `Base64.Encode` | veracruz-mcu-client/base64.c:31-83 | the encoding has exactly the size the size function announces |
| `Base64.RoundTrip` | veracruz-mcu-client/base64.c:51-182 | decoding undoes encoding for every byte string |
| `Base64.EncodeIsText` | veracruz-mcu-client/base64.c:51-83 | the encoder emits whole groups of valid, well-padded characters |
| `Base64.EncodeInto` | veracruz-mcu-client/base64.c:51-83 | the back-to-front encoder writes the encoding and a NUL and nothing else, also when output and input are one buffer |
| `Base64.StrNLen` | veracruz-mcu-client/base64.c:89-97 | the length up to the first NUL |
| `Base64.DecodeSizeIs` | veracruz-mcu-client/base64.c:103-112 | for text padded at the end the announced size is the decoded length |
| `Base64.DecodedSize` | veracruz-mcu-client/base64.c:103-112 | for every text the loop computes three bytes per group less one per trailing padding character, wrapping below zero |
| `Base64.Validate` | veracruz-mcu-client/base64.c:158-162 | accepts exactly the texts over the alphabet |
| `Base64.DecodeInto` | veracruz-mcu-client/base64.c:145-182 | the front-to-back decoder writes the decoded bytes and nothing else, also in place; a rejected text changes nothing and each error has its exact condition |
| `Responses.DecimalValue` | veracruz-server/src/server.rs:104-116 | the printed session id reads back as its value |
| `Responses.BlobsRoundTrip` | veracruz-server/src/server.rs:104-116 | the joined body parses to the concatenation of the blobs, empty blobs included |
| `McuClient.ShuffleBlobs` | veracruz-mcu-client/vc.c:147-170 | parsing in place, with the write position never passing the read position, gives what parsing the received text gives |
| `McuClient.IdRoundTrip` | veracruz-mcu-client/vc.c:133-142 | the id in front of a response is read back and the body starts after its space |
| `McuClient.Connection.RawSend` | veracruz-mcu-client/vc.c:74-179 | session id, pending bytes and return code as specified, also for unread bytes, bad ids and bad base64 |
| `McuClient.Connection.RawRecv` | veracruz-mcu-client/vc.c:190-207 | hands out the next pending bytes and keeps the rest, or times out |
| `McuClient.ServerReply` | veracruz-mcu-client/vc.c:127-179 | a formatted response is accepted whole: the id and the concatenated blobs |
| `McuClient.Conservation` | veracruz-mcu-client/vc.c:74-207 | over every run of sends and receives, delivered plus pending bytes are the accepted ones: no loss, no repeat, no reordering |
| `McuClient.ReadsWhatWasSaid` | veracruz-mcu-client/vc.c:74-207 | end to end: what TLS reads is a prefix of what the enclave said, byte for byte |
| `RustClient.InsecureConnection.Read` | veracruz-client/src/veracruz_client.rs:46-55 | hands out the next buffered bytes and keeps the rest |
| `RustClient.InsecureConnection.Write` | veracruz-client/src/veracruz_client.rs:57-109 | session id, buffer and outcome as specified, also when a later item does not decode |
| `RustClient.DecodeIsStandard` | veracruz-mcu-client/base64.c:145-182 | what is asked of the base64 crate, to decode the standard encoding, the decoder of the microcontroller client does |
| `RustClient.ServerReply` | veracruz-client/src/veracruz_client.rs:88-106 | a formatted response sets the id and appends the concatenated blobs |
| `RustClient.ReadsWhatWasSaid` | veracruz-client/src/veracruz_client.rs:46-107 | end to end over every run of writes and reads |
| `Reassembly.PrefixRoundTrip` | transport-protocol/src/custom.rs:74-97 | stripping the big-endian prefix gives back length and message |
| `Reassembly.IncomingBuffers.HandleProtocolBuffer` | transport-protocol/src/custom.rs:109-150 | map and answer as specified, also for a chunk too short for the prefix |
| `Reassembly.PendingInRuns` | transport-protocol/src/custom.rs:109-150 | in every run every stored buffer is strictly shorter than announced |
| `Reassembly.Isolated` | transport-protocol/src/custom.rs:109-150 | a session is answered as if its chunks had come alone, whatever other sessions do in between |
| `Reassembly.Gathers` | transport-protocol/src/custom.rs:109-150 | chunks that complete only at the last one are answered with partial until then and with everything after the prefix; nothing is trimmed |
| `Reassembly.Reassembles` | transport-protocol/src/custom.rs:74-150 | every split of a message is answered with partial until the last chunk and then with exactly the message |
| `Reassembly.DeliversMessages` | transport-protocol/src/custom.rs:109-150 | in every interleaving a session whose chunks split its messages gets exactly these, in order |
| `Framing.SendBuffer` | io-utils/src/fd.rs:16-44 | for every pattern of partial writes exactly one frame is sent, or a proper prefix of it and an error |
| `Framing.ReceiveBuffer` | io-utils/src/fd.rs:48-76 | for every pattern of partial reads exactly the first frame is taken off the stream, or it fails within it |
| `Framing.HeaderRoundTrip` | io-utils/src/fd.rs:22-31 | the header announces the length of its frame |
| `Framing.FrameRoundTrip` | io-utils/src/fd.rs:16-76 | receiving what was sent gives the message and leaves what follows |
| `Framing.ReceivesWhatWasSent` | io-utils/src/fd.rs:16-76 | for every interleaving of partial writes and reads the messages received are a prefix of those sent, and all of them once everything is read, with no byte left over |
| `Framing.RunsEnd` | io-utils/src/fd.rs:16-76 | a run in which every event moves a byte has at most two events for each byte of the frames, and one of that length has received all messages |
| `Framing.StuckIffReceived` | io-utils/src/fd.rs:16-76 | no run gets stuck: it cannot go on if and only if all messages are received |
| `Attestation.Registry.Start` | proxy-attestation-server/src/attestation.rs:91-119 | takes the next id and stores a context under it if the protocol is known |
| `Attestation.FetchThenInsert` | proxy-attestation-server/src/attestation.rs:110-119 | the two steps of an uninterrupted start are the method |
| `Attestation.FetchFresh` | proxy-attestation-server/src/attestation.rs:110-110 | below 2^32 starts an id handed out is new |
| `Attestation.InsertFresh` | proxy-attestation-server/src/attestation/nitro.rs:89-96 | different starts keep different ids |
| `Nitro.AttestationToken` | proxy-attestation-server/src/attestation/nitro.rs:103-210 | contexts and answer as specified, with each refusal |
| `Nitro.TakeThenFinish` | proxy-attestation-server/src/attestation/nitro.rs:103-210 | the two steps of an uninterrupted token request are the method |
| `Nitro.CertificatesAnswerStarts` | proxy-attestation-server/src/attestation/nitro.rs:83-181 | in every interleaving each certificate answers an earlier start of that device whose challenge its document carries |
| `Nitro.StartsAreConsumedOnce` | proxy-attestation-server/src/attestation/nitro.rs:141-161 | in every interleaving of locked sections no two certificates are given out for one start |
| `Psa.AttestationToken` | proxy-attestation-server/src/attestation/psa.rs:68-191 | contexts and answer as specified, with each refusal; the context stays unless a certificate goes out |
| `Psa.OneAtATime` | proxy-attestation-server/src/attestation/psa.rs:82-188 | the three steps of an uninterrupted token request are the method |
| `Psa.CertificatesAnswerStarts` | proxy-attestation-server/src/attestation/psa.rs:151-188 | in every interleaving each certificate answers an earlier start whose challenge the token carries, for the request whose hash is in the token |
| `Psa.OnceIffRemovalsFind` | proxy-attestation-server/src/attestation/psa.rs:82-188 | the exact condition, for every interleaving of up to 2^32 starts: no start yields two certificates if and only if no removal in the second locked section finds its context gone |
| `Psa.OneCertificatePerStart` | proxy-attestation-server/src/attestation/psa.rs:82-188 | so at most one request per device under way at a time is enough |
| `Psa.TwoCertificatesForOneStart` | proxy-attestation-server/src/attestation/psa.rs:82-188 | and a run with two certificates exists after a single start, for every token that passes |
| `Strace.StraceString` | execution-engine/src/wasi/strace.rs:38-63 | the loop prints the specified text |
| `Strace.UnescapeOne` | execution-engine/src/wasi/strace.rs:43-56 | one printed byte is read back: padding the octal form exactly before a digit is enough |
| `Strace.Unambiguous` | execution-engine/src/wasi/strace.rs:38-63 | the bytes shown, up to the limit, and whether more were cut off, can be read back from every printed text |

## Left out

- Native services: only that a service file is cleared on close is modelled, not the call inside `fd_pwrite`.
- Descriptor flags, advice, timestamps, `fd_tell`, `path_filestat_*` and `fd_prestat_*`: no modelled operation depends on what they store or report; the other operations only return an error.
- `is_executable`, `write_stdin`, `read_stdout` and `read_stderr`: short compositions of modelled operations.
- The cipher suite check of `assert_valid`, which is compiled out.
- Rows of 2^32 and more paths in a policy, where numbering pre-opened descriptors would overflow.
- Subtree confinement and reachability of inodes: `..` is an ordinary entry, and a create that fails leaves an unlinked inode.
- FileSystems.FileSystem.FdPwrite: without the call of a service at the end of a write to its file.
- VfsReaddir.PackDirents: takes the byte encoding of a directory entry, of 24 bytes, as a parameter, because the crate that lays it out is not part of the repository; VfsPages.LayoutReads instantiates it with the layout of WASI preview 1.
- Base64.DecodeInto: asks of a text it accepts that the padding is at the end; for `=` elsewhere the decoder skips bytes of the output, so its result depends on what was in the buffer. Every text it refuses is covered.
- McuClient.ShuffleBlobs: the same for each token; a NUL in the body is not covered, because the loop then does not end.
- McuClient.Connection.RawSend: the same; formatting of the request and the HTTP exchange are not modelled, and the reply is shorter than the receive buffer, as the terminating NUL needs.
- RustClient.InsecureConnection.Write: the body is ASCII text; other Unicode white space is not modelled.
- Framing.ReceiveBuffer: asks for a whole frame on the stream, because the loop does not end at end of file; Framing.ReceivesWhatWasSent covers streams with partial frames.
- TLS, X.509, COSE, CBOR and protobuf: wrappers over libraries that are not part of the repository.
- io-utils/src/raw_fd.rs: the same framing again.
- Server processes, sockets, HTTP, command lines and the glue to the WebAssembly engines.
