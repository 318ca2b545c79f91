# fuse-benchmark core in Dafny

A model of the request-handling core of a minimal read-only FUSE
filesystem, written twice in Go, against two bindings:
go-fuse (`hanwen/hanwen.go`) and jacobsa/fuse (`jacobsa/jacobsa.go`).
Both serve the same fixed inode tree: root (1) holds the directory
"dir-1" (2), which holds the regular file "file-1" (3). The file is
backed by one immutable byte buffer of 1 << 30 bytes.

The tree is a `map<nat, INode>`. An `INode` is the source's `iInfo`:
attributes, a directory flag and an ordered child list. Every handler is
a pure function that answers `Ok(payload)` or `Err(ENOENT | EIO)`. Because
nothing mutates the tree, repeated requests answer identically.

Modules:

- `Fuse` (fuse.dfy): status codes, `Result`, attributes, mode words and
  directory entries. Both bindings share these.
- `InodeTree` (inode_tree.dfy): the tree type, its well-formedness, the
  shape both builders produce, and `findInode`.
- `Bytes` (bytes.dfy): Go's `copy`, `min` and zero-filled buffers.
- `Hanwen` (hanwen.dfy): the go-fuse handlers.
- `DirentBuffer` (dirent_buffer.dfy): jacobsa's capacity-bounded listing
  loop. `WriteDirent` is modelled over an entry encoder passed in as a
  parameter.
- `Jacobsa` (jacobsa.dfy): the jacobsa/fuse handlers.
- `Bindings` (bindings.dfy): where the two bindings agree and where they
  differ.

The two bindings differ, and the model keeps each difference:

- go-fuse's `ReadDir` never reads the offset.
- go-fuse's `ReadDirPlus` answers OK with no entries past the end.
- jacobsa's `ReadDir` answers EIO past the end.
- Neither read handler looks at the node id.

Three behaviours of the code are easy to miss; the model keeps them:

- Reading never fails, even for an id outside the tree, because the read
  handlers do not consult the id.
- jacobsa's listing fails with EIO, rather than succeeding empty, when the
  offset is past the end.
- go-fuse's `ReadDir` re-offers every child however far the caller has
  got. `Hanwen.ReadDirIgnoresOffset` and `Bindings.OffsetPastEndDiverges`
  state this.

## Model

| member | source | states |
|---|---|---|
| `InodeTree.FindInode` | hanwen/hanwen.go:86-94 | The id of the first child whose name equals the query exactly, and ENOENT exactly when no child has that name. jacobsa/jacobsa.go:91-99 is the same scan. |
| `InodeTree.FindInodeFindsEntry` | jacobsa/jacobsa.go:91-99 | In a child list with unique names, looking up any entry's name finds that entry's id. |
| `InodeTree.FindInodeReadsNamesAndIds` | jacobsa/jacobsa.go:91-99 | The lookup depends only on the names and ids of the entries. Two lists that agree on those answer alike. |
| `InodeTree.StandardShapeWellFormed` | hanwen/hanwen.go:34-83 | In the shape both builders produce, every child id is a key of the tree, 0 is not an id, and names within a directory are unique. |
| `Hanwen.BuildTree` | hanwen/hanwen.go:12-84 | The tree has exactly ids 1, 2, 3 wired root → "dir-1" → "file-1". The file's size is the content length. Directories have size 1, one link and mode 0775. Every child id resolves. Each record's `Ino` is its own id. |
| `Hanwen.Lookup` | hanwen/hanwen.go:115-134 | ENOENT for an unknown parent or an unmatched name, and success exactly when some child has the name. The node id is what `findInode` finds. The attributes are the stored ones, except that a zero inode number is replaced by the node id; a nonzero one is kept. |
| `Hanwen.GetAttr` | hanwen/hanwen.go:136-144 | ENOENT exactly for ids outside the tree. Otherwise the stored attributes, unchanged. |
| `Hanwen.OpenDir` | hanwen/hanwen.go:146-149 | Always succeeds, whatever the id. |
| `Hanwen.Open` | hanwen/hanwen.go:194-197 | Always succeeds, whatever the id. |
| `Hanwen.ReadDir` | hanwen/hanwen.go:151-166 | ENOENT for an unknown id and EIO for a non-directory. Otherwise every child, in stored order, whatever the offset. |
| `Hanwen.ReadDirPlus` | hanwen/hanwen.go:168-192 | Fails exactly as `ReadDir` does. Past the end it succeeds with no entries. Otherwise the children before the offset followed by the answer are the whole child list. |
| `Hanwen.Read` | hanwen/hanwen.go:199-211 | Never fails. Empty at or past the end. Otherwise the bytes from the offset up to min(offset + buffer length, size). At most the buffer length, and exactly size − offset when the buffer is larger. Byte i of the answer is content byte offset + i. |
| `Hanwen.ReadIgnoresNodeId` | hanwen/hanwen.go:199-211 | Two reads that differ only in node id answer the same. |
| `Hanwen.ReadWholeFile` | hanwen/hanwen.go:199-211 | Reading from 0 with a buffer as large as the file returns the whole content. |
| `Hanwen.ReadsConcatenate` | hanwen/hanwen.go:199-211 | A read of n bytes followed by a read at offset + n of m bytes yields what one read of n + m bytes yields. |
| `Hanwen.ReadDirIgnoresOffset` | hanwen/hanwen.go:151-166 | The listing is the same for every offset. At the end of a non-empty directory, `ReadDir` still offers children while `ReadDirPlus` offers none. |
| `Hanwen.ReadDirPlusResumes` | hanwen/hanwen.go:178-189 | Resuming at offset k + n after taking n entries from offset k continues exactly where they stopped. At offset = number of children the answer is OK with no entries. |
| `Hanwen.LookupInWellFormed` | hanwen/hanwen.go:127-131 | In a well-formed tree the found child is a node, and the answer's inode number is nonzero. |
| `Hanwen.LookupAgreesWithGetAttr` | hanwen/hanwen.go:115-144 | In the built tree, what `Lookup` reports for a child is what `GetAttr` reports for it. |
| `Hanwen.ResolveOnlyBuiltNames` | hanwen/hanwen.go:115-134 | Under the root only "dir-1" resolves (to 2). Under "dir-1" only "file-1" resolves (to 3). Nothing resolves under the file. |
| `Hanwen.UnknownId` | hanwen/hanwen.go:115-211 | For an id outside the tree, `GetAttr`, `Lookup`, `ReadDir` and `ReadDirPlus` answer ENOENT. The open handlers and `Read` still succeed. |
| `Hanwen.Scenario` | hanwen/hanwen.go:199-211 | With 2^30 bytes of content, the path resolves to 1 → 2 → 3 and the file's size is 2^30. Listing the file is EIO. Reading 16 bytes at 2^30 − 4 gives the last 4 bytes, and reading at 2^30 gives nothing, successfully. |
| `Jacobsa.BuildTree` | jacobsa/jacobsa.go:22-89 | The same shape as go-fuse's tree, with all child ids resolving. No stored record carries an inode number. Every entry records offset 1. The file's mode has no type bit. |
| `Jacobsa.LookUpInode` | jacobsa/jacobsa.go:109-124 | ENOENT for an unknown parent or an unmatched name, and success exactly when some child has the name. The child is what `findInode` finds, and the attributes are the ones stored for it, unchanged. |
| `Jacobsa.GetInodeAttributes` | jacobsa/jacobsa.go:126-134 | ENOENT exactly for ids outside the tree. Otherwise the stored attributes, unchanged. |
| `Jacobsa.OpenDir` | jacobsa/jacobsa.go:136-138 | Always succeeds, whatever the id. |
| `Jacobsa.OpenFile` | jacobsa/jacobsa.go:167-169 | Always succeeds, whatever the id. |
| `Jacobsa.ReadDir` | jacobsa/jacobsa.go:140-165 | ENOENT for an unknown id, EIO for a non-directory, and EIO for an offset past the end. Otherwise it keeps the bytes before `BytesRead`, then writes the encodings of a prefix of the children from the offset, in order, then keeps the rest of the buffer. `BytesRead` grows by exactly their total length and never exceeds the buffer. The first child not written does not fit in the room left. At offset = number of children the operation comes back unchanged. |
| `Jacobsa.ReadFile` | jacobsa/jacobsa.go:171-187 | Never fails. At or past the end the operation comes back unchanged. Otherwise, with n = min(len(Dst), size − offset), `BytesRead` becomes n and Dst becomes the n content bytes from the offset followed by the rest of Dst. |
| `Bytes.Copy` | jacobsa/jacobsa.go:179-183 | Go's `copy`: the destination keeps its length. Each of its first min(len(dst), len(src)) bytes takes the source's byte, and every later byte is kept. |
| `Bytes.CopyAll` | jacobsa/jacobsa.go:179-183 | A source no longer than the destination is copied whole, in front of the destination's remaining bytes. |
| `Jacobsa.UnknownId` | jacobsa/jacobsa.go:109-187 | For an id outside the tree, `GetInodeAttributes`, `LookUpInode` and `ReadDir` answer ENOENT. The open handlers and `ReadFile` still succeed. |
| `Jacobsa.ReadFileWholeFile` | jacobsa/jacobsa.go:171-187 | Reading from 0 into any destination as large as the file sets `BytesRead` to the size and leaves the whole content in the destination. |
| `Jacobsa.Page` | jacobsa/jacobsa.go:140-165 | One listing call into a fresh buffer delivers the encodings of exactly the entries the greedy fill counts. |
| `Jacobsa.Scenario` | jacobsa/jacobsa.go:171-187 | With 2^30 bytes of content, the path resolves to 1 → 2 → 3 and the file's size is 2^30. Reading into a 16-byte Dst at 2^30 − 4 sets `BytesRead` = 4 with the last 4 bytes. Reading at 2^30 succeeds and changes nothing. |
| `DirentBuffer.WriteDirent` | jacobsa/jacobsa.go:157-160 | The writer accepts an entry exactly when its encoding is non-empty and fits in the buffer. It then places the encoding at the front and answers its length. Otherwise it answers 0 and leaves the buffer as it was. |
| `DirentBuffer.Fill` | jacobsa/jacobsa.go:155-162 | The number of leading entries the loop writes. It never exceeds the number of entries remaining. |
| `DirentBuffer.FillFits` | jacobsa/jacobsa.go:155-162 | The counted entries are the longest prefix the loop can write. Their encodings fit in the room together, each is non-empty, and the next entry, if any, does not fit in what is left. |
| `DirentBuffer.WriteEntries` | jacobsa/jacobsa.go:155-163 | The listing loop as written. It keeps the buffer's length. |
| `DirentBuffer.WriteEntriesWritesFill` | jacobsa/jacobsa.go:155-163 | The loop writes exactly the entries `Fill` counts. The bytes before `BytesRead` are kept, those entries' encodings follow in order, `BytesRead` ends after them, and the bytes after it are kept. |
| `DirentBuffer.FillTakesAll` | jacobsa/jacobsa.go:155-163 | When every entry's encoding is non-empty and all of them fit together, the loop writes them all. |
| `DirentBuffer.FillMakesProgress` | jacobsa/jacobsa.go:157-161 | If the first remaining entry fits, the call writes at least one entry. |
| `Jacobsa.DrainDirDeliversAll` | jacobsa/jacobsa.go:140-165 | A directory listed by successive `ReadDir` calls, each into a fresh buffer and each resuming at the offset after the entries already delivered, yields every child from the start offset exactly once, in stored order, provided each child fits in an empty buffer. |
| `Bindings.TreesAgree` | hanwen/hanwen.go:31-84 | Both builders produce the same ids, directory flags, child names, ids and entry types in order, sizes, link counts and permissions, and set access, modification and change times from the same clock value. Beyond that they differ in: the stored inode number (the node id in go-fuse, none in jacobsa); the creation time (0 in go-fuse, `now` in jacobsa); the file's type bits; and, in each child entry, the permission bits (0775 in go-fuse, 0 in jacobsa) and the offset (0 in go-fuse, 1 in jacobsa). |
| `Bindings.LookupsAgree` | jacobsa/jacobsa.go:109-124 | In both bindings the same names resolve, to the same ids with the same sizes. Failures carry the same status. |
| `Bindings.OffsetPastEndDiverges` | jacobsa/jacobsa.go:150-153 | Past the end of a directory, go-fuse's `ReadDir` offers every child, its `ReadDirPlus` succeeds empty, and jacobsa's `ReadDir` is EIO. |
| `Bindings.ListingErrorsAgree` | jacobsa/jacobsa.go:140-148 | Listing a non-directory is EIO in all three listing handlers, and listing an unknown id is ENOENT in all three. |
| `Bindings.ListingsAgreeWhenRoomSuffices` | jacobsa/jacobsa.go:155-163 | When the buffer has room for everything from the offset on, jacobsa writes the encodings of exactly the entries go-fuse's `ReadDirPlus` returns. |
| `Bindings.ReadsAgree` | jacobsa/jacobsa.go:171-187 | The bytes jacobsa's `ReadFile` copies into a destination are the bytes go-fuse's `Read` returns for a buffer of the same length, at every offset. |

## Left out

- `main` in both files (argument check, server creation, mount, serve/join): process and mount plumbing.
- `StatFs`, `StatFS` and `Init`: they only log or answer OK.
- Content filling (`rand.Read`): randomness cannot be specified. The content is an arbitrary `seq<bv8>` parameter, of length 2^30 in the scenarios.
- Timestamps (`time.Now()`): the clock is an opaque number `now`.
- Bindings.TreesAgree: both builders are given one clock value `now`, which hides that go-fuse stores whole seconds (`uint64(time.Now().Unix())`, hanwen/hanwen.go:25, with the nanosecond fields 0) while jacobsa stores a full `time.Time` with nanoseconds (jacobsa/jacobsa.go:29). The two trees' timestamps differ whenever the clock is not on a whole second.
- go-fuse's `DirEntryList.AddDirEntry` / `AddDirLookupEntry`: go-fuse library code. The model treats the list as a sink that appends every entry offered to it. Any capacity check inside the library, and the entry slot that `AddDirLookupEntry` returns, are not modelled.
- `fuseutil.WriteDirent`'s byte layout: jacobsa/fuse library code. It is abstracted as an encoder parameter, and the writer refuses an encoding that is empty or longer than the room left.
- Mode-bit constants (`fuse.S_IFDIR`, `fuse.S_IFREG`, `os.ModeDir`) and dirent type constants: library-defined values. A directory/regular/none type tag stands in for them.
- Cancel channels and `context.Context`: the handlers never read them. Concurrent dispatch is not modelled either; it is the transport's concern.
- Fields of the reply structures that the handlers never write (entry generation, cache timeouts, file handles): they are not part of the core's answer.
- Integer widths: ids, offsets and sizes are `nat`. The Go `uint64`/`int64` sums cannot overflow here, since the offset is below 2^30 whenever `end` is computed. A negative jacobsa `Offset` (an `int64`) is not modelled, because the kernel never sends one.
- Jacobsa.DrainDirDeliversAll: the listing resumes at the number of entries already delivered, which is what the handler's offset indexes. The kernel instead resumes at the `Offset` recorded in the last entry it received, and the tree sets that field to 1 for every entry. That client behaviour is not modelled.
- Jacobsa.ReadDir: requires `BytesRead <= len(Dst)`. The Go loop would panic slicing `Dst[BytesRead:]` otherwise, at least when an entry remains to be written.
