/**
  The jacobsa/fuse binding: operation handlers over the fixed tree. A
  handler answers an error or success, and on success the fields of the
  operation it fills in; those are returned as the updated operation.
 */
module Jacobsa {
  import opened Fuse
  import opened InodeTree
  import opened Bytes
  import opened DirentBuffer

  /** The tree `init` builds. jacobsa's attributes carry no inode number
      but do carry a creation time; every entry records `Offset: 1`; the
      file's mode has no type bit, which `os.FileMode` reads as a regular
      file. */
  function BuildTree(contentLen: nat, now: nat): (t: Tree)
    ensures StandardShape(t, contentLen)
    ensures WellFormed(t)
    ensures forall id | id in t :: t[id].attr.ino == 0 && t[id].attr.crtime == now
    ensures forall id, i | id in t && 0 <= i < |t[id].children| :: t[id].children[i].offset == 1
    ensures t[InodeFile1].attr.mode.fileType == TypeNone
  {
    var dirAttr := Attr(0, 1, 1, Mode(TypeDir, PermDir), now, now, now, now);
    var t := map[
      InodeRoot := INode(dirAttr, true, [DirEntry(InodeDir1, "dir-1", Mode(TypeDir, 0), 1)]),
      InodeDir1 := INode(dirAttr, true, [DirEntry(InodeFile1, "file-1", Mode(TypeReg, 0), 1)]),
      InodeFile1 := INode(Attr(0, contentLen, 0, Mode(TypeNone, PermReadOnly), now, now, now, now), false, [])
    ];
    StandardShapeWellFormed(t, contentLen);
    t
  }

  /** The part of `LookUpInodeOp.Entry` the handler fills. */
  datatype ChildInodeEntry = ChildInodeEntry(child: nat, attributes: Attr)

  /** `LookUpInode`: resolve `name` among the children of `parent`; the
      answer carries the child's stored attributes as they are. */
  function LookUpInode(t: Tree, parent: nat, name: string): (r: Result<ChildInodeEntry>)
    ensures r.Err? ==> r.errno == ENOENT
    ensures parent !in t ==> r.Err?
    ensures parent in t ==> (r.Ok? <==> exists i | 0 <= i < |t[parent].children| :: t[parent].children[i].name == name)
    ensures r.Ok? ==> parent in t && FindInode(name, t[parent].children) == Ok(r.value.child)
    ensures r.Ok? ==> r.value.attributes == AttrOf(t, r.value.child)
  {
    if parent !in t then Err(ENOENT)
    else
      match FindInode(name, t[parent].children)
      case Err(e) => Err(e)
      case Ok(child) => Ok(ChildInodeEntry(child, AttrOf(t, child)))
  }

  /** `GetInodeAttributes`: the stored attributes of a node, or ENOENT. */
  function GetInodeAttributes(t: Tree, inode: nat): (r: Result<Attr>)
    ensures r.Err? <==> inode !in t
    ensures r.Err? ==> r.errno == ENOENT
    ensures r.Ok? ==> r.value == t[inode].attr
  {
    if inode !in t then Err(ENOENT) else Ok(t[inode].attr)
  }

  /** `OpenDir`: no handle is created and the id is not checked. */
  function OpenDir(t: Tree, inode: nat): (r: Result<()>)
    ensures r.Ok?
  {
    Ok(())
  }

  /** `OpenFile`: as `OpenDir`. */
  function OpenFile(t: Tree, inode: nat): (r: Result<()>)
    ensures r.Ok?
  {
    Ok(())
  }

  /** The fields of `ReadDirOp` the handler reads or writes. */
  datatype ReadDirOp = ReadDirOp(inode: nat, offset: nat, dst: seq<bv8>, bytesRead: nat)

  /** `ReadDir`: write the children from `offset` on into `dst` after the
      `bytesRead` bytes already there, stopping at the first one that does
      not fit. An offset past the end is an I/O error. */
  function ReadDir(t: Tree, op: ReadDirOp, encode: Encoder): (r: Result<ReadDirOp>)
    requires op.bytesRead <= |op.dst|
    ensures op.inode !in t ==> r == Err(ENOENT)
    ensures op.inode in t && !t[op.inode].dir ==> r == Err(EIO)
    ensures op.inode in t && t[op.inode].dir && op.offset > |t[op.inode].children| ==> r == Err(EIO)
    ensures r.Ok? <==> op.inode in t && t[op.inode].dir && op.offset <= |t[op.inode].children|
    ensures r.Ok? ==>
      var entries := t[op.inode].children[op.offset..];
      var k := Fill(entries, |op.dst| - op.bytesRead, encode);
      var written := Encoded(entries[..k], encode);
      && r.value.inode == op.inode && r.value.offset == op.offset
      && r.value.bytesRead == op.bytesRead + |written|
      && r.value.bytesRead <= |op.dst|
      && r.value.dst == op.dst[..op.bytesRead] + written + op.dst[r.value.bytesRead..]
      && (k < |entries| ==> !Fits(entries[k], |op.dst| - r.value.bytesRead, encode))
    ensures r.Ok? && op.offset == |t[op.inode].children| ==> r.value == op
  {
    if op.inode !in t then Err(ENOENT)
    else
      var info := t[op.inode];
      if !info.dir then Err(EIO)
      else
        var entries := info.children;
        if op.offset > |entries| then Err(EIO)
        else
          var w := WriteEntries(entries[op.offset..], op.dst, op.bytesRead, encode);
          WriteEntriesWritesFill(entries[op.offset..], op.dst, op.bytesRead, encode);
          FillFits(entries[op.offset..], |op.dst| - op.bytesRead, encode);
          assert op.offset == |entries| ==> entries[op.offset..][..0] == [] && op.dst == op.dst[..op.bytesRead] + op.dst[op.bytesRead..];
          Ok(op.(dst := w.buf, bytesRead := w.n))
  }

  /** The fields of `ReadFileOp` the handler reads or writes. */
  datatype ReadFileOp = ReadFileOp(inode: nat, offset: nat, dst: seq<bv8>, bytesRead: nat)

  /** `ReadFile`: copy the file's bytes from `offset` on into `dst`, as
      many as fit, and record how many in `bytesRead`. The inode is not
      consulted and no request fails; at or past the end nothing changes. */
  function ReadFile(content: seq<bv8>, op: ReadFileOp): (r: Result<ReadFileOp>)
    ensures r.Ok?
    ensures op.offset >= |content| ==> r == Ok(op)
    ensures op.offset < |content| ==>
      var n := Min(|op.dst|, |content| - op.offset);
      r == Ok(op.(dst := content[op.offset..op.offset + n] + op.dst[n..], bytesRead := n))
  {
    var contentSize := |content|;
    if op.offset >= contentSize then Ok(op)
    else
      var size := |op.dst|;
      var end := size + op.offset;
      if end > contentSize then
        CopyAll(op.dst, content[op.offset..]);
        assert content[op.offset..] == content[op.offset..contentSize];
        Ok(op.(dst := Copy(op.dst, content[op.offset..]), bytesRead := contentSize - op.offset))
      else
        CopyAll(op.dst, content[op.offset..end]);
        Ok(op.(dst := Copy(op.dst, content[op.offset..end]), bytesRead := size))
  }

  /** An id outside the tree is refused by every handler that looks it up,
      yet file reads still succeed, because `ReadFile` never looks. */
  lemma UnknownId(t: Tree, content: seq<bv8>, inode: nat, name: string, op: ReadDirOp, fop: ReadFileOp, encode: Encoder)
    requires inode !in t
    requires op.inode == inode && op.bytesRead <= |op.dst|
    ensures GetInodeAttributes(t, inode) == Err(ENOENT)
    ensures LookUpInode(t, inode, name) == Err(ENOENT)
    ensures ReadDir(t, op, encode) == Err(ENOENT)
    ensures OpenDir(t, inode).Ok? && OpenFile(t, inode).Ok?
    ensures ReadFile(content, fop.(inode := inode)).Ok?
  {
  }

  /** Reading from 0 into a buffer as large as the file copies the whole
      file. */
  lemma ReadFileWholeFile(content: seq<bv8>, inode: nat, dst: seq<bv8>)
    requires |dst| == |content|
    ensures var r := ReadFile(content, ReadFileOp(inode, 0, dst, 0)).value;
            r.bytesRead == |content| && r.dst == content
  {
  }

  /** The bytes one `ReadDir` call at `offset` delivers into a fresh
      `room`-byte buffer: the encodings of the entries `Fill` counts, which
      is the first page of `DrainDir` from `offset`. */
  function Page(t: Tree, inode: nat, offset: nat, room: nat, encode: Encoder): (page: seq<bv8>)
    requires inode in t && t[inode].dir && offset <= |t[inode].children|
    ensures var entries := t[inode].children[offset..];
            page == Encoded(entries[..Fill(entries, room, encode)], encode)
  {
    var r := ReadDir(t, ReadDirOp(inode, offset, Zeros(room), 0), encode).value;
    r.dst[..r.bytesRead]
  }

  /** The bytes a listing of `inode` delivers over successive `ReadDir`
      calls from `offset` on, each into a fresh `room`-byte buffer and each
      resuming at the offset after the entries already delivered (the
      handler indexes the children by offset). The listing ends at the
      first call that writes no entry: at the end of the directory, or at
      an entry too large for an empty buffer. */
  ghost function DrainDir(t: Tree, inode: nat, offset: nat, room: nat, encode: Encoder): (listing: seq<bv8>)
    requires inode in t && t[inode].dir && offset <= |t[inode].children|
    decreases |t[inode].children| - offset
  {
    var k := Fill(t[inode].children[offset..], room, encode);
    if k == 0 then []
    else Page(t, inode, offset, room, encode) + DrainDir(t, inode, offset + k, room, encode)
  }

  /** The inductive step of `DrainDirDeliversAll`: one call delivers the
      first page, so if the listing from where that page stopped delivers
      the rest, the listing from `offset` delivers everything. */
  lemma DrainDirStep(t: Tree, inode: nat, offset: nat, room: nat, encode: Encoder)
    requires inode in t && t[inode].dir && offset <= |t[inode].children|
    requires var k := Fill(t[inode].children[offset..], room, encode);
             0 < k
             && DrainDir(t, inode, offset + k, room, encode) == Encoded(t[inode].children[offset + k..], encode)
    ensures DrainDir(t, inode, offset, room, encode) == Encoded(t[inode].children[offset..], encode)
  {
    var c := t[inode].children;
    var entries := c[offset..];
    var k := Fill(entries, room, encode);
    assert c[offset + k..] == entries[k..];
    EncodedSplit(entries, k, encode);
  }

  /** When every child from `offset` on fits in an empty buffer, a listing
      resumed call after call delivers each of them exactly once, in
      stored order. */
  lemma {:induction false} DrainDirDeliversAll(t: Tree, inode: nat, offset: nat, room: nat, encode: Encoder)
    requires inode in t && t[inode].dir && offset <= |t[inode].children|
    requires forall i | offset <= i < |t[inode].children| :: Fits(t[inode].children[i], room, encode)
    ensures DrainDir(t, inode, offset, room, encode) == Encoded(t[inode].children[offset..], encode)
    decreases |t[inode].children| - offset
  {
    var c := t[inode].children;
    if offset == |c| {
      DrainDirAtEnd(t, inode, room, encode);
    } else {
      FillMakesProgress(c[offset..], room, encode);
      DrainDirDeliversAll(t, inode, offset + Fill(c[offset..], room, encode), room, encode);
      DrainDirStep(t, inode, offset, room, encode);
    }
  }

  /** At the end of the directory the listing delivers nothing. */
  lemma DrainDirAtEnd(t: Tree, inode: nat, room: nat, encode: Encoder)
    requires inode in t && t[inode].dir
    ensures DrainDir(t, inode, |t[inode].children|, room, encode) == []
            == Encoded(t[inode].children[|t[inode].children|..], encode)
  {
  }

  /** The start-up scenario on a 1 GiB file: resolve the path, then read
      the last 4 bytes with a 16-byte buffer, then read at the end. */
  lemma Scenario(content: seq<bv8>, now: nat, dst: seq<bv8>)
    requires |content| == ContentSize
    requires |dst| == 16
    ensures var t := BuildTree(|content|, now);
            && LookUpInode(t, InodeRoot, "dir-1").value.child == InodeDir1
            && LookUpInode(t, InodeDir1, "file-1").value.child == InodeFile1
            && GetInodeAttributes(t, InodeFile1).value.size == ContentSize
    ensures var r := ReadFile(content, ReadFileOp(InodeFile1, ContentSize - 4, dst, 0)).value;
            r.bytesRead == 4 && r.dst[..4] == content[ContentSize - 4..]
    ensures ReadFile(content, ReadFileOp(InodeFile1, ContentSize, dst, 0)) == Ok(ReadFileOp(InodeFile1, ContentSize, dst, 0))
  {
    var t := BuildTree(|content|, now);
    FindInodeFindsEntry(t[InodeRoot].children, 0);
    FindInodeFindsEntry(t[InodeDir1].children, 0);
  }
}
