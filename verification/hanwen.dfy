/**
  The go-fuse (hanwen) binding: raw request handlers over the fixed tree.
  Every handler is a pure function of the tree (or of the file content)
  and the request fields it reads.
 */
module Hanwen {
  import opened Fuse
  import opened InodeTree
  import opened Bytes

  /** The tree `init` builds. go-fuse's `Attr` carries the inode number, so
      every stored record names its own id; `now` stands for the start-up
      clock reading shared by all timestamps. */
  function BuildTree(contentLen: nat, now: nat): (t: Tree)
    ensures StandardShape(t, contentLen)
    ensures WellFormed(t)
    ensures forall id | id in t :: t[id].attr.ino == id
    ensures t[InodeFile1].attr.mode.fileType == TypeReg
  {
    var dirAttr := (id: nat) => Attr(id, 1, 1, Mode(TypeDir, PermDir), now, now, now, 0);
    var t := map[
      InodeRoot := INode(dirAttr(InodeRoot), true,
                         [DirEntry(InodeDir1, "dir-1", Mode(TypeDir, PermDir), 0)]),
      InodeDir1 := INode(dirAttr(InodeDir1), true,
                         [DirEntry(InodeFile1, "file-1", Mode(TypeReg, PermDir), 0)]),
      InodeFile1 := INode(Attr(InodeFile1, contentLen, 0, Mode(TypeReg, PermReadOnly), now, now, now, 0),
                          false, [])
    ];
    StandardShapeWellFormed(t, contentLen);
    t
  }

  /** The part of `fuse.EntryOut` the handler fills: the node id and the
      embedded attribute record (whose `Ino` is `out.Ino`). */
  datatype EntryOut = EntryOut(nodeId: nat, attr: Attr)

  /** `Lookup`: resolve `name` among the children of `parent`. The answer
      carries the stored attributes of the child found, with a zero inode
      number replaced by the node id. */
  function Lookup(t: Tree, parent: nat, name: string): (r: Result<EntryOut>)
    ensures r.Err? ==> r.errno == ENOENT
    ensures parent !in t ==> r.Err?
    ensures parent in t ==> (r.Ok? <==> exists i | 0 <= i < |t[parent].children| :: t[parent].children[i].name == name)
    ensures r.Ok? ==> parent in t && FindInode(name, t[parent].children) == Ok(r.value.nodeId)
    ensures r.Ok? ==> r.value.attr.(ino := 0) == AttrOf(t, r.value.nodeId).(ino := 0)
    ensures r.Ok? && AttrOf(t, r.value.nodeId).ino != 0 ==> r.value.attr.ino == AttrOf(t, r.value.nodeId).ino
    ensures r.Ok? && AttrOf(t, r.value.nodeId).ino == 0 ==> r.value.attr.ino == r.value.nodeId
  {
    if parent !in t then Err(ENOENT)
    else
      match FindInode(name, t[parent].children)
      case Err(e) => Err(e)
      case Ok(child) =>
        var attr := AttrOf(t, child);
        Ok(EntryOut(child, if attr.ino == 0 then attr.(ino := child) else attr))
  }

  /** `GetAttr`: the stored attributes of a node, or ENOENT. */
  function GetAttr(t: Tree, nodeId: nat): (r: Result<Attr>)
    ensures r.Err? <==> nodeId !in t
    ensures r.Err? ==> r.errno == ENOENT
    ensures r.Ok? ==> r.value == t[nodeId].attr
  {
    if nodeId !in t then Err(ENOENT) else Ok(t[nodeId].attr)
  }

  /** `OpenDir`: no handle is created and the id is not checked. */
  function OpenDir(t: Tree, nodeId: nat): (r: Result<()>)
    ensures r.Ok?
  {
    Ok(())
  }

  /** `Open`: as `OpenDir`. */
  function Open(t: Tree, nodeId: nat): (r: Result<()>)
    ensures r.Ok?
  {
    Ok(())
  }

  /** `ReadDir`: the entries handed to the listing sink. The request's
      offset is never read, so every child is offered, in stored order. */
  function ReadDir(t: Tree, nodeId: nat, offset: nat): (r: Result<seq<DirEntry>>)
    ensures nodeId !in t ==> r == Err(ENOENT)
    ensures nodeId in t && !t[nodeId].dir ==> r == Err(EIO)
    ensures nodeId in t && t[nodeId].dir ==> r.Ok? && r.value == t[nodeId].children
  {
    if nodeId !in t then Err(ENOENT)
    else if !t[nodeId].dir then Err(EIO)
    else Ok(t[nodeId].children)
  }

  /** `ReadDirPlus`: the entries from `offset` on, or none when the offset
      is past the end. */
  function ReadDirPlus(t: Tree, nodeId: nat, offset: nat): (r: Result<seq<DirEntry>>)
    ensures r.Err? ==> r == ReadDir(t, nodeId, offset)
    ensures nodeId in t && t[nodeId].dir <==> r.Ok?
    ensures r.Ok? && offset > |t[nodeId].children| ==> r.value == []
    ensures r.Ok? && offset <= |t[nodeId].children| ==>
      t[nodeId].children[..offset] + r.value == t[nodeId].children
  {
    if nodeId !in t then Err(ENOENT)
    else if !t[nodeId].dir then Err(EIO)
    else if offset > |t[nodeId].children| then Ok([])
    else Ok(t[nodeId].children[offset..])
  }

  /** `Read`: the bytes of the one file from `offset` on, at most `bufLen`
      of them. The node id is not consulted and no request fails. */
  function Read(content: seq<bv8>, nodeId: nat, offset: nat, bufLen: nat): (r: Result<seq<bv8>>)
    ensures r.Ok?
    ensures offset >= |content| ==> r.value == []
    ensures offset < |content| ==> r.value == content[offset..Min(offset + bufLen, |content|)]
    ensures |r.value| <= bufLen
    ensures offset < |content| && bufLen >= |content| - offset ==> |r.value| == |content| - offset
    ensures forall i | 0 <= i < |r.value| :: offset + i < |content| && r.value[i] == content[offset + i]
  {
    var contentSize := |content|;
    if offset >= contentSize then Ok([])
    else
      var end := bufLen + offset;
      if end > contentSize then Ok(content[offset..])
      else Ok(content[offset..end])
  }

  /** The node id plays no part in a read. */
  lemma ReadIgnoresNodeId(content: seq<bv8>, a: nat, b: nat, offset: nat, bufLen: nat)
    ensures Read(content, a, offset, bufLen) == Read(content, b, offset, bufLen)
  {
  }

  /** Reading from 0 with a buffer as large as the file returns the whole
      file. */
  lemma ReadWholeFile(content: seq<bv8>, nodeId: nat)
    ensures Read(content, nodeId, 0, |content|) == Ok(content)
  {
    assert content[0..|content|] == content;
  }

  /** Two reads where the second starts where the first one's buffer ends
      return exactly what one read with both buffers' room returns. */
  lemma ReadsConcatenate(content: seq<bv8>, nodeId: nat, offset: nat, n: nat, m: nat)
    ensures Read(content, nodeId, offset, n).value + Read(content, nodeId, offset + n, m).value
         == Read(content, nodeId, offset, n + m).value
  {
    var size := |content|;
    if offset < size {
      if offset + n < size {
        var mid := offset + n;
        var end := Min(mid + m, size);
        assert content[offset..mid] + content[mid..end] == content[offset..end];
      }
    }
  }

  /** `ReadDir` answers the same whatever the offset, so a caller that
      resumes after the last child is offered every child again, where
      `ReadDirPlus` offers none. */
  lemma ReadDirIgnoresOffset(t: Tree, nodeId: nat, a: nat, b: nat)
    ensures ReadDir(t, nodeId, a) == ReadDir(t, nodeId, b)
    ensures nodeId in t && t[nodeId].dir && t[nodeId].children != [] ==>
      var n := |t[nodeId].children|;
      ReadDir(t, nodeId, n).value != [] && ReadDirPlus(t, nodeId, n).value == []
  {
  }

  /** Listing with `ReadDirPlus` from offset 0, then from the count
      received so far, delivers each child once and in order, and nothing
      once the offset reaches the end. */
  lemma ReadDirPlusResumes(t: Tree, nodeId: nat, k: nat, n: nat)
    requires nodeId in t && t[nodeId].dir
    requires k + n <= |t[nodeId].children|
    ensures ReadDirPlus(t, nodeId, k).value[..n] + ReadDirPlus(t, nodeId, k + n).value
         == ReadDirPlus(t, nodeId, k).value
    ensures ReadDirPlus(t, nodeId, |t[nodeId].children|) == Ok([])
  {
    var c := t[nodeId].children;
    assert ReadDirPlus(t, nodeId, k).value == c[k..];
    assert ReadDirPlus(t, nodeId, k + n).value == c[k + n..];
    assert c[k..][..n] + c[k + n..] == c[k..];
  }

  /** A found child of a well-formed tree is a node, and its inode number
      in the answer is never zero. */
  lemma LookupInWellFormed(t: Tree, parent: nat, name: string)
    requires WellFormed(t)
    requires Lookup(t, parent, name).Ok?
    ensures Lookup(t, parent, name).value.nodeId in t
    ensures Lookup(t, parent, name).value.attr.ino != 0
  {
    var c := t[parent].children;
    var i :| 0 <= i < |c| && c[i].name == name && c[i].ino == Lookup(t, parent, name).value.nodeId
             && (forall j | 0 <= j < i :: c[j].name != name);
  }

  /** In the built tree the answer of `Lookup` carries exactly what
      `GetAttr` reports for the child. */
  lemma LookupAgreesWithGetAttr(contentLen: nat, now: nat, parent: nat, name: string)
    requires Lookup(BuildTree(contentLen, now), parent, name).Ok?
    ensures var t := BuildTree(contentLen, now);
            var e := Lookup(t, parent, name).value;
            GetAttr(t, e.nodeId) == Ok(e.attr)
  {
    var t := BuildTree(contentLen, now);
    LookupInWellFormed(t, parent, name);
  }

  /** Only "dir-1" resolves under the root, only "file-1" under "dir-1",
      and nothing under the file. */
  lemma ResolveOnlyBuiltNames(contentLen: nat, now: nat, name: string)
    ensures var t := BuildTree(contentLen, now);
            && (Lookup(t, InodeRoot, name).Ok? <==> name == "dir-1")
            && (Lookup(t, InodeDir1, name).Ok? <==> name == "file-1")
            && Lookup(t, InodeFile1, name) == Err(ENOENT)
            && Lookup(t, InodeRoot, "dir-1").value.nodeId == InodeDir1
            && Lookup(t, InodeDir1, "file-1").value.nodeId == InodeFile1
  {
    var t := BuildTree(contentLen, now);
    FindInodeFindsEntry(t[InodeRoot].children, 0);
    FindInodeFindsEntry(t[InodeDir1].children, 0);
  }

  /** An id outside the tree is refused by every handler that looks it up,
      yet reads still succeed, because `Read` never looks. */
  lemma UnknownId(t: Tree, content: seq<bv8>, nodeId: nat, name: string, offset: nat, bufLen: nat)
    requires nodeId !in t
    ensures GetAttr(t, nodeId) == Err(ENOENT)
    ensures Lookup(t, nodeId, name) == Err(ENOENT)
    ensures ReadDir(t, nodeId, offset) == Err(ENOENT)
    ensures ReadDirPlus(t, nodeId, offset) == Err(ENOENT)
    ensures OpenDir(t, nodeId).Ok? && Open(t, nodeId).Ok?
    ensures Read(content, nodeId, offset, bufLen).Ok?
  {
  }

  /** The start-up scenario on a 1 GiB file: resolve the path, then read
      the last 4 bytes with a 16-byte buffer, then read at the end. */
  lemma Scenario(content: seq<bv8>, now: nat)
    requires |content| == ContentSize
    ensures var t := BuildTree(|content|, now);
            && Lookup(t, InodeRoot, "dir-1").value.nodeId == InodeDir1
            && Lookup(t, InodeDir1, "file-1").value.nodeId == InodeFile1
            && GetAttr(t, InodeFile1).value.size == ContentSize
            && ReadDir(t, InodeFile1, 0) == Err(EIO)
    ensures Read(content, InodeFile1, ContentSize - 4, 16) == Ok(content[ContentSize - 4..])
    ensures |Read(content, InodeFile1, ContentSize - 4, 16).value| == 4
    ensures Read(content, InodeFile1, ContentSize, 16) == Ok([])
  {
    ResolveOnlyBuiltNames(|content|, now, "dir-1");
  }
}
