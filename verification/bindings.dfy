/**
  Where the two bindings agree and where they deliberately differ.
 */
module Bindings {
  import opened Fuse
  import opened InodeTree
  import opened DirentBuffer
  import Hanwen
  import Jacobsa

  /** Both builders wire the same tree: same ids, same directory flags,
      same child names, ids and entry types in the same order, same sizes,
      link counts and permissions, and access, modification and change
      times read from one clock value `now`. Apart from that they differ in
      these places: the inode number stored in the attributes (go-fuse's
      record carries it, jacobsa's has none), the creation time (go-fuse
      leaves it 0), the file's type bits, and in each child entry the
      permission bits (0775 in go-fuse, none in jacobsa) and the offset (0
      in go-fuse, 1 in jacobsa). */
  lemma TreesAgree(contentLen: nat, now: nat)
    ensures var h := Hanwen.BuildTree(contentLen, now);
            var j := Jacobsa.BuildTree(contentLen, now);
            && h.Keys == j.Keys
            && (forall id | id in h ::
                  && h[id].dir == j[id].dir
                  && |h[id].children| == |j[id].children|
                  && h[id].attr.(mode := j[id].attr.mode) == j[id].attr.(ino := id, crtime := 0)
                  && h[id].attr.mode.perm == j[id].attr.mode.perm
                  && (id != InodeFile1 ==> h[id].attr.mode == j[id].attr.mode)
                  && j[id].attr.ino == 0 && j[id].attr.crtime == now)
            && (forall id, i | id in h && 0 <= i < |h[id].children| ::
                  && h[id].children[i] == j[id].children[i].(mode := Mode(j[id].children[i].mode.fileType, PermDir), offset := 0)
                  && j[id].children[i].mode.perm == 0 && j[id].children[i].offset == 1)
            && h[InodeFile1].attr.mode.fileType == TypeReg
            && j[InodeFile1].attr.mode.fileType == TypeNone
  {
  }

  /** Name resolution answers alike in both bindings: the same names
      resolve, to the same ids, with the same sizes. */
  lemma LookupsAgree(contentLen: nat, now: nat, parent: nat, name: string)
    ensures var h := Hanwen.Lookup(Hanwen.BuildTree(contentLen, now), parent, name);
            var j := Jacobsa.LookUpInode(Jacobsa.BuildTree(contentLen, now), parent, name);
            && (h.Ok? <==> j.Ok?)
            && (h.Ok? ==> h.value.nodeId == j.value.child && h.value.attr.size == j.value.attributes.size)
            && (h.Err? ==> h.errno == j.errno)
  {
    var ht := Hanwen.BuildTree(contentLen, now);
    var jt := Jacobsa.BuildTree(contentLen, now);
    TreesAgree(contentLen, now);
    if parent in ht {
      FindInodeReadsNamesAndIds(name, ht[parent].children, jt[parent].children);
    }
  }

  /** Past the end of a directory the bindings part ways: go-fuse's
      `ReadDir` still offers every child, its `ReadDirPlus` succeeds with
      nothing, and jacobsa's `ReadDir` fails with EIO. */
  lemma OffsetPastEndDiverges(t: Tree, inode: nat, offset: nat, dst: seq<bv8>, bytesRead: nat, encode: Encoder)
    requires inode in t && t[inode].dir
    requires offset > |t[inode].children|
    requires bytesRead <= |dst|
    ensures Hanwen.ReadDir(t, inode, offset) == Ok(t[inode].children)
    ensures Hanwen.ReadDirPlus(t, inode, offset) == Ok([])
    ensures Jacobsa.ReadDir(t, Jacobsa.ReadDirOp(inode, offset, dst, bytesRead), encode) == Err(EIO)
  {
  }

  /** Both bindings refuse to list a non-directory with EIO and an unknown
      id with ENOENT, whatever the offset. */
  lemma ListingErrorsAgree(t: Tree, inode: nat, offset: nat, dst: seq<bv8>, bytesRead: nat, encode: Encoder)
    requires !(inode in t && t[inode].dir)
    requires bytesRead <= |dst|
    ensures var e := if inode in t then EIO else ENOENT;
            && Hanwen.ReadDir(t, inode, offset) == Err(e)
            && Hanwen.ReadDirPlus(t, inode, offset) == Err(e)
            && Jacobsa.ReadDir(t, Jacobsa.ReadDirOp(inode, offset, dst, bytesRead), encode) == Err(e)
  {
  }

  /** Up to the end of a directory, when the destination has room for all
      the remaining entries, jacobsa's `ReadDir` writes the encodings of
      exactly the entries go-fuse's `ReadDirPlus` hands to its sink. */
  lemma ListingsAgreeWhenRoomSuffices(t: Tree, inode: nat, offset: nat, dst: seq<bv8>, encode: Encoder)
    requires inode in t && t[inode].dir && offset <= |t[inode].children|
    requires forall i | offset <= i < |t[inode].children| :: |encode(t[inode].children[i])| > 0
    requires |Encoded(t[inode].children[offset..], encode)| <= |dst|
    ensures var r := Jacobsa.ReadDir(t, Jacobsa.ReadDirOp(inode, offset, dst, 0), encode);
            && r.Ok?
            && r.value.dst[..r.value.bytesRead] == Encoded(Hanwen.ReadDirPlus(t, inode, offset).value, encode)
  {
    var entries := t[inode].children[offset..];
    FillTakesAll(entries, |dst|, encode);
    assert entries[..|entries|] == entries;
  }

  /** Both bindings read the same bytes: what jacobsa's `ReadFile` copies
      into an empty destination is what go-fuse's `Read` returns for a
      buffer of the same length. */
  lemma ReadsAgree(content: seq<bv8>, inode: nat, offset: nat, dst: seq<bv8>)
    ensures var r := Jacobsa.ReadFile(content, Jacobsa.ReadFileOp(inode, offset, dst, 0)).value;
            r.dst[..r.bytesRead] == Hanwen.Read(content, inode, offset, |dst|).value
  {
  }
}
