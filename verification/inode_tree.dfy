/**
  The fixed inode tree both bindings serve: a map from inode id to the
  node's attributes, directory flag and ordered child list, and the
  lookup of a child by name.
 */
module InodeTree {
  import opened Fuse

  const InodeRoot: nat := 1
  const InodeDir1: nat := 2
  const InodeFile1: nat := 3

  /** Length of the one regular file's content, 1 << 30 bytes. */
  const ContentSize: nat := 0x4000_0000

  /** A node of the tree (`iInfo`). */
  datatype INode = INode(attr: Attr, dir: bool, children: seq<DirEntry>)

  type Tree = map<nat, INode>

  /** `inodeTree[id].attr`: a Go map read that yields the zero record when
      the key is absent. */
  function AttrOf(t: Tree, id: nat): (a: Attr)
  {
    if id in t then t[id].attr else ZeroAttr
  }

  /** Every child named in any child list is itself a node of the tree. */
  ghost predicate ChildrenResolve(t: Tree)
  {
    forall id, i | id in t && 0 <= i < |t[id].children| :: t[id].children[i].ino in t
  }

  /** Ids are positive and every child resolves. */
  ghost predicate WellFormed(t: Tree)
  {
    0 !in t && ChildrenResolve(t)
  }

  /** No two entries of a child list share a name. */
  ghost predicate NamesUnique(children: seq<DirEntry>)
  {
    forall i, j | 0 <= i < j < |children| :: children[i].name != children[j].name
  }

  /** The shape both bindings build: root (1) holds "dir-1" (2), which holds
      "file-1" (3); directories have placeholder size 1, one link and
      permissions 0775; the file is read-only and its size is the length of
      the content. */
  ghost predicate StandardShape(t: Tree, contentLen: nat)
  {
    && t.Keys == {InodeRoot, InodeDir1, InodeFile1}
    && t[InodeRoot].dir
    && |t[InodeRoot].children| == 1
    && t[InodeRoot].children[0].ino == InodeDir1
    && t[InodeRoot].children[0].name == "dir-1"
    && t[InodeRoot].children[0].mode.fileType == TypeDir
    && t[InodeDir1].dir
    && |t[InodeDir1].children| == 1
    && t[InodeDir1].children[0].ino == InodeFile1
    && t[InodeDir1].children[0].name == "file-1"
    && t[InodeDir1].children[0].mode.fileType == TypeReg
    && !t[InodeFile1].dir
    && t[InodeFile1].children == []
    && t[InodeFile1].attr.size == contentLen
    && t[InodeFile1].attr.mode.perm == PermReadOnly
    && t[InodeFile1].attr.mode.fileType != TypeDir
    && (forall id | id in t && t[id].dir ::
          t[id].attr.size == 1 && t[id].attr.nlink == 1 && t[id].attr.mode == Mode(TypeDir, PermDir))
  }

  lemma StandardShapeWellFormed(t: Tree, contentLen: nat)
    requires StandardShape(t, contentLen)
    ensures WellFormed(t)
    ensures forall id | id in t :: NamesUnique(t[id].children)
  {
  }

  /** `findInode`: scan the child list in order and answer the id of the
      first entry whose name equals `name` exactly, or ENOENT. */
  function FindInode(name: string, children: seq<DirEntry>): (r: Result<nat>)
    ensures r.Err? ==> r.errno == ENOENT
    ensures r.Err? <==> forall i | 0 <= i < |children| :: children[i].name != name
    ensures r.Ok? ==> exists i | 0 <= i < |children| ::
      && children[i].name == name
      && children[i].ino == r.value
      && (forall j | 0 <= j < i :: children[j].name != name)
    decreases |children|
  {
    if children == [] then Err(ENOENT)
    else if children[0].name == name then
      Ok(children[0].ino)
    else
      var r := FindInode(name, children[1..]);
      if r.Ok? then
        var i :| 0 <= i < |children[1..]| && children[1..][i].name == name && children[1..][i].ino == r.value
                 && (forall j | 0 <= j < i :: children[1..][j].name != name);
        assert children[i + 1] == children[1..][i];
        assert forall j | 0 <= j < i + 1 :: children[j].name != name by {
          forall j | 0 <= j < i + 1 ensures children[j].name != name {
            if j > 0 { assert children[j] == children[1..][j - 1]; }
          }
        }
        r
      else
        assert forall i | 0 <= i < |children| :: children[i].name != name by {
          forall i | 0 <= i < |children| ensures children[i].name != name {
            if i > 0 { assert children[i] == children[1..][i - 1]; }
          }
        }
        r
  }

  /** In a list with unique names, looking up any entry's name finds that
      entry. */
  lemma FindInodeFindsEntry(children: seq<DirEntry>, k: nat)
    requires NamesUnique(children)
    requires k < |children|
    ensures FindInode(children[k].name, children) == Ok(children[k].ino)
  {
  }

  /** The lookup only reads the names and ids of the entries, so two lists
      that agree on them answer alike. */
  lemma {:induction false} FindInodeReadsNamesAndIds(name: string, a: seq<DirEntry>, b: seq<DirEntry>)
    requires |a| == |b|
    requires forall i | 0 <= i < |a| :: a[i].name == b[i].name && a[i].ino == b[i].ino
    ensures FindInode(name, a) == FindInode(name, b)
    decreases |a|
  {
    if a != [] && a[0].name != name {
      FindInodeReadsNamesAndIds(name, a[1..], b[1..]);
    }
  }
}
