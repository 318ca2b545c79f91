/**
  Protocol-level values shared by both FUSE bindings: the status a handler
  answers with, inode attributes, mode words and directory entries.
 */
module Fuse {

  /** The two failure statuses the handlers ever return. */
  datatype Errno = ENOENT | EIO

  /** A handler's answer: a payload on success (`fuse.OK` / a nil error),
      or the status it fails with. */
  datatype Result<+T> = Ok(value: T) | Err(errno: Errno)

  /** The type bits of a mode word. `TypeNone` means no type bit is set,
      which is how `os.FileMode` spells a regular file. */
  datatype FileType = TypeNone | TypeDir | TypeReg

  /** A mode word: type bits and permission bits. */
  datatype Mode = Mode(fileType: FileType, perm: nat)

  /** Octal 0775. */
  const PermDir: nat := 0x1FD

  /** Octal 0444. */
  const PermReadOnly: nat := 0x124

  /** Inode attributes. go-fuse's `Attr` has no creation time and
      jacobsa's `InodeAttributes` has no inode number; the binding that
      lacks a field leaves it 0. Timestamps are opaque numbers. */
  datatype Attr = Attr(
    ino: nat,
    size: nat,
    nlink: nat,
    mode: Mode,
    atime: nat,
    mtime: nat,
    ctime: nat,
    crtime: nat)

  /** Go's zero value of an attribute record. */
  const ZeroAttr: Attr := Attr(0, 0, 0, Mode(TypeNone, 0), 0, 0, 0, 0)

  /** One entry of a directory's child list. `offset` is jacobsa's
      `Dirent.Offset` (go-fuse's entries leave it 0). */
  datatype DirEntry = DirEntry(ino: nat, name: string, mode: Mode, offset: nat)
}
