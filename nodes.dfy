/**
 * The values the tree is built from: a discovered filesystem entry (`Node`), its path, its
 * inode identity, and the errors of the traversal.
 */
module Nodes {
  import opened Wrappers

  const USIZE_LIMIT: nat := 0x1_0000_0000_0000_0000

  /** `usize` on a 64-bit target. */
  type Usize = x: nat | x < USIZE_LIMIT

  /** A path as its list of components; the parent is the path without its last component. */
  type Path = seq<string>

  /** `Path::parent`: `None` for a path with no components. */
  function ParentPath(p: Path): (r: Option<Path>)
    ensures r.Some? <==> p != []
    ensures r.Some? ==> |r.value| + 1 == |p| && r.value == p[..|p| - 1]
  {
    if p == [] then None else Some(p[..|p| - 1])
  }

  datatype Kind = Dir | File | Symlink

  /** Device, inode number and hard-link count of an entry. */
  datatype Inode = Inode(dev: nat, ino: nat, nlink: nat) {
    /** `Inode::properties`: the identity used to recognise hard links. */
    function Properties(): (nat, nat) {
      (ino, dev)
    }
  }

  /**
   * A discovered entry: its path, its depth below the root (the root is at 0), its kind, its
   * size in bytes if it has one, and its inode identity when the platform reports one.
   */
  datatype Node = Node(path: Path, depth: Usize, kind: Kind, fileSize: Option<nat>, inode: Option<Inode>) {
    predicate IsDir() {
      kind == Dir
    }

    predicate IsSymlink() {
      kind == Symlink
    }

    /** `set_file_size`: only the size changes. */
    function WithFileSize(bytes: nat): Node {
      this.(fileSize := Some(bytes))
    }
  }

  /**
   * The failures of tree construction. `BranchMissing` stands for the panic of the `unwrap` in
   * `assemble_tree` when a directory's pending-children slot is absent.
   */
  datatype Error = ExpectedParent | MissingRoot | BranchMissing
}
