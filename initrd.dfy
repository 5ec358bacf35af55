/**
 * The initial ramdisk filesystem (kernel/src/fs/initrd.c).
 *
 * Nodes are values; which node a pointer designates is a NodeRef (the root
 * node, the "/dev" node, entry `i` of root_nodes, or some other node).  The
 * ramdisk's bytes and the caller's buffer live in one flat memory, as in
 * the Strings module.  Path and name strings are their characters without
 * the terminating NUL.
 */
module Initrd {
  import opened Kernel
  import Strings

  const FS_FILE: u32 := 1
  const FS_DIRECTORY: u32 := 2
  /** sizeof(initrd_header_t): the packed `nfiles` word. */
  const INITRD_HEADER_SIZE: int := 4
  const INT_MAX: int := 0x7FFF_FFFF

  const ROOT_PATH: seq<u8> := [0x69, 0x6E, 0x69, 0x74, 0x72, 0x64]  // "initrd"
  const DEV_PATH: seq<u8> := [0x64, 0x65, 0x76]                      // "dev"

  /** initrd_file_header_t: `offset` is relative to the start of the ramdisk. */
  datatype FileHeader = FileHeader(magic: u8, name: seq<u8>, offset: u32, length: u32)

  /** Which callbacks a node carries: none, readdir and finddir, or read. */
  datatype NodeOps = NoOps | DirOps | FileOps

  /** The fields of fs_node_t the initrd sets; mask, uid, gid, impl and ptr are 0. */
  datatype Node = Node(path: seq<u8>, flags: u32, inode: u32, length: u32, ops: NodeOps)

  /** The node a pointer designates. */
  datatype NodeRef = RootRef | DevRef | FileRef(index: nat) | OtherRef(id: nat)

  /** struct dirent: a name and an inode number. */
  datatype Dirent = Dirent(name: seq<u8>, ino: u32)

  // ------------------------------------------------------------ read

  /**
   * The number of bytes initrd_read copies: 0 when the offset is past the
   * end, else the size cut down to the end of the file when the 32-bit sum
   * `offset + size` exceeds the length.
   */
  function ReadCount(length: u32, offset: u32, size: u32): u32 {
    if offset > length then 0
    else if Wrap32(offset as int + size as int) > length then length - offset
    else size
  }

  /**
   * Without wrap-around the count is min(size, length - offset), and 0 past
   * the end; the bytes read stay inside the file.
   */
  lemma ReadCountClamps(length: u32, offset: u32, size: u32)
    ensures offset > length ==> ReadCount(length, offset, size) == 0
    ensures offset <= length && offset as int + size as int < TWO_32 ==>
              ReadCount(length, offset, size) as int == Min(size as int, length as int - offset as int)
              && offset as int + ReadCount(length, offset, size) as int <= length as int
  { }

  /**
   * When `offset + size` wraps, the clamp is skipped: the full `size` is
   * copied, past the end of the file.
   */
  lemma ReadCountWraps(length: u32, offset: u32, size: u32)
    requires offset <= length && offset as int + size as int >= TWO_32
    ensures ReadCount(length, offset, size) == size
    ensures offset as int + ReadCount(length, offset, size) as int > length as int
  { }

  function Min(a: int, b: int): int {
    if a < b then a else b
  }

  /** The address of byte `offset` of the file: header.offset + offset, in 32 bits. */
  function SourceAddress(h: FileHeader, offset: u32): nat {
    Wrap32(h.offset as int + offset as int) as nat
  }

  // ------------------------------------------------------------ directory

  /**
   * The entry readdir produces, or None for a NULL result.  `index - 1` is
   * computed in uint32_t and compared unsigned with the node count.
   */
  function ReaddirEntry(node: NodeRef, index: u32, rootNodes: seq<Node>): Option<Dirent> {
    if node == RootRef && index == 0 then Some(Dirent(DEV_PATH, 0))
    else if Wrap32(index as int - 1) as int >= |rootNodes| then None
    else Some(Dirent(rootNodes[Wrap32(index as int - 1)].path, rootNodes[Wrap32(index as int - 1)].inode))
  }

  /**
   * readdir yields "/dev" at index 0 of the root, root node `index - 1` for
   * 1 <= index <= nroot_nodes, and NULL otherwise: also at index 0 of any
   * other node, where `index - 1` wraps to 0xFFFFFFFF.
   */
  lemma ReaddirCases(node: NodeRef, index: u32, rootNodes: seq<Node>)
    requires |rootNodes| <= INT_MAX
    ensures node == RootRef && index == 0 ==> ReaddirEntry(node, index, rootNodes) == Some(Dirent(DEV_PATH, 0))
    ensures !(node == RootRef && index == 0) ==>
              (ReaddirEntry(node, index, rootNodes).Some? <==> 1 <= index as int <= |rootNodes|)
    ensures !(node == RootRef && index == 0) && 1 <= index as int <= |rootNodes| ==>
              ReaddirEntry(node, index, rootNodes) ==
              Some(Dirent(rootNodes[index - 1].path, rootNodes[index - 1].inode))
  {
    if index == 0 {
      assert Wrap32(index as int - 1) as int == TWO_32 - 1;
    } else {
      assert Wrap32(index as int - 1) == index - 1;
    }
  }

  /** The first root node whose path equals `name`. */
  function FindPath(nodes: seq<Node>, name: seq<u8>): (r: Option<nat>)
    ensures r.None? <==> forall i :: 0 <= i < |nodes| ==> nodes[i].path != name
    ensures r.Some? ==> r.value < |nodes| && nodes[r.value].path == name
                        && forall i :: 0 <= i < r.value ==> nodes[i].path != name
  {
    if |nodes| == 0 then None
    else if nodes[0].path == name then Some(0)
    else
      var f := FindPath(nodes[1..], name);
      assert forall i :: 1 <= i < |nodes| ==> nodes[i] == nodes[1..][i - 1];
      if f.Some? then Some(f.value + 1) else None
  }

  /** What finddir returns: "/dev" for "dev" under the root, else the first matching root node. */
  function FinddirResult(node: NodeRef, name: seq<u8>, rootNodes: seq<Node>): Option<NodeRef> {
    if node == RootRef && name == DEV_PATH then Some(DevRef)
    else
      var f := FindPath(rootNodes, name);
      if f.Some? then Some(FileRef(f.value)) else None
  }

  /** A directory node as initialise_initrd builds it. */
  function DirNode(path: seq<u8>): Node {
    Node(path, FS_DIRECTORY, 0, 0, DirOps)
  }

  /** The initrd's globals. */
  class Initrd {
    var headerAddr: u32
    var fileHeadersAddr: u32
    /** The file header table file_headers points to. */
    var fileHeaders: seq<FileHeader>
    var root: Node
    var dev: Node
    var rootNodes: seq<Node>
    /** The static dirent every readdir call overwrites. */
    var dirent: Dirent

    /** nroot_nodes is |rootNodes| and fits an int; paths are C strings, without NULs. */
    ghost predicate Valid()
      reads this
    {
      |rootNodes| <= INT_MAX && forall i :: 0 <= i < |rootNodes| ==> Strings.NUL !in rootNodes[i].path
    }

    /** The globals before initialisation: all zero. */
    constructor ()
      ensures Valid() && fileHeaders == [] && rootNodes == []
    {
      headerAddr, fileHeadersAddr := 0, 0;
      fileHeaders := [];
      root := Node([], 0, 0, 0, NoOps);
      dev := Node([], 0, 0, 0, NoOps);
      rootNodes := [];
      dirent := Dirent([], 0);
    }

    /**
     * initrd_read: copies ReadCount bytes of the node's file, starting at
     * `offset`, to `buffer` and returns the count.
     */
    method Read(mem: array<u8>, node: Node, offset: u32, size: u32, buffer: nat) returns (r: u32)
      requires node.inode as int < |fileHeaders|
      requires var h := fileHeaders[node.inode];
               var n := ReadCount(h.length, offset, size) as int;
               buffer + n <= mem.Length && SourceAddress(h, offset) + n <= mem.Length
      modifies mem
      ensures var h := fileHeaders[node.inode];
              r == ReadCount(h.length, offset, size) &&
              mem[..] == Strings.CopyForward(old(mem[..]), buffer, SourceAddress(h, offset), r as nat)
    {
      var header := fileHeaders[node.inode];
      if offset > header.length {
        return 0;
      }
      var n := size;
      if Wrap32(offset as int + size as int) > header.length {
        n := header.length - offset;
      }
      var _ := Strings.Memcpy(mem, buffer, Wrap32(header.offset as int + offset as int) as nat, n as nat);
      return n;
    }

    /**
     * initrd_readdir: on success the static dirent is overwritten with the
     * entry and `found` is the non-NULL pointer to it; on NULL the dirent
     * keeps its previous contents.
     */
    method Readdir(node: NodeRef, index: u32) returns (found: bool)
      requires Valid()
      modifies this
      ensures var e := ReaddirEntry(node, index, old(rootNodes));
              (found <==> e.Some?) && (found ==> dirent == e.value) && (!found ==> dirent == old(dirent))
      ensures Valid() && headerAddr == old(headerAddr) && fileHeadersAddr == old(fileHeadersAddr)
      ensures fileHeaders == old(fileHeaders) && root == old(root) && dev == old(dev) && rootNodes == old(rootNodes)
    {
      if node == RootRef && index == 0 {
        dirent := Dirent(DEV_PATH, 0);
        return true;
      }
      var k := Wrap32(index as int - 1);
      if k as int >= |rootNodes| {
        return false;
      }
      dirent := Dirent(rootNodes[k].path, rootNodes[k].inode);
      return true;
    }

    /**
     * initrd_finddir: "dev" under the root is the /dev node; otherwise the
     * loop compares `name` with each root node's path, using strcmp.
     */
    method Finddir(node: NodeRef, name: seq<u8>) returns (r: Option<NodeRef>)
      requires Valid() && Strings.NUL !in name
      ensures r == FinddirResult(node, name, rootNodes)
    {
      Strings.StrDiffZero(name, DEV_PATH);
      if node == RootRef && Strings.StrDiff(name, DEV_PATH) == 0 {
        return Some(DevRef);
      }
      var i := 0;
      while i < |rootNodes|
        invariant 0 <= i <= |rootNodes|
        invariant forall j :: 0 <= j < i ==> rootNodes[j].path != name
      {
        Strings.StrDiffZero(name, rootNodes[i].path);
        if Strings.StrDiff(name, rootNodes[i].path) == 0 {
          return Some(FileRef(i));
        }
        i := i + 1;
      }
      return None;
    }

    /**
     * initialise_initrd: records where the header and the file headers are,
     * builds the root ("initrd") and /dev directory nodes, and then halts
     * unconditionally, before root_nodes is built.
     */
    method InitialiseInitrd(location: u32) returns (r: Outcome<NodeRef>)
      modifies this
      ensures r == Halt
      ensures headerAddr == location && fileHeadersAddr as int == (location as int + INITRD_HEADER_SIZE) % TWO_32
      ensures root == DirNode(ROOT_PATH) && dev == DirNode(DEV_PATH)
      ensures fileHeaders == old(fileHeaders) && rootNodes == old(rootNodes) && dirent == old(dirent)
    {
      headerAddr := location;
      fileHeadersAddr := Wrap32(location as int + INITRD_HEADER_SIZE);
      root := DirNode(ROOT_PATH);
      dev := DirNode(DEV_PATH);
      return Halt;
    }
  }

  /** Finddir's answer is a node whose path is the name, and the first such. */
  lemma FinddirFinds(node: NodeRef, name: seq<u8>, rootNodes: seq<Node>)
    ensures var r := FinddirResult(node, name, rootNodes);
            (r == Some(DevRef) <==> node == RootRef && name == DEV_PATH)
            && (r.Some? && r.value.FileRef? ==>
                  r.value.index < |rootNodes| && rootNodes[r.value.index].path == name
                  && forall j :: 0 <= j < r.value.index ==> rootNodes[j].path != name)
            && (r.None? <==> !(node == RootRef && name == DEV_PATH) && forall j :: 0 <= j < |rootNodes| ==> rootNodes[j].path != name)
  { }
}
