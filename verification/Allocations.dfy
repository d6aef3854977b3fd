/** What the kernel's allocator decides for the file system. */
module Allocations {
  /** Which of the allocations that an operation may make succeed.  First the root directory's
      inode and struct dir, the buffer for an on-disk inode, a file's inode and a struct file.
      Then the bounce buffers: for how many entries a lookup and a search for a free slot get one
      before the first that does not, where they stop; for writing a directory entry; for
      writing the free map when an inode's sector and then its extent are allocated or released,
      and when a create that failed gives the inode's sector back; and for reading or writing the
      bytes of a file. */
  datatype Memory = Memory(
    rootInode: bool, rootDir: bool, diskInode: bool, inode: bool, file: bool,
    lookup: nat, search: nat, entry: bool, inodeMap: bool, extentMap: bool, undoMap: bool, transfer: bool)
}
