/** Regular files in memory and the descriptors through which a process reads and writes them. */
module FileIo {
  import opened Words
  import opened FileContents
  import opened MemoryMoves

  const MAX_FD: nat := 16

  class RamFile {
    const data: array<byte>  // capacity is its length
    var size: nat

    ghost predicate Valid()
      reads this
    {
      size <= data.Length < WORD
    }

    ghost function Bytes(): seq<byte>
      requires Valid()
      reads this, data
    {
      data[..size]
    }

    /** The empty file that ramfs_create makes. */
    constructor ()
      ensures Valid() && Bytes() == [] && data.Length == FILE_CAPACITY && fresh(data)
    {
      data := new byte[FILE_CAPACITY];
      size := 0;
    }
  }

  /** The file's bytes after the copy: what WriteAt says. */
  lemma Extended(data: seq<byte>, size: nat, offset: nat, buf: seq<byte>, n: nat)
    requires offset <= size <= |data| && n == Min(|buf|, |data| - offset)
    ensures var end := if offset + n > size then offset + n else size;
            Overwritten(data, offset, buf[..n])[..end] == WriteAt(data[..size], |data|, offset, buf)
  {
  }

  class OpenFile {
    const file: RamFile
    var offset: nat

    constructor (file: RamFile)
      ensures this.file == file && offset == 0
    {
      this.file, offset := file, 0;
    }

    ghost predicate Valid()
      reads this, file
    {
      file.Valid() && offset <= file.size
    }

    /** ramfs_read, with the offset update of sys_read. */
    method Read(buf: array<byte>, size: nat) returns (n: nat)
      requires Valid() && buf != file.data && size <= buf.Length
      modifies this, buf
      ensures Valid() && offset == old(offset) + n
      ensures n == |ReadAt(file.Bytes(), old(offset), size)|
      ensures buf[..] == ReadAt(file.Bytes(), old(offset), size) + old(buf[n..])
    {
      if offset >= file.size { return 0; }
      n := if size > file.size - offset then file.size - offset else size;
      CopyUp(buf, 0, file.data, offset, n);
      assert file.data[offset..offset + n] == file.Bytes()[offset..offset + n];
      offset := offset + n;
    }

    /** ramfs_write, with the offset update of sys_write. */
    method Write(buf: array<byte>, size: nat) returns (n: nat)
      requires Valid() && buf != file.data && size <= buf.Length && offset + size < WORD
      modifies this, file, file.data
      ensures Valid() && n == Min(size, file.data.Length - old(offset)) && offset == old(offset) + n
      ensures file.size >= old(file.size)
      ensures file.Bytes() == WriteAt(old(file.Bytes()), file.data.Length, old(offset), buf[..size])
    {
      ghost var data, end := file.data[..], file.size;
      n := Clamped(offset, size, file.data.Length);
      CopyUp(file.data, offset, buf, 0, n);
      if Add32(offset, n) > file.size { file.size := offset + n; }
      Extended(data, end, offset, buf[..size], n);
      assert buf[..size][..n] == buf[0..n];
      offset := offset + n;
    }
  }

  class Process {
    const table: array<OpenFile?>     // fd_table
    ghost var opens: set<OpenFile>
    ghost var files: set<RamFile>

    /** Every descriptor's offset is within its file and every file within its capacity; descriptors
        are separate, and files keep their bytes apart. */
    ghost predicate Valid()
      reads this, table, opens, files
    {
      && table.Length == MAX_FD
      && (forall i :: 0 <= i < MAX_FD && table[i] != null ==> table[i] in opens)
      && (forall i, j :: 0 <= i < j < MAX_FD && table[i] != null ==> table[i] != table[j])
      && (forall o <- opens :: o.file in files && o.Valid())
      && (forall f <- files :: f.Valid())
      && (forall f <- files, g <- files :: f != g ==> f.data != g.data)
    }

    ghost predicate IsOpen(fd: int)
      requires table.Length == MAX_FD
      reads table
    {
      0 <= fd < MAX_FD && table[fd] != null
    }

    constructor ()
      ensures Valid() && opens == {} && files == {} && fresh(table)
      ensures forall i :: 0 <= i < MAX_FD ==> table[i] == null
    {
      table := new OpenFile?[MAX_FD](_ => null);
      opens, files := {}, {};
    }

    /** sys_open after the path walk, which found `file` or nothing: the lowest free descriptor. */
    method Open(file: RamFile?, memory: bool) returns (fd: int)
      requires Valid()
      requires file != null ==> file.Valid() && forall f <- files :: f != file ==> f.data != file.data
      modifies this`opens, this`files, table
      ensures Valid() && -1 <= fd < MAX_FD
      ensures fd == -1 <==> file == null || !memory || forall i :: 0 <= i < MAX_FD ==> old(table[i]) != null
      ensures fd >= 0 ==>
                && old(table[fd]) == null && (forall i :: 0 <= i < fd ==> old(table[i]) != null)
                && table[fd] != null && fresh(table[fd]) && table[fd].file == file && table[fd].offset == 0
      ensures forall i :: 0 <= i < MAX_FD && i != fd ==> table[i] == old(table[i])
    {
      if file == null || !memory { return -1; }
      var open := new OpenFile(file);
      for i := 0 to MAX_FD
        invariant forall k :: 0 <= k < i ==> table[k] != null
        invariant table[..] == old(table[..]) && opens == old(opens) && files == old(files)
      {
        if table[i] == null {
          table[i] := open;
          opens, files := opens + {open}, files + {file};
          return i;
        }
      }
      return -1;
    }

    /** sys_close */
    method Close(fd: int) returns (result: int)
      requires Valid()
      modifies table
      ensures Valid() && result == if old(IsOpen(fd)) then 0 else -1
      ensures forall i :: 0 <= i < MAX_FD ==> table[i] == if i == fd then null else old(table[i])
    {
      if fd < 0 || fd >= MAX_FD { return -1; }
      if table[fd] == null { return -1; }
      table[fd] := null;
      return 0;
    }

    /** sys_read */
    method Read(fd: int, buf: array<byte>, size: nat) returns (result: int)
      requires Valid() && size <= buf.Length && forall f <- files :: f.data != buf
      modifies if IsOpen(fd) then {table[fd], buf} else {}
      ensures Valid()
      ensures !IsOpen(fd) ==> result == -1
      ensures IsOpen(fd) ==>
                var (o, got) := (table[fd], ReadAt(table[fd].file.Bytes(), old(table[fd].offset), size));
                && result == |got| && o.offset == old(table[fd].offset) + |got|
                && buf[..] == got + old(buf[..])[|got|..]
    {
      if fd < 0 || fd >= MAX_FD { return -1; }
      if table[fd] == null { return -1; }
      result := table[fd].Read(buf, size);
    }

    /** sys_write. A write through one descriptor may move the end of a file that others have open. */
    method Write(fd: int, buf: array<byte>, size: nat) returns (result: int)
      requires Valid() && size <= buf.Length && forall f <- files :: f.data != buf
      requires IsOpen(fd) ==> table[fd].offset + size < WORD
      modifies if IsOpen(fd) then {table[fd], table[fd].file, table[fd].file.data} else {}
      ensures Valid()
      ensures !IsOpen(fd) ==> result == -1
      ensures IsOpen(fd) ==>
                var (o, offset) := (table[fd], old(table[fd].offset));
                && result == Min(size, o.file.data.Length - offset) && o.offset == offset + result
                && o.file.Bytes() == WriteAt(old(table[fd].file.Bytes()), o.file.data.Length, offset, buf[..size])
    {
      if fd < 0 || fd >= MAX_FD { return -1; }
      if table[fd] == null { return -1; }
      result := table[fd].Write(buf, size);
    }
  }
}
