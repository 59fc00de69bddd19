/** LogWriter: a byte buffer in front of a log file that is rotated when it has grown too large. */
module LogWriter {
  import opened LogFiles

  const BUFFER_SIZE: nat := 131072
  const MAX_MESSAGE_SIZE: nat := 2048

  lemma Grown(start: string, bytes: string, done: nat, chunk: nat)
    requires done + chunk <= |bytes|
    ensures (start + bytes[..done]) + bytes[done..done + chunk] == start + bytes[..done + chunk]
  {
    assert bytes[..done + chunk] == bytes[..done] + bytes[done..done + chunk];
  }

  /** flushed is the initial contents of the files followed by every byte handed to them. */
  class Writer {
    const maxBackups: nat
    const maxFileSize: nat
    const buffer: array<char>
    var isOpen: bool
    var fileSize: nat
    var used: nat
    var files: Files
    ghost var flushed: string

    ghost predicate Valid()
      reads this, buffer
    {
      && buffer.Length == BUFFER_SIZE && used < BUFFER_SIZE
      && Disk()
    }

    /**
      What holds of the files: they hold a suffix of all that was ever written to them, and none outgrows its limit.
     */
    ghost predicate Disk()
      reads this`isOpen, this`fileSize, this`files, this`flushed
    {
      && (if isOpen then 0 in files && fileSize == |files[0].text| else fileSize == 0)
      && IsSuffix(All(files, maxBackups), flushed)
      && (maxFileSize > 0 ==> Bounded(files, maxFileSize + BUFFER_SIZE))
    }

    ghost function Pending(): string
      reads this, buffer
    {
      if used <= buffer.Length then buffer[..used] else ""
    }

    /** Every byte taken over so far, behind the initial contents. */
    ghost function Taken(): string
      reads this, buffer
    {
      flushed + Pending()
    }

    constructor (maxBackups: nat, maxFileSize: nat, files: Files)
      requires forall i: nat :: i in files ==> !files[i].begun
      ensures Valid() && Pending() == "" && flushed == All(files, maxBackups) && fresh(buffer)
      ensures this.maxBackups == maxBackups && this.maxFileSize == maxFileSize && this.files == files
    {
      this.maxBackups, this.maxFileSize, this.files := maxBackups, maxFileSize, files;
      buffer := new char[BUFFER_SIZE];
      isOpen, fileSize, used := false, 0, 0;
      flushed := All(files, maxBackups);
    }

    /** A missing file is created empty. */
    method Open()
      requires Disk()
      modifies this`isOpen, this`fileSize, this`files
      ensures Disk() && isOpen
      ensures fileSize == |old(TextAt(files, 0))| || old(isOpen)
    {
      if !isOpen {
        if 0 !in files {
          AllCreate(files, maxBackups, true);
          files := files[0 := File("", true)];
        }
        fileSize := |files[0].text|;
        isOpen := true;
      }
    }

    method Close()
      requires Disk()
      modifies this`isOpen, this`fileSize
      ensures Disk() && !isOpen
    {
      isOpen, fileSize := false, 0;
    }

    /** The oldest backup goes and every other file moves up by one. */
    method RotateLog()
      requires Disk()
      modifies this`isOpen, this`fileSize, this`files
      ensures Disk() && !isOpen && files == Rotated(old(files), maxBackups)
    {
      Close();
      ghost var was := files;
      files := files - {maxBackups};
      var i := maxBackups;
      while i != 0
        invariant Down(files, i) == Rotated(was, maxBackups)
        invariant !isOpen && fileSize == 0
        decreases i
      {
        files := Renamed(files, i);
        i := i - 1;
      }
      RotateKeeps(was, maxBackups);
      SuffixDrop(TextAt(was, maxBackups), All(files, maxBackups), flushed);
      if maxFileSize > 0 { DownBounded(was - {maxBackups}, maxBackups, maxFileSize + BUFFER_SIZE); }
    }

    /** The file grown over its limit is rotated away before anything more is written. */
    method Ready()
      requires Disk()
      modifies this`isOpen, this`fileSize, this`files
      ensures Disk() && isOpen && (maxFileSize > 0 ==> fileSize < maxFileSize)
    {
      Open();
      if fileSize >= maxFileSize {
        RotateKeeps(files, maxBackups);
        RotateLog();
        Open();
      }
    }

    /** The write loop: the system takes what it likes of each request. */
    method Put(bytes: string)
      requires Disk() && isOpen && |bytes| <= BUFFER_SIZE && (maxFileSize > 0 ==> fileSize < maxFileSize)
      modifies this`fileSize, this`files, this`flushed
      ensures Disk() && isOpen && flushed == old(flushed) + bytes
    {
      var done := 0;
      assert files[0].text + bytes[..0] == files[0].text;
      while done < |bytes|
        invariant done <= |bytes| && 0 in files && flushed == old(flushed) && fileSize == old(fileSize)
        invariant files == old(files)[0 := File(old(files)[0].text + bytes[..done], old(files)[0].begun)]
      {
        var taken :| 1 <= taken <= |bytes| - done;
        files := files[0 := File(files[0].text + bytes[done..done + taken], files[0].begun)];
        done := done + taken;
        ghost var text := old(files)[0].text;
        assert text + bytes[..done - taken] + bytes[done - taken..done] == text + bytes[..done];
      }
      assert bytes[..done] == bytes;
      AllAppend(old(files), maxBackups, bytes);
      SuffixAppend(All(old(files), maxBackups), flushed, bytes);
      fileSize := fileSize + done;
      flushed := flushed + bytes;
    }

    /** Everything pending reaches the files, in order. */
    method Flush()
      requires buffer.Length == BUFFER_SIZE && used <= BUFFER_SIZE && Disk()
      modifies this`isOpen, this`fileSize, this`files, this`used, this`flushed
      ensures Valid() && Pending() == "" && flushed == old(Taken()) == Taken()
    {
      var size := used;
      used := 0;
      if size == 0 { return; }
      Ready();
      Put(buffer[..size]);
    }

    /** Write(bytes, size): nothing is lost, added or reordered, and the buffer is never overrun. */
    method Write(bytes: string)
      requires Valid()
      modifies this`isOpen, this`fileSize, this`files, this`used, this`flushed, buffer
      ensures Valid() && Taken() == old(Taken()) + bytes
    {
      hide Disk, Taken, Pending;
      var done := 0;
      assert Taken() + bytes[..0] == Taken();
      while done < |bytes|
        invariant done <= |bytes| && Valid()
        invariant Taken() == old(Taken()) + bytes[..done]
      {
        var chunk := if |bytes| - done > BUFFER_SIZE - used then BUFFER_SIZE - used else |bytes| - done;
        Fill(bytes[done..done + chunk]);
        Grown(old(Taken()), bytes, done, chunk);
        done := done + chunk;
        if used >= BUFFER_SIZE || used >= maxFileSize { Flush(); }
      }
      assert bytes[..done] == bytes;
    }

    /** Copy to the end of the buffer. */
    method Fill(bytes: string)
      requires buffer.Length == BUFFER_SIZE && used + |bytes| <= BUFFER_SIZE
      modifies this`used, buffer
      ensures used == old(used) + |bytes| && Taken() == old(Taken()) + bytes
    {
      ghost var before := Pending();
      forall i | 0 <= i < |bytes| { buffer[used + i] := bytes[i]; }
      used := used + |bytes|;
      assert Pending() == before + bytes;
    }

    /**
      Write(size) for bytes the caller has already put behind the pending ones: afterwards there is room for a whole
      message again.
     */
    method Commit(size: nat)
      requires Valid() && used + size <= BUFFER_SIZE
      modifies this`isOpen, this`fileSize, this`files, this`used, this`flushed
      ensures Valid() && Taken() == old(flushed + buffer[..used + size])
      ensures used + MAX_MESSAGE_SIZE <= BUFFER_SIZE
    {
      used := used + size;
      if used > BUFFER_SIZE - MAX_MESSAGE_SIZE || used >= maxFileSize { Flush(); }
    }
  }
}
