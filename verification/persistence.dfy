/**
 * The façade (persistence.go): every operation is handed to the underlying
 * log, and `ReadAll` reads every record from the cursor to the end.
 *
 * The source holds any value implementing its `Persistent` interface; the
 * only implementation, and the one held here, is the seekable log.
 */
module Persistence {
  import opened Codec
  import opened Stream
  import opened Frame
  import opened Seek
  import opened Reflect
  import opened File

  class Persistence {
    const io: File

    constructor (io: File)
      ensures this.io == io
    {
      this.io := io;
    }

    method Read<T>(c: Serializable<T>) returns (r: Result<T>)
      modifies io.fp
      ensures io.fp.data == old(io.fp.data)
      ensures Moved(r, io.fp.pos) == ReadRecordAt(HeadBodyTail, old(io.fp.data), old(io.fp.pos), c)
    {
      r := io.Read(c);
    }

    method Write<T>(obj: T, c: Serializable<T>) returns (err: Result<()>)
      modifies io.fp
      ensures Written(err, io.fp.data, io.fp.pos) == WriteRecordAt(HeadBodyTail, old(io.fp.data), old(io.fp.pos), c.marshal(obj))
    {
      err := io.Write(obj, c);
    }

    method Seek(offset: int, whence: int) returns (err: Result<()>)
      requires MinInt64 <= offset <= MaxInt64
      modifies io.fp
      ensures io.fp.data == old(io.fp.data)
      ensures Moved(err, io.fp.pos) == SeekAt(old(io.fp.data), old(io.fp.pos), offset, whence)
    {
      err := io.Seek(offset, whence);
    }

    method Truncate() returns (err: Result<()>)
      modifies io.fp
      ensures err == Ok(())
      ensures io.fp.data == Resize(old(io.fp.data), old(io.fp.pos))
      ensures io.fp.pos == old(io.fp.pos)
    {
      err := io.Truncate();
    }

    /**
     * `ReadAll(addr)`: check the argument, then read records until io.EOF
     * and keep them in order. Any other error is returned and what was read
     * is dropped. The empty result slice is made from the slice type, as
     * store.go does it, and records are read with the corrected `Read`, so a
     * frame cut off by the end of the file is reported rather than taken for
     * the end.
     */
    method ReadAll<T>(addr: Type, c: Serializable<T>) returns (r: Result<seq<T>>)
      modifies io.fp
      ensures io.fp.data == old(io.fp.data)
      ensures Moved(r, io.fp.pos) == ReadAllInto(HeadBodyTail, old(io.fp.data), old(io.fp.pos), addr, c)
    {
      var target := CheckTarget(addr);
      if target.Rejected? {
        return Err(target.error);
      }
      ghost var start := io.fp.pos;
      var read: seq<T> := [];
      ThenNothing(ReadAllFrom(HeadBodyTail, io.fp.data, start, c));
      while true
        invariant io.fp.data == old(io.fp.data)
        invariant target.byPointer ==>
          ReadAllFrom(HeadBodyTail, io.fp.data, start, c) == Then(read, ReadAllFrom(HeadBodyTail, io.fp.data, io.fp.pos, c))
        invariant !target.byPointer ==> read == [] && io.fp.pos == start
        decreases Remaining(io.fp.data, io.fp.pos)
      {
        ghost var before := io.fp.pos;
        var obj := io.Read(c);
        if obj.Err? {
          if obj.error == EOF {
            assert ReadAllFrom(HeadBodyTail, io.fp.data, before, c) == Moved(Ok([]), io.fp.pos);
            assert read + [] == read;
            break;
          }
          return Err(obj.error);
        }
        if !target.byPointer {
          return Err(Panicked);
        }
        assert ReadAllFrom(HeadBodyTail, io.fp.data, before, c)
            == Then([obj.value], ReadAllFrom(HeadBodyTail, io.fp.data, io.fp.pos, c));
        ThenThen(read, [obj.value], ReadAllFrom(HeadBodyTail, io.fp.data, io.fp.pos, c));
        read := read + [obj.value];
      }
      r := Ok(read);
    }
  }
}
