/**
 * The seekable log (file/file.go): records framed head | body | tail in one
 * file, read and written at the file's cursor, and a cursor that moves by
 * whole records.
 */
module File {
  import opened Bytes
  import opened Codec
  import opened Stream
  import opened Frame
  import opened Seek

  class File {
    /** The open file; the log reads and writes it at its cursor. */
    const fp: Stream

    constructor (fp: Stream)
      ensures this.fp == fp
    {
      this.fp := fp;
    }

    /**
     * `Write`: marshal the record (on error nothing is written), then write
     * the head, the body and the tail at the cursor, which ends up after the
     * frame.
     */
    method Write<T>(obj: T, c: Serializable<T>) returns (err: Result<()>)
      modifies fp
      ensures Written(err, fp.data, fp.pos) == WriteRecordAt(HeadBodyTail, old(fp.data), old(fp.pos), c.marshal(obj))
    {
      var encoded := c.marshal(obj);
      if encoded.Err? {
        return Err(encoded.error);
      }
      var bytes := encoded.value;
      var size := EncodeU32(ToSize(|bytes|));
      ghost var start, before := fp.pos, fp.data;
      fp.Write(size);
      fp.Write(bytes);
      fp.Write(size);
      WriteAtConcat(before, start, size, bytes);
      WriteAtConcat(before, start, size + bytes, size);
      err := Ok(());
    }

    /**
     * `Read`: the head, then as many body bytes as it announces, then the
     * tail, and the body is unmarshalled. This is the corrected read
     * (`ReadFrameAt`): a read that starts at the end of the file reports
     * io.EOF, and one that finds only part of a frame reports
     * io.ErrUnexpectedEOF. The source passes on the io.EOF of a body or tail
     * read that finds no byte at all (`ReadFrameAsWritten`); the two agree at
     * every record boundary of a whole log (`ReadFrameAsWrittenOnLog`).
     */
    method Read<T>(c: Serializable<T>) returns (r: Result<T>)
      modifies fp
      ensures fp.data == old(fp.data)
      ensures Moved(r, fp.pos) == ReadRecordAt(HeadBodyTail, old(fp.data), old(fp.pos), c)
    {
      var head := fp.ReadFull(SizeWidth);
      if head.Err? {
        return Err(head.error);
      }
      var size := DecodeU32(head.value);
      var body := fp.ReadFull(size);
      if body.Err? {
        return Err(if body.error == EOF then UnexpectedEOF else body.error);
      }
      var tail := fp.ReadFull(SizeWidth);
      if tail.Err? {
        return Err(if tail.error == EOF then UnexpectedEOF else tail.error);
      }
      r := c.unmarshal(body.value);
    }

    /** `seekOne`: one record forward (1) or back (-1) from the cursor. */
    method SeekOne(direct: int) returns (err: Result<()>)
      modifies fp
      ensures fp.data == old(fp.data)
      ensures Moved(err, fp.pos) == SeekOneAt(old(fp.data), old(fp.pos), direct)
    {
      if direct != 1 && direct != -1 {
        return Err(InvalidDirection);
      }
      if direct == -1 {
        var back := fp.Seek(-(SizeWidth as int), 1);
        if back.Err? {
          return Err(back.error);
        }
      }
      var head := fp.ReadFull(SizeWidth);
      if head.Err? {
        return Err(head.error);
      }
      var size := DecodeU32(head.value);
      var offset := if direct == 1 then ToSize(size + SizeWidth) else -(ToSize(size + 2 * SizeWidth) as int);
      var moved := fp.Seek(offset, 1);
      if moved.Err? {
        return Err(moved.error);
      }
      err := Ok(());
    }

    /**
     * `Seek(offset, whence)`: anchor the cursor at the start, the cursor or
     * the end, then take |offset| record steps, stopping at the first step
     * that fails.
     */
    method Seek(offset: int, whence: int) returns (err: Result<()>)
      requires MinInt64 <= offset <= MaxInt64
      modifies fp
      ensures fp.data == old(fp.data)
      ensures Moved(err, fp.pos) == SeekAt(old(fp.data), old(fp.pos), offset, whence)
    {
      // Seeking to byte 0 or to the end never fails.
      if whence == 0 {
        var _ := fp.Seek(0, 0);
      } else if whence == 2 {
        var _ := fp.Seek(0, 2);
      } else if whence != 1 {
        return Err(InvalidWhence);
      }
      var (direct, count) := StepsOf(offset);
      ghost var anchor := fp.pos;
      var i := 0;
      while i < count
        invariant 0 <= i <= count
        invariant fp.data == old(fp.data)
        invariant SeekStepsAt(fp.data, anchor, direct, count) == SeekStepsAt(fp.data, fp.pos, direct, count - i)
      {
        var step := SeekOne(direct);
        if step.Err? {
          return step;
        }
        i := i + 1;
      }
      err := Ok(());
    }

    /** `Truncate`: cut the file at the cursor, which stays where it is. */
    method Truncate() returns (err: Result<()>)
      modifies fp
      ensures err == Ok(())
      ensures fp.data == Resize(old(fp.data), old(fp.pos))
      ensures fp.pos == old(fp.pos)
    {
      var offset := fp.Seek(0, 1);
      fp.Truncate(offset.value);
      err := Ok(());
    }
  }
}
