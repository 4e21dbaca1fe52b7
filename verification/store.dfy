/**
 * The plain store (store.go): records framed head | body, appended to and
 * read from one stream in order, with no seeking.
 */
module Store {
  import opened Bytes
  import opened Codec
  import opened Stream
  import opened Frame
  import opened Reflect

  class Store {
    /** The stream the store reads and writes at its cursor. */
    const rw: Stream

    constructor (rw: Stream)
      ensures this.rw == rw
    {
      this.rw := rw;
    }

    /**
     * `Write`: marshal the record (on error nothing is written), then write
     * the head and the body at the cursor. The body write's own error is
     * dropped by the source; writes do not fail in this model.
     */
    method Write<T>(obj: T, c: Serializable<T>) returns (err: Result<()>)
      modifies rw
      ensures Written(err, rw.data, rw.pos) == WriteRecordAt(HeadBody, old(rw.data), old(rw.pos), c.marshal(obj))
    {
      var encoded := c.marshal(obj);
      if encoded.Err? {
        return Err(encoded.error);
      }
      var bytes := encoded.value;
      ghost var start, before := rw.pos, rw.data;
      rw.Write(EncodeU32(ToSize(|bytes|)));
      rw.Write(bytes);
      WriteAtConcat(before, start, EncodeU32(ToSize(|bytes|)), bytes);
      err := Ok(());
    }

    /**
     * `Read`: the head, then as many body bytes as it announces, and the body
     * is unmarshalled. This is the corrected read (`ReadFrameAt`): a read
     * that starts at the end of the stream reports io.EOF, and one that finds
     * only part of a frame reports io.ErrUnexpectedEOF. The source passes on
     * the io.EOF of a body read that finds no byte at all
     * (`ReadFrameAsWritten`).
     */
    method Read<T>(c: Serializable<T>) returns (r: Result<T>)
      modifies rw
      ensures rw.data == old(rw.data)
      ensures Moved(r, rw.pos) == ReadRecordAt(HeadBody, old(rw.data), old(rw.pos), c)
    {
      var head := rw.ReadFull(SizeWidth);
      if head.Err? {
        return Err(head.error);
      }
      var size := DecodeU32(head.value);
      var body := rw.ReadFull(size);
      if body.Err? {
        return Err(if body.error == EOF then UnexpectedEOF else body.error);
      }
      r := c.unmarshal(body.value);
    }

    /**
     * `ReadAll(addr)`: check the argument, then read records until io.EOF
     * and keep them in order. Any other error is returned and what was read
     * is dropped. Records are read with the corrected `Read`, so a frame cut
     * off by the end of the stream is reported rather than taken for the end.
     */
    method ReadAll<T>(addr: Type, c: Serializable<T>) returns (r: Result<seq<T>>)
      modifies rw
      ensures rw.data == old(rw.data)
      ensures Moved(r, rw.pos) == ReadAllInto(HeadBody, old(rw.data), old(rw.pos), addr, c)
    {
      var target := CheckTarget(addr);
      if target.Rejected? {
        return Err(target.error);
      }
      ghost var start := rw.pos;
      var read: seq<T> := [];
      ThenNothing(ReadAllFrom(HeadBody, rw.data, start, c));
      while true
        invariant rw.data == old(rw.data)
        invariant target.byPointer ==> ReadAllFrom(HeadBody, rw.data, start, c) == Then(read, ReadAllFrom(HeadBody, rw.data, rw.pos, c))
        invariant !target.byPointer ==> read == [] && rw.pos == start
        decreases Remaining(rw.data, rw.pos)
      {
        ghost var before := rw.pos;
        var obj := Read(c);
        if obj.Err? {
          if obj.error == EOF {
            assert ReadAllFrom(HeadBody, rw.data, before, c) == Moved(Ok([]), rw.pos);
            assert read + [] == read;
            break;
          }
          return Err(obj.error);
        }
        if !target.byPointer {
          return Err(Panicked);
        }
        assert ReadAllFrom(HeadBody, rw.data, before, c) == Then([obj.value], ReadAllFrom(HeadBody, rw.data, rw.pos, c));
        ThenThen(read, [obj.value], ReadAllFrom(HeadBody, rw.data, rw.pos, c));
        read := read + [obj.value];
      }
      r := Ok(read);
    }
  }
}
