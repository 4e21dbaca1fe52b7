/**
 * The open file underneath the log: a byte sequence and one cursor.
 *
 * This stands for an `*os.File` together with the `bufio.ReadWriter` built on
 * it. The buffering is not modelled: every read and write happens at the one
 * logical cursor, as it does when the buffer has just been rebuilt (which the
 * log does after every seek and truncate). Disk failures are not modelled, so
 * the only read errors are the two end-of-stream ones.
 */
module Stream {
  import opened Bytes
  import opened Codec

  /** What an operation at a cursor returned, and where it left the cursor. */
  datatype Moved<T> = Moved(result: Result<T>, pos: nat)

  function Zeros(n: nat): (r: seq<byte>)
    ensures |r| == n
    ensures forall i :: 0 <= i < n ==> r[i] == 0
  {
    seq(n, _ => 0)
  }

  /**
   * `io.ReadFull` of `n` bytes at `pos`: all `n` bytes, or io.EOF when not a
   * single byte is left, or io.ErrUnexpectedEOF (having consumed the rest of
   * the stream) when some but not all are.
   */
  function ReadFullAt(data: seq<byte>, pos: nat, n: nat): (r: Moved<seq<byte>>)
    ensures r.result.Ok? <==> n == 0 || pos + n <= |data|
    ensures r.result.Ok? ==> r.pos == pos + n && |r.result.value| == n
    ensures r.result.Ok? && 0 < n ==> r.result.value == data[pos..pos + n]
    ensures r.result == Err(EOF) <==> 0 < n && |data| <= pos
    ensures r.result.Err? && r.result.error != EOF ==> r.result.error == UnexpectedEOF && r.pos == |data|
    ensures r.result == Err(EOF) ==> r.pos == pos
  {
    if n == 0 then Moved(Ok([]), pos)
    else if |data| <= pos then Moved(Err(EOF), pos)
    else if |data| - pos < n then Moved(Err(UnexpectedEOF), |data|)
    else Moved(Ok(data[pos..pos + n]), pos + n)
  }

  /**
   * Writing `bytes` at `pos`: they replace what was there, the stream grows if
   * they reach past its end, and a cursor past the end leaves a hole of zeros.
   */
  function WriteAt(data: seq<byte>, pos: nat, bytes: seq<byte>): (r: seq<byte>)
    ensures |r| == if pos + |bytes| <= |data| then |data| else pos + |bytes|
  {
    var padded := if pos <= |data| then data else data + Zeros(pos - |data|);
    padded[..pos] + bytes + if pos + |bytes| < |padded| then padded[pos + |bytes|..] else []
  }

  /**
   * Byte by byte, a write holds the written bytes at their place, the old
   * bytes (or the zeros of a hole) before them, and the old bytes after them.
   */
  lemma WriteAtBytes(data: seq<byte>, pos: nat, bytes: seq<byte>)
    ensures var r := WriteAt(data, pos, bytes);
      && (forall i :: 0 <= i < |bytes| ==> r[pos + i] == bytes[i])
      && (forall i :: 0 <= i < |r| && i < pos ==> r[i] == if i < |data| then data[i] else 0)
      && (forall i :: pos + |bytes| <= i < |r| ==> r[i] == data[i])
  {
  }

  /** `os.File.Truncate(size)`: cut the stream to `size` bytes, or extend it with zeros. */
  function Resize(data: seq<byte>, size: nat): (r: seq<byte>)
    ensures |r| == size
    ensures forall i :: 0 <= i < size ==> r[i] == if i < |data| then data[i] else 0
  {
    if size <= |data| then data[..size] else data + Zeros(size - |data|)
  }

  /**
   * `os.File.Seek(offset, whence)` in bytes: relative to the start (0), the
   * cursor (1) or the end (2). A target before byte 0, or another whence, is
   * refused; a target past the end is allowed.
   */
  function SeekTarget(data: seq<byte>, pos: nat, offset: int, whence: int): (r: Result<nat>)
    ensures r.Ok? <==> whence in {0, 1, 2} && 0 <= offset + (if whence == 0 then 0 else if whence == 1 then pos else |data|)
    ensures r.Ok? ==> r.value == offset + (if whence == 0 then 0 else if whence == 1 then pos else |data|)
    ensures r.Err? ==> r.error == InvalidSeek
  {
    if whence != 0 && whence != 1 && whence != 2 then Err(InvalidSeek)
    else
      var target := offset + if whence == 0 then 0 else if whence == 1 then pos else |data|;
      if target < 0 then Err(InvalidSeek) else Ok(target)
  }

  /** Writing two pieces one after the other is writing their concatenation. */
  lemma WriteAtConcat(data: seq<byte>, pos: nat, a: seq<byte>, b: seq<byte>)
    ensures WriteAt(WriteAt(data, pos, a), pos + |a|, b) == WriteAt(data, pos, a + b)
  {
    var lhs := WriteAt(WriteAt(data, pos, a), pos + |a|, b);
    var rhs := WriteAt(data, pos, a + b);
    WriteAtBytes(data, pos, a);
    WriteAtBytes(WriteAt(data, pos, a), pos + |a|, b);
    WriteAtBytes(data, pos, a + b);
    assert |lhs| == |rhs|;
    forall i | 0 <= i < |lhs| ensures lhs[i] == rhs[i] {
      if pos + |a| <= i < pos + |a| + |b| {
        assert lhs[i] == b[i - pos - |a|];
        assert rhs[i] == (a + b)[i - pos];
      } else if pos <= i < pos + |a| {
        assert rhs[i] == (a + b)[i - pos];
      }
    }
  }

  /** An open file: its bytes and its one cursor. */
  class Stream {
    var data: seq<byte>
    var pos: nat

    /** Opening a file puts the cursor at byte 0. */
    constructor (contents: seq<byte>)
      ensures data == contents && pos == 0
    {
      data := contents;
      pos := 0;
    }

    method ReadFull(n: nat) returns (r: Result<seq<byte>>)
      modifies this
      ensures data == old(data)
      ensures Moved(r, pos) == ReadFullAt(old(data), old(pos), n)
    {
      var m := ReadFullAt(data, pos, n);
      r, pos := m.result, m.pos;
    }

    method Write(bytes: seq<byte>)
      modifies this
      ensures data == WriteAt(old(data), old(pos), bytes)
      ensures pos == old(pos) + |bytes|
    {
      data := WriteAt(data, pos, bytes);
      pos := pos + |bytes|;
    }

    /** On success the cursor moves to the returned byte offset; on failure it stays. */
    method Seek(offset: int, whence: int) returns (r: Result<nat>)
      modifies this
      ensures data == old(data)
      ensures r == SeekTarget(old(data), old(pos), offset, whence)
      ensures pos == if r.Ok? then r.value else old(pos)
    {
      r := SeekTarget(data, pos, offset, whence);
      if r.Ok? {
        pos := r.value;
      }
    }

    method Truncate(size: nat)
      modifies this
      ensures data == Resize(old(data), size)
      ensures pos == old(pos)
    {
      data := Resize(data, size);
    }
  }
}
