/**
 * The on-disk record format and reading and writing one record at the cursor.
 *
 * A log is its frames laid end to end from byte 0, with no header and no
 * index. The seekable log (file/file.go) frames a body as
 *   head: Size, little-endian | body | tail: Size, little-endian
 * with head == tail == the body's length; the plain store (store.go) writes
 * the head and the body only. Both are described here once, by `Framing`.
 */
module Frame {
  import opened Bytes
  import opened Codec
  import opened Stream
  import opened Seqs

  datatype Framing =
    | HeadBodyTail  // file/file.go: the length before and after the body
    | HeadBody      // store.go: the length before the body only

  /** The bytes a frame adds around its body. */
  function Overhead(f: Framing): nat
  {
    if f == HeadBodyTail then 2 * SizeWidth else SizeWidth
  }

  /** A body whose length, and whose frame's length, a `Size` holds without wrapping. */
  ghost predicate Fits(body: seq<byte>)
  {
    |body| + 2 * SizeWidth < SizeLimit
  }

  ghost predicate AllFit(bodies: seq<seq<byte>>)
  {
    forall i :: 0 <= i < |bodies| ==> Fits(bodies[i])
  }

  /** The frame written for one body: its length (as a `Size`), the body, and for HeadBodyTail the length again. */
  function FrameOf(f: Framing, body: seq<byte>): (r: seq<byte>)
    ensures |r| == |body| + Overhead(f)
  {
    var size := EncodeU32(ToSize(|body|));
    if f == HeadBodyTail then size + body + size else size + body
  }

  /** A log holding `bodies` in order: their frames concatenated from byte 0. */
  function Log(f: Framing, bodies: seq<seq<byte>>): (r: seq<byte>)
    ensures r == [] <==> bodies == []
  {
    if bodies == [] then [] else FrameOf(f, bodies[0]) + Log(f, bodies[1..])
  }

  /** The byte offset where record `k` starts (for k == |bodies|, the end of the log). */
  function Boundary(f: Framing, bodies: seq<seq<byte>>, k: nat): (r: nat)
    requires k <= |bodies|
    ensures Overhead(f) * k <= r
    decreases k
  {
    if k == 0 then 0 else Boundary(f, bodies, k - 1) + |bodies[k - 1]| + Overhead(f)
  }

  /** The log of two record sequences is the two logs one after the other. */
  lemma {:induction false} LogConcat(f: Framing, a: seq<seq<byte>>, b: seq<seq<byte>>)
    ensures Log(f, a + b) == Log(f, a) + Log(f, b)
  {
    if a == [] {
      assert a + b == b;
    } else {
      assert (a + b)[1..] == a[1..] + b;
      LogConcat(f, a[1..], b);
    }
  }

  /** The log splits at every boundary. */
  lemma LogSplit(f: Framing, bodies: seq<seq<byte>>, k: nat)
    requires k <= |bodies|
    ensures Log(f, bodies) == Log(f, bodies[..k]) + Log(f, bodies[k..])
  {
    assert bodies[..k] + bodies[k..] == bodies;
    LogConcat(f, bodies[..k], bodies[k..]);
  }

  lemma LogSingle(f: Framing, b: seq<byte>)
    ensures Log(f, [b]) == FrameOf(f, b)
  {
    assert [b][1..] == [];
  }

  /** Boundary `k` is the length of the log of the first `k` records. */
  lemma {:induction false} BoundaryIsLength(f: Framing, bodies: seq<seq<byte>>, k: nat)
    requires k <= |bodies|
    ensures Boundary(f, bodies, k) == |Log(f, bodies[..k])|
  {
    if k > 0 {
      BoundaryIsLength(f, bodies, k - 1);
      assert bodies[..k] == bodies[..k - 1] + [bodies[k - 1]];
      LogConcat(f, bodies[..k - 1], [bodies[k - 1]]);
      LogSingle(f, bodies[k - 1]);
    }
  }

  /** The last boundary is the end of the log. */
  lemma BoundaryEnd(f: Framing, bodies: seq<seq<byte>>)
    ensures Boundary(f, bodies, |bodies|) == |Log(f, bodies)|
  {
    BoundaryIsLength(f, bodies, |bodies|);
    assert bodies[..|bodies|] == bodies;
  }

  /** Record `k`'s frame sits between boundary `k` and boundary `k + 1`. */
  lemma LogAround(f: Framing, bodies: seq<seq<byte>>, k: nat)
    requires k < |bodies|
    ensures Log(f, bodies) == Log(f, bodies[..k]) + FrameOf(f, bodies[k]) + Log(f, bodies[k + 1..])
    ensures Boundary(f, bodies, k) == |Log(f, bodies[..k])|
  {
    assert bodies == bodies[..k] + [bodies[k]] + bodies[k + 1..];
    LogConcat(f, bodies[..k] + [bodies[k]], bodies[k + 1..]);
    LogConcat(f, bodies[..k], [bodies[k]]);
    LogSingle(f, bodies[k]);
    BoundaryIsLength(f, bodies, k);
  }

  /**
   * Reading one frame at `pos`, as file.go's `Read` and store.go's `Read` do
   * it: the head with `binary.Read`, the body with `io.ReadFull`, and for
   * HeadBodyTail the tail with `binary.Read`, whose value is never compared
   * with the head. Each of these returns io.EOF when it finds no byte at all,
   * so a frame cut off right after its head (or its body) reads as io.EOF.
   */
  function ReadFrameAsWritten(f: Framing, data: seq<byte>, pos: nat): (r: Moved<seq<byte>>)
    ensures r.result.Err? ==> r.result.error in {EOF, UnexpectedEOF}
  {
    var head := ReadFullAt(data, pos, SizeWidth);
    if head.result.Err? then head
    else
      var body := ReadFullAt(data, head.pos, DecodeU32(head.result.value));
      if body.result.Err? || f == HeadBody then body
      else
        var tail := ReadFullAt(data, body.pos, SizeWidth);
        if tail.result.Err? then tail else Moved(body.result, tail.pos)
  }

  /**
   * Reading one frame, with io.EOF kept for a read that starts at the end of
   * the stream: a frame cut off anywhere after its first byte is
   * io.ErrUnexpectedEOF. On success the whole frame is consumed and its body
   * returned.
   */
  function ReadFrameAt(f: Framing, data: seq<byte>, pos: nat): (r: Moved<seq<byte>>)
    ensures r.result == Err(EOF) <==> |data| <= pos
    ensures r.result == Err(EOF) ==> r.pos == pos
    ensures r.result.Err? ==> r.result.error in {EOF, UnexpectedEOF}
    ensures r.result.Ok? ==> r.pos == pos + Overhead(f) + |r.result.value| <= |data|
  {
    if |data| <= pos then Moved(Err(EOF), pos)
    else if |data| < pos + SizeWidth then Moved(Err(UnexpectedEOF), |data|)
    else
      var size := DecodeU32(data[pos..pos + SizeWidth]);
      if |data| < pos + Overhead(f) + size then Moved(Err(UnexpectedEOF), |data|)
      else Moved(Ok(data[pos + SizeWidth..pos + SizeWidth + size]), pos + Overhead(f) + size)
  }

  /**
   * The corrected read differs from the read as written only where the
   * latter reports io.EOF although the frame started before the end of the
   * stream: there it reports io.ErrUnexpectedEOF, with the same cursor.
   */
  lemma ReadFrameCorrected(f: Framing, data: seq<byte>, pos: nat)
    ensures var w := ReadFrameAsWritten(f, data, pos);
      ReadFrameAt(f, data, pos) == if w.result == Err(EOF) && pos < |data| then Moved(Err(UnexpectedEOF), w.pos) else w
  {
  }

  /**
   * A frame reads successfully exactly when the stream holds, from `pos`, a
   * head and as many bytes as it announces plus the tail; the body returned
   * is those bytes.
   */
  lemma ReadFrameAtOk(f: Framing, data: seq<byte>, pos: nat)
    ensures var r := ReadFrameAt(f, data, pos);
      r.result.Ok? <==>
        pos + Overhead(f) <= |data| && pos + Overhead(f) + DecodeU32(data[pos..pos + SizeWidth]) <= |data|
    ensures var r := ReadFrameAt(f, data, pos);
      r.result.Ok? ==>
        && DecodeU32(data[pos..pos + SizeWidth]) == |r.result.value|
        && data[pos + SizeWidth..pos + SizeWidth + |r.result.value|] == r.result.value
  {
  }

  /** Reading one record: read its frame, then `Unmarshal` the body (after the frame is consumed). */
  function ReadRecordAt<T>(f: Framing, data: seq<byte>, pos: nat, c: Serializable<T>): (r: Moved<T>)
    ensures r.pos == ReadFrameAt(f, data, pos).pos
    ensures r.result.Ok? ==> pos < r.pos <= |data|
    ensures ReadFrameAt(f, data, pos).result.Err? ==> r.result == Err(ReadFrameAt(f, data, pos).result.error)
    ensures ReadFrameAt(f, data, pos).result.Ok? ==> r.result == c.unmarshal(ReadFrameAt(f, data, pos).result.value)
  {
    var m := ReadFrameAt(f, data, pos);
    Moved(if m.result.Err? then Err(m.result.error) else c.unmarshal(m.result.value), m.pos)
  }

  /** What a write returned, the stream's bytes afterwards, and the cursor. */
  datatype Written = Written(result: Result<()>, data: seq<byte>, pos: nat)

  /**
   * Writing one record whose `Marshal` gave `encoded`: a Marshal error is
   * returned before any byte is written; otherwise the frame is written at the
   * cursor and the cursor moves past it.
   */
  function WriteRecordAt(f: Framing, data: seq<byte>, pos: nat, encoded: Result<seq<byte>>): (r: Written)
    ensures encoded.Err? ==> r == Written(Err(encoded.error), data, pos)
    ensures encoded.Ok? ==> r.result.Ok? && r.pos == pos + |encoded.value| + Overhead(f)
    ensures encoded.Ok? ==> r.pos <= |r.data| && r.data[pos..r.pos] == FrameOf(f, encoded.value)
    ensures encoded.Ok? ==> forall i :: 0 <= i < pos ==> r.data[i] == if i < |data| then data[i] else 0
    ensures encoded.Ok? ==> r.data[r.pos..] == if r.pos < |data| then data[r.pos..] else []
  {
    if encoded.Err? then Written(Err(encoded.error), data, pos)
    else
      var frame := FrameOf(f, encoded.value);
      var r := Written(Ok(()), WriteAt(data, pos, frame), pos + |frame|);
      WriteAtBytes(data, pos, frame);
      assert r.data[pos..r.pos] == frame;
      r
  }

  /** What is left to read after `pos`. */
  function Remaining(data: seq<byte>, pos: nat): nat
  {
    if pos < |data| then |data| - pos else 0
  }

  /** `m` with `read` put in front of the records it holds, if it holds any. */
  function Then<T>(read: seq<T>, m: Moved<seq<T>>): Moved<seq<T>>
  {
    if m.result.Ok? then Moved(Ok(read + m.result.value), m.pos) else m
  }

  /** Putting `a` in front of what `b` was put in front of is putting `a + b` in front. */
  lemma ThenThen<T>(a: seq<T>, b: seq<T>, m: Moved<seq<T>>)
    ensures Then(a, Then(b, m)) == Then(a + b, m)
  {
    if m.result.Ok? {
      assert a + (b + m.result.value) == a + b + m.result.value;
    }
  }

  lemma ThenNothing<T>(m: Moved<seq<T>>)
    ensures Then([], m) == m
  {
    if m.result.Ok? {
      assert [] + m.result.value == m.result.value;
    }
  }

  /**
   * `ReadAll`'s loop: read records from `pos` until io.EOF, keeping them in
   * file order. io.EOF ends the loop and is not an error; any other error
   * discards what was read and is returned. The cursor is left where the
   * last read left it. An io.EOF that `Unmarshal` returns ends the loop in
   * the same way, since the loop only compares the error with io.EOF.
   */
  function ReadAllFrom<T>(f: Framing, data: seq<byte>, pos: nat, c: Serializable<T>): (r: Moved<seq<T>>)
    ensures r.result.Err? ==> r.result.error != EOF
    ensures |data| <= pos ==> r == Moved(Ok([]), pos)
    ensures pos <= r.pos
    decreases Remaining(data, pos)
  {
    var m := ReadRecordAt(f, data, pos, c);
    if m.result.Err? then
      if m.result.error == EOF then Moved(Ok([]), m.pos) else Moved(Err(m.result.error), m.pos)
    else
      Then([m.result.value], ReadAllFrom(f, data, m.pos, c))
  }

  /**
   * Writing `x` at the end of a prefix `pre` replaces the first |x| bytes
   * after it and keeps the rest.
   */
  lemma WriteAfterPrefix(pre: seq<byte>, s: seq<byte>, x: seq<byte>)
    ensures WriteAt(pre + s, |pre|, x) == pre + x + Drop(s, |x|)
  {
    var lhs := WriteAt(pre + s, |pre|, x);
    var rhs := pre + x + Drop(s, |x|);
    WriteAtBytes(pre + s, |pre|, x);
    assert |lhs| == |rhs|;
    forall i | 0 <= i < |lhs| ensures lhs[i] == rhs[i] {
      if i < |pre| {
        assert lhs[i] == (pre + s)[i];
      } else if i < |pre| + |x| {
        assert lhs[i] == x[i - |pre|];
      } else {
        assert lhs[i] == (pre + s)[i];
      }
    }
  }

  /**
   * A frame whose head holds its body's length reads back as that body,
   * whatever its four tail bytes hold: the tail is read but never compared
   * with the head.
   */
  lemma ReadFrameOfBytes(f: Framing, pre: seq<byte>, body: seq<byte>, tail: seq<byte>, post: seq<byte>)
    requires Fits(body)
    requires |tail| == Overhead(f) - SizeWidth
    ensures ReadFrameAt(f, pre + EncodeU32(|body|) + body + tail + post, |pre|)
         == Moved(Ok(body), |pre| + Overhead(f) + |body|)
  {
    var data := pre + EncodeU32(|body|) + body + tail + post;
    var p := |pre|;
    assert data[p..p + SizeWidth] == EncodeU32(|body|);
    DecodeEncode(|body|);
    var r := ReadFrameAt(f, data, p);
    assert r.result.Ok?;
    assert |r.result.value| == |body|;
    assert data[p + SizeWidth..p + SizeWidth + |body|] == body;
  }

  /** Reading the frame `FrameOf` wrote gives the body back and moves past the frame. */
  lemma ReadFrameOfFrame(f: Framing, pre: seq<byte>, body: seq<byte>, post: seq<byte>)
    requires Fits(body)
    ensures ReadFrameAt(f, pre + FrameOf(f, body) + post, |pre|)
         == Moved(Ok(body), |pre| + |FrameOf(f, body)|)
  {
    var size := EncodeU32(ToSize(|body|));
    var tail := if f == HeadBodyTail then size else [];
    assert FrameOf(f, body) == size + body + tail;
    AppendAssoc5(pre, size, body, tail, post);
    ReadFrameOfBytes(f, pre, body, tail, post);
  }

  /** In a log followed by anything, reading at boundary `k` gives record `k` and stops at boundary `k + 1`. */
  lemma ReadFrameAtBoundary(f: Framing, bodies: seq<seq<byte>>, rest: seq<byte>, k: nat)
    requires AllFit(bodies) && k < |bodies|
    ensures ReadFrameAt(f, Log(f, bodies) + rest, Boundary(f, bodies, k))
         == Moved(Ok(bodies[k]), Boundary(f, bodies, k + 1))
  {
    var pre := Log(f, bodies[..k]);
    var frame := FrameOf(f, bodies[k]);
    var post := Log(f, bodies[k + 1..]) + rest;
    assert Log(f, bodies) + rest == pre + frame + post
      && Boundary(f, bodies, k) == |pre| && Boundary(f, bodies, k + 1) == |pre| + |frame| by {
      LogAround(f, bodies, k);
      AppendAssoc(pre, frame, Log(f, bodies[k + 1..]), rest);
    }
    assert ReadFrameAt(f, pre + frame + post, |pre|) == Moved(Ok(bodies[k]), |pre| + |frame|) by {
      assert Fits(bodies[k]);
      ReadFrameOfFrame(f, pre, bodies[k], post);
    }
  }

  /** Reading at the end of a whole log reports io.EOF and leaves the cursor there. */
  lemma ReadFrameAtEnd(f: Framing, bodies: seq<seq<byte>>)
    ensures ReadFrameAt(f, Log(f, bodies), Boundary(f, bodies, |bodies|))
         == Moved(Err(EOF), Boundary(f, bodies, |bodies|))
  {
    BoundaryEnd(f, bodies);
  }

  /**
   * At every record boundary of a whole log, and at its end, the frame read
   * as written and the corrected one agree: the correction only changes
   * reads of a frame cut off by the end of the stream.
   */
  lemma ReadFrameAsWrittenOnLog(f: Framing, bodies: seq<seq<byte>>, k: nat)
    requires AllFit(bodies) && k <= |bodies|
    ensures ReadFrameAsWritten(f, Log(f, bodies), Boundary(f, bodies, k))
         == ReadFrameAt(f, Log(f, bodies), Boundary(f, bodies, k))
  {
    ReadFrameCorrected(f, Log(f, bodies), Boundary(f, bodies, k));
    if k < |bodies| {
      assert Log(f, bodies) + [] == Log(f, bodies);
      ReadFrameAtBoundary(f, bodies, [], k);
    } else {
      BoundaryEnd(f, bodies);
    }
  }

  /** What is left of `s` after its first `n` bytes. */
  function Drop(s: seq<byte>, n: nat): (r: seq<byte>)
    ensures |r| == if n < |s| then |s| - n else 0
  {
    if n < |s| then s[n..] else []
  }

  /**
   * Writing a record at boundary `k` of a log followed by anything leaves the
   * first `k` records, puts the new one after them, and keeps whatever bytes
   * of the old stream lie past the new frame.
   */
  lemma WriteFrameAtBoundary(f: Framing, bodies: seq<seq<byte>>, rest: seq<byte>, k: nat, b: seq<byte>)
    requires k <= |bodies|
    ensures WriteAt(Log(f, bodies) + rest, Boundary(f, bodies, k), FrameOf(f, b))
         == Log(f, bodies[..k] + [b]) + Drop(Log(f, bodies[k..]) + rest, |FrameOf(f, b)|)
  {
    var pre := Log(f, bodies[..k]);
    var s := Log(f, bodies[k..]) + rest;
    var frame := FrameOf(f, b);
    calc {
      WriteAt(Log(f, bodies) + rest, Boundary(f, bodies, k), frame);
    == { LogSplit(f, bodies, k);
         BoundaryIsLength(f, bodies, k);
         AppendAssoc3(pre, Log(f, bodies[k..]), rest); }
      WriteAt(pre + s, |pre|, frame);
    == { WriteAfterPrefix(pre, s, frame); }
      pre + frame + Drop(s, |frame|);
    == { LogConcat(f, bodies[..k], [b]);
         LogSingle(f, b); }
      Log(f, bodies[..k] + [b]) + Drop(s, |frame|);
    }
  }

  /** Writing at the end of a whole log appends one record to it. */
  lemma AppendRecord(f: Framing, bodies: seq<seq<byte>>, b: seq<byte>)
    ensures WriteAt(Log(f, bodies), |Log(f, bodies)|, FrameOf(f, b)) == Log(f, bodies + [b])
  {
    var n := |bodies|;
    assert Log(f, bodies) + [] == Log(f, bodies);
    BoundaryEnd(f, bodies);
    assert Drop(Log(f, bodies[n..]) + [], |FrameOf(f, b)|) == [] by {
      assert bodies[n..] == [];
    }
    WriteFrameAtBoundary(f, bodies, [], n, b);
    assert bodies[..n] == bodies;
  }

  /** Writing a record at the end of a whole log appends its frame to the log. */
  lemma AppendWrittenRecord(f: Framing, bodies: seq<seq<byte>>, b: seq<byte>)
    ensures WriteRecordAt(f, Log(f, bodies), |Log(f, bodies)|, Ok(b))
         == Written(Ok(()), Log(f, bodies + [b]), |Log(f, bodies + [b])|)
  {
    var log := Log(f, bodies);
    AppendRecord(f, bodies, b);
    LogConcat(f, bodies, [b]);
    LogSingle(f, b);
    assert WriteRecordAt(f, log, |log|, Ok(b)).data == WriteAt(log, |log|, FrameOf(f, b));
  }

  /** Past the frame of record `k` come the later records and whatever followed the log. */
  lemma DropFrame(f: Framing, bodies: seq<seq<byte>>, rest: seq<byte>, k: nat)
    requires k < |bodies|
    ensures Drop(Log(f, bodies[k..]) + rest, |bodies[k]| + Overhead(f)) == Log(f, bodies[k + 1..]) + rest
  {
    var frame := FrameOf(f, bodies[k]);
    var after := Log(f, bodies[k + 1..]);
    assert Log(f, bodies[k..]) == frame + after by {
      assert bodies[k..][0] == bodies[k] && bodies[k..][1..] == bodies[k + 1..];
    }
    AppendAssoc3(frame, after, rest);
    assert (frame + (after + rest))[|frame|..] == after + rest;
  }

  /** The log with record `k` replaced is the log up to the new record, then the later records. */
  lemma LogReplace(f: Framing, bodies: seq<seq<byte>>, rest: seq<byte>, k: nat, b: seq<byte>)
    requires k < |bodies|
    ensures Log(f, bodies[k := b]) + rest == Log(f, bodies[..k] + [b]) + (Log(f, bodies[k + 1..]) + rest)
  {
    assert bodies[k := b] == (bodies[..k] + [b]) + bodies[k + 1..];
    LogConcat(f, bodies[..k] + [b], bodies[k + 1..]);
    AppendAssoc3(Log(f, bodies[..k] + [b]), Log(f, bodies[k + 1..]), rest);
  }

  /** Overwriting record `k` with a body of the same length keeps every other record readable. */
  lemma RewriteSameLength(f: Framing, bodies: seq<seq<byte>>, rest: seq<byte>, k: nat, b: seq<byte>)
    requires k < |bodies| && |b| == |bodies[k]|
    ensures WriteAt(Log(f, bodies) + rest, Boundary(f, bodies, k), FrameOf(f, b))
         == Log(f, bodies[k := b]) + rest
  {
    calc {
      WriteAt(Log(f, bodies) + rest, Boundary(f, bodies, k), FrameOf(f, b));
    == { WriteFrameAtBoundary(f, bodies, rest, k, b); }
      Log(f, bodies[..k] + [b]) + Drop(Log(f, bodies[k..]) + rest, |FrameOf(f, b)|);
    == { DropFrame(f, bodies, rest, k); }
      Log(f, bodies[..k] + [b]) + (Log(f, bodies[k + 1..]) + rest);
    == { LogReplace(f, bodies, rest, k, b); }
      Log(f, bodies[k := b]) + rest;
    }
  }

  /** Reading all stops cleanly, with nothing, where a record read reports io.EOF. */
  lemma ReadAllFromEnd<T>(f: Framing, data: seq<byte>, pos: nat, c: Serializable<T>)
    requires ReadRecordAt(f, data, pos, c) == Moved(Err(EOF), pos)
    ensures ReadAllFrom(f, data, pos, c) == Moved(Ok([]), pos)
  {
  }

  /** A record read successfully is followed by whatever reading all from after it gives. */
  lemma ReadAllFromNext<T>(f: Framing, data: seq<byte>, pos: nat, c: Serializable<T>, v: T, next: nat, rest: seq<T>, end: nat)
    requires ReadRecordAt(f, data, pos, c) == Moved(Ok(v), next)
    requires ReadAllFrom(f, data, next, c) == Moved(Ok(rest), end)
    ensures ReadAllFrom(f, data, pos, c) == Moved(Ok([v] + rest), end)
  {
  }

  /**
   * A read error other than io.EOF ends reading all with that error, where
   * the failing read left the cursor: along a chain of successful reads, the
   * records read before the error are dropped.
   */
  lemma {:induction false} ReadAllFromError<T>(f: Framing, data: seq<byte>, c: Serializable<T>, ps: seq<nat>, vs: seq<T>, e: Error, k: nat)
    requires |ps| == |vs| + 1 && k <= |vs|
    requires forall i {:trigger ReadRecordAt(f, data, ps[i], c)} :: 0 <= i < |vs| ==>
      ReadRecordAt(f, data, ps[i], c) == Moved(Ok(vs[i]), ps[i + 1])
    requires ReadRecordAt(f, data, ps[|vs|], c).result == Err(e) && e != EOF
    ensures ReadAllFrom(f, data, ps[k], c) == Moved(Err(e), ReadRecordAt(f, data, ps[|vs|], c).pos)
    decreases |vs| - k
  {
    if k < |vs| {
      assert ReadRecordAt(f, data, ps[k], c) == Moved(Ok(vs[k]), ps[k + 1]);
      ReadAllFromError(f, data, c, ps, vs, e, k + 1);
    }
  }

  /**
   * The record read at each position `ps[i]` is `vs[i]` and ends at
   * `ps[i + 1]`, and the last position reads as io.EOF.
   */
  ghost predicate ReadsAlong<T>(f: Framing, data: seq<byte>, c: Serializable<T>, ps: seq<nat>, vs: seq<T>)
    requires |ps| == |vs| + 1
  {
    && (forall i {:trigger ReadRecordAt(f, data, ps[i], c)} :: 0 <= i < |vs| ==>
         ReadRecordAt(f, data, ps[i], c) == Moved(Ok(vs[i]), ps[i + 1]))
    && ReadRecordAt(f, data, ps[|vs|], c) == Moved(Err(EOF), ps[|vs|])
  }

  /**
   * Reading records along a chain of positions: when the record read at
   * every position `ps[i]` is `vs[i]` and ends at `ps[i + 1]`, and the last
   * position reads as io.EOF, reading all from `ps[k]` yields `vs[k..]`.
   */
  lemma {:induction false} ReadAllAlong<T>(f: Framing, data: seq<byte>, c: Serializable<T>, ps: seq<nat>, vs: seq<T>, k: nat)
    requires |ps| == |vs| + 1 && k <= |vs| && ReadsAlong(f, data, c, ps, vs)
    ensures ReadAllFrom(f, data, ps[k], c) == Moved(Ok(vs[k..]), ps[|vs|])
    decreases |vs| - k
  {
    if k == |vs| {
      ReadAllFromEnd(f, data, ps[k], c);
      assert vs[k..] == [];
    } else {
      assert ReadRecordAt(f, data, ps[k], c) == Moved(Ok(vs[k]), ps[k + 1]);
      ReadAllAlong(f, data, c, ps, vs, k + 1);
      ReadAllFromNext(f, data, ps[k], c, vs[k], ps[k + 1], vs[k + 1..], ps[|vs|]);
      SuffixCons(vs, k);
    }
  }

  /** Bodies marshalled from encodable records fit their frames. */
  lemma EncodedFit<T>(c: Serializable<T>, vs: seq<T>)
    requires Encodable(c, vs)
    ensures AllFit(Encoded(c, vs))
  {
    var bodies := Encoded(c, vs);
    forall i | 0 <= i < |bodies| ensures Fits(bodies[i]) {
      assert vs[i] in vs;
    }
  }

  /**
   * In a log written from `vs` and followed by anything, the record read at
   * boundary `k` is `vs[k]`, and the read stops at boundary `k + 1`.
   */
  lemma ReadRecordAtBoundary<T(!new)>(f: Framing, c: Serializable<T>, vs: seq<T>, rest: seq<byte>, k: nat)
    requires RoundTrips(c) && Encodable(c, vs) && k < |vs|
    ensures ReadRecordAt(f, Log(f, Encoded(c, vs)) + rest, Boundary(f, Encoded(c, vs), k), c)
         == Moved(Ok(vs[k]), Boundary(f, Encoded(c, vs), k + 1))
  {
    EncodedFit(c, vs);
    ReadFrameAtBoundary(f, Encoded(c, vs), rest, k);
  }

  /** The boundaries of a log: where each record starts, and the end. */
  function Boundaries(f: Framing, bodies: seq<seq<byte>>): (ps: seq<nat>)
    ensures |ps| == |bodies| + 1
    ensures forall i :: 0 <= i <= |bodies| ==> ps[i] == Boundary(f, bodies, i)
  {
    seq(|bodies| + 1, i requires 0 <= i <= |bodies| => Boundary(f, bodies, i))
  }

  /** In a log written from `vs`, the record at each boundary reads as its record, and the end reads as io.EOF. */
  lemma LogReadsAlong<T(!new)>(f: Framing, c: Serializable<T>, vs: seq<T>)
    requires RoundTrips(c) && Encodable(c, vs)
    ensures ReadsAlong(f, Log(f, Encoded(c, vs)), c, Boundaries(f, Encoded(c, vs)), vs)
  {
    var bodies := Encoded(c, vs);
    var data := Log(f, bodies);
    var ps := Boundaries(f, bodies);
    forall i | 0 <= i < |vs|
      ensures ReadRecordAt(f, data, ps[i], c) == Moved(Ok(vs[i]), ps[i + 1])
    {
      ReadRecordAtBoundary(f, c, vs, [], i);
      assert data + [] == data;
    }
    ReadFrameAtEnd(f, bodies);
  }

  /**
   * A log written from `vs` (each record marshalled to a body) and read from
   * boundary `k` to the end yields `vs[k..]`, in order, when the codec
   * round-trips.
   */
  lemma ReadAllOfLog<T(!new)>(f: Framing, c: Serializable<T>, vs: seq<T>, k: nat)
    requires RoundTrips(c) && Encodable(c, vs) && k <= |vs|
    ensures ReadAllFrom(f, Log(f, Encoded(c, vs)), Boundary(f, Encoded(c, vs), k), c)
         == Moved(Ok(vs[k..]), |Log(f, Encoded(c, vs))|)
  {
    var bodies := Encoded(c, vs);
    LogReadsAlong(f, c, vs);
    ReadAllAlong(f, Log(f, bodies), c, Boundaries(f, bodies), vs, k);
    BoundaryEnd(f, bodies);
  }


  /**
   * The discrepancy in the reading code as written: a stream holding only a
   * head that announces 5 bytes reads as io.EOF, the signal `ReadAll` takes
   * for a clean end, although bytes remain; read as intended it is
   * io.ErrUnexpectedEOF.
   */
  lemma TornFrameReadsAsEof(f: Framing)
    ensures ReadFrameAsWritten(f, EncodeU32(5), 0) == Moved(Err(EOF), SizeWidth)
    ensures ReadFrameAt(f, EncodeU32(5), 0).result == Err(UnexpectedEOF)
  {
    DecodeEncode(5);
  }
}
