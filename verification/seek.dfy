/**
 * Moving the cursor of the seekable log by whole records, with no index.
 *
 * A forward step reads the head of the frame at the cursor and skips the
 * frame; a backward step reads the tail of the frame before the cursor and
 * moves back over that frame. Offsets are counted in records; `whence` says
 * where counting starts. Only file/file.go's framing (HeadBodyTail) has the
 * tails a backward step needs.
 */
module Seek {
  import opened Bytes
  import opened Codec
  import opened Stream
  import opened Frame
  import opened Seqs

  const MinInt64: int := -0x8000_0000_0000_0000
  const MaxInt64: int := 0x7fff_ffff_ffff_ffff

  /**
   * `seekOne(direct)`: a direction other than 1 or -1 is refused. A backward
   * step first moves the cursor back over the preceding tail (refused before
   * byte 0); then the four bytes at the cursor are read as a length, and the
   * cursor moves by `length + 4` forward or `-(length + 8)` backward, both
   * computed in 32-bit arithmetic. The operating system refuses a target
   * before byte 0 and leaves the cursor where the read put it.
   */
  function SeekOneAt(data: seq<byte>, pos: nat, direct: int): (r: Moved<()>)
    ensures direct != 1 && direct != -1 ==> r == Moved(Err(InvalidDirection), pos)
    ensures direct == -1 && pos < SizeWidth ==> r == Moved(Err(InvalidSeek), pos)
    ensures direct == 1 && |data| <= pos ==> r == Moved(Err(EOF), pos)
    ensures r.result.Ok? && direct == 1 ==> pos + SizeWidth <= |data| && pos + SizeWidth <= r.pos
    ensures r.result.Ok? && direct == -1 ==> SizeWidth <= pos <= |data| && r.pos <= pos
  {
    if direct != 1 && direct != -1 then Moved(Err(InvalidDirection), pos)
    else
      var back := if direct == -1 then SeekTarget(data, pos, -(SizeWidth as int), 1) else Ok(pos);
      if back.Err? then Moved(Err(back.error), pos)
      else
        var head := ReadFullAt(data, back.value, SizeWidth);
        if head.result.Err? then Moved(Err(head.result.error), head.pos)
        else
          var size := DecodeU32(head.result.value);
          var offset := if direct == 1 then ToSize(size + SizeWidth) else -(ToSize(size + 2 * SizeWidth) as int);
          var target := SeekTarget(data, head.pos, offset, 1);
          if target.Err? then Moved(Err(target.error), head.pos) else Moved(Ok(()), target.value)
  }

  /**
   * The direction and the number of steps `Seek` takes for `offset`. Negating
   * the smallest int64 overflows back to itself, so that offset takes no step.
   */
  function StepsOf(offset: int): (r: (int, nat))
    requires MinInt64 <= offset <= MaxInt64
    ensures r.0 == (if offset < 0 then -1 else 1)
    ensures offset != MinInt64 ==> r.0 * r.1 == offset
    ensures offset == MinInt64 ==> r.1 == 0
  {
    if offset >= 0 then (1, offset)
    else if offset == MinInt64 then (-1, 0)
    else (-1, -offset)
  }

  /** `n` steps in one direction; the first failing step ends the walk where it left the cursor. */
  function SeekStepsAt(data: seq<byte>, pos: nat, direct: int, n: nat): (r: Moved<()>)
    ensures n > 0 && direct != 1 && direct != -1 ==> r == Moved(Err(InvalidDirection), pos)
    ensures direct == 1 ==> pos <= r.pos
    ensures direct == 1 && r.result.Ok? ==> pos + SizeWidth * n <= r.pos
    ensures direct == -1 ==> r.pos <= pos
    decreases n
  {
    if n == 0 then Moved(Ok(()), pos)
    else
      var step := SeekOneAt(data, pos, direct);
      if step.result.Err? then step else SeekStepsAt(data, step.pos, direct, n - 1)
  }

  /**
   * `Seek(offset, whence)`: an unknown whence is refused before the cursor
   * moves; otherwise the cursor is put at the start (0), left where it is (1)
   * or put at the end (2), and then moved record by record.
   */
  function SeekAt(data: seq<byte>, pos: nat, offset: int, whence: int): (r: Moved<()>)
    requires MinInt64 <= offset <= MaxInt64
    ensures whence !in {0, 1, 2} ==> r == Moved(Err(InvalidWhence), pos)
  {
    if whence != 0 && whence != 1 && whence != 2 then Moved(Err(InvalidWhence), pos)
    else
      var anchor := if whence == 0 then 0 else if whence == 1 then pos else |data|;
      var (direct, count) := StepsOf(offset);
      SeekStepsAt(data, anchor, direct, count)
  }

  /** A forward step from a frame's head skips exactly that frame. */
  lemma StepOverFrame(pre: seq<byte>, body: seq<byte>, post: seq<byte>)
    requires Fits(body)
    ensures SeekOneAt(pre + FrameOf(HeadBodyTail, body) + post, |pre|, 1)
         == Moved(Ok(()), |pre| + |FrameOf(HeadBodyTail, body)|)
  {
    var size := EncodeU32(ToSize(|body|));
    var data := pre + FrameOf(HeadBodyTail, body) + post;
    assert data == pre + size + body + size + post;
    assert data[|pre|..|pre| + SizeWidth] == size;
    DecodeEncode(|body|);
  }

  /** A backward step from just after a frame reads that frame's tail and lands on its head. */
  lemma StepBackOverFrame(pre: seq<byte>, body: seq<byte>, post: seq<byte>)
    requires Fits(body)
    ensures SeekOneAt(pre + FrameOf(HeadBodyTail, body) + post, |pre| + |FrameOf(HeadBodyTail, body)|, -1)
         == Moved(Ok(()), |pre|)
  {
    var size := EncodeU32(ToSize(|body|));
    var data := pre + FrameOf(HeadBodyTail, body) + post;
    var end := |pre| + |body| + 2 * SizeWidth;
    assert data == pre + size + body + size + post;
    assert data[end - SizeWidth..end] == size;
    DecodeEncode(|body|);
  }

  /** A forward step from the head of a frame lands after it, however the stream is written down. */
  lemma StepOverAt(data: seq<byte>, pre: seq<byte>, body: seq<byte>, post: seq<byte>, start: nat, end: nat)
    requires Fits(body) && data == pre + FrameOf(HeadBodyTail, body) + post
    requires start == |pre| && end == |pre| + |body| + 2 * SizeWidth
    ensures SeekOneAt(data, start, 1) == Moved(Ok(()), end)
  {
    StepOverFrame(pre, body, post);
  }

  /** A backward step from the end of a frame lands on its head, however the stream is written down. */
  lemma StepBackAt(data: seq<byte>, pre: seq<byte>, body: seq<byte>, post: seq<byte>, start: nat, end: nat)
    requires Fits(body) && data == pre + FrameOf(HeadBodyTail, body) + post
    requires start == |pre| && end == |pre| + |body| + 2 * SizeWidth
    ensures SeekOneAt(data, end, -1) == Moved(Ok(()), start)
  {
    StepBackOverFrame(pre, body, post);
  }

  /** In a log followed by anything, a forward step from boundary `k` lands on boundary `k + 1`. */
  lemma StepForward(bodies: seq<seq<byte>>, rest: seq<byte>, k: nat)
    requires AllFit(bodies) && k < |bodies|
    ensures SeekOneAt(Log(HeadBodyTail, bodies) + rest, Boundary(HeadBodyTail, bodies, k), 1)
         == Moved(Ok(()), Boundary(HeadBodyTail, bodies, k + 1))
  {
    var pre := Log(HeadBodyTail, bodies[..k]);
    var post := Log(HeadBodyTail, bodies[k + 1..]) + rest;
    assert Log(HeadBodyTail, bodies) + rest == pre + FrameOf(HeadBodyTail, bodies[k]) + post
      && Boundary(HeadBodyTail, bodies, k) == |pre| by {
      LogAround(HeadBodyTail, bodies, k);
      AppendAssoc(pre, FrameOf(HeadBodyTail, bodies[k]), Log(HeadBodyTail, bodies[k + 1..]), rest);
    }
    assert Fits(bodies[k]);
    StepOverAt(Log(HeadBodyTail, bodies) + rest, pre, bodies[k], post,
      Boundary(HeadBodyTail, bodies, k), Boundary(HeadBodyTail, bodies, k + 1));
  }

  /** In a log followed by anything, a backward step from boundary `k + 1` lands on boundary `k`. */
  lemma StepBackward(bodies: seq<seq<byte>>, rest: seq<byte>, k: nat)
    requires AllFit(bodies) && k < |bodies|
    ensures SeekOneAt(Log(HeadBodyTail, bodies) + rest, Boundary(HeadBodyTail, bodies, k + 1), -1)
         == Moved(Ok(()), Boundary(HeadBodyTail, bodies, k))
  {
    var pre := Log(HeadBodyTail, bodies[..k]);
    var post := Log(HeadBodyTail, bodies[k + 1..]) + rest;
    assert Log(HeadBodyTail, bodies) + rest == pre + FrameOf(HeadBodyTail, bodies[k]) + post
      && Boundary(HeadBodyTail, bodies, k) == |pre| by {
      LogAround(HeadBodyTail, bodies, k);
      AppendAssoc(pre, FrameOf(HeadBodyTail, bodies[k]), Log(HeadBodyTail, bodies[k + 1..]), rest);
    }
    assert Fits(bodies[k]);
    StepBackAt(Log(HeadBodyTail, bodies) + rest, pre, bodies[k], post,
      Boundary(HeadBodyTail, bodies, k), Boundary(HeadBodyTail, bodies, k + 1));
  }

  /**
   * Walking forward along a chain of boundaries: when a step from each
   * boundary lands on the next, `c` steps from boundary `k` reach boundary
   * `k + c` if there are that many; when a step from the last boundary
   * reports io.EOF in place, a longer walk stops there with io.EOF.
   */
  lemma {:induction false} WalkForward(data: seq<byte>, bodies: seq<seq<byte>>, k: nat, c: nat)
    requires k <= |bodies|
    requires forall i :: 0 <= i < |bodies| ==>
      SeekOneAt(data, Boundary(HeadBodyTail, bodies, i), 1) == Moved(Ok(()), Boundary(HeadBodyTail, bodies, i + 1))
    requires k + c <= |bodies| || SeekOneAt(data, Boundary(HeadBodyTail, bodies, |bodies|), 1)
          == Moved(Err(EOF), Boundary(HeadBodyTail, bodies, |bodies|))
    ensures SeekStepsAt(data, Boundary(HeadBodyTail, bodies, k), 1, c)
         == if k + c <= |bodies| then Moved(Ok(()), Boundary(HeadBodyTail, bodies, k + c))
            else Moved(Err(EOF), Boundary(HeadBodyTail, bodies, |bodies|))
    decreases c
  {
    if c > 0 && k < |bodies| {
      WalkForward(data, bodies, k + 1, c - 1);
    }
  }

  /**
   * Walking backward along a chain of boundaries: when a backward step from
   * each boundary but the first lands on the one before, `c` steps from
   * boundary `k` reach boundary `k - c`, or stop at byte 0, where the step
   * back over a tail is refused.
   */
  lemma {:induction false} WalkBackward(data: seq<byte>, bodies: seq<seq<byte>>, k: nat, c: nat)
    requires k <= |bodies|
    requires forall i :: 0 <= i < |bodies| ==>
      SeekOneAt(data, Boundary(HeadBodyTail, bodies, i + 1), -1) == Moved(Ok(()), Boundary(HeadBodyTail, bodies, i))
    ensures SeekStepsAt(data, Boundary(HeadBodyTail, bodies, k), -1, c)
         == if c <= k then Moved(Ok(()), Boundary(HeadBodyTail, bodies, k - c)) else Moved(Err(InvalidSeek), 0)
    decreases c
  {
    if c > 0 && k > 0 {
      WalkBackward(data, bodies, k - 1, c - 1);
    }
  }

  /**
   * `c` forward steps from boundary `k` of a log followed by anything reach
   * boundary `k + c` when there are that many records. On a whole log, a
   * longer walk stops at the end with io.EOF, from the head read that found
   * nothing.
   */
  lemma StepsForward(bodies: seq<seq<byte>>, rest: seq<byte>, k: nat, c: nat)
    requires AllFit(bodies) && k <= |bodies|
    requires k + c <= |bodies| || rest == []
    ensures SeekStepsAt(Log(HeadBodyTail, bodies) + rest, Boundary(HeadBodyTail, bodies, k), 1, c)
         == if k + c <= |bodies| then Moved(Ok(()), Boundary(HeadBodyTail, bodies, k + c))
            else Moved(Err(EOF), |Log(HeadBodyTail, bodies)|)
  {
    var data := Log(HeadBodyTail, bodies) + rest;
    forall i | 0 <= i < |bodies|
      ensures SeekOneAt(data, Boundary(HeadBodyTail, bodies, i), 1) == Moved(Ok(()), Boundary(HeadBodyTail, bodies, i + 1))
    {
      StepForward(bodies, rest, i);
    }
    BoundaryEnd(HeadBodyTail, bodies);
    WalkForward(data, bodies, k, c);
  }

  /**
   * `c` backward steps from boundary `k` of a log followed by anything reach
   * boundary `k - c` when `c <= k`; otherwise the walk stops at byte 0, where
   * moving back over a tail is refused.
   */
  lemma StepsBackward(bodies: seq<seq<byte>>, rest: seq<byte>, k: nat, c: nat)
    requires AllFit(bodies) && k <= |bodies|
    ensures SeekStepsAt(Log(HeadBodyTail, bodies) + rest, Boundary(HeadBodyTail, bodies, k), -1, c)
         == if c <= k then Moved(Ok(()), Boundary(HeadBodyTail, bodies, k - c)) else Moved(Err(InvalidSeek), 0)
  {
    var data := Log(HeadBodyTail, bodies) + rest;
    forall i | 0 <= i < |bodies|
      ensures SeekOneAt(data, Boundary(HeadBodyTail, bodies, i + 1), -1) == Moved(Ok(()), Boundary(HeadBodyTail, bodies, i))
    {
      StepBackward(bodies, rest, i);
    }
    WalkBackward(data, bodies, k, c);
  }

  /** `Seek` puts the cursor at its anchor and then takes the steps `StepsOf(offset)` names. */
  lemma SeekAtAnchor(data: seq<byte>, pos: nat, offset: int, whence: int)
    requires MinInt64 <= offset <= MaxInt64 && whence in {0, 1, 2}
    ensures SeekAt(data, pos, offset, whence)
         == SeekStepsAt(data, if whence == 0 then 0 else if whence == 1 then pos else |data|, StepsOf(offset).0, StepsOf(offset).1)
  {
  }

  /** Record-wise steps from boundary `a` of a whole log, `offset` records forward (or back). */
  lemma StepsFrom(bodies: seq<seq<byte>>, a: nat, offset: int)
    requires AllFit(bodies) && a <= |bodies|
    requires MinInt64 < offset <= MaxInt64
    ensures var m := SeekStepsAt(Log(HeadBodyTail, bodies), Boundary(HeadBodyTail, bodies, a), StepsOf(offset).0, StepsOf(offset).1);
      && (0 <= a + offset <= |bodies| ==> m == Moved(Ok(()), Boundary(HeadBodyTail, bodies, a + offset)))
      && (a + offset < 0 ==> m == Moved(Err(InvalidSeek), 0))
      && (|bodies| < a + offset ==> m == Moved(Err(EOF), |Log(HeadBodyTail, bodies)|))
  {
    if offset >= 0 {
      assert StepsOf(offset) == (1, offset);
      assert Log(HeadBodyTail, bodies) + [] == Log(HeadBodyTail, bodies);
      StepsForward(bodies, [], a, offset);
    } else {
      assert StepsOf(offset) == (-1, -offset);
      assert Log(HeadBodyTail, bodies) + [] == Log(HeadBodyTail, bodies);
      StepsBackward(bodies, [], a, -offset);
    }
  }

  /**
   * `Seek(offset, whence)` on a whole log of `n` records, from boundary `j`:
   * counting from record 0, `j` or `n`, a target inside 0..n is reached
   * exactly; a target before the first record stops at byte 0 and one after
   * the last stops at the end, each with an error.
   */
  lemma SeekLands(bodies: seq<seq<byte>>, j: nat, offset: int, whence: int)
    requires AllFit(bodies) && j <= |bodies|
    requires MinInt64 < offset <= MaxInt64 && whence in {0, 1, 2}
    ensures var n := |bodies|;
      var target := offset + (if whence == 0 then 0 else if whence == 1 then j else n);
      var m := SeekAt(Log(HeadBodyTail, bodies), Boundary(HeadBodyTail, bodies, j), offset, whence);
      && (0 <= target <= n ==> m == Moved(Ok(()), Boundary(HeadBodyTail, bodies, target)))
      && (target < 0 ==> m == Moved(Err(InvalidSeek), 0))
      && (n < target ==> m == Moved(Err(EOF), |Log(HeadBodyTail, bodies)|))
  {
    var anchor := if whence == 0 then 0 else if whence == 1 then j else |bodies|;
    SeekAtAnchor(Log(HeadBodyTail, bodies), Boundary(HeadBodyTail, bodies, j), offset, whence);
    BoundaryEnd(HeadBodyTail, bodies);
    assert Boundary(HeadBodyTail, bodies, 0) == 0;
    StepsFrom(bodies, anchor, offset);
  }

  /**
   * Negating the smallest int64 overflows, so `Seek` with that offset takes
   * no step at all and succeeds at its anchor.
   */
  lemma SeekMinInt64(data: seq<byte>, pos: nat, whence: int)
    requires whence in {0, 1, 2}
    ensures SeekAt(data, pos, MinInt64, whence)
         == Moved(Ok(()), if whence == 0 then 0 else if whence == 1 then pos else |data|)
  {
  }

  /** Truncating at boundary `k` of a log followed by anything leaves exactly the first `k` records. */
  lemma TruncateAtBoundary(f: Framing, bodies: seq<seq<byte>>, rest: seq<byte>, k: nat)
    requires k <= |bodies|
    ensures Resize(Log(f, bodies) + rest, Boundary(f, bodies, k)) == Log(f, bodies[..k])
  {
    var pre := Log(f, bodies[..k]);
    BoundaryIsLength(f, bodies, k);
    assert Log(f, bodies) + rest == pre + (Log(f, bodies[k..]) + rest) by {
      LogSplit(f, bodies, k);
      AppendAssoc3(pre, Log(f, bodies[k..]), rest);
    }
    assert (pre + (Log(f, bodies[k..]) + rest))[..|pre|] == pre;
  }
}
