/**
 * The repository's tests (file/file_test.go, store_test.go) as client
 * methods on the model, each proving the comparison its test makes. A test
 * that closes the file and opens it again is a fresh stream over the same
 * bytes, with its cursor at byte 0. Every record marshals (its error path is
 * the test failing), and the codec round-trips.
 */
module Scenarios {
  import opened Bytes
  import opened Codec
  import opened Stream
  import opened Frame
  import opened Seqs
  import opened Seek
  import opened Reflect
  import opened File
  import opened Store
  import opened Persistence

  /** The `ReadAll` argument of the tests: `&dst` with `dst` of type `[]*T`. */
  const RecordSlice: Type := Pointer(Slice(Pointer(Named(true))))

  /** Writing one record at the end of a log of records `vs[..i]`: the log of `vs[..i + 1]`. */
  lemma AppendEncoded<T>(f: Framing, c: Serializable<T>, vs: seq<T>, i: nat)
    requires Encodable(c, vs) && i < |vs|
    ensures WriteRecordAt(f, Log(f, Encoded(c, vs)[..i]), |Log(f, Encoded(c, vs)[..i])|, c.marshal(vs[i]))
         == Written(Ok(()), Log(f, Encoded(c, vs)[..i + 1]), |Log(f, Encoded(c, vs)[..i + 1])|)
  {
    var bodies := Encoded(c, vs);
    assert c.marshal(vs[i]) == Ok(bodies[i]);
    PrefixSnoc(bodies, i);
    AppendWrittenRecord(f, bodies[..i], bodies[i]);
  }

  /** Positioning at the start or the end takes no record step and cannot fail. */
  lemma SeekToEdge(data: seq<byte>, pos: nat, whence: int)
    requires whence == 0 || whence == 2
    ensures SeekAt(data, pos, 0, whence) == Moved(Ok(()), if whence == 0 then 0 else |data|)
  {
    SeekAtAnchor(data, pos, 0, whence);
  }

  /** `ReadAll` into the tests' argument, from the start of a whole log written from `vs`, gives `vs`. */
  lemma ReadAllOfWholeLog<T(!new)>(f: Framing, c: Serializable<T>, vs: seq<T>)
    requires RoundTrips(c) && Encodable(c, vs)
    ensures ReadAllInto(f, Log(f, Encoded(c, vs)), 0, RecordSlice, c).result == Ok(vs)
  {
    assert CheckTarget(RecordSlice) == Accepted(true);
    ReadAllOfLog(f, c, vs, 0);
    assert vs[0..] == vs;
  }

  /**
   * On a whole log written from `vs`, seeking to the end and then `i + 1`
   * records back succeeds, and the record read there is `vs[n - 1 - i]`.
   */
  lemma SeekBackAndRead<T(!new)>(c: Serializable<T>, vs: seq<T>, pos: nat, i: nat)
    requires RoundTrips(c) && Encodable(c, vs) && i < |vs| <= MaxInt64
    ensures var data := Log(HeadBodyTail, Encoded(c, vs));
      var end := SeekAt(data, pos, 0, 2);
      var back := SeekAt(data, end.pos, -(i as int) - 1, 1);
      && end.result.Ok? && back.result.Ok?
      && ReadRecordAt(HeadBodyTail, data, back.pos, c).result == Ok(vs[|vs| - 1 - i])
  {
    var bodies := Encoded(c, vs);
    var data := Log(HeadBodyTail, bodies);
    var k := |vs| - 1 - i;
    EncodedFit(c, vs);
    assert SeekAt(data, pos, 0, 2) == Moved(Ok(()), Boundary(HeadBodyTail, bodies, |vs|)) by {
      BoundaryEnd(HeadBodyTail, bodies);
      SeekToEdge(data, pos, 2);
    }
    assert SeekAt(data, Boundary(HeadBodyTail, bodies, |vs|), -(i as int) - 1, 1) == Moved(Ok(()), Boundary(HeadBodyTail, bodies, k)) by {
      SeekLands(bodies, |vs|, -(i as int) - 1, 1);
    }
    assert ReadRecordAt(HeadBodyTail, data, Boundary(HeadBodyTail, bodies, k), c).result == Ok(vs[k]) by {
      ReadRecordAtBoundary(HeadBodyTail, c, vs, [], k);
      assert data + [] == data;
    }
  }

  /**
   * On a whole log written from `vs`, seeking to the start and then `i`
   * records forward succeeds, and the record read there is `vs[i]`.
   */
  lemma SeekForwardAndRead<T(!new)>(c: Serializable<T>, vs: seq<T>, pos: nat, i: nat)
    requires RoundTrips(c) && Encodable(c, vs) && i < |vs| <= MaxInt64
    ensures var data := Log(HeadBodyTail, Encoded(c, vs));
      var start := SeekAt(data, pos, 0, 0);
      var ahead := SeekAt(data, start.pos, i, 1);
      && start.result.Ok? && ahead.result.Ok?
      && ReadRecordAt(HeadBodyTail, data, ahead.pos, c).result == Ok(vs[i])
  {
    var bodies := Encoded(c, vs);
    var data := Log(HeadBodyTail, bodies);
    EncodedFit(c, vs);
    assert SeekAt(data, pos, 0, 0) == Moved(Ok(()), Boundary(HeadBodyTail, bodies, 0)) by {
      SeekToEdge(data, pos, 0);
    }
    assert SeekAt(data, Boundary(HeadBodyTail, bodies, 0), i, 1) == Moved(Ok(()), Boundary(HeadBodyTail, bodies, i)) by {
      SeekLands(bodies, 0, i, 1);
    }
    assert ReadRecordAt(HeadBodyTail, data, Boundary(HeadBodyTail, bodies, i), c).result == Ok(vs[i]) by {
      ReadRecordAtBoundary(HeadBodyTail, c, vs, [], i);
      assert data + [] == data;
    }
  }

  /** file/file_test.go `TestWriteAndRead`: a record written and read back after reopening is the same record. */
  method FileWriteAndRead<T(!new)>(v: T, c: Serializable<T>) returns (r: Result<T>)
    requires RoundTrips(c) && Encodable(c, [v])
    ensures r == Ok(v)
  {
    var f := new Stream([]);
    var file := new File(f);
    var pf := new Persistence(file);
    var _ := pf.Write(v, c);
    AppendEncoded(HeadBodyTail, c, [v], 0);

    var g := new Stream(f.data);
    var reopened := new File(g);
    pf := new Persistence(reopened);
    ReadRecordAtBoundary(HeadBodyTail, c, [v], [], 0);
    assert Encoded(c, [v])[..1] == Encoded(c, [v]);
    assert Log(HeadBodyTail, Encoded(c, [v])) + [] == Log(HeadBodyTail, Encoded(c, [v]));
    r := pf.Read(c);
  }

  /** store_test.go `TestWriteAndRead`: the same with the plain store. */
  method StoreWriteAndRead<T(!new)>(v: T, c: Serializable<T>) returns (r: Result<T>)
    requires RoundTrips(c) && Encodable(c, [v])
    ensures r == Ok(v)
  {
    var f := new Stream([]);
    var s := new Store(f);
    var _ := s.Write(v, c);
    AppendEncoded(HeadBody, c, [v], 0);

    var g := new Stream(f.data);
    s := new Store(g);
    ReadRecordAtBoundary(HeadBody, c, [v], [], 0);
    assert Encoded(c, [v])[..1] == Encoded(c, [v]);
    assert Log(HeadBody, Encoded(c, [v])) + [] == Log(HeadBody, Encoded(c, [v]));
    r := s.Read(c);
  }

  /** Writes `vs[i]` through `pf`, whose file holds the log of the first `i` records with the cursor at its end. */
  method Append<T>(pf: Persistence, vs: seq<T>, c: Serializable<T>, i: nat)
    requires Encodable(c, vs) && i < |vs|
    requires pf.io.fp.data == Log(HeadBodyTail, Encoded(c, vs)[..i]) && pf.io.fp.pos == |pf.io.fp.data|
    modifies pf.io.fp
    ensures pf.io.fp.data == Log(HeadBodyTail, Encoded(c, vs)[..i + 1]) && pf.io.fp.pos == |pf.io.fp.data|
  {
    AppendEncoded(HeadBodyTail, c, vs, i);
    var _ := pf.Write(vs[i], c);
  }

  /** Writes `vs[k..]` one by one through `pf`, whose file holds the log of the first `k` records with the cursor at its end. */
  method WriteFrom<T>(pf: Persistence, vs: seq<T>, c: Serializable<T>, k: nat)
    requires Encodable(c, vs) && k <= |vs|
    requires pf.io.fp.data == Log(HeadBodyTail, Encoded(c, vs)[..k]) && pf.io.fp.pos == |pf.io.fp.data|
    modifies pf.io.fp
    ensures pf.io.fp.data == Log(HeadBodyTail, Encoded(c, vs)) && pf.io.fp.pos == |pf.io.fp.data|
  {
    ghost var bodies := Encoded(c, vs);
    var i := k;
    while i < |vs|
      invariant k <= i <= |vs|
      invariant pf.io.fp.data == Log(HeadBodyTail, bodies[..i]) && pf.io.fp.pos == |pf.io.fp.data|
    {
      Append(pf, vs, c, i);
      i := i + 1;
    }
    PrefixEnds(bodies);
  }

  /** Writes `vs` one by one through `pf`, whose file starts empty; the file then holds their log. */
  method WriteAll<T>(pf: Persistence, vs: seq<T>, c: Serializable<T>)
    requires Encodable(c, vs)
    requires pf.io.fp.data == [] && pf.io.fp.pos == 0
    modifies pf.io.fp
    ensures pf.io.fp.data == Log(HeadBodyTail, Encoded(c, vs)) && pf.io.fp.pos == |pf.io.fp.data|
  {
    PrefixEnds(Encoded(c, vs));
    WriteFrom(pf, vs, c, 0);
  }

  /** file/file_test.go `TestWriteAndReadAll`: records written one by one are all read back, in order, after reopening. */
  method FileWriteAndReadAll<T(!new)>(vs: seq<T>, c: Serializable<T>) returns (r: Result<seq<T>>)
    requires RoundTrips(c) && Encodable(c, vs)
    ensures r == Ok(vs)
  {
    var f := new Stream([]);
    var file := new File(f);
    var pf := new Persistence(file);
    WriteAll(pf, vs, c);

    var g := new Stream(f.data);
    var reopened := new File(g);
    pf := new Persistence(reopened);
    ReadAllOfWholeLog(HeadBodyTail, c, vs);
    r := pf.ReadAll(RecordSlice, c);
  }

  /** Writes `vs[i]` through the store `s`, whose stream holds the log of the first `i` records with the cursor at its end. */
  method StoreAppend<T>(s: Store, vs: seq<T>, c: Serializable<T>, i: nat)
    requires Encodable(c, vs) && i < |vs|
    requires s.rw.data == Log(HeadBody, Encoded(c, vs)[..i]) && s.rw.pos == |s.rw.data|
    modifies s.rw
    ensures s.rw.data == Log(HeadBody, Encoded(c, vs)[..i + 1]) && s.rw.pos == |s.rw.data|
  {
    AppendEncoded(HeadBody, c, vs, i);
    var _ := s.Write(vs[i], c);
  }

  /** store_test.go `TestWriteAndReadAll`: the same with the plain store. */
  method StoreWriteAndReadAll<T(!new)>(vs: seq<T>, c: Serializable<T>) returns (r: Result<seq<T>>)
    requires RoundTrips(c) && Encodable(c, vs)
    ensures r == Ok(vs)
  {
    var f := new Stream([]);
    var s := new Store(f);
    ghost var bodies := Encoded(c, vs);
    PrefixEnds(bodies);
    var i := 0;
    while i < |vs|
      invariant i <= |vs|
      invariant f.data == Log(HeadBody, bodies[..i]) && f.pos == |f.data|
    {
      StoreAppend(s, vs, c, i);
      i := i + 1;
    }

    var g := new Stream(f.data);
    s := new Store(g);
    ReadAllOfWholeLog(HeadBody, c, vs);
    r := s.ReadAll(RecordSlice, c);
  }

  /** Seeks to the end, then `i + 1` records back, and reads record `n - 1 - i` there. */
  method ReadFromEnd<T(!new)>(pf: Persistence, vs: seq<T>, c: Serializable<T>, i: nat) returns (dst: Result<T>)
    requires RoundTrips(c) && Encodable(c, vs) && i < |vs| <= MaxInt64
    requires pf.io.fp.data == Log(HeadBodyTail, Encoded(c, vs))
    modifies pf.io.fp
    ensures pf.io.fp.data == old(pf.io.fp.data)
    ensures dst == Ok(vs[|vs| - 1 - i])
  {
    SeekBackAndRead(c, vs, pf.io.fp.pos, i);
    var _ := pf.Seek(0, 2);
    var _ := pf.Seek(-(i as int) - 1, 1);
    dst := pf.Read(c);
  }

  /** `ReadFromEnd` for every `i` in order. */
  method ReadBackward<T(!new)>(pf: Persistence, vs: seq<T>, c: Serializable<T>) returns (backward: seq<Result<T>>)
    requires RoundTrips(c) && Encodable(c, vs) && |vs| <= MaxInt64
    requires pf.io.fp.data == Log(HeadBodyTail, Encoded(c, vs))
    modifies pf.io.fp
    ensures pf.io.fp.data == old(pf.io.fp.data)
    ensures |backward| == |vs| && forall i :: 0 <= i < |vs| ==> backward[i] == Ok(vs[|vs| - 1 - i])
  {
    ghost var wanted := seq(|vs|, j requires 0 <= j < |vs| => Ok(vs[|vs| - 1 - j]));
    backward := [];
    var i := 0;
    while i < |vs|
      invariant i <= |vs| && pf.io.fp.data == old(pf.io.fp.data)
      invariant backward == wanted[..i]
    {
      var dst := ReadFromEnd(pf, vs, c, i);
      PrefixSnoc(wanted, i);
      backward := backward + [dst];
      i := i + 1;
    }
    PrefixEnds(wanted);
  }

  /** Seeks to the start, then `i` records forward, and reads record `i` there. */
  method ReadFromStart<T(!new)>(pf: Persistence, vs: seq<T>, c: Serializable<T>, i: nat) returns (dst: Result<T>)
    requires RoundTrips(c) && Encodable(c, vs) && i < |vs| <= MaxInt64
    requires pf.io.fp.data == Log(HeadBodyTail, Encoded(c, vs))
    modifies pf.io.fp
    ensures pf.io.fp.data == old(pf.io.fp.data)
    ensures dst == Ok(vs[i])
  {
    SeekForwardAndRead(c, vs, pf.io.fp.pos, i);
    var _ := pf.Seek(0, 0);
    var _ := pf.Seek(i, 1);
    dst := pf.Read(c);
  }

  /** `ReadFromStart` for every `i` in order. */
  method ReadForward<T(!new)>(pf: Persistence, vs: seq<T>, c: Serializable<T>) returns (forward: seq<Result<T>>)
    requires RoundTrips(c) && Encodable(c, vs) && |vs| <= MaxInt64
    requires pf.io.fp.data == Log(HeadBodyTail, Encoded(c, vs))
    modifies pf.io.fp
    ensures pf.io.fp.data == old(pf.io.fp.data)
    ensures |forward| == |vs| && forall i :: 0 <= i < |vs| ==> forward[i] == Ok(vs[i])
  {
    ghost var wanted := seq(|vs|, j requires 0 <= j < |vs| => Ok(vs[j]));
    forward := [];
    var i := 0;
    while i < |vs|
      invariant i <= |vs| && pf.io.fp.data == old(pf.io.fp.data)
      invariant forward == wanted[..i]
    {
      var dst := ReadFromStart(pf, vs, c, i);
      PrefixSnoc(wanted, i);
      forward := forward + [dst];
      i := i + 1;
    }
    PrefixEnds(wanted);
  }

  /**
   * file/file_test.go `TestSeekAndRead`: after writing `vs`, seeking to the
   * end and then `i + 1` records back reads record `n - 1 - i`; seeking to
   * the start and then `i` records forward reads record `i`.
   */
  method SeekAndRead<T(!new)>(vs: seq<T>, c: Serializable<T>) returns (backward: seq<Result<T>>, forward: seq<Result<T>>)
    requires RoundTrips(c) && Encodable(c, vs) && |vs| <= MaxInt64
    ensures |backward| == |vs| && forall i :: 0 <= i < |vs| ==> backward[i] == Ok(vs[|vs| - 1 - i])
    ensures |forward| == |vs| && forall i :: 0 <= i < |vs| ==> forward[i] == Ok(vs[i])
  {
    var f := new Stream([]);
    var file := new File(f);
    var pf := new Persistence(file);
    WriteAll(pf, vs, c);
    backward := ReadBackward(pf, vs, c);
    forward := ReadForward(pf, vs, c);
  }

  /** On a whole log followed by any bytes, seeking to the start and then one step per record lands at the end of the log. */
  lemma SeekPastLog(pre: seq<seq<byte>>, junk: seq<byte>, pos: nat)
    requires AllFit(pre) && |pre| <= MaxInt64
    ensures var data := Log(HeadBodyTail, pre) + junk;
      var start := SeekAt(data, pos, 0, 0);
      start == Moved(Ok(()), 0) && SeekAt(data, start.pos, |pre|, 1) == Moved(Ok(()), |Log(HeadBodyTail, pre)|)
  {
    var data := Log(HeadBodyTail, pre) + junk;
    SeekToEdge(data, pos, 0);
    SeekAtAnchor(data, 0, |pre|, 1);
    StepsForward(pre, junk, 0, |pre|);
    BoundaryEnd(HeadBodyTail, pre);
  }

  /** Writing a record at the end of a whole log followed by any bytes extends the log and overwrites the first bytes after it. */
  lemma WriteAfterLog(pre: seq<seq<byte>>, junk: seq<byte>, b: seq<byte>)
    ensures var w := WriteRecordAt(HeadBodyTail, Log(HeadBodyTail, pre) + junk, |Log(HeadBodyTail, pre)|, Ok(b));
      w.result.Ok? && w.data == Log(HeadBodyTail, pre + [b]) + Drop(junk, |FrameOf(HeadBodyTail, b)|)
  {
    var log := Log(HeadBodyTail, pre);
    var frame := FrameOf(HeadBodyTail, b);
    assert WriteRecordAt(HeadBodyTail, log + junk, |log|, Ok(b)).data == WriteAt(log + junk, |log|, frame);
    WriteAfterPrefix(log, junk, frame);
    LogConcat(HeadBodyTail, pre, [b]);
    LogSingle(HeadBodyTail, b);
  }

  /** Seeks to the start, then `i` records forward, and writes `news[i]` there. */
  method RewriteRecord<T>(pf: Persistence, news: seq<T>, c: Serializable<T>, i: nat, ghost junk: seq<byte>)
    requires Encodable(c, news) && i < |news| <= MaxInt64
    requires pf.io.fp.data == Log(HeadBodyTail, Encoded(c, news)[..i]) + junk
    modifies pf.io.fp
    ensures pf.io.fp.data == Log(HeadBodyTail, Encoded(c, news)[..i + 1]) + Drop(junk, |FrameOf(HeadBodyTail, Encoded(c, news)[i])|)
  {
    ghost var bodies := Encoded(c, news);
    ghost var pre := bodies[..i];
    EncodedFit(c, news);
    assert AllFit(pre);
    SeekPastLog(pre, junk, pf.io.fp.pos);
    var _ := pf.Seek(0, 0);
    var _ := pf.Seek(i, 1);
    assert c.marshal(news[i]) == Ok(bodies[i]);
    WriteAfterLog(pre, junk, bodies[i]);
    PrefixSnoc(bodies, i);
    var _ := pf.Write(news[i], c);
  }

  /** Rewrites record `i` with `news[i]` for each `i` in order, over a file that holds a log at least as long. */
  method RewriteAll<T>(pf: Persistence, news: seq<T>, c: Serializable<T>) returns (ghost junk: seq<byte>)
    requires Encodable(c, news) && |news| <= MaxInt64
    modifies pf.io.fp
    ensures pf.io.fp.data == Log(HeadBodyTail, Encoded(c, news)) + junk
  {
    ghost var bodies := Encoded(c, news);
    junk := pf.io.fp.data;
    PrefixEnds(bodies);
    var i := 0;
    while i < |news|
      invariant i <= |news|
      invariant pf.io.fp.data == Log(HeadBodyTail, bodies[..i]) + junk
    {
      RewriteRecord(pf, news, c, i, junk);
      junk := Drop(junk, |FrameOf(HeadBodyTail, bodies[i])|);
      i := i + 1;
    }
  }

  /** Reads record `i` of a file holding the log of `vs` followed by any bytes, with the cursor at that record. */
  method ReadNext<T(!new)>(pf: Persistence, vs: seq<T>, c: Serializable<T>, ghost junk: seq<byte>, i: nat) returns (dst: Result<T>)
    requires RoundTrips(c) && Encodable(c, vs) && i < |vs|
    requires pf.io.fp.data == Log(HeadBodyTail, Encoded(c, vs)) + junk
    requires pf.io.fp.pos == Boundary(HeadBodyTail, Encoded(c, vs), i)
    modifies pf.io.fp
    ensures pf.io.fp.data == old(pf.io.fp.data)
    ensures pf.io.fp.pos == Boundary(HeadBodyTail, Encoded(c, vs), i + 1)
    ensures dst == Ok(vs[i])
  {
    ReadRecordAtBoundary(HeadBodyTail, c, vs, junk, i);
    dst := pf.Read(c);
  }

  /** Reads `|vs|` records from the start of a file holding the log of `vs` followed by any bytes. */
  method ReadRecords<T(!new)>(pf: Persistence, vs: seq<T>, c: Serializable<T>, ghost junk: seq<byte>) returns (back: seq<Result<T>>)
    requires RoundTrips(c) && Encodable(c, vs)
    requires pf.io.fp.data == Log(HeadBodyTail, Encoded(c, vs)) + junk && pf.io.fp.pos == 0
    modifies pf.io.fp
    ensures |back| == |vs| && forall i :: 0 <= i < |vs| ==> back[i] == Ok(vs[i])
  {
    ghost var wanted := seq(|vs|, j requires 0 <= j < |vs| => Ok(vs[j]));
    back := [];
    var i := 0;
    while i < |vs|
      invariant i <= |vs| && pf.io.fp.data == old(pf.io.fp.data)
      invariant pf.io.fp.pos == Boundary(HeadBodyTail, Encoded(c, vs), i)
      invariant back == wanted[..i]
    {
      var dst := ReadNext(pf, vs, c, junk, i);
      PrefixSnoc(wanted, i);
      back := back + [dst];
      i := i + 1;
    }
    PrefixEnds(wanted);
  }

  /**
   * file/file_test.go `TestSeekAndWrite`: after writing `olds`, record `i` is
   * rewritten with `news[i]` for each `i` in order (seeking to the start and
   * then `i` records forward); reading from the start then gives `news`,
   * whatever the lengths of the old and the new bodies.
   */
  method SeekAndWrite<T(!new)>(olds: seq<T>, news: seq<T>, c: Serializable<T>) returns (back: seq<Result<T>>)
    requires RoundTrips(c) && Encodable(c, olds) && Encodable(c, news)
    requires |olds| == |news| <= MaxInt64
    ensures |back| == |news| && forall i :: 0 <= i < |news| ==> back[i] == Ok(news[i])
  {
    var f := new Stream([]);
    var file := new File(f);
    var pf := new Persistence(file);
    WriteAll(pf, olds, c);
    ghost var junk := RewriteAll(pf, news, c);
    SeekToEdge(f.data, f.pos, 0);
    var _ := pf.Seek(0, 0);
    back := ReadRecords(pf, news, c, junk);
  }

  /** Records that all marshal, spliced at `k`, all marshal. */
  lemma SpliceEncodable<T>(c: Serializable<T>, olds: seq<T>, news: seq<T>, k: nat)
    requires Encodable(c, olds) && Encodable(c, news) && k <= |olds| && k <= |news|
    ensures Encodable(c, olds[..k] + news[k..])
  {
    var ws := olds[..k] + news[k..];
    forall v | v in ws ensures c.marshal(v).Ok? && |c.marshal(v).value| + 2 * SizeWidth < SizeLimit {
      var j :| 0 <= j < |ws| && ws[j] == v;
      if j < k {
        assert v in olds by { assert olds[j] == v; }
      } else {
        assert v in news by { assert news[j] == v; }
      }
    }
  }

  /**
   * Seeking from the end of the log of `olds` to record `k` and cutting the
   * file there leaves the log of the first `k` records, which is also the
   * start of the log of `olds[..k] + news[k..]`, with the cursor at its end.
   */
  lemma SeekAndCut<T>(c: Serializable<T>, olds: seq<T>, news: seq<T>, k: nat)
    requires Encodable(c, olds) && Encodable(c, news) && k < |olds| == |news| <= MaxInt64
    ensures Encodable(c, olds[..k] + news[k..])
    ensures var data := Log(HeadBodyTail, Encoded(c, olds));
      var m := SeekAt(data, |data|, k, 0);
      && m.result.Ok?
      && Resize(data, m.pos) == Log(HeadBodyTail, Encoded(c, olds[..k] + news[k..])[..k])
      && m.pos == |Resize(data, m.pos)|
  {
    var ws := olds[..k] + news[k..];
    SpliceEncodable(c, olds, news, k);
    var bodies := Encoded(c, olds);
    var data := Log(HeadBodyTail, bodies);
    var w := Encoded(c, ws);
    EncodedFit(c, olds);
    assert SeekAt(data, |data|, k, 0) == Moved(Ok(()), Boundary(HeadBodyTail, bodies, k)) by {
      BoundaryEnd(HeadBodyTail, bodies);
      SeekLands(bodies, |bodies|, k, 0);
    }
    assert Resize(data, Boundary(HeadBodyTail, bodies, k)) == Log(HeadBodyTail, bodies[..k]) by {
      TruncateAtBoundary(HeadBodyTail, bodies, [], k);
      assert data + [] == data;
    }
    assert w[..k] == bodies[..k] by {
      forall i | 0 <= i < k ensures w[i] == bodies[i] {
        assert Ok(w[i]) == c.marshal(ws[i]) == c.marshal(olds[i]) == Ok(bodies[i]);
      }
    }
  }

  /**
   * file/file_test.go `TestTruncate`: after writing `olds`, seeking to record
   * `k`, truncating there and writing `news[k..]`, reading everything from
   * the start gives `olds[..k] + news[k..]`.
   */
  method TruncateAndWrite<T(!new)>(olds: seq<T>, news: seq<T>, k: nat, c: Serializable<T>) returns (r: Result<seq<T>>)
    requires RoundTrips(c) && Encodable(c, olds) && Encodable(c, news)
    requires k < |olds| == |news| <= MaxInt64
    ensures r == Ok(olds[..k] + news[k..])
  {
    var f := new Stream([]);
    var file := new File(f);
    var pf := new Persistence(file);
    WriteAll(pf, olds, c);
    var ws := olds[..k] + news[k..];
    SeekAndCut(c, olds, news, k);
    var _ := pf.Seek(k, 0);
    var _ := pf.Truncate();

    WriteFrom(pf, ws, c, k);

    SeekToEdge(f.data, f.pos, 0);
    var _ := pf.Seek(0, 0);
    ReadAllOfWholeLog(HeadBodyTail, c, ws);
    r := pf.ReadAll(RecordSlice, c);
  }
}
