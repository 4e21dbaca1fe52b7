/**
 * The error values the log reports, and the record codec it is given.
 *
 * A record is a black box to the log: it only needs to be turned into bytes
 * (`Marshal`) and back (`Unmarshal`). The codec is a value passed to every
 * read and write, so the log is generic in the record type.
 */
module Codec {
  import opened Bytes

  /** The errors the modelled code can return, as values compared with `==`. */
  datatype Error =
    | EOF                // io.EOF: nothing left to read
    | UnexpectedEOF      // io.ErrUnexpectedEOF: a read found some, but too few, bytes
    | InvalidSeek        // the operating system refused a seek (a target before byte 0)
    | InvalidDirection   // seekOne was given a direction other than 1 or -1
    | InvalidWhence      // Seek was given a whence other than 0, 1 or 2
    | NotPointer         // ReadAll: the target is not a pointer
    | NotPointerToSlice  // ReadAll: the target does not point to a slice
    | NotSerializable    // ReadAll: the slice's element type has no Marshal/Unmarshal
    | Panicked           // the Go code panics here (a reflect call on a type that does not suit it)
    | CodecFailure(code: int)  // an error reported by Marshal or Unmarshal, passed through

  datatype Result<T> = Ok(value: T) | Err(error: Error)

  /** The `Serializable` interface: how one record type becomes bytes and back. */
  datatype Serializable<!T> = Serializable(marshal: T -> Result<seq<byte>>, unmarshal: seq<byte> -> Result<T>)

  /** The codec's own promise: what Marshal produced, Unmarshal turns back into the same record. */
  ghost predicate RoundTrips<T(!new)>(c: Serializable<T>)
  {
    forall v :: c.marshal(v).Ok? ==> c.unmarshal(c.marshal(v).value) == Ok(v)
  }

  /** Every record in `vs` marshals, to a body small enough that its frame length fits a `Size`. */
  ghost predicate Encodable<T>(c: Serializable<T>, vs: seq<T>)
  {
    forall v :: v in vs ==> c.marshal(v).Ok? && |c.marshal(v).value| + 2 * SizeWidth < SizeLimit
  }

  /** The bodies that marshalling `vs` one by one produces, in order. */
  function Encoded<T>(c: Serializable<T>, vs: seq<T>): (bodies: seq<seq<byte>>)
    requires Encodable(c, vs)
    ensures |bodies| == |vs|
    ensures forall i :: 0 <= i < |vs| ==> Ok(bodies[i]) == c.marshal(vs[i])
  {
    if vs == [] then [] else [c.marshal(vs[0]).value] + Encoded(c, vs[1..])
  }

  /** `Encoded` is the only sequence of bodies that marshalling `vs` one by one produces. */
  lemma {:induction false} EncodedUnique<T>(c: Serializable<T>, vs: seq<T>, bodies: seq<seq<byte>>)
    requires Encodable(c, vs) && |bodies| == |vs|
    requires forall i :: 0 <= i < |vs| ==> Ok(bodies[i]) == c.marshal(vs[i])
    ensures bodies == Encoded(c, vs)
  {
    var e := Encoded(c, vs);
    forall i | 0 <= i < |vs| ensures bodies[i] == e[i] {
      assert Ok(bodies[i]) == Ok(e[i]);
    }
  }
}
