/**
 * What `ReadAll` does with its `addr interface{}` argument, on an abstract
 * description of Go types, and the result it computes from the stream.
 *
 * Both `ReadAll`s (persistence.go and store.go) demand a pointer to a slice
 * whose elements are `T` or `*T` for a type `T` whose pointer implements
 * `Serializable`. Each record read is a fresh `*T`, appended to the slice.
 */
module Reflect {
  import opened Bytes
  import opened Codec
  import opened Stream
  import opened Frame

  /** The Go types `ReadAll` distinguishes. */
  datatype Type =
    | Pointer(elem: Type)        // *E
    | Slice(elem: Type)          // []E
    | Named(serializable: bool)  // any other type T; serializable when *T has Marshal and Unmarshal

  /** What the argument checks decide before any record is read. */
  datatype Target =
    | Rejected(error: Error)      // an error is returned, nothing is read
    | Panics                      // a reflect call panics
    | Accepted(byPointer: bool)   // records are read; the slice holds *T (true) or T (false)

  /** The type whose pointer is instantiated for each record: the element, or what it points to. */
  function Base(elem: Type): Type
  {
    if elem.Pointer? then elem.elem else elem
  }

  /** A pointer to a slice whose elements are `T` or `*T`, for a serializable `T`. */
  predicate ReadAllTarget(addr: Type)
  {
    addr == Pointer(Slice(Pointer(Named(true)))) || addr == Pointer(Slice(Named(true)))
  }

  /**
   * The argument checks of `ReadAll`: a pointer, to a slice, whose element
   * type (or the type it points to) has a pointer with Marshal and
   * Unmarshal; the empty result slice is made from the slice type itself.
   */
  function CheckTarget(addr: Type): (r: Target)
    ensures r != Panics
    ensures r.Accepted? <==> ReadAllTarget(addr)
    ensures r.Accepted? ==> r.byPointer == addr.elem.elem.Pointer?
  {
    if !addr.Pointer? then Rejected(NotPointer)
    else if !addr.elem.Slice? then Rejected(NotPointerToSlice)
    else
      var base := Base(addr.elem.elem);
      if !(base.Named? && base.serializable) then Rejected(NotSerializable)
      else Accepted(addr.elem.elem.Pointer?)
  }

  /**
   * The argument checks of persistence.go's `ReadAll` as written: the same
   * three checks, then the empty result slice is made from `t.Elem()`, where
   * `t` is by then the named record type. `Elem` of a type that is not a
   * pointer, slice, array, map or channel panics.
   */
  function PersistenceCheckAsWritten(addr: Type): (r: Target)
    ensures !r.Accepted?
  {
    if !addr.Pointer? then Rejected(NotPointer)
    else if !addr.elem.Slice? then Rejected(NotPointerToSlice)
    else
      var base := Base(addr.elem.elem);
      if !(base.Named? && base.serializable) then Rejected(NotSerializable)
      else Panics
  }

  /**
   * The discrepancy in persistence.go's `ReadAll`: it rejects exactly what
   * the intended checks reject, with the same error, and panics on every
   * argument they accept.
   */
  lemma PersistenceCheckPanics(addr: Type)
    ensures PersistenceCheckAsWritten(addr) == if ReadAllTarget(addr) then Panics else CheckTarget(addr)
  {
  }

  /** The argument the tests pass, a pointer to a slice of `*T`: accepted as intended, a panic as written. */
  lemma TestTargetPanics()
    ensures CheckTarget(Pointer(Slice(Pointer(Named(true))))) == Accepted(true)
    ensures PersistenceCheckAsWritten(Pointer(Slice(Pointer(Named(true))))) == Panics
  {
  }

  /**
   * The result of `ReadAll(addr)` at `pos`, and where it leaves the cursor.
   * A rejected argument reads nothing. With a slice of `*T` every record up
   * to io.EOF is kept. With a slice of `T`, appending the first record read
   * (a `*T`) panics; an empty stream still gives the empty slice.
   */
  function ReadAllInto<T>(f: Framing, data: seq<byte>, pos: nat, addr: Type, c: Serializable<T>): (r: Moved<seq<T>>)
    ensures !ReadAllTarget(addr) ==> r == Moved(Err(CheckTarget(addr).error), pos)
  {
    var target := CheckTarget(addr);
    if target.Rejected? then Moved(Err(target.error), pos)
    else if target.byPointer then ReadAllFrom(f, data, pos, c)
    else
      var m := ReadRecordAt(f, data, pos, c);
      if m.result.Ok? then Moved(Err(Panicked), m.pos)
      else if m.result.error == EOF then Moved(Ok([]), m.pos)
      else Moved(Err(m.result.error), m.pos)
  }
}
