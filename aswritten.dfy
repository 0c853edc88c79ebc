/**
 * The places where the Go code departs from the layout's intent, modelled as
 * written next to inputs that show the departure. The rest of the model uses
 * the corrected definitions in module Stumbra.
 */
module StumbraAsWritten {
  import opened ByteSeq
  import opened Stumbra
  import opened StumbraSamples

  /** A Go panic is `None`. */
  datatype Option<T> = None | Some(value: T)

  // ---------------------------------------------------------------------------
  // stumbra.go:32: the length is stored as int32, converted from a length of
  // up to 2^32 - 1.

  /** Go's `int32(n)` conversion: keep the low 32 bits, read them as two's complement. */
  function Int32Conversion(n: nat): (r: int)
    ensures -0x8000_0000 <= r < 0x8000_0000
    ensures n < 0x8000_0000 ==> r == n
    ensures 0x8000_0000 <= n < 0x1_0000_0000 ==> r == n - 0x1_0000_0000
  {
    var low := n % 0x1_0000_0000;
    if low < 0x8000_0000 then low else low - 0x1_0000_0000
  }

  /**
   * A length from 2^31 to 2^32 - 1 passes the length check but is stored
   * negative, so the record is classed Short and `Len()` is negative.
   */
  lemma LengthWrapsNegative(n: nat)
    requires 0x8000_0000 <= n <= MaxLength
    ensures Int32Conversion(n) < 0 && Int32Conversion(n) != n
    ensures ClassOf(Int32Conversion(n)) == Short
  {
  }

  // ---------------------------------------------------------------------------
  // stumbra.go:82: both sides of the buffer comparison read the receiver's tail.

  /** `Equal` as written: the Inlined case compares the receiver's buffer with itself. */
  function EqualAsWritten(a: UmbraString, b: UmbraString): (r: bool)
    requires Valid(a) && Valid(b)
    ensures r ==> a.len == b.len && a.prefix == b.prefix
  {
    if a.len != b.len || a.prefix != b.prefix then false
    else if Len(a) <= InlinedLength then
      if a.trailing.Nil? && b.trailing.Nil? then true
      else a.trailing.buf == a.trailing.buf
    else Suffix(a) == Suffix(b)
  }

  /** As written, Inlined records with the same length and prefix always compare equal. */
  lemma EqualAsWrittenIgnoresTail(a: UmbraString, b: UmbraString)
    requires Valid(a) && Valid(b) && a.len == b.len && a.prefix == b.prefix
    requires ClassOf(Len(a)) == Inlined
    ensures EqualAsWritten(a, b)
  {
  }

  /**
   * "abcde" and "abcdf" differ, yet `Equal` as written reports them equal once
   * its first step is read as a comparison of the `len` and `prefix` fields.
   * (Taken literally, stumbra.go:72 reads the receiver pointer's bytes, so
   * stumbra.go:74 already returns false for this pair.)
   */
  lemma SelfAliasCounterexample()
    ensures var a, b := Layout(Abcde), Layout(Abcdf);
            Valid(a) && Valid(b) && Bytes(a) != Bytes(b) && EqualAsWritten(a, b) && !Equal(a, b)
  {
    var a, b := Layout(Abcde), Layout(Abcdf);
    RoundTrip(Abcde);
    RoundTrip(Abcdf);
    PadToTake(Abcde, PrefixLength);
    PadToTake(Abcdf, PrefixLength);
    assert Abcde[..PrefixLength] == Abcdf[..PrefixLength];
    assert Bytes(a)[4] != Bytes(b)[4];
    EqualCorrect(a, b);
    EqualAsWrittenIgnoresTail(a, b);
  }

  // ---------------------------------------------------------------------------
  // stumbra.go:65 and :110: the tail of a Short record is nil, and slicing it panics.

  /** `suffix()` as written: a Short record dereferences its nil tail. */
  function SuffixAsWritten(us: UmbraString): (r: Option<seq<byte>>)
    requires Valid(us)
    ensures r.Some? <==> !us.trailing.Nil?
  {
    if Len(us) <= InlinedLength then
      if us.trailing.Nil? then None else Some(us.trailing.buf[..Len(us) - PrefixLength])
    else Some(us.trailing.data[..Len(us)][PrefixLength..])
  }

  /** `Bytes()` as written: a Short record reaches line 65 with a nil tail. */
  function BytesAsWritten(us: UmbraString): (r: Option<seq<byte>>)
    requires Valid(us)
    ensures r.Some? <==> !us.trailing.Nil?
  {
    if Len(us) <= InlinedLength then
      if us.trailing.Nil? then None else Some(us.prefix + us.trailing.buf[..Len(us) - PrefixLength])
    else
      match SuffixAsWritten(us)
      case None => None
      case Some(suffix) => Some(us.prefix + suffix)
  }

  /** As written, `Bytes()` panics exactly on Short records and is right on the others. */
  lemma BytesAsWrittenPanicsOnShort(us: UmbraString)
    requires Valid(us)
    ensures BytesAsWritten(us) == None <==> Len(us) <= PrefixLength
    ensures Len(us) > PrefixLength ==> BytesAsWritten(us) == Some(Bytes(us))
  {
  }

  /** `Bytes()` of the record `New("")` builds panics as written. */
  lemma BytesOfEmptyPanics()
    ensures Valid(Layout(Empty)) && BytesAsWritten(Layout(Empty)) == None
  {
    RoundTrip(Empty);
  }

  // ---------------------------------------------------------------------------
  // stumbra.go:99 and :105: on a prefix tie a Short record meets a longer one.

  /** `Compare` as written: the tail buffer or suffix of a Short operand is a nil dereference. */
  function CompareAsWritten(a: UmbraString, b: UmbraString): (r: Option<int>)
    requires Valid(a) && Valid(b)
    ensures r.Some? ==> r.value == -1 || r.value == 0 || r.value == 1
  {
    var prefixCompare := CompareBytes(a.prefix, b.prefix);
    if prefixCompare != 0 then Some(prefixCompare)
    else if Len(a) <= PrefixLength && Len(b) <= PrefixLength then
      Some(I32Compare(a.len as int32, b.len as int32))
    else if Len(a) <= InlinedLength && Len(b) <= InlinedLength then
      if a.trailing.Nil? || b.trailing.Nil? then None
      else
        var trailing := CompareBytes(a.trailing.buf, b.trailing.buf);
        Some(if trailing != 0 then trailing else I32Compare(a.len as int32, b.len as int32))
    else
      match (SuffixAsWritten(a), SuffixAsWritten(b))
      case (Some(x), Some(y)) => Some(CompareBytes(x, y))
      case _ => None
  }

  /**
   * As written, `Compare` panics exactly when the prefixes tie and one operand,
   * but not both, is Short; when it returns, it returns the intended result.
   */
  lemma CompareAsWrittenPanics(a: UmbraString, b: UmbraString)
    requires Valid(a) && Valid(b)
    ensures CompareAsWritten(a, b) == None <==>
              a.prefix == b.prefix && (Len(a) <= PrefixLength) != (Len(b) <= PrefixLength)
    ensures CompareAsWritten(a, b).Some? ==> CompareAsWritten(a, b).value == Compare(a, b)
  {
  }

  /** "abcd" against "abcde" panics as written, where the intended order is -1. */
  lemma StrictPrefixCounterexample()
    ensures var a, b := Layout(Abcd), Layout(Abcde);
            Valid(a) && Valid(b) && CompareAsWritten(a, b) == None && Compare(a, b) == -1
  {
    var a, b := Layout(Abcd), Layout(Abcde);
    RoundTrip(Abcd);
    RoundTrip(Abcde);
    PadToTake(Abcde, PrefixLength);
    assert Abcde[..PrefixLength] == Abcd;
    CompareAsWrittenPanics(a, b);
    CompareCorrect(a, b);
    assert Bytes(a) == Bytes(b)[..|Bytes(a)|];
    CompareBytesProperPrefix(Bytes(a), Bytes(b));
  }
}
