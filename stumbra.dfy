/**
 * The Umbra ("German") string: a byte string kept as a small record of its
 * length, a 4-byte inline prefix and a tail whose form is chosen by the length.
 *
 *   - Short   (length <= 4):      everything is in the prefix, there is no tail.
 *   - Inlined (5 <= length <= 12): the tail is an 8-byte buffer holding bytes
 *                                  [4, length), zero padded.
 *   - Long    (length > 12):      the tail is the whole string.
 *
 * The prefix always holds the first min(length, 4) bytes followed by zeros, so
 * equality and ordering can usually be decided from the prefix alone.
 */
module Stumbra {
  import opened ByteSeq

  const InlinedLength := 12
  const PrefixLength := 4
  const SuffixLength := 8

  /** The longest accepted input, 2^32 - 1 bytes. */
  const MaxLength := 0xFFFF_FFFF

  /** The width of the stored length; stumbra.go:21 declares int32 (see StumbraAsWritten). */
  newtype uint32 = x: int | 0 <= x < 0x1_0000_0000

  /** Go's int32, the type `i32Compare` works on. */
  newtype int32 = x: int | -0x8000_0000 <= x < 0x8000_0000

  /** The error `New` reports; `NoError` plays Go's nil. */
  datatype Error = NoError | ErrTooLong

  /** What the `trailing` reference designates in each class. */
  datatype Trailing =
    | Nil                       // Short: no tail
    | Inline(buf: seq<byte>)    // Inlined: the 8-byte buffer
    | Heap(data: seq<byte>)     // Long: the whole string

  datatype UmbraString = UmbraString(len: uint32, prefix: seq<byte>, trailing: Trailing)

  /** The three storage classes, decided by the length alone. */
  datatype Class = Short | Inlined | Long

  function ClassOf(n: int): (r: Class)
    ensures r == Short <==> n <= PrefixLength
    ensures r == Inlined <==> PrefixLength < n <= InlinedLength
    ensures r == Long <==> InlinedLength < n
  {
    if n <= PrefixLength then Short
    else if n <= InlinedLength then Inlined
    else Long
  }

  /** Go's zero value `UmbraString{}`, returned together with `ErrTooLong`. */
  const Zero := UmbraString(0, Zeros(PrefixLength), Nil)

  /**
   * The record invariant `New` establishes: a 4-byte prefix padded with zeros
   * past the length, and the tail form of the length's class, itself padded
   * with zeros (Inlined) or agreeing with the prefix (Long).
   */
  predicate Valid(us: UmbraString) {
    var n := us.len as int;
    && |us.prefix| == PrefixLength
    && (ClassOf(n) == Short ==>
          us.trailing.Nil? && forall i :: n <= i < PrefixLength ==> us.prefix[i] == 0)
    && (ClassOf(n) == Inlined ==>
          && us.trailing.Inline? && |us.trailing.buf| == SuffixLength
          && forall i :: n - PrefixLength <= i < SuffixLength ==> us.trailing.buf[i] == 0)
    && (ClassOf(n) == Long ==>
          us.trailing.Heap? && |us.trailing.data| == n && us.trailing.data[..PrefixLength] == us.prefix)
  }

  /** The record that represents `s`: what `New` is meant to build. */
  function Layout(s: seq<byte>): UmbraString
    requires |s| <= MaxLength
  {
    UmbraString(
      |s| as uint32,
      PadTo(s, PrefixLength),
      match ClassOf(|s|)
      case Short => Nil
      case Inlined => Inline(PadTo(s[PrefixLength..], SuffixLength))
      case Long => Heap(s))
  }

  /**
   * `New(s)`: rejects strings longer than 2^32 - 1 bytes, otherwise stores the
   * length, copies the head of `s` into the zero-initialised prefix and, by
   * class, leaves the tail empty, copies bytes [4, |s|) into a fresh
   * zero-initialised 8-byte buffer, or refers to the whole of `s`.
   */
  method New(s: seq<byte>) returns (us: UmbraString, err: Error)
    ensures err == ErrTooLong <==> |s| > MaxLength
    ensures err == ErrTooLong ==> us == Zero
    ensures err == NoError ==> us == Layout(s)
    ensures err == NoError ==> Valid(us) && Bytes(us) == s && String(us) == s && Len(us) == |s|
  {
    if |s| > MaxLength {
      return Zero, ErrTooLong;
    }
    var len := |s| as uint32;
    var prefix := Zeros(PrefixLength);
    var trailing := Nil;
    if len as int <= PrefixLength {
      prefix := Copy(prefix, s);
      CopyIntoZeros(s, PrefixLength);
    } else if len as int <= InlinedLength {
      prefix := Copy(prefix, s[..PrefixLength]);
      PadToTake(s, PrefixLength);
      CopyIntoZeros(s[..PrefixLength], PrefixLength);
      var buf := new byte[SuffixLength](_ => 0);
      forall i | 0 <= i < |s| - PrefixLength {
        buf[i] := s[PrefixLength + i];
      }
      assert buf[..] == PadTo(s[PrefixLength..], SuffixLength);
      trailing := Inline(buf[..]);
    } else {
      prefix := Copy(prefix, s[..PrefixLength]);
      PadToTake(s, PrefixLength);
      CopyIntoZeros(s[..PrefixLength], PrefixLength);
      trailing := Heap(s);
    }
    us := UmbraString(len, prefix, trailing);
    err := NoError;
    RoundTrip(s);
  }

  /** `Len()`: the stored length, never negative once it is kept in 32 unsigned bits. */
  function Len(us: UmbraString): (r: int)
    ensures 0 <= r <= MaxLength
  {
    us.len as int
  }

  /** `IsEmpty()`: the record stands for the empty string. */
  function IsEmpty(us: UmbraString): (r: bool)
    ensures Valid(us) ==> (r <==> Bytes(us) == [])
  {
    us.len == 0
  }

  /**
   * `suffix()`: the bytes after the prefix, read from the tail: the first
   * length - 4 bytes of the inline buffer, or bytes [4, length) of the whole
   * string. A Short record has none.
   */
  function Suffix(us: UmbraString): (r: seq<byte>)
    requires Valid(us)
    ensures |r| == if Len(us) <= PrefixLength then 0 else Len(us) - PrefixLength
  {
    match ClassOf(Len(us))
    case Short => []
    case Inlined => us.trailing.buf[..Len(us) - PrefixLength]
    case Long => us.trailing.data[PrefixLength..Len(us)]
  }

  /**
   * `Bytes()`: the logical string, the prefix cut to the length for a Short
   * record, otherwise the prefix followed by the suffix.
   */
  function Bytes(us: UmbraString): (r: seq<byte>)
    requires Valid(us)
    ensures |r| == Len(us)
    ensures PadTo(r, PrefixLength) == us.prefix
  {
    var r := if ClassOf(Len(us)) == Short then us.prefix[..us.len] else us.prefix + Suffix(us);
    assert forall i :: 0 <= i < PrefixLength ==> PadTo(r, PrefixLength)[i] == us.prefix[i];
    r
  }

  /** `String()`: the logical string as Go text, which is the same bytes. */
  function String(us: UmbraString): (r: seq<byte>)
    requires Valid(us)
    ensures |r| == Len(us)
  {
    Bytes(us)
  }

  /** Go's `i32Compare`: the sign of `a - b`. */
  function I32Compare(a: int32, b: int32): (r: int)
    ensures r == -1 || r == 0 || r == 1
    ensures r == 0 <==> a == b
    ensures r == -1 <==> a < b
  {
    if a < b then -1
    else if a > b then 1
    else 0
  }

  /**
   * `Equal(other)`: a fast path on length and prefix, then, for two Short
   * records, nothing more; for two Inlined ones the two 8-byte buffers; for
   * Long ones the two suffixes.
   */
  function Equal(a: UmbraString, b: UmbraString): (r: bool)
    requires Valid(a) && Valid(b)
    ensures r ==> a.len == b.len && a.prefix == b.prefix
  {
    if a.len != b.len || a.prefix != b.prefix then false
    else if Len(a) <= InlinedLength then
      if a.trailing.Nil? && b.trailing.Nil? then true
      else a.trailing.buf == b.trailing.buf
    else Suffix(a) == Suffix(b)
  }

  /**
   * The 8-byte buffer stumbra.go:99 reads for records of at most 12
   * bytes; a Short record has no buffer and reads as eight zero bytes.
   */
  function TailBuffer(us: UmbraString): (r: seq<byte>)
    requires Valid(us) && Len(us) <= InlinedLength
    ensures |r| == SuffixLength
  {
    if us.trailing.Inline? then us.trailing.buf else Zeros(SuffixLength)
  }

  /**
   * `Compare(other)`: the zero-padded prefixes first; on a tie, the lengths for
   * two Short records, the padded tail buffers and then the lengths for two
   * records of at most 12 bytes, and otherwise the two suffixes.
   */
  function Compare(a: UmbraString, b: UmbraString): (r: int)
    requires Valid(a) && Valid(b)
    ensures r == -1 || r == 0 || r == 1
  {
    var prefixCompare := CompareBytes(a.prefix, b.prefix);
    if prefixCompare != 0 then prefixCompare
    else if Len(a) <= PrefixLength && Len(b) <= PrefixLength then
      I32Compare(a.len as int32, b.len as int32)
    else if Len(a) <= InlinedLength && Len(b) <= InlinedLength then
      var trailing := CompareBytes(TailBuffer(a), TailBuffer(b));
      if trailing != 0 then trailing else I32Compare(a.len as int32, b.len as int32)
    else CompareBytes(Suffix(a), Suffix(b))
  }

  // ---------------------------------------------------------------------------
  // Construction: the layout is a bijection between accepted strings and valid records.

  /** Every accepted string is represented by a valid record that gives it back. */
  lemma RoundTrip(s: seq<byte>)
    requires |s| <= MaxLength
    ensures Valid(Layout(s))
    ensures Bytes(Layout(s)) == s && String(Layout(s)) == s
    ensures Len(Layout(s)) == |s|
    ensures IsEmpty(Layout(s)) <==> s == []
  {
    var us := Layout(s);
    match ClassOf(|s|)
    case Short =>
      assert us.prefix[..us.len] == s;
    case Inlined =>
      assert Suffix(us) == s[PrefixLength..];
      PadToTake(s, PrefixLength);
    case Long =>
      PadToTake(s, PrefixLength);
      assert us.prefix + Suffix(us) == s[..PrefixLength] + s[PrefixLength..];
  }

  /**
   * The class is a function of the length with inclusive upper bounds 4 and 12;
   * the prefix is the head of the string padded with zeros in every class; an
   * Inlined buffer holds bytes [4, |s|) padded with zeros; a Long tail is `s`.
   */
  lemma LayoutClasses(s: seq<byte>)
    requires |s| <= MaxLength
    ensures Layout(s).trailing.Nil? <==> |s| <= PrefixLength
    ensures Layout(s).trailing.Inline? <==> PrefixLength < |s| <= InlinedLength
    ensures Layout(s).trailing.Heap? <==> InlinedLength < |s|
    ensures forall i :: 0 <= i < PrefixLength ==> Layout(s).prefix[i] == if i < |s| then s[i] else 0
    ensures Layout(s).trailing.Inline? ==>
              && |Layout(s).trailing.buf| == SuffixLength
              && Layout(s).trailing.buf[..|s| - PrefixLength] == s[PrefixLength..]
              && forall i :: |s| - PrefixLength <= i < SuffixLength ==> Layout(s).trailing.buf[i] == 0
    ensures Layout(s).trailing.Heap? ==> Layout(s).trailing.data == s
  {
    if ClassOf(|s|) == Inlined {
      var buf := Layout(s).trailing.buf;
      assert forall i :: 0 <= i < |s| - PrefixLength ==> buf[i] == s[PrefixLength..][i];
    }
  }

  /** A valid record is exactly the layout of the string it stands for. */
  lemma Canonical(us: UmbraString)
    requires Valid(us)
    ensures |Bytes(us)| <= MaxLength && Layout(Bytes(us)) == us
  {
    var s := Bytes(us);
    var l := Layout(s);
    assert l.len == us.len && l.prefix == us.prefix;
    match ClassOf(|s|)
    case Short =>
    case Inlined =>
      assert s[PrefixLength..] == Suffix(us);
      var p := PadTo(s[PrefixLength..], SuffixLength);
      forall i | 0 <= i < SuffixLength ensures p[i] == us.trailing.buf[i] { }
    case Long =>
      var d := us.trailing.data;
      assert s == d[..PrefixLength] + d[PrefixLength..];
      assert s == d;
  }

  /** Two valid records stand for the same string only if they are the same record. */
  lemma SameBytesSameRecord(a: UmbraString, b: UmbraString)
    requires Valid(a) && Valid(b) && Bytes(a) == Bytes(b)
    ensures a == b
  {
    Canonical(a);
    Canonical(b);
  }

  // ---------------------------------------------------------------------------
  // The logical string seen through the prefix and the tail.

  /** From length 4 on, the logical string is the prefix followed by the suffix. */
  lemma SuffixIsTail(us: UmbraString)
    requires Valid(us) && Len(us) >= PrefixLength
    ensures Bytes(us) == us.prefix + Suffix(us)
    ensures Suffix(us) == Bytes(us)[PrefixLength..]
  {
    if ClassOf(Len(us)) == Short {
      assert us.prefix[..us.len] == us.prefix;
    }
  }

  /** A record of at most 12 bytes is its logical string zero padded to 12 bytes. */
  lemma InlinedPadding(us: UmbraString)
    requires Valid(us) && Len(us) <= InlinedLength
    ensures PadTo(Bytes(us), InlinedLength) == us.prefix + TailBuffer(us)
  {
    var s := Bytes(us);
    var p, q := PadTo(s, InlinedLength), us.prefix + TailBuffer(us);
    assert PadTo(s, PrefixLength) == us.prefix;
    forall i | 0 <= i < InlinedLength ensures p[i] == q[i] {
      if i < PrefixLength {
        assert PadTo(s, PrefixLength)[i] == q[i];
      } else if us.trailing.Inline? && i < |s| {
        assert s[i] == Suffix(us)[i - PrefixLength];
      }
    }
  }

  // ---------------------------------------------------------------------------
  // Equality.

  /** `Equal` holds exactly when the two logical strings are byte-for-byte equal. */
  lemma EqualCorrect(a: UmbraString, b: UmbraString)
    requires Valid(a) && Valid(b)
    ensures Equal(a, b) <==> Bytes(a) == Bytes(b)
  {
    if a.len == b.len && a.prefix == b.prefix {
      if ClassOf(Len(a)) == Inlined {
        InlinedPadding(a);
        InlinedPadding(b);
        if Bytes(a) == Bytes(b) {
          assert a.trailing.buf == (a.prefix + TailBuffer(a))[PrefixLength..];
          assert b.trailing.buf == (b.prefix + TailBuffer(b))[PrefixLength..];
        }
      } else if ClassOf(Len(a)) == Long {
        SuffixIsTail(a);
        SuffixIsTail(b);
      }
    }
  }

  /** `Equal` holds exactly for identical records. */
  lemma EqualIsIdentity(a: UmbraString, b: UmbraString)
    requires Valid(a) && Valid(b)
    ensures Equal(a, b) <==> a == b
  {
    EqualCorrect(a, b);
    if Equal(a, b) {
      SameBytesSameRecord(a, b);
    }
  }

  /** `Equal` is reflexive, symmetric and transitive. */
  lemma EqualIsEquivalence(a: UmbraString, b: UmbraString, c: UmbraString)
    requires Valid(a) && Valid(b) && Valid(c)
    ensures Equal(a, a)
    ensures Equal(a, b) == Equal(b, a)
    ensures Equal(a, b) && Equal(b, c) ==> Equal(a, c)
  {
    EqualCorrect(a, a);
    EqualCorrect(a, b);
    EqualCorrect(b, a);
    EqualCorrect(b, c);
    EqualCorrect(a, c);
  }

  // ---------------------------------------------------------------------------
  // Ordering.

  /**
   * The zero-padding trick is sound: when the two padded prefixes differ, their
   * order is already the order of the logical strings.
   */
  lemma PrefixDecides(a: UmbraString, b: UmbraString)
    requires Valid(a) && Valid(b)
    requires CompareBytes(a.prefix, b.prefix) != 0
    ensures CompareBytes(Bytes(a), Bytes(b)) == CompareBytes(a.prefix, b.prefix)
  {
    PaddedCompareSound(Bytes(a), Bytes(b), PrefixLength);
  }

  /** Equal prefixes and both lengths at most 4: the shorter string sorts first. */
  lemma ShortTieBreak(a: UmbraString, b: UmbraString)
    requires Valid(a) && Valid(b) && a.prefix == b.prefix
    requires Len(a) <= PrefixLength && Len(b) <= PrefixLength
    ensures CompareBytes(Bytes(a), Bytes(b)) == I32Compare(a.len as int32, b.len as int32)
  {
    PaddedTie(Bytes(a), Bytes(b), PrefixLength);
  }

  /**
   * Equal prefixes and both lengths at most 12: comparing the zero-padded tail
   * buffers, then the lengths, is the order of the logical strings.
   */
  lemma InlinedTieBreak(a: UmbraString, b: UmbraString)
    requires Valid(a) && Valid(b) && a.prefix == b.prefix
    requires Len(a) <= InlinedLength && Len(b) <= InlinedLength
    ensures var t := CompareBytes(TailBuffer(a), TailBuffer(b));
            CompareBytes(Bytes(a), Bytes(b)) == if t != 0 then t else I32Compare(a.len as int32, b.len as int32)
  {
    var x, y := Bytes(a), Bytes(b);
    InlinedPadding(a);
    InlinedPadding(b);
    CompareBytesCommonPrefix(a.prefix, TailBuffer(a), TailBuffer(b));
    PaddedCompareSound(x, y, InlinedLength);
    PadToTake(x, |x|);
    if CompareBytes(TailBuffer(a), TailBuffer(b)) == 0 {
      PaddedTie(x, y, InlinedLength);
    }
  }

  /**
   * Equal prefixes and one length above 12: the order of the suffixes is the
   * order of the logical strings.
   */
  lemma LongSuffixDecides(a: UmbraString, b: UmbraString)
    requires Valid(a) && Valid(b) && a.prefix == b.prefix
    requires Len(a) > InlinedLength || Len(b) > InlinedLength
    ensures CompareBytes(Bytes(a), Bytes(b)) == CompareBytes(Suffix(a), Suffix(b))
  {
    if Len(a) >= PrefixLength && Len(b) >= PrefixLength {
      SuffixIsTail(a);
      SuffixIsTail(b);
      CompareBytesCommonPrefix(a.prefix, Suffix(a), Suffix(b));
    } else if Len(b) < PrefixLength {
      ShorterIsPrefix(a, b);
    } else {
      ShorterIsPrefix(b, a);
      CompareBytesAntisymmetric(Bytes(a), Bytes(b));
      CompareBytesAntisymmetric(Suffix(a), Suffix(b));
    }
  }

  /** A string of under 4 bytes that shares the padded prefix of a long one is its proper prefix. */
  lemma ShorterIsPrefix(long: UmbraString, short: UmbraString)
    requires Valid(long) && Valid(short) && long.prefix == short.prefix
    requires Len(long) > InlinedLength && Len(short) < PrefixLength
    ensures CompareBytes(Bytes(long), Bytes(short)) == 1 == CompareBytes(Suffix(long), Suffix(short))
  {
    var x, y := Bytes(long), Bytes(short);
    SuffixIsTail(long);
    assert y == x[..|y|];
    CompareBytesProperPrefix(y, x);
    CompareBytesAntisymmetric(y, x);
  }

  /** `Compare` agrees with `bytes.Compare` on the logical strings. */
  lemma CompareCorrect(a: UmbraString, b: UmbraString)
    requires Valid(a) && Valid(b)
    ensures Compare(a, b) == CompareBytes(Bytes(a), Bytes(b))
  {
    if CompareBytes(a.prefix, b.prefix) != 0 {
      PrefixDecides(a, b);
    } else if Len(a) <= PrefixLength && Len(b) <= PrefixLength {
      ShortTieBreak(a, b);
    } else if Len(a) <= InlinedLength && Len(b) <= InlinedLength {
      InlinedTieBreak(a, b);
    } else {
      LongSuffixDecides(a, b);
    }
  }

  /** `Compare` returns -1 exactly when `a`'s string precedes `b`'s lexicographically. */
  lemma CompareIsLexicographic(a: UmbraString, b: UmbraString)
    requires Valid(a) && Valid(b)
    ensures Compare(a, b) == -1 <==> LexLess(Bytes(a), Bytes(b))
    ensures Compare(a, b) == 1 <==> LexLess(Bytes(b), Bytes(a))
  {
    CompareCorrect(a, b);
    CompareBytesIsLexLess(Bytes(a), Bytes(b));
    CompareBytesIsLexLess(Bytes(b), Bytes(a));
    CompareBytesAntisymmetric(Bytes(a), Bytes(b));
  }

  /** `Compare` reports 0 exactly when `Equal` holds. */
  lemma CompareZeroIffEqual(a: UmbraString, b: UmbraString)
    requires Valid(a) && Valid(b)
    ensures Compare(a, b) == 0 <==> Equal(a, b)
  {
    CompareCorrect(a, b);
    EqualCorrect(a, b);
  }

  /** `Compare` is a total order: antisymmetric and transitive. */
  lemma CompareIsTotalOrder(a: UmbraString, b: UmbraString, c: UmbraString)
    requires Valid(a) && Valid(b) && Valid(c)
    ensures Compare(b, a) == -Compare(a, b)
    ensures Compare(a, b) == -1 && Compare(b, c) == -1 ==> Compare(a, c) == -1
  {
    CompareCorrect(a, b);
    CompareCorrect(b, a);
    CompareCorrect(b, c);
    CompareCorrect(a, c);
    CompareBytesAntisymmetric(Bytes(a), Bytes(b));
    if Compare(a, b) == -1 && Compare(b, c) == -1 {
      CompareBytesTransitive(Bytes(a), Bytes(b), Bytes(c));
    }
  }

  /** `i32Compare` is antisymmetric. */
  lemma I32CompareAntisymmetric(a: int32, b: int32)
    ensures I32Compare(a, b) == -I32Compare(b, a)
  {
  }
}
