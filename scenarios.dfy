/**
 * The scenarios the package's tests assert, and class-boundary cases this
 * model adds, as client methods that build records with `New` and rely on the
 * contracts alone.
 */
module StumbraScenarios {
  import opened ByteSeq
  import opened Stumbra
  import opened StumbraSamples

  /** "hello" and "world" are unequal, whichever side asks. */
  method EqualDifferentString() returns (ab: bool, ba: bool)
    ensures !ab && !ba
  {
    var a, errA := New(Hello);
    var b, errB := New(World);
    assert errA == NoError && errB == NoError;
    EqualCorrect(a, b);
    EqualCorrect(b, a);
    assert Bytes(a)[0] != Bytes(b)[0];
    ab := Equal(a, b);
    ba := Equal(b, a);
  }

  /** Two records of "" are equal, whichever side asks, and compare as 0. */
  method EqualSameString() returns (ab: bool, ba: bool, c: int)
    ensures ab && ba && c == 0
  {
    var a, errA := New(Empty);
    var b, errB := New(Empty);
    assert errA == NoError && errB == NoError;
    EqualCorrect(a, b);
    EqualCorrect(b, a);
    CompareZeroIffEqual(a, b);
    ab := Equal(a, b);
    ba := Equal(b, a);
    c := Compare(a, b);
  }

  /** "hell" < "worl" already decides "hello" < "world" on the prefix alone. */
  method ComparePrefixDecides() returns (prefixOrder: int, c: int)
    ensures prefixOrder == -1 && c == -1
  {
    var a, errA := New(Hello);
    var b, errB := New(World);
    assert errA == NoError && errB == NoError;
    assert a.prefix[0] < b.prefix[0];
    prefixOrder := CompareBytes(a.prefix, b.prefix);
    c := Compare(a, b);
  }

  /** A strict prefix sorts first across the Short/Inlined boundary: "abcd" < "abcde". */
  method CompareStrictPrefix() returns (c: int)
    ensures c == -1
  {
    var a, errA := New(Abcd);
    var b, errB := New(Abcde);
    assert errA == NoError && errB == NoError;
    CompareCorrect(a, b);
    assert Bytes(a) == Bytes(b)[..|Bytes(a)|];
    CompareBytesProperPrefix(Bytes(a), Bytes(b));
    c := Compare(a, b);
  }

  /** Strings that first differ past byte 12 are ordered by that byte. */
  method CompareLongSuffix() returns (c: int, d: int)
    ensures c == -1 && d == 1
  {
    var a, errA := New(Abcd3X);
    var b, errB := New(Abcd3Y);
    assert errA == NoError && errB == NoError;
    CompareIsLexicographic(a, b);
    CompareIsTotalOrder(a, b, b);
    assert Abcd3X[..12] == Abcd3Y[..12] && Abcd3X[12] < Abcd3Y[12];
    assert LexLess(Bytes(a), Bytes(b));
    c := Compare(a, b);
    d := Compare(b, a);
  }
}
