/**
 * Byte sequences as Go's `[]byte` and `string` see them: the built-in `copy`,
 * `bytes.Compare` (unsigned lexicographic order) and zero padding of a short
 * byte string up to a fixed width, the trick the Umbra string layout relies on.
 */
module ByteSeq {

  /** An unsigned 8-bit value, Go's `byte`. */
  newtype byte = x: int | 0 <= x < 0x100

  /** A zero-initialised buffer of `n` bytes, as Go's `new([n]byte)` gives. */
  function Zeros(n: nat): (r: seq<byte>)
    ensures |r| == n
    ensures forall i :: 0 <= i < n ==> r[i] == 0
  {
    seq(n, _ => 0)
  }

  /**
   * Go's built-in `copy(dst, src)`: the first min(|dst|, |src|) bytes of `dst`
   * are overwritten by those of `src`, the rest of `dst` is kept.
   */
  function Copy(dst: seq<byte>, src: seq<byte>): (r: seq<byte>)
    ensures |r| == |dst|
    ensures forall i :: 0 <= i < |dst| ==> r[i] == (if i < |src| then src[i] else dst[i])
  {
    if |src| < |dst| then src + dst[|src|..] else src[..|dst|]
  }

  /** The first `n` bytes of `x`, followed by zero bytes up to width `n`. */
  function PadTo(x: seq<byte>, n: nat): (r: seq<byte>)
    ensures |r| == n
    ensures forall i :: 0 <= i < n ==> r[i] == (if i < |x| then x[i] else 0)
  {
    if n == 0 then []
    else if x == [] then [0] + PadTo([], n - 1)
    else [x[0]] + PadTo(x[1..], n - 1)
  }

  /** Copying into a zero-initialised buffer pads the copied bytes with zeros. */
  lemma CopyIntoZeros(x: seq<byte>, n: nat)
    ensures Copy(Zeros(n), x) == PadTo(x, n)
  {
    var c, p := Copy(Zeros(n), x), PadTo(x, n);
    assert |c| == |p|;
    forall i | 0 <= i < n ensures c[i] == p[i] { }
  }

  /** Padding only looks at the first `n` bytes. */
  lemma PadToTake(x: seq<byte>, n: nat)
    requires n <= |x|
    ensures PadTo(x[..n], n) == PadTo(x, n) == x[..n]
  {
    var p, q := PadTo(x[..n], n), PadTo(x, n);
    forall i | 0 <= i < n ensures p[i] == q[i] == x[..n][i] { }
  }

  /**
   * Go's `bytes.Compare`: -1, 0 or 1 as `x` sorts before, equal to or after `y`
   * in unsigned byte-wise lexicographic order (a proper prefix sorts first).
   */
  function CompareBytes(x: seq<byte>, y: seq<byte>): (r: int)
    ensures r == -1 || r == 0 || r == 1
    ensures r == 0 <==> x == y
  {
    if x == [] then (if y == [] then 0 else -1)
    else if y == [] then 1
    else if x[0] < y[0] then -1
    else if x[0] > y[0] then 1
    else
      var r := CompareBytes(x[1..], y[1..]);
      assert r == 0 ==> x == [x[0]] + x[1..] == [y[0]] + y[1..] == y;
      r
  }

  /**
   * Lexicographic order stated directly: `x` and `y` agree on their first `k`
   * bytes, and then either `x` ends while `y` goes on, or `x` has the smaller byte.
   */
  ghost predicate LexLess(x: seq<byte>, y: seq<byte>) {
    exists k :: 0 <= k <= |x| && k < |y| && x[..k] == y[..k] && (k == |x| || x[k] < y[k])
  }

  /** `CompareBytes` returns -1 exactly for the pairs in lexicographic order. */
  lemma {:induction false} CompareBytesIsLexLess(x: seq<byte>, y: seq<byte>)
    ensures CompareBytes(x, y) == -1 <==> LexLess(x, y)
    decreases |x|
  {
    if x == [] {
      if y != [] {
        assert x[..0] == y[..0];
      }
    } else if y == [] {
    } else if x[0] < y[0] {
      assert x[..0] == y[..0];
    } else if x[0] > y[0] {
      LexLessHead(x, y);
    } else {
      var x', y' := x[1..], y[1..];
      CompareBytesIsLexLess(x', y');
      if LexLess(x, y) {
        var k :| 0 <= k <= |x| && k < |y| && x[..k] == y[..k] && (k == |x| || x[k] < y[k]);
        assert k > 0;
        assert x'[..k - 1] == x[..k][1..] == y[..k][1..] == y'[..k - 1];
        assert LexLess(x', y');
      }
      if LexLess(x', y') {
        var k :| 0 <= k <= |x'| && k < |y'| && x'[..k] == y'[..k] && (k == |x'| || x'[k] < y'[k]);
        assert x[..k + 1] == [x[0]] + x'[..k] == [y[0]] + y'[..k] == y[..k + 1];
        assert LexLess(x, y);
      }
    }
  }

  /** In lexicographic order the first bytes are already ordered. */
  lemma LexLessHead(x: seq<byte>, y: seq<byte>)
    requires x != [] && y != []
    ensures LexLess(x, y) ==> x[0] <= y[0]
  {
    if LexLess(x, y) {
      var k :| 0 <= k <= |x| && k < |y| && x[..k] == y[..k] && (k == |x| || x[k] < y[k]);
      if k > 0 {
        assert x[..k][0] == y[..k][0];
      }
    }
  }

  /** Swapping the operands negates the result. */
  lemma {:induction false} CompareBytesAntisymmetric(x: seq<byte>, y: seq<byte>)
    ensures CompareBytes(y, x) == -CompareBytes(x, y)
    decreases |x|
  {
    if x != [] && y != [] && x[0] == y[0] {
      CompareBytesAntisymmetric(x[1..], y[1..]);
    }
  }

  /** The order `CompareBytes` decides is transitive. */
  lemma {:induction false} CompareBytesTransitive(x: seq<byte>, y: seq<byte>, z: seq<byte>)
    requires CompareBytes(x, y) == -1 && CompareBytes(y, z) == -1
    ensures CompareBytes(x, z) == -1
    decreases |x|
  {
    if x != [] && y != [] && z != [] && x[0] == y[0] == z[0] {
      CompareBytesTransitive(x[1..], y[1..], z[1..]);
    }
  }

  /** A common leading part does not change the comparison. */
  lemma {:induction false} CompareBytesCommonPrefix(p: seq<byte>, u: seq<byte>, v: seq<byte>)
    ensures CompareBytes(p + u, p + v) == CompareBytes(u, v)
    decreases |p|
  {
    if p != [] {
      assert (p + u)[0] == p[0] == (p + v)[0];
      assert (p + u)[1..] == p[1..] + u;
      assert (p + v)[1..] == p[1..] + v;
      CompareBytesCommonPrefix(p[1..], u, v);
    } else {
      assert p + u == u && p + v == v;
    }
  }

  /** A proper prefix sorts first. */
  lemma {:induction false} CompareBytesProperPrefix(x: seq<byte>, y: seq<byte>)
    requires |x| < |y| && x == y[..|x|]
    ensures CompareBytes(x, y) == -1
    decreases |x|
  {
    if x != [] {
      assert x[1..] == y[1..][..|x| - 1];
      assert x[0] == y[..|x|][0];
      CompareBytesProperPrefix(x[1..], y[1..]);
    }
  }

  /**
   * The soundness of comparing zero-padded heads: when the first `n` bytes of
   * `x` and `y`, each padded with zeros to width `n`, already compare unequal,
   * the whole byte strings compare the same way. A pad byte (0) can only lose
   * to a real byte of the longer string, and then the shorter string is a
   * proper prefix of the longer one.
   */
  lemma {:induction false} PaddedCompareSound(x: seq<byte>, y: seq<byte>, n: nat)
    ensures CompareBytes(PadTo(x, n), PadTo(y, n)) != 0 ==>
              CompareBytes(PadTo(x, n), PadTo(y, n)) == CompareBytes(x, y)
    decreases n
  {
    if n > 0 {
      var px, py := PadTo(x, n), PadTo(y, n);
      var x' := if x == [] then [] else x[1..];
      var y' := if y == [] then [] else y[1..];
      assert px == [px[0]] + PadTo(x', n - 1);
      assert py == [py[0]] + PadTo(y', n - 1);
      assert px[1..] == PadTo(x', n - 1);
      assert py[1..] == PadTo(y', n - 1);
      PaddedCompareSound(x', y', n - 1);
      if x == [] && y != [] && y' != [] {
        assert CompareBytes(x', y') == -1;
      }
      if y == [] && x != [] && x' != [] {
        assert CompareBytes(x', y') == 1;
      }
    }
  }

  /**
   * When the zero-padded forms of two strings no longer than `n` coincide, the
   * strings differ at most by trailing length, so the order is that of their lengths.
   */
  lemma PaddedTie(x: seq<byte>, y: seq<byte>, n: nat)
    requires |x| <= n && |y| <= n && PadTo(x, n) == PadTo(y, n)
    ensures CompareBytes(x, y) == (if |x| < |y| then -1 else if |x| == |y| then 0 else 1)
  {
    var p := PadTo(x, n);
    if |x| <= |y| {
      forall i | 0 <= i < |x| ensures x[i] == y[..|x|][i] {
        assert p[i] == x[i] && p[i] == PadTo(y, n)[i] == y[i];
      }
      assert x == y[..|x|];
      if |x| < |y| {
        CompareBytesProperPrefix(x, y);
      }
    } else {
      forall i | 0 <= i < |y| ensures y[i] == x[..|y|][i] {
        assert p[i] == x[i] && p[i] == PadTo(y, n)[i] == y[i];
      }
      CompareBytesProperPrefix(y, x);
      CompareBytesAntisymmetric(x, y);
    }
  }
}
