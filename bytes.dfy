/** Machine-level value types shared by the memory and string primitives,
    and the lexicographic order on byte sequences that both comparators
    are measured against. */
module Bytes {

  /** An `unsigned char`: every byte of memory holds one. */
  type byte = x: int | 0 <= x < 0x100

  /** A C `int` on the targets the runtime supports. */
  type int32 = x: int | -0x8000_0000 <= x < 0x8000_0000

  /** The C conversion `(unsigned char) c`: reduction modulo 256. Dafny's `%`
      is Euclidean, which is exactly the modular conversion C prescribes for
      a signed value converted to an unsigned type, negative values included. */
  function ToUnsignedChar(c: int32): (b: byte)
    ensures (b - c) % 0x100 == 0
  {
    c % 0x100
  }

  /** Lexicographic order on byte sequences, bytes read as unsigned values:
      `x` comes strictly before `y` when `x` is a proper prefix of `y`, or
      when at the first position where they differ `x` holds the smaller byte. */
  predicate LexLess(x: seq<byte>, y: seq<byte>)
  {
    |y| > 0 && (|x| == 0 || x[0] < y[0] || (x[0] == y[0] && LexLess(x[1..], y[1..])))
  }

  /** `LexLess` read off at the first difference: when `x` and `y` agree
      below `k` and differ at `k`, the order is the order of `x[k]` and `y[k]`. */
  lemma {:induction false} LexLessAtFirstDifference(x: seq<byte>, y: seq<byte>, k: nat)
    requires k < |x| && k < |y|
    requires x[..k] == y[..k] && x[k] != y[k]
    ensures LexLess(x, y) <==> x[k] < y[k]
    ensures LexLess(y, x) <==> y[k] < x[k]
  {
    if k > 0 {
      assert x[0] == x[..k][0] == y[..k][0] == y[0];
      assert x[1..][..k - 1] == x[..k][1..] == y[..k][1..] == y[1..][..k - 1];
      LexLessAtFirstDifference(x[1..], y[1..], k - 1);
    }
  }

  /** A proper prefix comes first, and is never after the longer sequence. */
  lemma {:induction false} LexLessProperPrefix(x: seq<byte>, y: seq<byte>)
    requires |x| < |y| && x == y[..|x|]
    ensures LexLess(x, y) && !LexLess(y, x)
  {
    if |x| > 0 {
      assert x[1..] == y[1..][..|x| - 1];
      LexLessProperPrefix(x[1..], y[1..]);
    }
  }

  /** No sequence comes before itself. */
  lemma {:induction false} LexLessIrreflexive(x: seq<byte>)
    ensures !LexLess(x, x)
  {
    if |x| > 0 {
      LexLessIrreflexive(x[1..]);
    }
  }
}
