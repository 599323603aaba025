/** The byte-granularity memory primitives of the runtime: fill, copy,
    overlap-safe copy and comparison.

    Memory is one flat address space, `mem`, owned by the caller; a C pointer
    is an offset into it. The caller-supplied sizes are trusted: every range
    a primitive touches is required to lie inside `mem`. */
module CrtMemory {
  import opened Bytes

  /** The ranges `[a, a + count)` and `[b, b + count)` share no byte: the
      exact negation of the overlap test at the head of `Memmove`. */
  predicate Disjoint(a: nat, b: nat, count: nat)
  {
    a >= b + count || b >= a + count
  }

  /** Reference result of copying `count` bytes from offset `src` to offset
      `dest` of memory `s` by way of a temporary buffer: the source range is
      read in full before anything is written, so overlap cannot matter. */
  function Moved(s: seq<byte>, dest: nat, src: nat, count: nat): (r: seq<byte>)
    requires dest + count <= |s| && src + count <= |s|
  {
    s[..dest] + s[src..src + count] + s[dest + count..]
  }

  /** `Moved` byte by byte: the destination range holds the old source range
      and every other byte keeps its old value. */
  lemma MovedAt(s: seq<byte>, dest: nat, src: nat, count: nat)
    requires dest + count <= |s| && src + count <= |s|
    ensures |Moved(s, dest, src, count)| == |s|
    ensures forall j :: dest <= j < dest + count ==> Moved(s, dest, src, count)[j] == s[src + (j - dest)]
    ensures forall j :: 0 <= j < |s| && !(dest <= j < dest + count) ==> Moved(s, dest, src, count)[j] == s[j]
  {
  }

  /** A memory state that matches `Moved` byte by byte is `Moved`. */
  lemma MovedExtensional(s: seq<byte>, t: seq<byte>, dest: nat, src: nat, count: nat)
    requires dest + count <= |s| && src + count <= |s| && |t| == |s|
    requires forall j :: dest <= j < dest + count ==> t[j] == s[src + (j - dest)]
    requires forall j :: 0 <= j < |s| && !(dest <= j < dest + count) ==> t[j] == s[j]
    ensures t == Moved(s, dest, src, count)
  {
    MovedAt(s, dest, src, count);
  }

  /** `memset`: writes `(unsigned char) c` into each of the `count` bytes
      starting at `dest` and returns `dest`; every other byte is untouched,
      so `count == 0` changes nothing. */
  method Memset(mem: array<byte>, dest: nat, c: int32, count: nat) returns (r: nat)
    requires dest + count <= mem.Length
    modifies mem
    ensures r == dest
    ensures forall i :: dest <= i < dest + count ==> mem[i] == ToUnsignedChar(c)
    ensures forall j :: 0 <= j < mem.Length && !(dest <= j < dest + count) ==> mem[j] == old(mem[j])
  {
    var p := dest;
    var value := ToUnsignedChar(c);
    var n := count;
    while n > 0
      invariant dest <= p && p + n == dest + count
      invariant forall i :: dest <= i < p ==> mem[i] == value
      invariant forall j :: 0 <= j < mem.Length && !(dest <= j < p) ==> mem[j] == old(mem[j])
    {
      mem[p] := value;
      p := p + 1;
      n := n - 1;
    }
    r := dest;
  }

  /** `memcpy`: a forward copy of `count` bytes from `src` to `dest`, whose
      header demands that the two ranges do not overlap. Afterwards the
      destination holds the old source bytes; nothing else changes, the
      source range included. */
  method Memcpy(mem: array<byte>, dest: nat, src: nat, count: nat) returns (r: nat)
    requires dest + count <= mem.Length && src + count <= mem.Length
    requires Disjoint(dest, src, count)
    modifies mem
    ensures r == dest
    ensures forall j :: dest <= j < dest + count ==> mem[j] == old(mem[src + (j - dest)])
    ensures forall j :: 0 <= j < mem.Length && !(dest <= j < dest + count) ==> mem[j] == old(mem[j])
    ensures mem[..] == Moved(old(mem[..]), dest, src, count)
  {
    var d, s, n := dest, src, count;
    while n > 0
      invariant d - dest == s - src == count - n && 0 <= n <= count
      invariant forall j :: dest <= j < d ==> mem[j] == old(mem[src + (j - dest)])
      invariant forall j :: 0 <= j < mem.Length && !(dest <= j < d) ==> mem[j] == old(mem[j])
    {
      mem[d] := mem[s];
      d, s, n := d + 1, s + 1, n - 1;
    }
    r := dest;
    MovedExtensional(old(mem[..]), mem[..], dest, src, count);
  }

  /** `memmove`: the same result as copying through a temporary buffer,
      whether or not the ranges overlap. Disjoint ranges go to `Memcpy`; an
      overlapping destination that starts later is copied from the last byte
      down, and any other overlap (including `dest == src`) from the first
      byte up. */
  method Memmove(mem: array<byte>, dest: nat, src: nat, count: nat) returns (r: nat)
    requires dest + count <= mem.Length && src + count <= mem.Length
    modifies mem
    ensures r == dest
    ensures forall j :: dest <= j < dest + count ==> mem[j] == old(mem[src + (j - dest)])
    ensures forall j :: 0 <= j < mem.Length && !(dest <= j < dest + count) ==> mem[j] == old(mem[j])
    ensures mem[..] == Moved(old(mem[..]), dest, src, count)
  {
    if dest >= src + count || src >= dest + count {
      r := Memcpy(mem, dest, src, count);
      return;
    }
    if dest > src {
      // Overlap with the destination above the source: the bytes are copied
      // from the top down. The last invariant keeps every byte below the
      // write cursor at its original value, so each source byte is still
      // the original one when it is read.
      var d, s, n := dest + count - 1, src + count - 1, count;
      while n > 0
        invariant 0 <= n <= count && d == dest + n - 1 && s == src + n - 1
        invariant forall j :: dest + n <= j < dest + count ==> mem[j] == old(mem[src + (j - dest)])
        invariant forall j :: 0 <= j < mem.Length && !(dest + n <= j < dest + count) ==> mem[j] == old(mem[j])
      {
        mem[d] := mem[s];
        d, s, n := d - 1, s - 1, n - 1;
      }
    } else {
      // Overlap with the destination at or below the source: each forward
      // write lands below the next byte to be read, so the frame invariant
      // keeps the unread source suffix at its original values.
      var d, s, n := dest, src, count;
      while n > 0
        invariant d - dest == s - src == count - n && 0 <= n <= count
        invariant forall j :: dest <= j < d ==> mem[j] == old(mem[src + (j - dest)])
        invariant forall j :: 0 <= j < mem.Length && !(dest <= j < d) ==> mem[j] == old(mem[j])
      {
        mem[d] := mem[s];
        d, s, n := d + 1, s + 1, n - 1;
      }
    }
    r := dest;
    MovedExtensional(old(mem[..]), mem[..], dest, src, count);
  }

  /** Byte comparison as `memcmp` defines it: the difference of the first
      mismatching pair read as unsigned values, or 0 when there is none. */
  function MemCmp(a: seq<byte>, b: seq<byte>): (r: int)
    requires |a| == |b|
    ensures -0xFF <= r <= 0xFF
  {
    if |a| == 0 then 0
    else if a[0] != b[0] then a[0] as int - b[0] as int
    else MemCmp(a[1..], b[1..])
  }

  /** `MemCmp` is the difference at the least index where the two ranges differ. */
  lemma {:induction false} MemCmpFirstDifference(a: seq<byte>, b: seq<byte>, k: nat)
    requires |a| == |b| && k < |a|
    requires a[..k] == b[..k] && a[k] != b[k]
    ensures MemCmp(a, b) == a[k] as int - b[k] as int
  {
    if k > 0 {
      assert a[0] == a[..k][0] == b[..k][0] == b[0];
      assert a[1..][..k - 1] == a[..k][1..] == b[..k][1..] == b[1..][..k - 1];
      MemCmpFirstDifference(a[1..], b[1..], k - 1);
    }
  }

  /** `memcmp` reports equality exactly when the ranges are equal. */
  lemma {:induction false} MemCmpZeroIff(a: seq<byte>, b: seq<byte>)
    requires |a| == |b|
    ensures MemCmp(a, b) == 0 <==> a == b
  {
    if |a| > 0 && a[0] == b[0] {
      MemCmpZeroIff(a[1..], b[1..]);
      assert a == [a[0]] + a[1..] && b == [b[0]] + b[1..];
    }
  }

  /** The sign of `memcmp` is the lexicographic order of the ranges. */
  lemma {:induction false} MemCmpSign(a: seq<byte>, b: seq<byte>)
    requires |a| == |b|
    ensures MemCmp(a, b) < 0 <==> LexLess(a, b)
    ensures MemCmp(a, b) > 0 <==> LexLess(b, a)
  {
    if |a| > 0 && a[0] == b[0] {
      MemCmpSign(a[1..], b[1..]);
    }
  }

  /** Swapping the operands negates the result. */
  lemma {:induction false} MemCmpAntisymmetric(a: seq<byte>, b: seq<byte>)
    requires |a| == |b|
    ensures MemCmp(a, b) == -MemCmp(b, a)
  {
    if |a| > 0 && a[0] == b[0] {
      MemCmpAntisymmetric(a[1..], b[1..]);
    }
  }

  /** `memcmp`: scans the `count` bytes at `lhs` and `rhs` in step and
      returns the difference at the first mismatch, or 0. */
  method Memcmp(mem: array<byte>, lhs: nat, rhs: nat, count: nat) returns (r: int)
    requires lhs + count <= mem.Length && rhs + count <= mem.Length
    ensures r == MemCmp(mem[lhs..lhs + count], mem[rhs..rhs + count])
  {
    ghost var a, b := mem[lhs..lhs + count], mem[rhs..rhs + count];
    var l, rr, n := lhs, rhs, count;
    while n > 0
      invariant l - lhs == rr - rhs == count - n && 0 <= n <= count
      invariant MemCmp(a, b) == MemCmp(a[count - n..], b[count - n..])
    {
      ghost var k := count - n;
      assert a[k..][0] == a[k] == mem[l] && b[k..][0] == b[k] == mem[rr];
      if mem[l] != mem[rr] {
        return mem[l] as int - mem[rr] as int;
      }
      assert a[k..][1..] == a[k + 1..] && b[k..][1..] == b[k + 1..];
      l, rr, n := l + 1, rr + 1, n - 1;
    }
    assert a[count..] == [] == b[count..];
    r := 0;
  }
}
