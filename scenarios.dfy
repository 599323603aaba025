/** The primitives applied to the concrete inputs of the repository's
    tests, to the 0xAA fill of its memory test and to an overlapping shift,
    each with the observable outcome proved as a postcondition, plus the
    copy-then-compare client of the string tests. */
module Scenarios {
  import opened Bytes
  import opened CrtMemory
  import opened CrtString

  /** The bytes of an ASCII text. */
  function Ascii(s: string): (r: seq<byte>)
    requires forall i :: 0 <= i < |s| ==> s[i] as int < 0x100
    ensures |r| == |s| && forall i :: 0 <= i < |s| ==> r[i] == s[i] as int
  {
    seq(|s|, i requires 0 <= i < |s| => s[i] as int)
  }

  /** A fresh buffer holding `s`. */
  method Load(s: seq<byte>) returns (a: array<byte>)
    ensures fresh(a) && a[..] == s
  {
    a := new byte[|s|](i requires 0 <= i < |s| => s[i]);
  }

  /** Copy a string, then measure and compare the copy against the original:
      the copy has the same length and `strcmp` finds them equal. */
  method CopyThenCompare(mem: array<byte>, dest: nat, src: nat) returns (cmp: int, destLen: nat, srcLen: nat)
    requires src <= mem.Length && Terminated(mem[src..])
    requires dest + StrLen(mem[src..]) + 1 <= mem.Length
    requires dest + StrLen(mem[src..]) + 1 <= src || src + StrLen(mem[src..]) + 1 <= dest
    modifies mem
    ensures cmp == 0 && destLen == srcLen == StrLen(old(mem[src..]))
  {
    var _ := Strcpy(mem, dest, src);
    StrcpyRoundTrip(old(mem[..]), mem[..], dest, src);
    assert mem[..][dest..] == mem[dest..] && mem[..][src..] == mem[src..];
    assert old(mem[..])[src..] == old(mem[src..]);
    cmp := Strcmp(mem, dest, src);
    destLen := Strlen(mem, dest);
    srcLen := Strlen(mem, src);
  }

  /** `strlen` of "", "Hello", "Hello\0World" and of the bytes H, i, 0, X. */
  method StrlenExamples() returns (empty: nat, hello: nat, withNull: nat, hi: nat)
    ensures empty == 0 && hello == 5 && withNull == 5 && hi == 2
  {
    var e := Load(Ascii("\0"));
    StrLenUnique(e[..], 0);
    empty := Strlen(e, 0);
    var h := Load(Ascii("Hello\0"));
    StrLenUnique(h[..], 5);
    hello := Strlen(h, 0);
    var w := Load(Ascii("Hello\0World\0"));
    StrLenUnique(w[..], 5);
    withNull := Strlen(w, 0);
    var x := Load(Ascii("Hi\0X"));
    StrLenUnique(x[..], 2);
    hi := Strlen(x, 0);
  }

  /** `strnlen` of "Hello" bounded by 0, 3 and 10. */
  method StrnlenExamples() returns (r0: nat, r3: nat, r10: nat)
    ensures r0 == 0 && r3 == 3 && r10 == 5
  {
    var h := Load(Ascii("Hello\0"));
    StrLenUnique(h[..], 5);
    StrNLenIsMin(h[..], 3);
    StrNLenIsMin(h[..], 10);
    r0 := Strnlen(h, 0, 0);
    r3 := Strnlen(h, 0, 3);
    r10 := Strnlen(h, 0, 10);
  }

  /** `strcmp("Hello", "Hello")` is 0. */
  method StrcmpEqualExample() returns (r: int)
    ensures r == 0
  {
    var m := Load(Ascii("Hello\0Hello\0"));
    StrLenUnique(m[0..], 5);
    StrLenUnique(m[6..], 5);
    assert m[0..][..6] == m[6..][..6];
    StrCmpZeroIff(m[0..], m[6..]);
    r := Strcmp(m, 0, 6);
  }

  /** `strcmp("Hello", "World")` is negative. */
  method StrcmpLessExample() returns (r: int)
    ensures r < 0
  {
    var m := Load(Ascii("Hello\0World\0"));
    StrLenUnique(m[0..], 5);
    StrLenUnique(m[6..], 5);
    StrCmpAtStop(m[0..], m[6..], 0);
    r := Strcmp(m, 0, 6);
  }

  /** `strcmp("Hello", "Hallo")` is positive. */
  method StrcmpGreaterExample() returns (r: int)
    ensures r > 0
  {
    var m := Load(Ascii("Hello\0Hallo\0"));
    StrLenUnique(m[0..], 5);
    StrLenUnique(m[6..], 5);
    StrCmpAtStop(m[0..], m[6..], 1);
    r := Strcmp(m, 0, 6);
  }

  /** "Hello, World!" copied into a 20-byte buffer compares equal to the
      original and has length 13. */
  method StrcpyExample() returns (cmp: int, len: nat)
    ensures cmp == 0 && len == 13
  {
    var m := Load(Ascii("Hello, World!\0") + seq(20, _ => 0));
    StrLenUnique(m[0..], 13);
    var srcLen;
    cmp, len, srcLen := CopyThenCompare(m, 14, 0);
  }

  /** Two 10-byte buffers filled with 0xAA compare equal. */
  method MemsetExample() returns (cmp: int, filled: seq<byte>)
    ensures cmp == 0 && filled == seq(10, _ => 0xAA)
  {
    var m := new byte[20];
    var _ := Memset(m, 0, 0xAA, 10);
    var _ := Memset(m, 10, 0xAA, 10);
    assert m[0..10] == m[10..20];
    MemCmpZeroIff(m[0..10], m[10..20]);
    cmp := Memcmp(m, 0, 10, 10);
    filled := m[0..10];
  }

  /** Moving the first eight bytes of "ABCDEFGHIJ" two places up, onto an
      overlapping range, gives "ABABCDEFGH". */
  method MemmoveShiftExample() returns (after: seq<byte>)
    ensures after == Ascii("ABABCDEFGH")
  {
    var m := Load(Ascii("ABCDEFGHIJ"));
    var _ := Memmove(m, 2, 0, 8);
    after := m[..];
  }
}
