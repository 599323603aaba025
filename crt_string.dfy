/** The null-terminated string primitives of the runtime: unbounded and
    bounded length, copy, and lexicographic comparison.

    As in `CrtMemory`, memory is one flat array `mem` and a `char *` is an
    offset into it. The specification functions read a string as the
    sequence of bytes from its first byte to the end of memory; the string
    itself ends at the first zero byte in it. */
module CrtString {
  import opened Bytes

  /** `s` holds a terminator, so `strlen` and `strcmp` stop inside it. */
  predicate Terminated(s: seq<byte>)
  {
    0 in s
  }

  /** Length of the string at the start of `s`: the index of its first zero byte. */
  function StrLen(s: seq<byte>): (n: nat)
    requires Terminated(s)
    ensures n < |s| && s[n] == 0
    ensures forall i :: 0 <= i < n ==> s[i] != 0
  {
    if s[0] == 0 then 0 else StrLen(s[1..]) + 1
  }

  /** The characters of the string at the start of `s`, without the terminator. */
  function Content(s: seq<byte>): (c: seq<byte>)
    requires Terminated(s)
    ensures |c| < |s| && 0 !in c && c + [0] == s[..|c| + 1]
  {
    s[..StrLen(s)]
  }

  /** Any zero-free prefix followed by a zero fixes the length. */
  lemma StrLenUnique(s: seq<byte>, n: nat)
    requires n < |s| && s[n] == 0
    requires forall i :: 0 <= i < n ==> s[i] != 0
    ensures Terminated(s) && StrLen(s) == n
  {
    assert s[n] in s;
  }

  /** Bounded length: examines at most `m` bytes and stops at the first zero.
      The caller either provides `m` readable bytes or a terminator. */
  function StrNLen(s: seq<byte>, m: nat): (r: nat)
    requires m <= |s| || Terminated(s)
    ensures r <= m && r <= |s|
    ensures forall i :: 0 <= i < r ==> s[i] != 0
    ensures r < m ==> s[r] == 0
  {
    if m == 0 then 0
    else if s[0] == 0 then 0
    else
      assert m - 1 <= |s[1..]| || Terminated(s[1..]) by {
        if !(m <= |s|) {
          var k :| 0 <= k < |s| && s[k] == 0;
          assert s[1..][k - 1] == 0;
        }
      }
      StrNLen(s[1..], m - 1) + 1
  }

  /** On a terminated string the bounded length is the length cut at the bound. */
  lemma StrNLenIsMin(s: seq<byte>, m: nat)
    requires Terminated(s)
    ensures StrNLen(s, m) == if StrLen(s) < m then StrLen(s) else m
  {
  }

  /** `strcmp` as a function: walk both strings while the left byte is not
      the terminator and equals the right byte, then take the difference of
      the two stopping bytes as unsigned values. */
  function StrCmp(a: seq<byte>, b: seq<byte>): (r: int)
    requires Terminated(a) && Terminated(b)
    ensures -0xFF <= r <= 0xFF
  {
    if a[0] != 0 && a[0] == b[0] then
      assert Terminated(a[1..]) && Terminated(b[1..]) by {
        assert a[StrLen(a)] in a[1..];
        assert b[StrLen(b)] in b[1..];
      }
      StrCmp(a[1..], b[1..])
    else
      a[0] as int - b[0] as int
  }

  /** `StrCmp` is the difference at the first index where the left string
      ends or the two differ. */
  lemma {:induction false} StrCmpAtStop(a: seq<byte>, b: seq<byte>, k: nat)
    requires Terminated(a) && Terminated(b) && k < |a| && k < |b|
    requires forall i :: 0 <= i < k ==> a[i] != 0 && a[i] == b[i]
    requires a[k] == 0 || a[k] != b[k]
    ensures StrCmp(a, b) == a[k] as int - b[k] as int
  {
    if k > 0 {
      assert a[0] != 0 && a[0] == b[0];
      StrCmpAtStop(a[1..], b[1..], k - 1);
    }
  }

  /** Two strings have the same contents exactly when their bytes agree
      up to and including their terminators. */
  lemma ContentEqIff(a: seq<byte>, b: seq<byte>)
    requires Terminated(a) && Terminated(b)
    ensures Content(a) == Content(b) <==> a[..StrLen(a) + 1] == b[..StrLen(b) + 1]
  {
    var ca, cb := Content(a), Content(b);
    if a[..StrLen(a) + 1] == b[..StrLen(b) + 1] {
      assert ca == a[..StrLen(a) + 1][..|ca|];
      assert cb == b[..StrLen(b) + 1][..|cb|];
    }
  }

  /** `strcmp` reports equality exactly when the two strings have the same
      contents, that is the same bytes up to and including their terminators. */
  lemma {:induction false} StrCmpZeroIff(a: seq<byte>, b: seq<byte>)
    requires Terminated(a) && Terminated(b)
    ensures StrCmp(a, b) == 0 <==> Content(a) == Content(b)
    ensures StrCmp(a, b) == 0 <==> a[..StrLen(a) + 1] == b[..StrLen(b) + 1]
  {
    var ca, cb := Content(a), Content(b);
    if a[0] != 0 && a[0] == b[0] {
      StrCmpZeroIff(a[1..], b[1..]);
      assert ca == [a[0]] + Content(a[1..]);
      assert cb == [b[0]] + Content(b[1..]);
    } else if a[0] == 0 {
      assert ca == [];
      if b[0] != 0 {
        assert cb[0] == b[0];
      }
    } else {
      assert ca[0] == a[0];
    }
    ContentEqIff(a, b);
  }

  /** Every string compares equal to itself. */
  lemma StrCmpReflexive(a: seq<byte>)
    requires Terminated(a)
    ensures StrCmp(a, a) == 0
  {
    StrCmpZeroIff(a, a);
  }

  /** Swapping the operands negates the result: the exact-difference return
      makes `strcmp` antisymmetric, not only in sign. */
  lemma {:induction false} StrCmpAntisymmetric(a: seq<byte>, b: seq<byte>)
    requires Terminated(a) && Terminated(b)
    ensures StrCmp(a, b) == -StrCmp(b, a)
  {
    if a[0] != 0 && a[0] == b[0] {
      StrCmpAntisymmetric(a[1..], b[1..]);
    }
  }

  /** The sign of `strcmp` is the lexicographic order of the strings'
      contents, bytes read as unsigned values. */
  lemma {:induction false} StrCmpSign(a: seq<byte>, b: seq<byte>)
    requires Terminated(a) && Terminated(b)
    ensures StrCmp(a, b) < 0 <==> LexLess(Content(a), Content(b))
    ensures StrCmp(a, b) > 0 <==> LexLess(Content(b), Content(a))
  {
    var ca, cb := Content(a), Content(b);
    if a[0] != 0 && a[0] == b[0] {
      StrCmpSign(a[1..], b[1..]);
      assert ca == [a[0]] + Content(a[1..]);
      assert cb == [b[0]] + Content(b[1..]);
      assert ca[1..] == Content(a[1..]) && cb[1..] == Content(b[1..]);
    } else if a[0] == 0 {
      assert ca == [];
      if b[0] != 0 {
        assert cb[0] == b[0];
      }
    } else if b[0] == 0 {
      assert cb == [];
      assert ca[0] == a[0];
    } else {
      assert ca[0] == a[0] && cb[0] == b[0];
    }
  }

  /** A copy of the string at `b` up to and including its terminator is the
      same string: same length, and `strcmp` reports equality both ways. */
  lemma StrCopyAgrees(a: seq<byte>, b: seq<byte>)
    requires Terminated(b) && StrLen(b) < |a|
    requires a[..StrLen(b) + 1] == b[..StrLen(b) + 1]
    ensures Terminated(a) && StrLen(a) == StrLen(b)
    ensures StrCmp(a, b) == 0 && StrCmp(b, a) == 0
  {
    var n := StrLen(b);
    assert a[n] == a[..n + 1][n];
    forall i | 0 <= i < n
      ensures a[i] != 0
    {
      assert a[i] == a[..n + 1][i];
    }
    StrLenUnique(a, n);
    StrCmpZeroIff(a, b);
    StrCmpZeroIff(b, a);
  }

  /** Round trip of `strcpy` on whole memory states: when `after` is
      `before` with the string at `src` copied to `dest` (terminator
      included, nothing else changed, the two places disjoint), the copy has
      the original's length and `strcmp` finds the two equal. */
  lemma StrcpyRoundTrip(before: seq<byte>, after: seq<byte>, dest: nat, src: nat)
    requires src <= |before| && Terminated(before[src..]) && |after| == |before|
    requires dest + StrLen(before[src..]) + 1 <= |before|
    requires dest + StrLen(before[src..]) + 1 <= src || src + StrLen(before[src..]) + 1 <= dest
    requires forall j :: dest <= j <= dest + StrLen(before[src..]) ==> after[j] == before[src + (j - dest)]
    requires forall j :: 0 <= j < |before| && !(dest <= j <= dest + StrLen(before[src..])) ==> after[j] == before[j]
    ensures Terminated(after[dest..]) && Terminated(after[src..])
    ensures StrLen(after[dest..]) == StrLen(after[src..]) == StrLen(before[src..])
    ensures StrCmp(after[dest..], after[src..]) == 0
  {
    var n := StrLen(before[src..]);
    var a, b, c := after[dest..], after[src..], before[src..];
    forall i | 0 <= i <= n
      ensures a[i] == c[i] && b[i] == c[i]
    {
      assert after[dest + i] == before[src + i];
      assert after[src + i] == before[src + i];
    }
    StrLenUnique(b, n);
    assert a[..n + 1] == b[..n + 1];
    StrCopyAgrees(a, b);
  }

  /** `strlen`: advances a cursor until it reads a zero byte and returns the
      distance travelled. */
  method Strlen(mem: array<byte>, str: nat) returns (n: nat)
    requires str <= mem.Length && Terminated(mem[str..])
    ensures n == StrLen(mem[str..])
  {
    var s := str;
    ghost var len := StrLen(mem[str..]);
    while mem[s] != 0
      invariant str <= s <= str + len
      invariant forall i :: str <= i < s ==> mem[i] != 0
      decreases str + len - s
    {
      assert mem[str..][s - str] == mem[s];
      s := s + 1;
    }
    n := s - str;
    StrLenUnique(mem[str..], n);
  }

  /** `strnlen`: counts up to `maxLen`, leaving the loop early at a zero byte. */
  method Strnlen(mem: array<byte>, str: nat, maxLen: nat) returns (i: nat)
    requires str <= mem.Length
    requires str + maxLen <= mem.Length || Terminated(mem[str..])
    ensures i == StrNLen(mem[str..], maxLen)
  {
    i := 0;
    while i < maxLen
      invariant i <= maxLen && str + i <= mem.Length
      invariant forall j :: str <= j < str + i ==> mem[j] != 0
      invariant Terminated(mem[str..]) ==> i <= StrLen(mem[str..])
    {
      if mem[str + i] == 0 {
        break;
      }
      i := i + 1;
    }
    ghost var s := mem[str..];
    assert forall j :: 0 <= j < i ==> s[j] == mem[str + j];
    if i < maxLen {
      assert s[i] == 0;
      StrLenUnique(s, i);
    }
  }

  /** `strcpy`: copies the string at `src` to `dest` byte by byte, the
      terminator included, and returns `dest`. The header asks for room for
      `StrLen + 1` bytes at `dest`; the two strings must not overlap. Every
      byte outside the copied string's new home keeps its value, the source
      string included. */
  method Strcpy(mem: array<byte>, dest: nat, src: nat) returns (r: nat)
    requires src <= mem.Length && Terminated(mem[src..])
    requires dest + StrLen(mem[src..]) + 1 <= mem.Length
    requires dest + StrLen(mem[src..]) + 1 <= src || src + StrLen(mem[src..]) + 1 <= dest
    modifies mem
    ensures r == dest
    ensures forall j :: dest <= j <= dest + StrLen(old(mem[src..])) ==> mem[j] == old(mem[src + (j - dest)])
    ensures forall j :: 0 <= j < mem.Length && !(dest <= j <= dest + StrLen(old(mem[src..]))) ==> mem[j] == old(mem[j])
  {
    ghost var n := StrLen(mem[src..]);
    var d, s := dest, src;
    while true
      invariant d - dest == s - src <= n
      invariant forall j :: dest <= j < d ==> mem[j] == old(mem[src + (j - dest)])
      invariant forall j :: 0 <= j < mem.Length && !(dest <= j < d) ==> mem[j] == old(mem[j])
      decreases n - (s - src)
    {
      var c := mem[s];
      assert c == old(mem[src..])[s - src];
      mem[d] := c;
      d, s := d + 1, s + 1;
      if c == 0 {
        break;
      }
    }
    r := dest;
  }

  /** `strcmp`: walks both strings in lock-step and returns the difference
      of the stopping bytes, each widened from `unsigned char`. */
  method Strcmp(mem: array<byte>, lhs: nat, rhs: nat) returns (r: int)
    requires lhs <= mem.Length && rhs <= mem.Length
    requires Terminated(mem[lhs..]) && Terminated(mem[rhs..])
    ensures r == StrCmp(mem[lhs..], mem[rhs..])
  {
    var l, rr := lhs, rhs;
    while mem[l] != 0 && mem[l] == mem[rr]
      invariant lhs <= l <= mem.Length && rhs <= rr <= mem.Length
      invariant Terminated(mem[l..]) && Terminated(mem[rr..])
      invariant StrCmp(mem[lhs..], mem[rhs..]) == StrCmp(mem[l..], mem[rr..])
      decreases StrLen(mem[l..])
    {
      assert mem[l..][1..] == mem[l + 1..] && mem[rr..][1..] == mem[rr + 1..];
      l, rr := l + 1, rr + 1;
    }
    r := mem[l] as int - mem[rr] as int;
  }
}
