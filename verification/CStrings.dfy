/** The freestanding string functions the driver uses.  Memory is an array of bytes with an offset
    where C has a pointer; a C string is the bytes in front of its terminator. */
module CStrings {
  import opened Bytes

  type CString = s: seq<byte> | 0 !in s witness []

  /** What a C program reads at index i: the terminator stands behind the last byte. */
  function CharAt(s: CString, i: nat): (c: byte)
    requires i <= |s|
    ensures c == 0 <==> i == |s|
  {
    if i < |s| then s[i] else 0
  }

  /** Position of the first c in s, or |s|. */
  function IndexOf(s: seq<byte>, c: byte): (i: nat)
    ensures i <= |s| && c !in s[..i]
    ensures i < |s| ==> s[i] == c
  {
    if s == [] || s[0] == c then 0
    else
      var i := IndexOf(s[1..], c) + 1;
      assert s[..i] == [s[0]] + s[1..][..i - 1];
      i
  }

  lemma {:induction false} IndexOfIs(s: seq<byte>, c: byte, i: nat)
    requires i <= |s| && c !in s[..i] && (i < |s| ==> s[i] == c)
    ensures IndexOf(s, c) == i
  {
    if s != [] && s[0] != c {
      assert s[..i] == [s[0]] + s[1..][..i - 1];
      IndexOfIs(s[1..], c, i - 1);
    }
  }

  method Memset(p: array<byte>, off: nat, c: byte, n: nat)
    requires off + n <= p.Length
    modifies p
    ensures forall i :: 0 <= i < p.Length ==> p[i] == if off <= i < off + n then c else old(p[i])
  {
    var k := 0;
    while k < n
      invariant k <= n
      invariant forall i :: 0 <= i < p.Length ==> p[i] == if off <= i < off + k then c else old(p[i])
    {
      p[off + k] := c;
      k := k + 1;
    }
  }

  /** The two windows do not overlap. */
  method Memcpy(dst: array<byte>, at: nat, src: array<byte>, off: nat, n: nat)
    requires at + n <= dst.Length && off + n <= src.Length
    requires dst != src || at + n <= off || off + n <= at
    modifies dst
    ensures forall i :: 0 <= i < dst.Length ==>
      dst[i] == if at <= i < at + n then old(src[off + i - at]) else old(dst[i])
  {
    var k := 0;
    while k < n
      invariant k <= n
      invariant forall i :: 0 <= i < dst.Length ==>
        dst[i] == if at <= i < at + k then old(src[off + i - at]) else old(dst[i])
    {
      dst[at + k] := src[off + k];
      k := k + 1;
    }
  }

  /** r is the difference of the first two bytes that differ. */
  ghost predicate DifferBy(a: seq<byte>, b: seq<byte>, r: int) {
    exists k :: FirstDifference(a, b, k, r)
  }

  ghost predicate FirstDifference(a: seq<byte>, b: seq<byte>, k: int, r: int) {
    0 <= k < |a| && k < |b| && a[..k] == b[..k] && a[k] != b[k] && r == a[k] as int - b[k] as int
  }

  method Memcmp(a: array<byte>, aOff: nat, b: array<byte>, bOff: nat, n: nat) returns (r: int)
    requires aOff + n <= a.Length && bOff + n <= b.Length
    ensures r == 0 <==> a[aOff..aOff + n] == b[bOff..bOff + n]
    ensures r != 0 ==> DifferBy(a[aOff..aOff + n], b[bOff..bOff + n], r)
  {
    ghost var s, t := a[aOff..aOff + n], b[bOff..bOff + n];
    var k := 0;
    while k < n
      invariant k <= n && s[..k] == t[..k]
    {
      assert s[k] == a[aOff + k] && t[k] == b[bOff + k];
      if a[aOff + k] != b[bOff + k] {
        r := a[aOff + k] as int - b[bOff + k] as int;
        assert FirstDifference(s, t, k, r);
        return r;
      }
      k := k + 1;
    }
    assert s[..n] == s && t[..n] == t;
    return 0;
  }

  method Strlen(s: CString) returns (n: nat)
    ensures n == |s|
  {
    n := 0;
    while CharAt(s, n) != 0
      invariant n <= |s|
      decreases |s| - n
    {
      n := n + 1;
    }
  }

  /** Index of the first c, where the terminator counts as a character; -1 stands for NULL. */
  method Strchr(s: CString, c: byte) returns (i: int)
    ensures i == if c in s then IndexOf(s, c) else if c == 0 then |s| else -1
  {
    i := 0;
    while true
      invariant 0 <= i <= |s| && c !in s[..i]
      decreases |s| - i
    {
      if CharAt(s, i) == c {
        if i < |s| {
          IndexOfIs(s, c, i);
        }
        return;
      }
      if CharAt(s, i) == 0 {
        assert s[..i] == s;
        return -1;
      }
      assert s[..i + 1] == s[..i] + [s[i]];
      i := i + 1;
    }
  }
}
