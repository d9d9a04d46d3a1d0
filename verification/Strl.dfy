/** `strlcpy` and `strlcat`: bounded copies into a buffer, and what the two together leave in it. */
module Strl {
  import opened Common

  /** The length of the string at the start of `s`. */
  function StrLen(s: seq<char>): (n: nat)
    requires '\0' in s
    ensures n < |s| && s[n] == '\0' && forall k :: 0 <= k < n ==> s[k] != '\0'
  {
    if s[0] == '\0' then 0 else 1 + StrLen(s[1..])
  }

  lemma LengthIs(s: seq<char>, n: nat)
    requires n < |s| && s[n] == '\0' && forall k :: 0 <= k < n ==> s[k] != '\0'
    ensures StrLen(s) == n
  {
    assert '\0' in s;
  }

  /** The characters of the string at the start of `s`. */
  function Str(s: seq<char>): (r: seq<char>)
    requires '\0' in s
    ensures '\0' !in r
  {
    s[..StrLen(s)]
  }

  /** The buffer `d` with `x` and a terminator written at `at`. */
  function Written(d: seq<char>, at: nat, x: seq<char>): (d': seq<char>)
    requires at + |x| < |d|
    ensures |d'| == |d|
  {
    d[..at] + x + ['\0'] + d[at + |x| + 1..]
  }

  /** What `strlcpy` leaves in the buffer: as much of the string as fits in `n` with a terminator. */
  function Copied(d: seq<char>, src: seq<char>, n: nat): (d': seq<char>)
    requires n <= |d| && '\0' in src
    ensures |d'| == |d|
  {
    if n == 0 then d else Written(d, 0, Str(src)[..Min(StrLen(src), n - 1)])
  }

  /** The length `strlcat` takes the buffer's string to have. */
  function Bounded(d: seq<char>, n: nat): (k: nat)
    requires n <= |d|
    ensures k <= n
  {
    if '\0' in d[..n] then StrLen(d[..n]) else n
  }

  function Catted(d: seq<char>, src: seq<char>, n: nat): (d': seq<char>)
    requires n <= |d| && '\0' in src
    ensures |d'| == |d|
  {
    var k := Bounded(d, n);
    if k == n then d else Written(d, k, Str(src)[..Min(StrLen(src), n - k - 1)])
  }

  lemma WrittenIs(d: seq<char>, at: nat, x: seq<char>, e: seq<char>)
    requires at + |x| < |d| == |e|
    requires forall k :: 0 <= k < |x| ==> e[at + k] == x[k]
    requires e[at + |x|] == '\0'
    requires forall k :: 0 <= k < |d| && !(at <= k <= at + |x|) ==> e[k] == d[k]
    ensures e == Written(d, at, x)
  {
    var w := Written(d, at, x);
    forall k | 0 <= k < |d| ensures e[k] == w[k] {
      if at <= k < at + |x| {
        assert e[at + (k - at)] == x[k - at];
      }
    }
  }

  /** The first loop of `strlcpy`: copies until the terminator is copied or one place is left. */
  method CopyFront(dst: array<char>, src: seq<char>, dsize: nat, ghost len: nat) returns (s: nat, nleft: nat)
    requires 0 < dsize <= dst.Length && len < |src|
    requires src[len] == '\0' && forall k :: 0 <= k < len ==> src[k] != '\0'
    modifies dst
    ensures if nleft == 0 then s == dsize - 1 <= len else s == len + 1 < dsize
    ensures forall k :: 0 <= k < s ==> dst[k] == src[k]
    ensures forall k :: s <= k < dst.Length ==> dst[k] == old(dst[k])
  {
    s := 0;
    nleft := dsize - 1;
    while nleft != 0
      invariant 0 <= nleft && nleft + s == dsize - 1 && s <= len
      invariant forall k :: 0 <= k < s ==> dst[k] == src[k]
      invariant forall k :: s <= k < dst.Length ==> dst[k] == old(dst[k])
      decreases nleft
    {
      dst[s] := src[s];
      s := s + 1;
      if dst[s - 1] == '\0' {
        return;
      }
      nleft := nleft - 1;
    }
  }

  /** The last loop of `strlcpy`: walks past the terminator. */
  method ScanOn(src: seq<char>, from: nat, ghost len: nat) returns (s: nat)
    requires from <= len < |src| && src[len] == '\0' && forall k :: 0 <= k < len ==> src[k] != '\0'
    ensures s == len + 1
  {
    s := from;
    while src[s] != '\0'
      invariant from <= s <= len
      decreases len - s
    {
      s := s + 1;
    }
    s := s + 1;
  }

  /** `strlcpy`: the source is a terminated string that the destination does not overlap. */
  method StrlCpy(dst: array<char>, src: seq<char>, dsize: nat) returns (r: nat)
    requires dsize <= dst.Length && '\0' in src
    modifies dst
    ensures dst[..] == Copied(old(dst[..]), src, dsize)
    ensures r == StrLen(src)
  {
    ghost var len, d0 := StrLen(src), dst[..];
    var s, nleft := 0, dsize;
    if nleft != 0 {
      s, nleft := CopyFront(dst, src, dsize, len);
    }
    if nleft == 0 {
      if dsize != 0 {
        dst[s] := '\0';
      }
      CopiedIs(d0, src, dsize, s, dst[..]);
      s := ScanOn(src, s, len);
    } else {
      CopiedIs(d0, src, dsize, len, dst[..]);
    }
    return s - 1;
  }

  /** `k` characters and a terminator, if there is room for anything, are what `strlcpy` leaves. */
  lemma CopiedIs(d: seq<char>, src: seq<char>, n: nat, k: nat, e: seq<char>)
    requires n <= |d| == |e| && '\0' in src && k == if n == 0 then 0 else Min(StrLen(src), n - 1)
    requires forall i :: 0 <= i < k ==> e[i] == src[i]
    requires n > 0 ==> e[k] == '\0'
    requires forall i :: (if n == 0 then 0 else k + 1) <= i < |d| ==> e[i] == d[i]
    ensures e == Copied(d, src, n)
  {
    if n > 0 {
      WrittenIs(d, 0, Str(src)[..k], e);
    }
  }

  /** The first loop of `strlcat`: the end of the buffer's string, or the bound. */
  method Skip(dst: array<char>, dsize: nat) returns (d: nat)
    requires dsize <= dst.Length
    ensures d == Bounded(dst[..], dsize)
  {
    d := 0;
    var n := dsize;
    while n != 0 && dst[d] != '\0'
      invariant 0 <= n && n + d == dsize
      invariant forall k :: 0 <= k < d ==> dst[k] != '\0'
      decreases n
    {
      n, d := n - 1, d + 1;
    }
    if n != 0 {
      LengthIs(dst[..dsize], d);
    }
    assert dst[..][..dsize] == dst[..dsize];
  }

  /** The second loop of `strlcat`: copies what fits, walks the rest, and terminates. */
  method Append(dst: array<char>, at: nat, src: seq<char>, dsize: nat, ghost len: nat) returns (s: nat)
    requires at < dsize <= dst.Length && len < |src|
    requires src[len] == '\0' && forall k :: 0 <= k < len ==> src[k] != '\0'
    modifies dst
    ensures s == len
    ensures var room := Min(len, dsize - at - 1);
            && (forall k :: 0 <= k < room ==> dst[at + k] == src[k]) && dst[at + room] == '\0'
            && (forall k :: 0 <= k < dst.Length && !(at <= k <= at + room) ==> dst[k] == old(dst[k]))
  {
    var d, n := at, dsize - at - 1;
    s := 0;
    while src[s] != '\0'
      invariant 0 <= s <= len && d == at + Min(s, dsize - at - 1) && n == dsize - d - 1
      invariant forall k :: 0 <= k < d - at ==> dst[at + k] == src[k]
      invariant forall k :: 0 <= k < dst.Length && !(at <= k < d) ==> dst[k] == old(dst[k])
      decreases len - s
    {
      if n != 0 {
        dst[d] := src[s];
        d := d + 1;
        n := n - 1;
      }
      s := s + 1;
    }
    dst[d] := '\0';
  }

  /** `strlcat`. */
  method StrlCat(dst: array<char>, src: seq<char>, dsize: nat) returns (r: nat)
    requires dsize <= dst.Length && '\0' in src
    modifies dst
    ensures dst[..] == Catted(old(dst[..]), src, dsize)
    ensures r == Bounded(old(dst[..]), dsize) + StrLen(src)
  {
    ghost var d0 := dst[..];
    var dlen := Skip(dst, dsize);
    if dlen == dsize {
      return dlen + StrLen(src);
    }
    var len := Append(dst, dlen, src, dsize, StrLen(src));
    WrittenIs(d0, dlen, Str(src)[..Min(len, dsize - dlen - 1)], dst[..]);
    return dlen + len;
  }

  // ----- the two together

  lemma WrittenString(d: seq<char>, x: seq<char>, y: seq<char>, n: nat)
    requires |x| + |y| < n <= |d| && d[..|x|] == x && '\0' !in x && '\0' !in y
    ensures var e := Written(d, |x|, y);
            && e[..|x| + |y|] == x + y && e[|x| + |y|] == '\0' && e[n..] == d[n..]
            && '\0' in e[..n] && Str(e[..n]) == x + y && Bounded(e, n) == StrLen(e) == |x| + |y|
  {
    var e := Written(d, |x|, y);
    TerminatedBy(e, x + y, n);
  }

  /** A buffer that starts with `z` and a terminator holds the string `z`. */
  lemma TerminatedBy(e: seq<char>, z: seq<char>, n: nat)
    requires |z| < n <= |e| && e[..|z|] == z && e[|z|] == '\0' && '\0' !in z
    ensures '\0' in e[..n] && '\0' in e && Str(e[..n]) == z && Bounded(e, n) == StrLen(e) == |z|
  {
    assert forall k :: 0 <= k < |z| ==> e[k] == z[k];
    assert e[..n][|z|] == '\0';
    LengthIs(e, |z|);
    LengthIs(e[..n], |z|);
    assert e[..n][..|z|] == z;
  }

  /** Cutting the first string, then the second in what room is left, is cutting their concatenation. */
  lemma CutTwice(a: seq<char>, b: seq<char>, n: nat)
    requires 0 < n
    ensures var x := Cut(a, n); x + b[..Min(|b|, n - 1 - |x|)] == Cut(a + b, n)
  {
  }

  /** After the copy the buffer holds the cut of `a`. */
  lemma CopyLeaves(d: seq<char>, a: seq<char>, n: nat)
    requires 0 < n <= |d| && '\0' in a
    ensures var d1, x := Copied(d, a, n), Cut(Str(a), n);
            && |x| < n && d1[..|x|] == x && '\0' in d1 && d1[n..] == d[n..]
            && Bounded(d1, n) == StrLen(d1) == |x|
  {
    var x := Cut(Str(a), n);
    assert [] + x == x;
    WrittenString(d, [], x, n);
  }

  /** What fits in `n` characters with a terminator. */
  function Cut(s: seq<char>, n: nat): (r: seq<char>)
    requires n > 0
  {
    s[..Min(|s|, n - 1)]
  }

  /** Copying `a` and then appending `b` leaves the first `n - 1` characters of `a + b`, terminated, and
      nothing at or beyond `n` changed; and some return value reaches `n` exactly when characters were lost. */
  lemma CopyThenAppend(d: seq<char>, a: seq<char>, b: seq<char>, n: nat)
    requires 0 < n <= |d| && '\0' in a && '\0' in b
    ensures var d1, all := Copied(d, a, n), Str(a) + Str(b);
            var d2 := Catted(d1, b, n);
            '\0' in d2[..n] && Str(d2[..n]) == Cut(all, n) && d2[n..] == d[n..]
    ensures var d1, all := Copied(d, a, n), Str(a) + Str(b);
            var r1, r2 := StrLen(a), Bounded(d1, n) + StrLen(b);
            && '\0' in d1 && r2 == Min(n, StrLen(d1)) + StrLen(b)
            && (r1 >= n || r2 >= n <==> Cut(all, n) != all)
  {
    var x := Cut(Str(a), n);
    CopyLeaves(d, a, n);
    WrittenString(Copied(d, a, n), x, Str(b)[..Min(StrLen(b), n - 1 - |x|)], n);
    CutTwice(Str(a), Str(b), n);
  }

  /** The two routines one after the other on one buffer. */
  method CopyAndAppend(dst: array<char>, a: seq<char>, b: seq<char>, n: nat) returns (truncated: bool)
    requires 0 < n <= dst.Length && '\0' in a && '\0' in b
    modifies dst
    ensures '\0' in dst[..n] && Str(dst[..n]) == Cut(Str(a) + Str(b), n)
    ensures dst[n..] == old(dst[n..])
    ensures truncated <==> Str(dst[..n]) != Str(a) + Str(b)
  {
    CopyThenAppend(dst[..], a, b, n);
    assert dst[..][n..] == dst[n..];
    var r1 := StrlCpy(dst, a, n);
    var r2 := StrlCat(dst, b, n);
    assert dst[..][n..] == dst[n..] && dst[..][..n] == dst[..n];
    return r1 >= n || r2 >= n;
  }
}
