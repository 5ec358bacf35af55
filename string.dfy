/**
 * The kernel's freestanding C library (kernel/src/lib/string.c).
 *
 * Memory is one flat byte array `mem`; a pointer is an index into it and
 * the index 0 plays the part of NULL where a function tests for NULL.
 * A C string starting at `p` is the run of bytes up to the first NUL at or
 * after `p`.  Each function with a loop is a method proved against the
 * specification functions below.
 */
module Strings {
  import opened Kernel

  const NUL: u8 := 0

  /** There is a NUL at or after `p`: `p` points to a C string. */
  predicate Terminated(s: seq<u8>, p: nat) {
    exists k :: p <= k < |s| && s[k] == NUL
  }

  /** The index of the first NUL at or after `p`. */
  function NulFrom(s: seq<u8>, p: nat): (k: nat)
    requires Terminated(s, p)
    ensures p <= k < |s| && s[k] == NUL
    ensures forall j :: p <= j < k ==> s[j] != NUL
    decreases |s| - p
  {
    if s[p] == NUL then p
    else
      assert Terminated(s, p + 1) by {
        var k :| p <= k < |s| && s[k] == NUL;
        assert k != p;
      }
      NulFrom(s, p + 1)
  }

  /** The characters of the C string at `p`, without its terminator. */
  function CStr(s: seq<u8>, p: nat): (r: seq<u8>)
    requires Terminated(s, p)
    ensures NUL !in r
    ensures p + |r| == NulFrom(s, p)
    ensures r == s[p..NulFrom(s, p)]
  {
    s[p..NulFrom(s, p)]
  }

  /** A position inside a string is itself the start of a string with the same terminator. */
  lemma NulFromInside(s: seq<u8>, p: nat, q: nat)
    requires Terminated(s, p) && p <= q <= NulFrom(s, p)
    ensures Terminated(s, q) && NulFrom(s, q) == NulFrom(s, p)
  {
    assert s[NulFrom(s, p)] == NUL;
  }

  /** A NUL-free run followed by a NUL is the string at its start. */
  lemma CStrOf(s: seq<u8>, p: nat, q: nat)
    requires p <= q < |s| && s[q] == NUL
    requires forall k :: p <= k < q ==> s[k] != NUL
    ensures Terminated(s, p) && NulFrom(s, p) == q && CStr(s, p) == s[p..q]
  {
    assert s[q] == NUL;
  }

  /** The first byte of `w`, or NUL when `w` is empty: what C reads at a string's end. */
  function Head0(w: seq<u8>): u8 {
    if |w| == 0 then NUL else w[0]
  }

  lemma CStrAt(s: seq<u8>, p: nat, i: nat)
    requires Terminated(s, p) && i <= |CStr(s, p)|
    ensures p + i < |s| && s[p + i] == Head0(CStr(s, p)[i..])
  {
  }

  /** The signed `char` of the i686 ABI that holds byte `b`. */
  function AsChar(b: u8): (c: int)
    ensures -128 <= c < 128
    ensures Wrap8(c) == b
  {
    if b < 128 then b as int else b as int - 256
  }

  lemma AsCharInjective(a: u8, b: u8)
    ensures AsChar(a) == AsChar(b) <==> a == b
  {
    assert Wrap8(AsChar(a)) == a && Wrap8(AsChar(b)) == b;
  }

  // ---------------------------------------------------------------- strlen

  /** strlen: the number of characters before the first NUL. */
  method Strlen(mem: array<u8>, str: nat) returns (len: nat)
    requires Terminated(mem[..], str)
    ensures len == |CStr(mem[..], str)|
    ensures str + len == NulFrom(mem[..], str)
  {
    var i := str;
    while mem[i] != NUL
      invariant str <= i <= NulFrom(mem[..], str)
      decreases NulFrom(mem[..], str) - i
    {
      i := i + 1;
    }
    len := i - str;
  }

  // ------------------------------------------------------- memcpy / memset

  /**
   * The memory after the byte loop of memcpy has run `n` steps: step `i`
   * stores the byte then at `src + i` into `dest + i`, so a later step
   * reads what an earlier step may have written.
   */
  function CopyForward(s: seq<u8>, dest: nat, src: nat, n: nat): (r: seq<u8>)
    requires dest + n <= |s| && src + n <= |s|
    ensures |r| == |s|
  {
    if n == 0 then s
    else
      var t := CopyForward(s, dest, src, n - 1);
      t[dest + n - 1 := t[src + n - 1]]
  }

  /**
   * When the destination does not start inside the source, the forward copy
   * moves the source bytes verbatim and touches nothing else.
   */
  lemma {:induction false} CopyForwardCopies(s: seq<u8>, dest: nat, src: nat, n: nat)
    requires dest + n <= |s| && src + n <= |s|
    requires dest <= src || src + n <= dest
    ensures forall k :: dest <= k < dest + n ==> CopyForward(s, dest, src, n)[k] == s[k - dest + src]
    ensures forall k :: 0 <= k < |s| && !(dest <= k < dest + n) ==> CopyForward(s, dest, src, n)[k] == s[k]
  {
    if n > 0 {
      CopyForwardCopies(s, dest, src, n - 1);
      var t := CopyForward(s, dest, src, n - 1);
      assert t[src + n - 1] == s[src + n - 1];
    }
  }

  /** Whatever the overlap, the forward copy changes no byte outside the destination. */
  lemma {:induction false} CopyForwardKeepsOutside(s: seq<u8>, dest: nat, src: nat, n: nat)
    requires dest + n <= |s| && src + n <= |s|
    ensures forall k :: 0 <= k < |s| && !(dest <= k < dest + n) ==> CopyForward(s, dest, src, n)[k] == s[k]
  {
    if n > 0 {
      CopyForwardKeepsOutside(s, dest, src, n - 1);
    }
  }

  /** The same, stated on the two ranges. */
  lemma CopyForwardMoves(s: seq<u8>, dest: nat, src: nat, n: nat)
    requires dest + n <= |s| && src + n <= |s|
    requires dest <= src || src + n <= dest
    ensures CopyForward(s, dest, src, n)[dest..dest + n] == s[src..src + n]
    ensures CopyForward(s, dest, src, n)[..dest] == s[..dest]
    ensures CopyForward(s, dest, src, n)[dest + n..] == s[dest + n..]
  {
    CopyForwardCopies(s, dest, src, n);
  }

  /** memcpy: copies `n` bytes forwards, one at a time, and returns `dest`. */
  method Memcpy(mem: array<u8>, dest: nat, src: nat, n: nat) returns (r: nat)
    requires dest + n <= mem.Length && src + n <= mem.Length
    modifies mem
    ensures r == dest
    ensures mem[..] == CopyForward(old(mem[..]), dest, src, n)
  {
    var i := 0;
    while i < n
      invariant 0 <= i <= n
      invariant mem[..] == CopyForward(old(mem[..]), dest, src, i)
    {
      mem[dest + i] := mem[src + i];
      i := i + 1;
    }
    r := dest;
  }

  /** memset: the first `n` bytes become `(uint8_t)c`; no other byte changes. */
  method Memset(mem: array<u8>, s: nat, c: int, n: nat) returns (r: nat)
    requires s + n <= mem.Length
    modifies mem
    ensures r == s
    ensures forall k :: 0 <= k < mem.Length ==>
              mem[k] == (if s <= k < s + n then Wrap8(c) else old(mem[k]))
  {
    var i := 0;
    while i < n
      invariant 0 <= i <= n
      invariant forall k :: 0 <= k < mem.Length ==>
                  mem[k] == (if s <= k < s + i then Wrap8(c) else old(mem[k]))
    {
      mem[s + i] := Wrap8(c);
      i := i + 1;
    }
    r := s;
  }

  // --------------------------------------------------------------- memmove

  /**
   * memmove: afterwards `dest[0..n)` holds what `src[0..n)` held before,
   * even when the regions overlap; it copies forwards when `src > dest`,
   * backwards when `src < dest`, and not at all when they are equal.
   */
  method Memmove(mem: array<u8>, dest: nat, src: nat, n: nat) returns (r: nat)
    requires dest + n <= mem.Length && src + n <= mem.Length
    modifies mem
    ensures r == dest
    ensures mem[dest..dest + n] == old(mem[src..src + n])
    ensures forall k :: 0 <= k < mem.Length && !(dest <= k < dest + n) ==> mem[k] == old(mem[k])
  {
    if src > dest {
      var i := 0;
      while i < n
        invariant 0 <= i <= n
        invariant forall k :: dest <= k < dest + i ==> mem[k] == old(mem[k - dest + src])
        invariant forall k :: 0 <= k < mem.Length && !(dest <= k < dest + i) ==> mem[k] == old(mem[k])
      {
        mem[dest + i] := mem[src + i];
        i := i + 1;
      }
    } else if src < dest {
      var i := n;
      while i > 0
        invariant 0 <= i <= n
        invariant forall k :: dest + i <= k < dest + n ==> mem[k] == old(mem[k - dest + src])
        invariant forall k :: 0 <= k < mem.Length && !(dest + i <= k < dest + n) ==> mem[k] == old(mem[k])
      {
        mem[dest + i - 1] := mem[src + i - 1];
        i := i - 1;
      }
    }
    r := dest;
  }

  // ---------------------------------------------------------------- memcmp

  /** memcmp on the two ranges as values: the sign of the first difference. */
  function Compare(a: seq<u8>, b: seq<u8>): (r: int)
    requires |a| == |b|
    ensures r == 0 || r == -1 || r == 1
    decreases |a|
  {
    if |a| == 0 then 0
    else if a[0] != b[0] then (if a[0] < b[0] then -1 else 1)
    else Compare(a[1..], b[1..])
  }

  /**
   * memcmp is 0 exactly when the two ranges hold the same bytes; otherwise
   * it is -1 or 1 as the first differing byte, read unsigned, is smaller or
   * larger.
   */
  lemma {:induction false} CompareSpec(a: seq<u8>, b: seq<u8>)
    requires |a| == |b|
    ensures Compare(a, b) == 0 <==> a == b
    ensures Compare(a, b) != 0 ==>
              exists k :: 0 <= k < |a| && a[..k] == b[..k] && a[k] != b[k]
                && (Compare(a, b) == -1 <==> a[k] < b[k])
    decreases |a|
  {
    if |a| > 0 {
      if a[0] != b[0] {
        assert a[..0] == b[..0];
      } else {
        CompareSpec(a[1..], b[1..]);
        assert a == [a[0]] + a[1..] && b == [b[0]] + b[1..];
        if Compare(a, b) != 0 {
          var k :| 0 <= k < |a| - 1 && a[1..][..k] == b[1..][..k] && a[1..][k] != b[1..][k]
                   && (Compare(a[1..], b[1..]) == -1 <==> a[1..][k] < b[1..][k]);
          assert a[..k + 1] == [a[0]] + a[1..][..k];
          assert b[..k + 1] == [b[0]] + b[1..][..k];
          assert a[k + 1] == a[1..][k] && b[k + 1] == b[1..][k];
        }
      }
    }
  }

  /** Comparing from byte `i` on decides at byte `i` or moves past it. */
  lemma {:induction false} CompareAt(a: seq<u8>, b: seq<u8>, i: nat)
    requires |a| == |b| && i < |a|
    ensures Compare(a[i..], b[i..]) == if a[i] != b[i] then (if a[i] < b[i] then -1 else 1) else Compare(a[i + 1..], b[i + 1..])
  {
    assert a[i..][1..] == a[i + 1..] && b[i..][1..] == b[i + 1..];
  }

  /** memcmp compares the ranges byte by byte as unsigned values. */
  method Memcmp(mem: array<u8>, s1: nat, s2: nat, n: nat) returns (r: int)
    requires s1 + n <= mem.Length && s2 + n <= mem.Length
    ensures r == Compare(mem[s1..s1 + n], mem[s2..s2 + n])
    ensures r == 0 <==> mem[s1..s1 + n] == mem[s2..s2 + n]
  {
    ghost var a, b := mem[s1..s1 + n], mem[s2..s2 + n];
    assert Compare(a, b) == 0 <==> a == b by {
      CompareSpec(a, b);
    }
    var i := 0;
    while i < n
      invariant 0 <= i <= n
      invariant Compare(a, b) == Compare(a[i..], b[i..])
    {
      assert a[i] == mem[s1 + i] && b[i] == mem[s2 + i];
      CompareAt(a, b, i);
      if mem[s1 + i] != mem[s2 + i] {
        return if mem[s1 + i] < mem[s2 + i] then -1 else 1;
      }
      i := i + 1;
    }
    return 0;
  }

  // ---------------------------------------------------------------- memchr

  /** memchr: the first of the `n` bytes at `s` equal to `c`, or NULL. */
  method Memchr(mem: array<u8>, s: nat, c: u8, n: nat) returns (r: Option<nat>)
    requires s + n <= mem.Length
    ensures r.Some? ==> s <= r.value < s + n && mem[r.value] == c
                        && forall j :: s <= j < r.value ==> mem[j] != c
    ensures r.None? <==> forall j :: s <= j < s + n ==> mem[j] != c
  {
    if n != 0 {
      var p := s;
      var left := n;
      while true
        invariant s <= p && p + left == s + n && 0 < left
        invariant forall j :: s <= j < p ==> mem[j] != c
        decreases left
      {
        p := p + 1;
        if mem[p - 1] == c {
          return Some(p - 1);
        }
        left := left - 1;
        if left == 0 {
          break;
        }
      }
    }
    return None;
  }

  // ------------------------------------------------------ strcmp / strncmp

  /**
   * strcmp on the characters of two strings, each read as followed by its
   * terminator: the unsigned difference at the first mismatch, or at the
   * end of the first string.
   */
  function StrDiff(a: seq<u8>, b: seq<u8>): int
    decreases |a|
  {
    if |a| == 0 || |b| == 0 || a[0] != b[0] then Head0(a) as int - Head0(b) as int
    else StrDiff(a[1..], b[1..])
  }

  /** strcmp is 0 exactly when the two strings are equal. */
  lemma {:induction false} StrDiffZero(a: seq<u8>, b: seq<u8>)
    requires NUL !in a && NUL !in b
    ensures StrDiff(a, b) == 0 <==> a == b
    decreases |a|
  {
    if |a| > 0 && |b| > 0 && a[0] == b[0] {
      StrDiffZero(a[1..], b[1..]);
      assert a == [a[0]] + a[1..] && b == [b[0]] + b[1..];
    } else if |a| > 0 {
      assert a[0] != NUL;
    } else if |b| > 0 {
      assert b[0] != NUL;
    }
  }

  /** strcmp: the unsigned difference at the first mismatch or terminator. */
  method Strcmp(mem: array<u8>, s1: nat, s2: nat) returns (r: int)
    requires Terminated(mem[..], s1) && Terminated(mem[..], s2)
    ensures r == StrDiff(CStr(mem[..], s1), CStr(mem[..], s2))
    ensures r == 0 <==> CStr(mem[..], s1) == CStr(mem[..], s2)
  {
    ghost var a, b := CStr(mem[..], s1), CStr(mem[..], s2);
    StrDiffZero(a, b);
    var i := 0;
    CStrAt(mem[..], s1, 0);
    CStrAt(mem[..], s2, 0);
    while mem[s1 + i] != NUL && mem[s1 + i] == mem[s2 + i]
      invariant i <= |a| && i <= |b|
      invariant mem[s1 + i] == Head0(a[i..]) && mem[s2 + i] == Head0(b[i..])
      invariant StrDiff(a, b) == StrDiff(a[i..], b[i..])
      decreases |a| - i
    {
      assert a[i..][1..] == a[i + 1..] && b[i..][1..] == b[i + 1..];
      i := i + 1;
      CStrAt(mem[..], s1, i);
      CStrAt(mem[..], s2, i);
    }
    r := mem[s1 + i] as int - mem[s2 + i] as int;
  }

  /** The first `n` characters of `w`, or all of them if it is shorter. */
  function Take(w: seq<u8>, n: nat): (r: seq<u8>)
    ensures |r| <= n && r <= w
  {
    if n <= |w| then w[..n] else w
  }

  /** strncmp on the characters of two strings: as strcmp, but stopping after `n` steps. */
  function StrnDiff(a: seq<u8>, b: seq<u8>, n: nat): int
    decreases n
  {
    if n == 0 then 0
    else if |a| == 0 || |b| == 0 || a[0] != b[0] then Head0(a) as int - Head0(b) as int
    else StrnDiff(a[1..], b[1..], n - 1)
  }

  /** strncmp is 0 exactly when the strings agree on their first `n` characters. */
  lemma {:induction false} StrnDiffZero(a: seq<u8>, b: seq<u8>, n: nat)
    requires NUL !in a && NUL !in b
    ensures StrnDiff(a, b, n) == 0 <==> Take(a, n) == Take(b, n)
    decreases n
  {
    if n > 0 {
      if |a| > 0 && |b| > 0 && a[0] == b[0] {
        StrnDiffZero(a[1..], b[1..], n - 1);
        TakeCons(a, n);
        TakeCons(b, n);
      } else if |a| > 0 {
        assert a[0] != NUL;
        TakeCons(a, n);
        if |b| > 0 {
          TakeCons(b, n);
        }
      } else if |b| > 0 {
        assert b[0] != NUL;
        TakeCons(b, n);
      }
    }
  }

  /** The first `n` characters are the first one and then `n - 1` more. */
  lemma TakeCons(a: seq<u8>, n: nat)
    requires |a| > 0 && n > 0
    ensures Take(a, n) == [a[0]] + Take(a[1..], n - 1)
  {
  }

  /** strncmp compares at most `n` characters. */
  method Strncmp(mem: array<u8>, s1: nat, s2: nat, n: nat) returns (r: int)
    requires Terminated(mem[..], s1) && Terminated(mem[..], s2)
    ensures r == StrnDiff(CStr(mem[..], s1), CStr(mem[..], s2), n)
    ensures r == 0 <==> Take(CStr(mem[..], s1), n) == Take(CStr(mem[..], s2), n)
  {
    ghost var a, b := CStr(mem[..], s1), CStr(mem[..], s2);
    StrnDiffZero(a, b, n);
    if n == 0 {
      return 0;
    }
    var i := 0;
    var left := n;
    CStrAt(mem[..], s1, 0);
    CStrAt(mem[..], s2, 0);
    while true
      invariant 0 < left && i + left == n && i <= |a| && i <= |b|
      invariant mem[s1 + i] == Head0(a[i..]) && mem[s2 + i] == Head0(b[i..])
      invariant StrnDiff(a, b, n) == StrnDiff(a[i..], b[i..], left)
      decreases left
    {
      if mem[s1 + i] != mem[s2 + i] {
        return mem[s1 + i] as int - mem[s2 + i] as int;
      }
      if mem[s1 + i] == NUL {
        break;
      }
      assert a[i..][1..] == a[i + 1..] && b[i..][1..] == b[i + 1..];
      i := i + 1;
      left := left - 1;
      if left == 0 {
        break;
      }
      CStrAt(mem[..], s1, i);
      CStrAt(mem[..], s2, i);
    }
    return 0;
  }

  // ---------------------------------------------------------------- strchr

  /**
   * strchr: the first position, the terminator included, whose `char`
   * equals `c`; NULL when there is none.
   */
  method Strchr(mem: array<u8>, s: nat, c: int) returns (r: Option<nat>)
    requires Terminated(mem[..], s)
    ensures r.Some? ==> s <= r.value <= NulFrom(mem[..], s) && AsChar(mem[r.value]) == c
                        && forall j :: s <= j < r.value ==> AsChar(mem[j]) != c
    ensures r.None? <==> forall j :: s <= j <= NulFrom(mem[..], s) ==> AsChar(mem[j]) != c
  {
    var p := s;
    while true
      invariant s <= p <= NulFrom(mem[..], s)
      invariant forall j :: s <= j < p ==> AsChar(mem[j]) != c
      decreases NulFrom(mem[..], s) - p
    {
      if AsChar(mem[p]) == c {
        return Some(p);
      }
      p := p + 1;
      if mem[p - 1] == NUL {
        break;
      }
    }
    return None;
  }

  /** strchr with a non-NUL byte of a string reports whether it occurs in the string. */
  lemma StrchrFinds(s: seq<u8>, p: nat, b: u8, r: Option<nat>)
    requires Terminated(s, p) && b != NUL
    requires r.Some? ==> p <= r.value <= NulFrom(s, p) && AsChar(s[r.value]) == AsChar(b)
    requires r.None? <==> forall j :: p <= j <= NulFrom(s, p) ==> AsChar(s[j]) != AsChar(b)
    ensures r.Some? <==> b in CStr(s, p)
  {
    var w := CStr(s, p);
    if b in w {
      var k :| 0 <= k < |w| && w[k] == b;
      assert s[p + k] == b;
    }
    if r.Some? {
      AsCharInjective(s[r.value], b);
      AsCharInjective(s[r.value], NUL);
      assert w[r.value - p] == b;
    }
  }

  // ------------------------------------------------------- strspn / strcspn

  /** The end of the longest run at `p` whose characters all occur in `chars`. */
  function SpanEnd(s: seq<u8>, p: nat, chars: seq<u8>): (r: nat)
    requires Terminated(s, p)
    ensures p <= r <= NulFrom(s, p)
    ensures forall j :: p <= j < r ==> s[j] in chars
    ensures r == NulFrom(s, p) || s[r] !in chars
    decreases NulFrom(s, p) - p
  {
    if s[p] == NUL || s[p] !in chars then p else SpanEnd(s, p + 1, chars)
  }

  /** The end of the longest run at `p` none of whose characters occur in `chars`. */
  function BreakEnd(s: seq<u8>, p: nat, chars: seq<u8>): (r: nat)
    requires Terminated(s, p)
    ensures p <= r <= NulFrom(s, p)
    ensures forall j :: p <= j < r ==> s[j] !in chars
    ensures r == NulFrom(s, p) || s[r] in chars
    decreases NulFrom(s, p) - p
  {
    if s[p] == NUL || s[p] in chars then p else BreakEnd(s, p + 1, chars)
  }

  /** The inner loop of strspn: whether byte `b` occurs in the string at `s2`. */
  method Accepts(mem: array<u8>, s2: nat, b: u8) returns (found: bool)
    requires Terminated(mem[..], s2)
    ensures found <==> b != NUL && b in CStr(mem[..], s2)
  {
    ghost var accept := CStr(mem[..], s2);
    var j := 0;
    while mem[s2 + j] != NUL
      invariant j <= |accept| && mem[s2 + j] == Head0(accept[j..])
      invariant b !in accept[..j]
      decreases |accept| - j
    {
      if b == mem[s2 + j] {
        assert accept[j] == b;
        return true;
      }
      assert accept[..j + 1] == accept[..j] + [accept[j]];
      j := j + 1;
    }
    assert accept[..j] == accept;
    return false;
  }

  /** strspn: the length of the longest prefix of `s1` made of characters of `s2`. */
  method Strspn(mem: array<u8>, s1: nat, s2: nat) returns (r: nat)
    requires Terminated(mem[..], s1) && Terminated(mem[..], s2)
    ensures s1 + r == SpanEnd(mem[..], s1, CStr(mem[..], s2))
  {
    ghost var m := mem[..];
    ghost var accept := CStr(m, s2);
    var i := 0;
    while mem[s1 + i] != NUL
      invariant s1 + i <= NulFrom(m, s1)
      invariant SpanEnd(m, s1, accept) == SpanEnd(m, s1 + i, accept)
      decreases NulFrom(m, s1) - (s1 + i)
    {
      var found := Accepts(mem, s2, mem[s1 + i]);
      if !found {
        return i;
      }
      i := i + 1;
    }
    return i;
  }

  /** strcspn's test of one character: strchr on the reject string finds the non-NUL byte `b`. */
  method Occurs(mem: array<u8>, s2: nat, b: u8) returns (found: bool)
    requires Terminated(mem[..], s2) && b != NUL
    ensures found <==> b in CStr(mem[..], s2)
  {
    var r := Strchr(mem, s2, AsChar(b));
    StrchrFinds(mem[..], s2, b, r);
    found := r.Some?;
  }

  /** strcspn: 0 if either pointer is NULL, else the longest prefix free of `s2`'s characters. */
  method Strcspn(mem: array<u8>, s1: nat, s2: nat) returns (r: nat)
    requires s1 != 0 ==> Terminated(mem[..], s1)
    requires s2 != 0 ==> Terminated(mem[..], s2)
    ensures s1 == 0 || s2 == 0 ==> r == 0
    ensures s1 != 0 && s2 != 0 ==> s1 + r == BreakEnd(mem[..], s1, CStr(mem[..], s2))
  {
    if s1 == 0 || s2 == 0 {
      return 0;
    }
    ghost var m := mem[..];
    ghost var reject := CStr(m, s2);
    var p := s1;
    r := 0;
    while mem[p] != NUL
      invariant s1 <= p <= NulFrom(m, s1) && p == s1 + r
      invariant Terminated(m, p) && NulFrom(m, p) == NulFrom(m, s1)
      invariant BreakEnd(m, s1, reject) == BreakEnd(m, p, reject)
      decreases NulFrom(m, s1) - p
    {
      var found := Occurs(mem, s2, mem[p]);
      if found {
        return r;
      }
      NulFromInside(m, s1, p + 1);
      p := p + 1;
      r := r + 1;
    }
  }

  /** strpbrk: the first character of `s1` that occurs in `s2`, or NULL. */
  method Strpbrk(mem: array<u8>, s1: nat, s2: nat) returns (r: Option<nat>)
    requires s1 != 0 ==> Terminated(mem[..], s1)
    requires s2 != 0 ==> Terminated(mem[..], s2)
    ensures s1 == 0 || s2 == 0 ==> r.None?
    ensures s1 != 0 && s2 != 0 ==>
              var e := BreakEnd(mem[..], s1, CStr(mem[..], s2));
              r == if mem[e] == NUL then None else Some(e)
  {
    if s1 == 0 || s2 == 0 {
      return None;
    }
    ghost var reject := CStr(mem[..], s2);
    var p := s1;
    while mem[p] != NUL
      invariant s1 <= p <= NulFrom(mem[..], s1)
      invariant BreakEnd(mem[..], s1, reject) == BreakEnd(mem[..], p, reject)
      decreases NulFrom(mem[..], s1) - p
    {
      var found := Strchr(mem, s2, AsChar(mem[p]));
      StrchrFinds(mem[..], s2, mem[p], found);
      if found.Some? {
        return Some(p);
      }
      p := p + 1;
    }
    return None;
  }

  // ------------------------------------------ strcpy / strcat / strdup(n)

  /** Two byte ranges that do not overlap. */
  predicate Apart(a: nat, n: nat, b: nat, m: nat) {
    a + n <= b || b + m <= a
  }

  /**
   * The first `i` bytes of `w` have been stored at `at` in `m`, and every
   * other byte is as in `m0`.
   */
  ghost predicate PlacedUpTo(m: seq<u8>, m0: seq<u8>, at: nat, w: seq<u8>, i: nat)
    requires i <= |w|
  {
    |m| == |m0| && at + i <= |m|
    && (forall k :: at <= k < at + i ==> m[k] == w[k - at])
    && (forall k :: 0 <= k < |m| && !(at <= k < at + i) ==> m[k] == m0[k])
  }

  /** Storing the next byte of `w` extends the placed prefix by one. */
  lemma PlacedStep(m: seq<u8>, m1: seq<u8>, m0: seq<u8>, at: nat, w: seq<u8>, i: nat)
    requires i < |w| && PlacedUpTo(m, m0, at, w, i) && at + i < |m|
    requires m1 == m[at + i := w[i]]
    ensures PlacedUpTo(m1, m0, at, w, i + 1)
  {
  }

  /** Once a NUL-free `w` and its terminator are in place, `at` holds the string `w`. */
  lemma PlacedString(m: seq<u8>, m0: seq<u8>, at: nat, w: seq<u8>)
    requires NUL !in w
    requires PlacedUpTo(m, m0, at, w + [NUL], |w| + 1)
    ensures Terminated(m, at) && CStr(m, at) == w
    ensures m[at..at + |w| + 1] == w + [NUL]
  {
    assert m[at + |w|] == (w + [NUL])[|w|];
    forall k | at <= k < at + |w| ensures m[k] != NUL {
      assert m[k] == w[k - at];
    }
    CStrOf(m, at, at + |w|);
  }

  /**
   * The loop shared by strcpy, strcat and strdup: copy the characters of the
   * string at `src`, then its terminator, to `dest`.
   */
  method CopyString(mem: array<u8>, dest: nat, src: nat)
    requires Terminated(mem[..], src)
    requires dest + |CStr(mem[..], src)| < mem.Length
    requires Apart(dest, |CStr(mem[..], src)| + 1, src, |CStr(mem[..], src)| + 1)
    modifies mem
    ensures PlacedUpTo(mem[..], old(mem[..]), dest, old(CStr(mem[..], src)) + [NUL], |old(CStr(mem[..], src))| + 1)
    ensures Terminated(mem[..], dest) && CStr(mem[..], dest) == old(CStr(mem[..], src))
  {
    ghost var m0 := mem[..];
    ghost var w := CStr(m0, src);
    ghost var wz := w + [NUL];
    var i := 0;
    while mem[src + i] != NUL
      invariant i <= |w|
      invariant PlacedUpTo(mem[..], m0, dest, wz, i)
      invariant mem[src + i] == Head0(w[i..])
      decreases |w| - i
    {
      mem[dest + i] := mem[src + i];
      i := i + 1;
      CStrAt(m0, src, i);
      assert !(dest <= src + i < dest + i);
    }
    assert i == |w|;
    mem[dest + i] := NUL;
    assert PlacedUpTo(mem[..], m0, dest, wz, i + 1);
    PlacedString(mem[..], m0, dest, w);
  }

  /** strcpy: the string at `src`, with its terminator, is copied to `dest`. */
  method Strcpy(mem: array<u8>, dest: nat, src: nat) returns (r: nat)
    requires Terminated(mem[..], src)
    requires dest + |CStr(mem[..], src)| < mem.Length
    requires Apart(dest, |CStr(mem[..], src)| + 1, src, |CStr(mem[..], src)| + 1)
    modifies mem
    ensures r == dest
    ensures PlacedUpTo(mem[..], old(mem[..]), dest, old(CStr(mem[..], src)) + [NUL], |old(CStr(mem[..], src))| + 1)
    ensures Terminated(mem[..], dest) && CStr(mem[..], dest) == old(CStr(mem[..], src))
  {
    CopyString(mem, dest, src);
    r := dest;
  }

  /** Placing `w` and a NUL over the terminator of the string at `dest` extends it by `w`. */
  lemma AppendedString(m: seq<u8>, m0: seq<u8>, dest: nat, w: seq<u8>)
    requires Terminated(m0, dest) && NUL !in w
    requires PlacedUpTo(m, m0, NulFrom(m0, dest), w + [NUL], |w| + 1)
    ensures Terminated(m, dest) && CStr(m, dest) == CStr(m0, dest) + w
  {
    var ptr := NulFrom(m0, dest);
    var a := CStr(m0, dest);
    forall k | dest <= k < ptr + |w| ensures m[k] != NUL {
      if k < ptr {
        assert m[k] == m0[k];
      } else {
        assert m[k] == (w + [NUL])[k - ptr];
      }
    }
    assert m[ptr + |w|] == (w + [NUL])[|w|];
    CStrOf(m, dest, ptr + |w|);
    assert m[dest..ptr] == a;
    assert m[ptr..ptr + |w|] == w by {
      forall k | 0 <= k < |w| ensures m[ptr..ptr + |w|][k] == w[k] {
        assert m[ptr + k] == (w + [NUL])[k];
      }
    }
    assert m[dest..ptr + |w|] == m[dest..ptr] + m[ptr..ptr + |w|];
  }

  /** strcat: the string at `src` is appended at the terminator of the string at `dest`. */
  method Strcat(mem: array<u8>, dest: nat, src: nat) returns (r: nat)
    requires Terminated(mem[..], dest) && Terminated(mem[..], src)
    requires NulFrom(mem[..], dest) + |CStr(mem[..], src)| < mem.Length
    requires Apart(NulFrom(mem[..], dest), |CStr(mem[..], src)| + 1, src, |CStr(mem[..], src)| + 1)
    modifies mem
    ensures r == dest
    ensures PlacedUpTo(mem[..], old(mem[..]), old(NulFrom(mem[..], dest)),
                       old(CStr(mem[..], src)) + [NUL], |old(CStr(mem[..], src))| + 1)
    ensures Terminated(mem[..], dest)
    ensures CStr(mem[..], dest) == old(CStr(mem[..], dest)) + old(CStr(mem[..], src))
  {
    ghost var m0 := mem[..];
    ghost var w := CStr(m0, src);
    var len := Strlen(mem, dest);
    var ptr := dest + len;
    assert ptr == NulFrom(m0, dest) && CStr(mem[..], src) == w;
    CopyString(mem, ptr, src);
    ghost var m1 := mem[..];
    assert PlacedUpTo(m1, m0, NulFrom(m0, dest), w + [NUL], |w| + 1);
    AppendedString(m1, m0, dest, w);
    r := dest;
  }

  /**
   * strdup: a copy of the string at `src` in the `strlen + 1` bytes at `dup`,
   * which kmalloc has just returned for it.
   */
  method Strdup(mem: array<u8>, src: nat, dup: nat) returns (r: nat)
    requires Terminated(mem[..], src)
    requires dup + |CStr(mem[..], src)| < mem.Length
    requires Apart(dup, |CStr(mem[..], src)| + 1, src, |CStr(mem[..], src)| + 1)
    modifies mem
    ensures r == dup
    ensures PlacedUpTo(mem[..], old(mem[..]), dup, old(CStr(mem[..], src)) + [NUL], |old(CStr(mem[..], src))| + 1)
    ensures Terminated(mem[..], dup) && CStr(mem[..], dup) == old(CStr(mem[..], src))
  {
    var srcSize := Strlen(mem, src);
    CopyString(mem, dup, src);
    r := dup;
  }

  /**
   * strndup: at most `size` characters of the string at `src`, then a NUL,
   * in the fresh buffer `dup` that kmalloc has just returned.
   */
  method Strndup(mem: array<u8>, src: nat, size: nat, dup: nat) returns (r: nat)
    requires Terminated(mem[..], src)
    requires dup + |Take(CStr(mem[..], src), size)| < mem.Length
    requires Apart(dup, |Take(CStr(mem[..], src), size)| + 1, src, |CStr(mem[..], src)| + 1)
    modifies mem
    ensures r == dup
    ensures PlacedUpTo(mem[..], old(mem[..]), dup, Take(old(CStr(mem[..], src)), size) + [NUL],
                       |Take(old(CStr(mem[..], src)), size)| + 1)
    ensures Terminated(mem[..], dup) && CStr(mem[..], dup) == Take(old(CStr(mem[..], src)), size)
  {
    ghost var m0 := mem[..];
    ghost var w := Take(CStr(m0, src), size);
    var srcSize := Strlen(mem, src);
    if srcSize > size {
      srcSize := size;
    }
    assert w == CStr(m0, src)[..srcSize];
    CopyPrefix(mem, dup, src, srcSize);
    PlacedString(mem[..], m0, dup, w);
    r := dup;
  }

  /** strndup's loop: the first `n` characters of the string at `src`, then a NUL, are copied to `dest`. */
  method CopyPrefix(mem: array<u8>, dest: nat, src: nat, n: nat)
    requires Terminated(mem[..], src) && n <= |CStr(mem[..], src)|
    requires dest + n < mem.Length
    requires Apart(dest, n + 1, src, |CStr(mem[..], src)| + 1)
    modifies mem
    ensures PlacedUpTo(mem[..], old(mem[..]), dest, old(CStr(mem[..], src))[..n] + [NUL], n + 1)
  {
    ghost var m0 := mem[..];
    ghost var wz := CStr(m0, src)[..n] + [NUL];
    var i := 0;
    while i < n
      invariant i <= n
      invariant PlacedUpTo(mem[..], m0, dest, wz, i)
    {
      assert !(dest <= src + i < dest + i) && m0[src + i] == wz[i];
      CopyByteAt(mem, src, dest, i, m0, wz);
      i := i + 1;
    }
    mem[dest + n] := NUL;
    assert PlacedUpTo(mem[..], m0, dest, wz, n + 1);
  }

  /** One pass of strndup's copy loop: source byte `i` goes to `dup + i`. */
  method CopyByteAt(mem: array<u8>, src: nat, dup: nat, i: nat, ghost m0: seq<u8>, ghost wz: seq<u8>)
    requires i < |wz| && dup + i < mem.Length && src + i < mem.Length
    requires PlacedUpTo(mem[..], m0, dup, wz, i) && !(dup <= src + i < dup + i) && m0[src + i] == wz[i]
    modifies mem
    ensures PlacedUpTo(mem[..], m0, dup, wz, i + 1)
  {
    ghost var before := mem[..];
    mem[dup + i] := mem[src + i];
    PlacedStep(before, mem[..], m0, dup, wz, i);
  }

  // ------------------------------------------------------------ strtoupper

  const LOWER_A: u8 := 0x61  // 'a'
  const LOWER_Z: u8 := 0x7A  // 'z'

  /** The byte strtoupper leaves for `b`: lower-case ASCII letters lose 32. */
  function ToUpper(b: u8): (r: u8)
    ensures LOWER_A <= b <= LOWER_Z ==> r as int == b as int - 32
    ensures !(LOWER_A <= b <= LOWER_Z) ==> r == b
  {
    if LOWER_A <= b <= LOWER_Z then b - 32 else b
  }

  function Upper(w: seq<u8>): (r: seq<u8>)
    ensures |r| == |w|
    ensures forall i :: 0 <= i < |w| ==> r[i] == ToUpper(w[i])
  {
    seq(|w|, i requires 0 <= i < |w| => ToUpper(w[i]))
  }

  /** Upper-casing leaves no lower-case letter and keeps the terminator where it was. */
  lemma UpperSpec(w: seq<u8>)
    ensures forall i :: 0 <= i < |w| ==> !(LOWER_A <= Upper(w)[i] <= LOWER_Z)
    ensures NUL in Upper(w) <==> NUL in w
    ensures Upper(Upper(w)) == Upper(w)
  {
    if NUL in Upper(w) {
      var i :| 0 <= i < |w| && Upper(w)[i] == NUL;
      assert w[i] == NUL;
    }
    if NUL in w {
      var i :| 0 <= i < |w| && w[i] == NUL;
      assert Upper(w)[i] == NUL;
    }
  }

  /** One step of strtoupper's loop: the character at `p` is upper-cased in place. */
  method UpperAt(mem: array<u8>, p: nat, ghost m0: seq<u8>, ghost str: nat, ghost w: seq<u8>)
    requires str <= p < str + |w| && p < mem.Length && PlacedUpTo(mem[..], m0, str, Upper(w), p - str)
    requires mem[p] == w[p - str]
    modifies mem
    ensures PlacedUpTo(mem[..], m0, str, Upper(w), p - str + 1)
  {
    ghost var before := mem[..];
    if mem[p] >= LOWER_A && mem[p] <= LOWER_Z {
      mem[p] := mem[p] - 32;
    } else {
      assert before[p := Upper(w)[p - str]] == before;
    }
    PlacedStep(before, mem[..], m0, str, Upper(w), p - str);
  }

  /** strtoupper: every lower-case letter of the string at `str` is made upper case, in place. */
  method Strtoupper(mem: array<u8>, str: nat) returns (r: nat)
    requires Terminated(mem[..], str)
    modifies mem
    ensures r == str
    ensures PlacedUpTo(mem[..], old(mem[..]), str, Upper(old(CStr(mem[..], str))), |old(CStr(mem[..], str))|)
    ensures Terminated(mem[..], str) && CStr(mem[..], str) == Upper(old(CStr(mem[..], str)))
  {
    ghost var m0 := mem[..];
    ghost var w := CStr(m0, str);
    UpperSpec(w);
    var p := str;
    CStrAt(m0, str, 0);
    while mem[p] != NUL
      invariant str <= p <= str + |w|
      invariant PlacedUpTo(mem[..], m0, str, Upper(w), p - str)
      invariant mem[p] == Head0(w[p - str..])
      decreases str + |w| - p
    {
      UpperAt(mem, p, m0, str, w);
      p := p + 1;
      CStrAt(m0, str, p - str);
    }
    forall k | str <= k < str + |w| ensures mem[k] != NUL {
      assert mem[k] == Upper(w)[k - str];
    }
    CStrOf(mem[..], str, str + |w|);
    r := str;
  }

  // ---------------------------------------------------------------- strtok

  /** What one call of strtok yields: the token, the memory after it, and the saved position. */
  datatype TokenStep = TokenStep(token: Option<nat>, mem: seq<u8>, olds: nat)

  /**
   * One strtok call from position `start` with delimiter characters `delim`:
   * skip the delimiters; at the end of the string there is no token;
   * otherwise the token runs to the next delimiter, which is overwritten
   * with NUL, and the next call resumes after it.
   */
  function StrtokSpec(m: seq<u8>, start: nat, delim: seq<u8>): (r: TokenStep)
    requires Terminated(m, start)
    ensures |r.mem| == |m|
  {
    var t := SpanEnd(m, start, delim);
    if m[t] == NUL then TokenStep(None, m, t)
    else
      NulFromInside(m, start, t);
      var e := BreakEnd(m, t, delim);
      if m[e] == NUL then TokenStep(Some(t), m, e)
      else TokenStep(Some(t), m[e := NUL], e + 1)
  }

  /**
   * strtok returns no token exactly when only delimiters are left.  A token
   * starts after a run of delimiters, is a non-empty string free of them,
   * and is followed in the original string by a delimiter or the end; the
   * saved position is a shorter string of the same memory.
   */
  lemma StrtokSpecToken(m: seq<u8>, start: nat, delim: seq<u8>)
    requires Terminated(m, start) && NUL !in delim
    ensures var r := StrtokSpec(m, start, delim);
            (r.token.None? <==> forall k :: start <= k < NulFrom(m, start) ==> m[k] in delim)
            && (r.token.None? ==> r.mem == m)
            && (r.token.Some? ==>
                  var t := r.token.value;
                  start <= t < NulFrom(m, start)
                  && (forall k :: start <= k < t ==> m[k] in delim)
                  && Terminated(r.mem, t)
                  && CStr(r.mem, t) == m[t..BreakEnd(m, t, delim)]
                  && |CStr(r.mem, t)| > 0
                  && (forall k :: t <= k < BreakEnd(m, t, delim) ==> m[k] !in delim)
                  && (BreakEnd(m, t, delim) == NulFrom(m, start) || m[BreakEnd(m, t, delim)] in delim)
                  && Terminated(r.mem, r.olds)
                  && NulFrom(r.mem, r.olds) - r.olds < NulFrom(m, start) - start)
  {
    var r := StrtokSpec(m, start, delim);
    var t := SpanEnd(m, start, delim);
    var n := NulFrom(m, start);
    if m[t] != NUL {
      NulFromInside(m, start, t);
      var e := BreakEnd(m, t, delim);
      assert e > t;
      if m[e] == NUL {
        assert e == n;
        CStrOf(m, t, e);
      } else {
        var m' := m[e := NUL];
        CStrOf(m', t, e);
        assert m'[t..e] == m[t..e];
        CStrOf(m', e + 1, n);
      }
    } else {
      assert t == n;
    }
  }

  /**
   * The body of strtok once the start position `p` is fixed: skip the
   * delimiters, find the token's end and overwrite a delimiter there with NUL.
   */
  method TokenFrom(mem: array<u8>, p: nat, delim: nat) returns (token: Option<nat>, next: nat)
    requires p != 0 && Terminated(mem[..], p)
    requires delim != 0 && Terminated(mem[..], delim)
    modifies mem
    ensures var r := StrtokSpec(old(mem[..]), p, old(CStr(mem[..], delim)));
            token == r.token && mem[..] == r.mem && next == r.olds
  {
    ghost var m0 := mem[..];
    ghost var ds := CStr(m0, delim);
    var n := Strspn(mem, p, delim);
    var t := p + n;
    assert t == SpanEnd(m0, p, ds);
    if mem[t] == NUL {
      return None, t;
    }
    NulFromInside(m0, p, t);
    ghost var e := BreakEnd(m0, t, ds);
    var q := Strpbrk(mem, t, delim);
    if q.None? {
      var len := Strlen(mem, t);
      assert m0[e] == NUL && t + len == NulFrom(m0, t);
      return Some(t), t + len;
    }
    assert q.value == e && m0[e] != NUL;
    assert StrtokSpec(m0, p, ds) == TokenStep(Some(t), m0[e := NUL], e + 1);
    mem[q.value] := NUL;
    assert mem[..] == m0[e := NUL];
    return Some(t), q.value + 1;
  }

  /** strtok's saved position (the static `olds` of string.c). */
  class Tokenizer {
    var olds: nat

    constructor ()
      ensures olds == 0
    {
      olds := 0;
    }

    /**
     * strtok(s, delim): a NULL `s` continues from the saved position.  The
     * delimiter string is read before the token's end is overwritten.
     */
    method Strtok(mem: array<u8>, s: nat, delim: nat) returns (token: Option<nat>)
      requires (if s == 0 then olds else s) != 0
      requires Terminated(mem[..], if s == 0 then olds else s)
      requires delim != 0 && Terminated(mem[..], delim)
      modifies this, mem
      ensures var r := StrtokSpec(old(mem[..]), old(if s == 0 then olds else s), old(CStr(mem[..], delim)));
              token == r.token && mem[..] == r.mem && olds == r.olds
    {
      var p := if s == 0 then olds else s;
      var next;
      token, next := TokenFrom(mem, p, delim);
      olds := next;
    }
  }
}
