/** NUL-terminated byte strings as main/myanon.c handles them: the prefix a
    C string function sees, and the two buffer copies `remove_quote` and
    `mystrcpy`. */
module CString {

  /** An unsigned C `char`. */
  type byte = x: int | 0 <= x < 256

  const NUL: byte := 0
  /** The single quote `'`. */
  const QUOTE: byte := 39

  function Min(a: nat, b: nat): nat {
    if a <= b then a else b
  }

  /** The bytes of `s` before its first NUL (all of `s` when it holds none):
      the string a C function sees when it is handed the buffer `s`. */
  function CStr(s: seq<byte>): (r: seq<byte>)
    ensures |r| <= |s| && r == s[..|r|]
    ensures NUL !in r
    ensures |r| < |s| ==> s[|r|] == NUL
  {
    if s == [] || s[0] == NUL then [] else [s[0]] + CStr(s[1..])
  }

  /** `s` with every single quote dropped, the other bytes kept in order. */
  function WithoutQuotes(s: seq<byte>): (r: seq<byte>)
    ensures |r| <= |s|
    ensures forall b :: b in r <==> b in s && b != QUOTE
    ensures forall b :: b != QUOTE ==> multiset(r)[b] == multiset(s)[b]
  {
    if s == [] then []
    else
      assert s == [s[0]] + s[1..];
      if s[0] == QUOTE then WithoutQuotes(s[1..]) else [s[0]] + WithoutQuotes(s[1..])
  }

  /** At most the first `n` bytes of `s`. */
  function Take(s: seq<byte>, n: nat): (r: seq<byte>)
    ensures |r| == Min(|s|, n) && r == s[..|r|]
  {
    if |s| <= n then s else s[..n]
  }

  /** `s` followed by NUL bytes up to `n` bytes in all. */
  function ZeroPadded(s: seq<byte>, n: nat): (r: seq<byte>)
    requires |s| <= n
    ensures |r| == n && r[..|s|] == s
    ensures forall i :: |s| <= i < n ==> r[i] == NUL
  {
    s + seq(n - |s|, _ => NUL)
  }

  /** The first `size` bytes of the destination after `remove_quote`: the
      source string without its quotes, cut to `size` bytes, NUL-padded. */
  function QuoteStripped(s: seq<byte>, size: nat): (r: seq<byte>)
    ensures |r| == size
    ensures QUOTE !in r
  {
    var w := Take(WithoutQuotes(CStr(s)), size);
    assert forall b :: b in w ==> b in WithoutQuotes(CStr(s));
    ZeroPadded(w, size)
  }

  /** The first `size` bytes of the destination after `mystrcpy`: at most
      `size - 1` bytes of the source string, NUL-padded. */
  function BoundedCopy(s: seq<byte>, size: nat): (r: seq<byte>)
    requires 1 <= size
    ensures |r| == size && r[size - 1] == NUL
  {
    ZeroPadded(Take(CStr(s), size - 1), size)
  }

  /** Dropping quotes distributes over concatenation. */
  lemma {:induction false} WithoutQuotesConcat(a: seq<byte>, b: seq<byte>)
    ensures WithoutQuotes(a + b) == WithoutQuotes(a) + WithoutQuotes(b)
  {
    if a != [] {
      assert (a + b)[0] == a[0] && (a + b)[1..] == a[1..] + b;
      WithoutQuotesConcat(a[1..], b);
      if a[0] != QUOTE {
        assert WithoutQuotes(a + b) == [a[0]] + WithoutQuotes(a[1..] + b);
        assert WithoutQuotes(a) == [a[0]] + WithoutQuotes(a[1..]);
      }
    } else {
      assert a + b == b;
    }
  }

  /** A NUL-free prefix followed by a NUL (or by nothing) reads back as that prefix. */
  lemma {:induction false} CStrOfTerminated(s: seq<byte>, t: seq<byte>)
    requires NUL !in s
    requires t == [] || t[0] == NUL
    ensures CStr(s + t) == s
  {
    if s != [] {
      assert (s + t)[0] == s[0];
      assert (s + t)[1..] == s[1..] + t;
      CStrOfTerminated(s[1..], t);
    }
  }

  /** Quote stripping is idempotent. */
  lemma {:induction false} WithoutQuotesIdempotent(s: seq<byte>)
    ensures WithoutQuotes(WithoutQuotes(s)) == WithoutQuotes(s)
  {
    if s != [] {
      WithoutQuotesIdempotent(s[1..]);
      if s[0] != QUOTE {
        assert WithoutQuotes(s) == [s[0]] + WithoutQuotes(s[1..]);
        WithoutQuotesConcat([s[0]], WithoutQuotes(s[1..]));
      }
    }
  }

  /** The destination of `remove_quote` holds a terminator exactly when the
      stripped string is shorter than `size`; it then reads back as the
      whole stripped string, and otherwise no NUL is written at all. */
  lemma {:induction false} QuoteStrippedTerminated(s: seq<byte>, size: nat)
    ensures NUL in QuoteStripped(s, size) <==> |WithoutQuotes(CStr(s))| < size
    ensures |WithoutQuotes(CStr(s))| < size ==> CStr(QuoteStripped(s, size)) == WithoutQuotes(CStr(s))
  {
    var w := WithoutQuotes(CStr(s));
    assert NUL !in w;
    if |w| < size {
      var r := QuoteStripped(s, size);
      assert r == w + r[|w|..];
      assert r[|w|] == NUL;
      CStrOfTerminated(w, r[|w|..]);
    } else {
      assert QuoteStripped(s, size) == w[..size];
      assert forall b :: b in w[..size] ==> b in w;
    }
  }

  /** What `mystrcpy` leaves reads back as the source string cut to
      `size - 1` bytes. */
  lemma {:induction false} BoundedCopyReadsBack(s: seq<byte>, size: nat)
    requires 1 <= size
    ensures CStr(BoundedCopy(s, size)) == Take(CStr(s), size - 1)
  {
    var t := Take(CStr(s), size - 1);
    var r := BoundedCopy(s, size);
    assert forall b :: b in t ==> b in CStr(s);
    assert r == t + r[|t|..];
    CStrOfTerminated(t, r[|t|..]);
  }

  /** `remove_quote(dst, src, size)`: zero the first `size` bytes of `dst`,
      then copy the bytes of the string `src` that are not quotes until the
      string ends or `size` bytes have been written. */
  method RemoveQuote(dst: array<byte>, src: array<byte>, size: nat)
    requires size <= dst.Length
    requires src != dst
    requires NUL in src[..]
    modifies dst
    ensures dst[..size] == QuoteStripped(src[..], size)
    ensures dst[size..] == old(dst[size..])
  {
    Memset(dst, size);
    var ps, pd := 0, 0;
    while src[ps] != NUL && pd < size
      invariant ps < src.Length && pd <= size
      invariant NUL !in src[..ps]
      invariant dst[..pd] == WithoutQuotes(src[..ps])
      invariant forall j :: pd <= j < size ==> dst[j] == NUL
      invariant dst[size..] == old(dst[size..])
      decreases src.Length - ps
    {
      assert src[..ps + 1] == src[..ps] + [src[ps]];
      WithoutQuotesConcat(src[..ps], [src[ps]]);
      if src[ps] != QUOTE {
        dst[pd] := src[ps];
        pd := pd + 1;
      }
      ps := ps + 1;
      assert src[..] == src[..ps] + src[ps..];
    }
    // src[..ps] is the start of the string; the rest of it, if any, is cut
    var c := CStr(src[..]);
    assert forall j :: 0 <= j < ps ==> src[..ps][j] != NUL;
    assert ps <= |c|;
    assert c == src[..ps] + c[ps..];
    WithoutQuotesConcat(src[..ps], c[ps..]);
    assert ps == |c| || pd == size;
  }

  /** C's `memset(a, 0, n)`. */
  method Memset(a: array<byte>, n: nat)
    requires n <= a.Length
    modifies a
    ensures forall j :: 0 <= j < n ==> a[j] == NUL
    ensures a[n..] == old(a[n..])
  {
    var k := 0;
    while k < n
      invariant k <= n
      invariant forall j :: 0 <= j < k ==> a[j] == NUL
      invariant a[n..] == old(a[n..])
    {
      a[k] := NUL;
      k := k + 1;
    }
  }

  /** C's `strncpy(dest, src, n)`: the string `src` cut to `n` bytes, then
      NUL bytes up to `n`. */
  method Strncpy(dest: array<byte>, src: array<byte>, n: nat)
    requires n <= dest.Length
    requires src != dest
    requires NUL in src[..] || n <= src.Length
    modifies dest
    ensures dest[..n] == ZeroPadded(Take(CStr(src[..]), n), n)
    ensures dest[n..] == old(dest[n..])
  {
    var i := 0;
    while i < n && src[i] != NUL
      invariant i <= n && i <= src.Length
      invariant NUL !in src[..i]
      invariant dest[..i] == src[..i]
      invariant dest[n..] == old(dest[n..])
    {
      assert src[..i + 1] == src[..i] + [src[i]];
      dest[i] := src[i];
      i := i + 1;
    }
    ghost var copied := i;
    while i < n
      invariant copied <= i <= n
      invariant dest[..copied] == src[..copied]
      invariant forall j :: copied <= j < i ==> dest[j] == NUL
      invariant dest[n..] == old(dest[n..])
    {
      dest[i] := NUL;
      i := i + 1;
    }
    var c := CStr(src[..]);
    assert forall j :: 0 <= j < copied ==> src[..copied][j] != NUL;
    assert copied <= |c|;
    assert copied == |c| || copied == n;
    assert Take(c, n) == src[..copied];
  }

  /** `mystrcpy(dest, src, size)`: zero the first `size` bytes of `dest`,
      then copy at most `size - 1` bytes of the string `src`; returns `dest`. */
  method MyStrcpy(dest: array<byte>, src: array<byte>, size: nat) returns (r: array<byte>)
    requires 1 <= size <= dest.Length
    requires src != dest
    requires NUL in src[..] || size - 1 <= src.Length
    modifies dest
    ensures r == dest
    ensures dest[..size] == BoundedCopy(src[..], size)
    ensures dest[size..] == old(dest[size..])
  {
    Memset(dest, size);
    Strncpy(dest, src, size - 1);
    assert dest[..size] == dest[..size - 1] + [dest[size - 1]];
    r := dest;
  }
}
