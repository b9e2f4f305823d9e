/** The kernel's string routines (student-distrib/lib.c). A pointer argument is modelled by
    the bytes from that address on. */
module CStrings {
  import opened Bytes

  /** A char compared as the signed type `int8_t`. */
  function Signed(b: byte): (n: int)
    ensures -128 <= n < 128 && (n == b || n + 256 == b)
  {
    if b < 128 then b else b - 256
  }

  /** A pointer that may be scanned for up to `n` bytes. */
  ghost predicate Readable(s: seq<byte>, n: nat) {
    n <= |s| || IndexOf(s, NUL) < |s|
  }

  lemma ClipPrefix(s: seq<byte>, n: nat, i: nat)
    requires Readable(s, n) && i <= n && i <= |s|
    requires NulFree(s[..i])
    ensures i <= |Clip(s, n)| && s[..i] == Clip(s, n)[..i]
    ensures i < n && i < |s| && s[i] == NUL ==> Clip(s, n) == s[..i]
    ensures i < n && i < |s| && s[i] != NUL ==> i < |Clip(s, n)| && Clip(s, n)[i] == s[i]
    ensures i == n ==> Clip(s, n) == s[..i]
    ensures i < n ==> i < |s|
  {
    var t := if |s| < n then s else s[..n];
    var m := IndexOf(t, NUL);
    assert forall k :: 0 <= k < i ==> s[..i][k] == s[k] == t[k];
    if i < |t| && t[i] == NUL { IndexOfIs(t, NUL, i); }
  }

  /** A terminated string compares over its text only. */
  lemma ClipTerminated(text: seq<byte>, n: nat)
    requires NulFree(text)
    ensures Readable(text + [NUL], n)
    ensures Clip(text + [NUL], n) == Clip(text, n) == text[..Min(n, |text|)]
  {
    var len := Min(n, |text|);
    IndexOfIs(text + [NUL], NUL, |text|);
    IndexOfIs(if |text + [NUL]| < n then text + [NUL] else (text + [NUL])[..n], NUL, len);
    IndexOfIs(if |text| < n then text else text[..n], NUL, len);
  }

  /** The first position at which two texts differ; a text that has ended counts as NUL there. */
  function FirstDifference(a: seq<byte>, b: seq<byte>): (k: nat)
    ensures a != b ==> k <= Min(|a|, |b|) && a[..k] == b[..k]
    ensures a != b && k < |a| && k < |b| ==> a[k] != b[k]
  {
    if a == [] || b == [] || a[0] != b[0] then 0 else
    assert a == [a[0]] + a[1..] && b == [b[0]] + b[1..];
    1 + FirstDifference(a[1..], b[1..])
  }

  lemma {:induction false} FirstDifferenceIs(a: seq<byte>, b: seq<byte>, k: nat)
    requires k <= |a| && k <= |b| && a[..k] == b[..k] && CharAt(a, k) != CharAt(b, k)
    ensures a != b && FirstDifference(a, b) == k
  {
    if k > 0 {
      assert a[0] == a[..k][0] == b[..k][0] == b[0];
      assert a[1..][..k - 1] == a[..k][1..] && b[1..][..k - 1] == b[..k][1..];
      FirstDifferenceIs(a[1..], b[1..], k - 1);
    }
  }

  function CharAt(text: seq<byte>, k: nat): byte {
    if k < |text| then text[k] else NUL
  }

  /** Zero for equal texts, and otherwise the signed difference of the first characters that
      differ, a text that has ended counting as NUL. */
  method Strncmp(s1: seq<byte>, s2: seq<byte>, n: nat) returns (r: int)
    requires Readable(s1, n) && Readable(s2, n)
    ensures r == 0 <==> Clip(s1, n) == Clip(s2, n)
    ensures r != 0 ==> var a, b := Clip(s1, n), Clip(s2, n);
      var k := FirstDifference(a, b);
      r == Signed(CharAt(a, k)) - Signed(CharAt(b, k))
  {
    var i := 0;
    while i < n
      invariant i <= n && i <= |s1| && i <= |s2|
      invariant s1[..i] == s2[..i] && NulFree(s1[..i])
    {
      ClipPrefix(s1, n, i);
      ClipPrefix(s2, n, i);
      if s1[i] != s2[i] || s1[i] == NUL {
        assert CharAt(Clip(s1, n), i) == s1[i] && CharAt(Clip(s2, n), i) == s2[i];
        if s1[i] != s2[i] { FirstDifferenceIs(Clip(s1, n), Clip(s2, n), i); }
        return Signed(s1[i]) - Signed(s2[i]);
      }
      i := i + 1;
    }
    ClipPrefix(s1, n, i);
    ClipPrefix(s2, n, i);
    return 0;
  }

  /** What `strncpy(dest, src, n)` leaves in the `n` bytes at `dest`: the text of `src`, cut at
      `n` bytes, padded with NULs. There is no terminator when the text fills the field. */
  function StrncpyField(src: seq<byte>, n: nat): (field: seq<byte>)
    ensures |field| == n
  {
    var len := IndexOf(src, NUL);
    seq(n, j requires 0 <= j < n => if j < len then src[j] else NUL)
  }

  lemma StrncpyFieldText(src: seq<byte>, n: nat)
    ensures CStr(StrncpyField(src, n)) == Clip(src, n)
    ensures |Clip(src, n)| < n ==> IndexOf(StrncpyField(src, n), NUL) == |Clip(src, n)|
  {
    var len := Min(IndexOf(src, NUL), n);
    IndexOfIs(StrncpyField(src, n), NUL, len);
    IndexOfIs(if |src| < n then src else src[..n], NUL, len);
  }

  method Strncpy(dest: array<byte>, at: nat, src: seq<byte>, n: nat)
    requires at + n <= dest.Length
    requires Readable(src, n + 1)
    modifies dest
    ensures forall k :: 0 <= k < dest.Length && !(at <= k < at + n) ==> dest[k] == old(dest[k])
    ensures forall k :: at <= k < at + n ==> dest[k] == StrncpyField(src, n)[k - at]
  {
    ghost var len := IndexOf(src, NUL);
    var i := 0;
    while i < |src| && src[i] != NUL && i < n
      invariant i <= len && i <= n
      invariant forall k :: 0 <= k < dest.Length && !(at <= k < at + i) ==> dest[k] == old(dest[k])
      invariant forall k :: at <= k < at + i ==> dest[k] == src[k - at]
    {
      dest[at + i] := src[i];
      i := i + 1;
    }
    while i < n
      invariant Min(len, n) <= i <= n
      invariant forall k :: 0 <= k < dest.Length && !(at <= k < at + i) ==> dest[k] == old(dest[k])
      invariant forall k :: at <= k < at + i ==> dest[k] == if k - at < len then src[k - at] else NUL
    {
      dest[at + i] := NUL;
      i := i + 1;
    }
  }
}
