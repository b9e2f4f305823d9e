/** Bytes and the few facts about NUL-terminated strings that every other module shares. */
module Bytes {

  type byte = b: int | 0 <= b < 256

  const NUL: byte := 0
  const NEWLINE: byte := 10
  const RETURN: byte := 13
  const SPACE: byte := 32
  const DOT: byte := 46

  function Min(a: int, b: int): int {
    if a <= b then a else b
  }

  function Max(a: int, b: int): int {
    if a <= b then b else a
  }

  predicate NulFree(s: seq<byte>) {
    NUL !in s
  }

  /** The position of the first `c` in `s`, or `|s|` when there is none. */
  function IndexOf(s: seq<byte>, c: byte): (n: nat)
    ensures n <= |s|
    ensures forall i :: 0 <= i < n ==> s[i] != c
    ensures n < |s| ==> s[n] == c
  {
    if s == [] || s[0] == c then 0 else 1 + IndexOf(s[1..], c)
  }

  /** The text a C routine sees at a pointer to `s`: everything before the first NUL. */
  function CStr(s: seq<byte>): seq<byte> {
    s[..IndexOf(s, NUL)]
  }

  /** The same for a field of at most `n` bytes that need not hold a NUL. */
  function Clip(s: seq<byte>, n: nat): seq<byte> {
    CStr(if |s| < n then s else s[..n])
  }

  lemma IndexOfIs(s: seq<byte>, c: byte, n: nat)
    requires n <= |s|
    requires forall i :: 0 <= i < n ==> s[i] != c
    requires n < |s| ==> s[n] == c
    ensures IndexOf(s, c) == n
  {
  }

  lemma CStrTerminated(text: seq<byte>)
    requires NulFree(text)
    ensures CStr(text + [NUL]) == text && IndexOf(text + [NUL], NUL) == |text|
  {
    IndexOfIs(text + [NUL], NUL, |text|);
  }

  lemma CStrFrom(m: seq<byte>, start: nat, end: nat)
    requires start <= end < |m| && m[end] == NUL && NulFree(m[start..end])
    ensures CStr(m[start..]) == m[start..end]
  {
    assert forall k :: start <= k < end ==> m[start..end][k - start] == m[k];
    IndexOfIs(m[start..], NUL, end - start);
  }

  lemma SliceNulFree(s: seq<byte>, a: nat, b: nat)
    requires NulFree(s) && a <= b <= |s|
    ensures NulFree(s[a..b]) && NulFree(s[a..]) && NulFree(s[..b])
  {
  }

  lemma SliceIs(buf: array<byte>, at: nat, s: seq<byte>)
    requires at + |s| <= buf.Length
    requires forall k :: at <= k < at + |s| ==> buf[k] == s[k - at]
    ensures buf[at..at + |s|] == s
  {
    forall k | 0 <= k < |s| ensures buf[at..at + |s|][k] == s[k] {
      assert buf[at + k] == s[k];
    }
  }

  /** Memory `m` after the bytes `s` were stored at address `at`. */
  function Splice(m: seq<byte>, at: nat, s: seq<byte>): (r: seq<byte>)
    requires at + |s| <= |m|
    ensures |r| == |m|
  {
    m[..at] + s + m[at + |s|..]
  }

  /** The bytes of a text written out. */
  function Ascii(s: string): seq<byte>
    requires forall i :: 0 <= i < |s| ==> s[i] < 128 as char
  {
    seq(|s|, i requires 0 <= i < |s| => s[i] as int)
  }

  // ----- lines and pieces

  /** The lines of a text. A newline ends a line; the last line may go without one. */
  function Lines(f: seq<byte>): seq<seq<byte>>
    decreases |f|
  {
    if f == [] then [] else
    var k := IndexOf(f, NEWLINE);
    [f[..k]] + Lines(if k < |f| then f[k + 1..] else [])
  }

  /** A text in front of a newline is the first line of the whole. */
  lemma LinesCons(line: seq<byte>, rest: seq<byte>)
    requires NEWLINE !in line
    ensures Lines(line + [NEWLINE] + rest) == [line] + Lines(rest)
  {
    var f := line + [NEWLINE] + rest;
    IndexOfIs(f, NEWLINE, |line|);
    assert f[..|line|] == line && f[|line| + 1..] == rest;
  }

  function Concat(parts: seq<seq<byte>>): seq<byte> {
    if parts == [] then [] else parts[0] + Concat(parts[1..])
  }

  lemma ConcatCons(part: seq<byte>, parts: seq<seq<byte>>)
    ensures Concat([part] + parts) == part + Concat(parts)
  {
    assert ([part] + parts)[1..] == parts;
  }
}
