/** Moving and filling memory (student-distrib/lib.c: memset, memcpy, memmove). Memory is one
    array and an address is an index, so regions may overlap; address wrap-around is excluded. */
module Memory {
  import opened Bytes

  /** `memset`: bytes up to a word boundary, whole words, and the bytes that are left. */
  method Memset(mem: array<byte>, s: nat, c: int, n: nat)
    requires s + n <= mem.Length
    modifies mem
    ensures forall k :: s <= k < s + n ==> mem[k] == c % 256
    ensures forall k :: 0 <= k < mem.Length && !(s <= k < s + n) ==> mem[k] == old(mem[k])
  {
    var al: byte := c % 256;
    var edi: nat, ecx: nat := s, n;
    while ecx != 0 && edi % 4 != 0
      invariant edi + ecx == s + n && s <= edi
      invariant forall k :: 0 <= k < mem.Length && !(s <= k < edi) ==> mem[k] == old(mem[k])
      invariant forall k :: s <= k < edi ==> mem[k] == al
    {
      mem[edi] := al;
      edi, ecx := edi + 1, ecx - 1;
    }
    var words: nat, edx: nat := ecx / 4, ecx % 4;
    while words != 0
      invariant edi + 4 * words + edx == s + n && s <= edi
      invariant forall k :: 0 <= k < mem.Length && !(s <= k < edi) ==> mem[k] == old(mem[k])
      invariant forall k :: s <= k < edi ==> mem[k] == al
    {
      // stosl: the word holds the byte four times
      mem[edi], mem[edi + 1], mem[edi + 2], mem[edi + 3] := al, al, al, al;
      edi, words := edi + 4, words - 1;
    }
    while edx != 0
      invariant edi + edx == s + n && s <= edi
      invariant forall k :: 0 <= k < mem.Length && !(s <= k < edi) ==> mem[k] == old(mem[k])
      invariant forall k :: s <= k < edi ==> mem[k] == al
    {
      mem[edi] := al;
      edi, edx := edi + 1, edx - 1;
    }
  }

  /** Copying forwards reads every byte before it is overwritten. */
  ghost predicate Forward(dest: nat, src: nat, n: nat) {
    dest <= src || src + n <= dest
  }

  ghost predicate Copied(before: seq<byte>, after: seq<byte>, dest: nat, src: nat, n: nat)
    requires |before| == |after| && dest + n <= |before| && src + n <= |before|
  {
    && (forall k :: 0 <= k < |after| && !(dest <= k < dest + n) ==> after[k] == before[k])
    && (forall k :: dest <= k < dest + n ==> after[k] == before[src + (k - dest)])
  }

  lemma CopiedTwice(m0: seq<byte>, m1: seq<byte>, m2: seq<byte>, dest: nat, src: nat, a: nat, b: nat)
    requires |m0| == |m1| == |m2| && dest + a + b <= |m0| && src + a + b <= |m0|
    requires Forward(dest, src, a + b)
    requires Copied(m0, m1, dest, src, a) && Copied(m1, m2, dest + a, src + a, b)
    ensures Copied(m0, m2, dest, src, a + b)
  {
  }

  /** `memcpy` in the same three phases; each word is read before it is written. The copy is
      right when the regions are disjoint, and also when the source lies at or above the
      destination. */
  method Memcpy(mem: array<byte>, dest: nat, src: nat, n: nat)
    requires dest + n <= mem.Length && src + n <= mem.Length
    requires Forward(dest, src, n)
    modifies mem
    ensures mem[dest..dest + n] == old(mem[src..src + n])
    ensures forall k :: 0 <= k < mem.Length && !(dest <= k < dest + n) ==> mem[k] == old(mem[k])
  {
    hide Copied;
    ghost var m0 := mem[..];
    var i := CopyHead(mem, dest, src, n);
    ghost var m1 := mem[..];
    var ecx := n - i;
    CopyWords(mem, dest + i, src + i, ecx / 4);
    ghost var m2 := mem[..];
    var j := i + ecx / 4 * 4;
    CopiedTwice(m0, m1, m2, dest, src, i, j - i);
    CopyBytes(mem, dest + j, src + j, ecx % 4);
    CopiedTwice(m0, m2, mem[..], dest, src, j, n - j);
    CopiedMeans(m0, mem[..], dest, src, n);
  }

  lemma CopiedMeans(m0: seq<byte>, m: seq<byte>, dest: nat, src: nat, n: nat)
    requires |m0| == |m| && dest + n <= |m| && src + n <= |m| && Copied(m0, m, dest, src, n)
    ensures m[dest..dest + n] == m0[src..src + n]
    ensures forall k :: 0 <= k < |m| && !(dest <= k < dest + n) ==> m[k] == m0[k]
  {
  }

  /** Bytes, until the destination is aligned or nothing is left. */
  method CopyHead(mem: array<byte>, dest: nat, src: nat, n: nat) returns (i: nat)
    requires dest + n <= mem.Length && src + n <= mem.Length && Forward(dest, src, n)
    modifies mem
    ensures i <= n && (i == n || (dest + i) % 4 == 0)
    ensures Copied(old(mem[..]), mem[..], dest, src, i)
  {
    ghost var m := mem[..];
    i := 0;
    while i != n && (dest + i) % 4 != 0
      invariant i <= n && Copied(m, mem[..], dest, src, i)
    {
      mem[dest + i] := mem[src + i];
      i := i + 1;
    }
  }

  /** `rep movsl` */
  method CopyWords(mem: array<byte>, dest: nat, src: nat, words: nat)
    requires dest + 4 * words <= mem.Length && src + 4 * words <= mem.Length && Forward(dest, src, 4 * words)
    modifies mem
    ensures Copied(old(mem[..]), mem[..], dest, src, 4 * words)
  {
    ghost var m := mem[..];
    var w := 0;
    while w != words
      invariant w <= words && Copied(m, mem[..], dest, src, 4 * w)
    {
      ghost var m1 := mem[..];
      var d, s := dest + 4 * w, src + 4 * w;
      mem[d], mem[d + 1], mem[d + 2], mem[d + 3] := mem[s], mem[s + 1], mem[s + 2], mem[s + 3];
      assert Copied(m1, mem[..], d, s, 4);
      CopiedTwice(m, m1, mem[..], dest, src, 4 * w, 4);
      w := w + 1;
    }
  }

  /** The bytes that are left. */
  method CopyBytes(mem: array<byte>, dest: nat, src: nat, n: nat)
    requires dest + n <= mem.Length && src + n <= mem.Length && Forward(dest, src, n)
    modifies mem
    ensures Copied(old(mem[..]), mem[..], dest, src, n)
  {
    ghost var m := mem[..];
    var i := 0;
    while i != n
      invariant i <= n && Copied(m, mem[..], dest, src, i)
    {
      mem[dest + i] := mem[src + i];
      i := i + 1;
    }
  }

  /** `memmove`: byte by byte, backwards when the source lies below the destination. The regions
      may overlap in any way. */
  method Memmove(mem: array<byte>, dest: nat, src: nat, n: nat)
    requires dest + n <= mem.Length && src + n <= mem.Length
    modifies mem
    ensures mem[dest..dest + n] == old(mem[src..src + n])
    ensures forall k :: 0 <= k < mem.Length && !(dest <= k < dest + n) ==> mem[k] == old(mem[k])
  {
    ghost var m := mem[..];
    if src >= dest {
      var i := 0;
      while i != n
        invariant 0 <= i <= n
        invariant forall k :: 0 <= k < mem.Length && !(dest <= k < dest + i) ==> mem[k] == m[k]
        invariant forall k :: dest <= k < dest + i ==> mem[k] == m[src + (k - dest)]
      {
        mem[dest + i] := mem[src + i];
        i := i + 1;
      }
    } else {
      var i := n;
      while i != 0
        invariant 0 <= i <= n
        invariant forall k :: 0 <= k < mem.Length && !(dest + i <= k < dest + n) ==> mem[k] == m[k]
        invariant forall k :: dest + i <= k < dest + n ==> mem[k] == m[src + (k - dest)]
      {
        mem[dest + i - 1] := mem[src + i - 1];
        i := i - 1;
      }
    }
  }
}
