/** The alignment-optimised memory routines, on one flat memory indexed by address. */
module Memory {
  import opened Bytes

  /** Byte `i` of a 32-bit value, little endian. */
  function ByteOf(v: nat, i: nat): byte
    requires i < 4
  {
    match i
    case 0 => v % 0x100
    case 1 => v / 0x100 % 0x100
    case 2 => v / 0x1_0000 % 0x100
    case _ => v / 0x100_0000 % 0x100
  }

  /** stosl: the four bytes of `v`. */
  method StoreDword(mem: array<byte>, at: nat, v: nat)
    requires at + 4 <= mem.Length
    modifies mem
    ensures forall p :: at <= p < at + 4 ==> mem[p] == ByteOf(v, p - at)
    ensures forall p :: 0 <= p < mem.Length && !(at <= p < at + 4) ==> mem[p] == old(mem[p])
  {
    mem[at] := ByteOf(v, 0);
    mem[at + 1] := ByteOf(v, 1);
    mem[at + 2] := ByteOf(v, 2);
    mem[at + 3] := ByteOf(v, 3);
  }

  /** movsl: four bytes are read before any is written. */
  method MoveDword(mem: array<byte>, dst: nat, src: nat)
    requires dst + 4 <= mem.Length && src + 4 <= mem.Length
    modifies mem
    ensures forall p :: dst <= p < dst + 4 ==> mem[p] == old(mem[p - dst + src])
    ensures forall p :: 0 <= p < mem.Length && !(dst <= p < dst + 4) ==> mem[p] == old(mem[p])
  {
    var a, b, c, d := mem[src], mem[src + 1], mem[src + 2], mem[src + 3];
    mem[dst] := a;
    mem[dst + 1] := b;
    mem[dst + 2] := c;
    mem[dst + 3] := d;
  }

  lemma ShiftedByte(c: byte, high: nat, m: nat)
    requires m > 0 && m <= 0x100_0000
    requires high == c * m
    ensures (high * 0x100 + c) / 0x100 == high && (high * 0x100 + c) % 0x100 == c
  {
  }

  /** The value in %eax holds the byte four times. */
  lemma ReplicatedByte(c: byte, i: nat)
    requires i < 4
    ensures ByteOf(c * 0x101_0101, i) == c
  {
    var v1, v2, v3 := c, c * 0x101, c * 0x1_0101;
    var v := c * 0x101_0101;
    ShiftedByte(c, v1, 1);
    ShiftedByte(c, v2, 0x101);
    ShiftedByte(c, v3, 0x1_0101);
    assert v == v3 * 0x100 + c && v3 == v2 * 0x100 + c && v2 == v1 * 0x100 + c;
    DivTwice(v, 0x100, 0x100);
    DivTwice(v, 0x1_0000, 0x100);
  }

  lemma DivTwice(v: nat, a: nat, b: nat)
    requires a == 0x100 || a == 0x1_0000
    requires b == 0x100
    ensures v / a / b == v / (a * b)
  {
  }

  /** memset: bytes up to an aligned address, then double words, then the remaining bytes. */
  method Memset(mem: array<byte>, s: nat, c: int, n: nat)
    requires s + n <= mem.Length
    modifies mem
    ensures forall p :: s <= p < s + n ==> mem[p] == c % 0x100
    ensures forall p :: 0 <= p < mem.Length && !(s <= p < s + n) ==> mem[p] == old(mem[p])
  {
    var al: byte := c % 0x100;
    var edi, ecx := s, n;
    while ecx != 0 && edi % 4 != 0
      invariant 0 <= ecx && s <= edi && edi + ecx == s + n
      invariant forall p :: s <= p < edi ==> mem[p] == al
      invariant forall p :: 0 <= p < mem.Length && !(s <= p < edi) ==> mem[p] == old(mem[p])
      decreases ecx
    {
      mem[edi] := al;
      edi, ecx := edi + 1, ecx - 1;
    }
    if ecx == 0 {
      return;
    }
    var eax, edx := al * 0x101_0101, ecx % 4;
    ecx := ecx / 4;
    while ecx != 0
      invariant 0 <= ecx && s <= edi && edi + 4 * ecx + edx == s + n
      invariant forall p :: s <= p < edi ==> mem[p] == al
      invariant forall p :: 0 <= p < mem.Length && !(s <= p < edi) ==> mem[p] == old(mem[p])
      decreases ecx
    {
      StoreDword(mem, edi, eax);
      forall p | edi <= p < edi + 4
        ensures mem[p] == al
      {
        ReplicatedByte(al, p - edi);
      }
      edi, ecx := edi + 4, ecx - 1;
    }
    while edx != 0
      invariant 0 <= edx && s <= edi && edi + edx == s + n
      invariant forall p :: s <= p < edi ==> mem[p] == al
      invariant forall p :: 0 <= p < mem.Length && !(s <= p < edi) ==> mem[p] == old(mem[p])
      decreases edx
    {
      mem[edi] := al;
      edi, edx := edi + 1, edx - 1;
    }
  }

  /** `n` bytes at `dst` are those that were at `src`; no other byte has changed. */
  twostate predicate Copied(mem: array<byte>, dst: nat, src: nat, n: nat)
    requires dst + n <= mem.Length && src + n <= mem.Length
    reads mem
  {
    && (forall p :: dst <= p < dst + n ==> mem[p] == old(mem[p - dst + src]))
    && (forall p :: 0 <= p < mem.Length && !(dst <= p < dst + n) ==> mem[p] == old(mem[p]))
  }

  /** memcpy copies upwards, so the ranges may even overlap as long as the destination does not
      start inside the source. */
  method Memcpy(mem: array<byte>, dst: nat, src: nat, n: nat)
    requires dst + n <= mem.Length && src + n <= mem.Length
    requires dst <= src || src + n <= dst
    modifies mem
    ensures Copied(mem, dst, src, n)
  {
    var edi, esi, ecx := dst, src, n;
    while ecx != 0 && edi % 4 != 0
      invariant 0 <= ecx && dst <= edi && edi + ecx == dst + n && edi - dst == esi - src
      invariant Copied(mem, dst, src, edi - dst)
      decreases ecx
    {
      mem[edi] := mem[esi];
      edi, esi, ecx := edi + 1, esi + 1, ecx - 1;
    }
    if ecx == 0 {
      return;
    }
    CopyAligned(mem, dst, src, n, edi - dst);
  }

  /** From the first aligned address on: double words, then the remaining bytes. */
  method CopyAligned(mem: array<byte>, dst: nat, src: nat, n: nat, done: nat)
    requires dst + n <= mem.Length && src + n <= mem.Length && done <= n
    requires dst <= src || src + n <= dst
    modifies mem
    ensures forall p :: dst + done <= p < dst + n ==> mem[p] == old(mem[p - dst + src])
    ensures forall p :: 0 <= p < mem.Length && !(dst + done <= p < dst + n) ==> mem[p] == old(mem[p])
  {
    var edi, esi, ecx := dst + done, src + done, n - done;
    var edx := ecx % 4;
    ecx := ecx / 4;
    while ecx != 0
      invariant 0 <= ecx && dst + done <= edi && edi + 4 * ecx + edx == dst + n && edi - dst == esi - src
      invariant forall p :: dst + done <= p < edi ==> mem[p] == old(mem[p - dst + src])
      invariant forall p :: 0 <= p < mem.Length && !(dst + done <= p < edi) ==> mem[p] == old(mem[p])
      decreases ecx
    {
      MoveDword(mem, edi, esi);
      edi, esi, ecx := edi + 4, esi + 4, ecx - 1;
    }
    while edx != 0
      invariant 0 <= edx && dst + done <= edi && edi + edx == dst + n && edi - dst == esi - src
      invariant forall p :: dst + done <= p < edi ==> mem[p] == old(mem[p - dst + src])
      invariant forall p :: 0 <= p < mem.Length && !(dst + done <= p < edi) ==> mem[p] == old(mem[p])
      decreases edx
    {
      mem[edi] := mem[esi];
      edi, esi, edx := edi + 1, esi + 1, edx - 1;
    }
  }

  /** memmove copies downwards when the destination lies above the source; any overlap is fine. */
  method Memmove(mem: array<byte>, dst: nat, src: nat, n: nat)
    requires dst + n <= mem.Length && src + n <= mem.Length
    modifies mem
    ensures Copied(mem, dst, src, n)
  {
    var k := 0;
    if src >= dst {
      while k < n
        invariant 0 <= k <= n
        invariant Copied(mem, dst, src, k)
      {
        mem[dst + k] := mem[src + k];
        k := k + 1;
      }
    } else {
      while k < n
        invariant 0 <= k <= n
        invariant forall p :: dst + n - k <= p < dst + n ==> mem[p] == old(mem[p - dst + src])
        invariant forall p :: 0 <= p < mem.Length && !(dst + n - k <= p < dst + n) ==> mem[p] == old(mem[p])
      {
        mem[dst + n - 1 - k] := mem[src + n - 1 - k];
        k := k + 1;
      }
    }
  }
}
