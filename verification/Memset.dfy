/** The kernel's memset: the ends are written byte by byte, the middle word by word (kernel/mem/kmalloc.c). */
module Memset {
  import opened Bytes

  /** How far the next multiple of four is. */
  function ToAligned(address: nat): nat {
    var a: int := address;
    -a % 4
  }

  /** memset of n bytes at the start of a buffer that lies at `address`: all of them are set, and no other byte.
      Only whole words at multiples of four are written as words. */
  method Memset(dest: array<byte>, address: nat, c: int, n: nat)
    requires n <= dest.Length
    modifies dest
    ensures forall i :: 0 <= i < n ==> dest[i] == c % 256
    ensures forall i :: n <= i < dest.Length ==> dest[i] == old(dest[i])
  {
    var b: byte := c % 256;
    if n == 0 { return; }
    dest[0], dest[n - 1] := b, b;
    if n <= 2 { return; }
    dest[1], dest[n - 2] := b, b;
    dest[2], dest[n - 3] := b, b;
    if n <= 6 { return; }
    dest[3], dest[n - 4] := b, b;
    if n <= 8 { return; }
    var k := ToAligned(address);
    assert (address + k) % 4 == 0;
    var words := (n - k) / 4;
    FillWords(dest, k, words, b);
  }

  /** The loop over words of four bytes. */
  method FillWords(dest: array<byte>, start: nat, words: nat, b: byte)
    requires start + 4 * words <= dest.Length
    modifies dest
    ensures forall i :: start <= i < start + 4 * words ==> dest[i] == b
    ensures forall i :: 0 <= i < start || start + 4 * words <= i < dest.Length ==> dest[i] == old(dest[i])
  {
    var at, left := start, words;
    while left > 0
      invariant 0 <= left <= words && at == start + 4 * (words - left)
      invariant forall i :: start <= i < at ==> dest[i] == b
      invariant forall i :: 0 <= i < start || at <= i < dest.Length ==> dest[i] == old(dest[i])
    {
      dest[at], dest[at + 1], dest[at + 2], dest[at + 3] := b, b, b, b;
      at, left := at + 4, left - 1;
    }
  }
}
