/** The byte-addressed memory that `lab3/mm.c` reads and writes through its `GET` and `PUT`
    macros. An address is an index into the memory; a word is four bytes, lowest byte first. */
module RawMemory {
  import opened Common

  type byte = x: int | 0 <= x < 256

  /** The number spelled by the bytes at `[p, q)` as base-256 digits, lowest first. */
  function LittleEndian(s: seq<byte>, p: int, q: int): nat
    requires 0 <= p && q <= |s|
    decreases q - p
  {
    if p >= q then 0 else s[p] + 0x100 * LittleEndian(s, p + 1, q)
  }

  lemma FourDigits(s: seq<byte>, p: int)
    requires 0 <= p && p + 4 <= |s|
    ensures LittleEndian(s, p, p + 4)
         == s[p] as int + 0x100 * (s[p + 1] as int + 0x100 * (s[p + 2] as int + 0x100 * s[p + 3] as int))
  {
    assert LittleEndian(s, p + 2, p + 4) == s[p + 2] + 0x100 * LittleEndian(s, p + 3, p + 4);
  }

  /** Digits are determined by the number they spell: a word fixes its bytes. */
  lemma {:induction false} DigitsUnique(s: seq<byte>, t: seq<byte>, p: int, q: int)
    requires 0 <= p && q <= |s| && q <= |t| && LittleEndian(s, p, q) == LittleEndian(t, p, q)
    ensures forall a :: p <= a < q ==> s[a] == t[a]
    decreases q - p
  {
    if p < q { DigitsUnique(s, t, p + 1, q); }
  }

  lemma {:induction false} DigitsFrame(s: seq<byte>, t: seq<byte>, p: int, q: int)
    requires 0 <= p && q <= |s| && q <= |t| && forall a :: p <= a < q ==> s[a] == t[a]
    ensures LittleEndian(s, p, q) == LittleEndian(t, p, q)
    decreases q - p
  {
    if p < q { DigitsFrame(s, t, p + 1, q); }
  }

  /** The word stored at address `p`. */
  function WordAt(s: seq<byte>, p: int): (w: int)
    requires 0 <= p && p + 4 <= |s|
    ensures 0 <= w < SIZE_LIMIT
  {
    FourDigits(s, p);
    LittleEndian(s, p, p + 4)
  }

  /** `s` and `t` have the same length and differ at most inside `[lo, hi)`. */
  ghost predicate SameOutside(s: seq<byte>, t: seq<byte>, lo: int, hi: int) {
    && |s| == |t|
    && forall a :: 0 <= a < |s| && !(lo <= a < hi) ==> t[a] == s[a]
  }

  /** `s` and `t` hold the same bytes in `[lo, hi)`. */
  ghost predicate SameInside(s: seq<byte>, t: seq<byte>, lo: int, hi: int) {
    && |s| == |t|
    && forall a :: 0 <= a < |s| && lo <= a < hi ==> t[a] == s[a]
  }

  /** `GET(p)`: read the word at `p`. */
  function Get(mem: array<byte>, p: int): (w: int)
    requires 0 <= p && p + 4 <= mem.Length
    reads mem
    ensures w == WordAt(mem[..], p)
  {
    LittleEndian(mem[..], p, p + 4)
  }

  lemma SplitWord(v: int)
    requires 0 <= v
    ensures v == v % 0x100 + 0x100 * (v / 0x100 % 0x100 + 0x100 * (v / 0x1_0000 % 0x100 + 0x100 * (v / 0x100_0000)))
  {
    var w := v / 0x100;
    assert v / 0x1_0000 == w / 0x100;
    assert v / 0x100_0000 == w / 0x100 / 0x100;
  }

  /** `PUT(p, v)`: write the word `v` at `p`. */
  method Put(mem: array<byte>, p: int, v: int)
    requires 0 <= p && p + 4 <= mem.Length
    requires 0 <= v < SIZE_LIMIT
    modifies mem
    ensures WordAt(mem[..], p) == v
    ensures SameOutside(old(mem[..]), mem[..], p, p + 4)
  {
    mem[p] := v % 0x100;
    mem[p + 1] := v / 0x100 % 0x100;
    mem[p + 2] := v / 0x1_0000 % 0x100;
    mem[p + 3] := v / 0x100_0000;
    SplitWord(v);
    FourDigits(mem[..], p);
  }

  /** `memset`: fill `n` bytes from `p` with `c`. */
  method Fill(mem: array<byte>, p: int, c: byte, n: nat)
    requires 0 <= p && p + n <= mem.Length
    modifies mem
    ensures SameOutside(old(mem[..]), mem[..], p, p + n)
    ensures forall a :: p <= a < p + n ==> mem[a] == c
  {
    for i := 0 to n
      invariant SameOutside(old(mem[..]), mem[..], p, p + i)
      invariant forall a :: p <= a < p + i ==> mem[a] == c
    {
      mem[p + i] := c;
    }
  }

  /** `memcpy`: copy `n` bytes from `src` to `dst`. As in C, the two areas may not overlap. */
  method Copy(mem: array<byte>, dst: int, src: int, n: nat)
    requires 0 <= src && src + n <= mem.Length
    requires 0 <= dst && dst + n <= mem.Length
    requires src + n <= dst || dst + n <= src
    modifies mem
    ensures SameOutside(old(mem[..]), mem[..], dst, dst + n)
    ensures mem[dst..dst + n] == old(mem[src..src + n])
  {
    for i := 0 to n
      invariant SameOutside(old(mem[..]), mem[..], dst, dst + i)
      invariant mem[dst..dst + i] == old(mem[src..src + i])
    {
      assert mem[src + i] == old(mem[..])[src + i];
      mem[dst + i] := mem[src + i];
      assert mem[dst..dst + i + 1] == mem[dst..dst + i] + [mem[dst + i]];
    }
  }
}
