/** The little-endian integer primitives every scalar wire type is built on. */
module Primitives {
  import opened Wire
  import opened ByteBuffer

  /** uint64(c) << (8 * i): a shift by 64 bits or more yields zero. */
  function ShiftedByte(c: Byte, i: nat): nat
  {
    if i < 8 then c * Pow256(i) else 0
  }

  /** One more byte read by the reader loop keeps its result equal to the
      little-endian value of what it has read so far. */
  lemma ReadStep(input: seq<Byte>, i: nat, c: Byte)
    requires c == if i < |input| then input[i] else 0
    ensures LeValue(Take(input, Min(i + 1, 8))) == LeValue(Take(input, Min(i, 8))) + ShiftedByte(c, i)
  {
    if i < 8 && i < |input| {
      assert Take(input, i + 1) == Take(input, i) + [input[i]];
      LeValueSnoc(Take(input, i), input[i]);
    } else {
      assert Take(input, Min(i + 1, 8)) == Take(input, Min(i, 8));
    }
  }

  /** A byte shifted above the bits of r lands on bits of r that are still
      zero: the sum keeps r in its low bits and the byte above them, so it is
      the bitwise OR of the two. */
  lemma OrIsSum(r: nat, c: Byte, i: nat)
    requires i < 8 && r < Pow256(i)
    ensures (r + ShiftedByte(c, i)) % Pow256(i) == r
    ensures (r + ShiftedByte(c, i)) / Pow256(i) == c
  {
    DivModUnique(r + c * Pow256(i), Pow256(i), c, r);
  }

  /** Reads s bytes from the cursor and assembles them least significant first. */
  method BytesToUint(b: Buffer, s: nat) returns (r: U64)
    modifies b
    ensures r == ReadUint(old(b.unread), s)
    ensures b.unread == Drop(old(b.unread), s)
  {
    ghost var input := b.unread;
    r := 0;
    var i := 0;
    while i < s
      invariant 0 <= i <= s
      invariant b.unread == Drop(input, i)
      invariant r == LeValue(Take(input, Min(i, 8)))
      invariant r < Pow256(Min(i, 8))
    {
      var c, _ := b.ReadByte();
      ReadStep(input, i, c);
      ghost var next := Take(input, Min(i + 1, 8));
      LeValueBound(next);
      PowMonotone(|next|, Min(i + 1, 8));
      PowMonotone(Min(i + 1, 8), 8);
      if i < 8 {
        OrIsSum(r, c, i);
      }
      r := r + ShiftedByte(c, i);
      i := i + 1;
    }
  }

  /** Writes the s low-order bytes of v, least significant first. */
  method UintToBytes(v: U64, s: nat) returns (b: array<Byte>)
    ensures fresh(b)
    ensures b[..] == LeBytes(v, s)
    ensures forall k :: 0 <= k < s ==> b[k] == v / Pow256(k) % 256
  {
    b := new Byte[s];
    var w := v;
    var i := 0;
    while i < s
      invariant 0 <= i <= s
      invariant b[..i] + LeBytes(w, s - i) == LeBytes(v, s)
    {
      b[i] := w % 256;
      assert b[..i + 1] == b[..i] + [w % 256];
      w := w / 256;
      i := i + 1;
    }
    assert b[..] == b[..s];
    forall k | 0 <= k < s
      ensures b[k] == v / Pow256(k) % 256
    {
      LeBytesAt(v, s, k);
    }
  }
}
