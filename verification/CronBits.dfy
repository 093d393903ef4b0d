/** The bit arrays of a cron expression. */
module CronBits {

  type Bits = seq<bv8>

  function Mask(k: int): bv8 {
    if k == 0 then 1 else if k == 1 then 2 else if k == 2 then 4 else if k == 3 then 8
    else if k == 4 then 16 else if k == 5 then 32 else if k == 6 then 64 else 128
  }

  predicate Has(b: bv8, k: int) {
    b & Mask(k) != 0
  }

  function With(b: bv8, k: int): bv8 {
    b | Mask(k)
  }

  function Without(b: bv8, k: int): bv8 {
    b & !Mask(k)
  }

  /** Setting or clearing a bit of a byte changes that bit alone. */
  lemma OneBit(b: bv8, j: int, k: int)
    requires 0 <= j < 8 && 0 <= k < 8
    ensures Has(With(b, j), k) == (j == k || Has(b, k))
    ensures Has(Without(b, j), k) == (j != k && Has(b, k))
  {
    BitSet(b, j, k);
    BitCleared(b, j, k);
    hide Has, With, Without;
  }

  lemma BitSet(b: bv8, j: int, k: int)
    requires 0 <= j < 8 && 0 <= k < 8
    ensures Has(With(b, j), k) == (j == k || Has(b, k))
  {
  }

  lemma BitCleared(b: bv8, j: int, k: int)
    requires 0 <= j < 8 && 0 <= k < 8
    ensures Has(Without(b, j), k) == (j != k && Has(b, k))
  {
  }

  /** `cron_get_bit`. */
  predicate GetBit(bits: Bits, i: int)
    requires 0 <= i < 8 * |bits|
  {
    Has(bits[i / 8], i % 8)
  }

  function SetBit(bits: Bits, i: int): Bits
    requires 0 <= i < 8 * |bits|
  {
    bits[i / 8 := With(bits[i / 8], i % 8)]
  }

  function DelBit(bits: Bits, i: int): Bits
    requires 0 <= i < 8 * |bits|
  {
    bits[i / 8 := Without(bits[i / 8], i % 8)]
  }

  /** The numbers whose bits are set. */
  function Members(bits: Bits): set<int> {
    set i | 0 <= i < 8 * |bits| && GetBit(bits, i)
  }

  lemma SetBitAt(bits: Bits, i: int, j: int)
    requires 0 <= i < 8 * |bits| && 0 <= j < 8 * |bits|
    ensures GetBit(SetBit(bits, i), j) == (j == i || GetBit(bits, j))
    ensures GetBit(DelBit(bits, i), j) == (j != i && GetBit(bits, j))
  {
    hide Has, With, Without;
    OneBit(bits[i / 8], i % 8, j % 8);
    assert i == j <==> i / 8 == j / 8 && i % 8 == j % 8;
  }

  /** Setting and clearing bits is adding to and removing from a set of numbers. */
  lemma BitsAreASet(bits: Bits, i: int)
    requires 0 <= i < 8 * |bits|
    ensures Members(SetBit(bits, i)) == Members(bits) + {i}
    ensures Members(DelBit(bits, i)) == Members(bits) - {i}
  {
    hide GetBit;
    forall j | 0 <= j < 8 * |bits|
      ensures GetBit(SetBit(bits, i), j) == (j == i || GetBit(bits, j))
      ensures GetBit(DelBit(bits, i), j) == (j != i && GetBit(bits, j))
    {
      SetBitAt(bits, i, j);
    }
  }

  /** `cron_set_bit` on a bit array. */
  method CronSetBit(rbyte: array<bv8>, idx: int)
    requires 0 <= idx < 8 * rbyte.Length
    modifies rbyte
    ensures Members(rbyte[..]) == Members(old(rbyte[..])) + {idx}
  {
    BitsAreASet(rbyte[..], idx);
    ghost var after := SetBit(rbyte[..], idx);
    rbyte[idx / 8] := With(rbyte[idx / 8], idx % 8);
    assert rbyte[..] == after;
  }

  /** `cron_del_bit` on a bit array. */
  method CronDelBit(rbyte: array<bv8>, idx: int)
    requires 0 <= idx < 8 * rbyte.Length
    modifies rbyte
    ensures Members(rbyte[..]) == Members(old(rbyte[..])) - {idx}
  {
    BitsAreASet(rbyte[..], idx);
    ghost var after := DelBit(rbyte[..], idx);
    rbyte[idx / 8] := Without(rbyte[idx / 8], idx % 8);
    assert rbyte[..] == after;
  }
}
