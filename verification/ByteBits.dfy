/** The single bits of a byte. */
module ByteBits {

  /** The byte with only bit `j` set. */
  function Mask(j: nat): bv8
    requires j < 8
  {
    if j == 0 then 0x01 else if j == 1 then 0x02 else if j == 2 then 0x04 else if j == 3 then 0x08
    else if j == 4 then 0x10 else if j == 5 then 0x20 else if j == 6 then 0x40 else 0x80
  }

  lemma MaskIs(j: nat)
    requires j < 8
    ensures Mask(j) == 1 << j
  {
  }

  predicate Bit(b: bv8, j: nat)
    requires j < 8
  {
    b & Mask(j) != 0
  }

  lemma SetBit(b: bv8, j: nat, k: nat)
    requires j < 8 && k < 8
    ensures Bit(b | Mask(j), k) <==> j == k || Bit(b, k)
  {
    var m, l := Mask(j), Mask(k);
    assert (b | m) & l == (b & l) | (m & l);
    assert j != k ==> m & l == 0;
  }
}
