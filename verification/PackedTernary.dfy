/** Ternary weights packed four to a byte. */
module PackedTernary {

  /** The value a stored weight stands for: anything but 1 and -1 is stored as zero. */
  function Ternary(v: int): int {
    if v == 1 then 1 else if v == -1 then -1 else 0
  }

  function Encode(v: int): bv8 {
    if v == 1 then 1 else if v == -1 then 2 else 0
  }

  function Decode(bits: bv8): int {
    if bits == 1 then 1 else if bits == 2 then -1 else 0
  }

  /** The two bits of a byte at position `k`. */
  function Slot(b: bv8, k: nat): bv8
    requires k < 4
  {
    (b >> (2 * k)) & 3
  }

  lemma DecodeOfEncode(v: int)
    ensures Decode(Encode(v)) == Ternary(v) && Encode(v) <= 2
  {
  }

  /** Or-ing a code into an empty slot fills that slot and leaves the other three alone. */
  lemma FillSlot(b: bv8, e: bv8, k: nat, other: nat)
    requires k < 4 && other < 4 && e <= 3 && Slot(b, k) == 0
    ensures Slot(b | (e << (2 * k)), other) == if other == k then e else Slot(b, other)
  {
    if k == 0 {
      FillSlot0(b, e);
    } else if k == 1 {
      FillSlot1(b, e);
    } else if k == 2 {
      FillSlot2(b, e);
    } else {
      FillSlot3(b, e);
    }
  }

  lemma FillSlot0(b: bv8, e: bv8)
    requires e <= 3 && b & 3 == 0
    ensures ((b | e) >> 0) & 3 == e && ((b | (e << 0)) >> 0) & 3 == e
    ensures ((b | (e << 0)) >> 2) & 3 == (b >> 2) & 3
    ensures ((b | (e << 0)) >> 4) & 3 == (b >> 4) & 3
    ensures ((b | (e << 0)) >> 6) & 3 == (b >> 6) & 3
  {
  }

  lemma FillSlot1(b: bv8, e: bv8)
    requires e <= 3 && (b >> 2) & 3 == 0
    ensures ((b | (e << 2)) >> 2) & 3 == e
    ensures ((b | (e << 2)) >> 0) & 3 == (b >> 0) & 3
    ensures ((b | (e << 2)) >> 4) & 3 == (b >> 4) & 3
    ensures ((b | (e << 2)) >> 6) & 3 == (b >> 6) & 3
  {
  }

  lemma FillSlot2(b: bv8, e: bv8)
    requires e <= 3 && (b >> 4) & 3 == 0
    ensures ((b | (e << 4)) >> 4) & 3 == e
    ensures ((b | (e << 4)) >> 0) & 3 == (b >> 0) & 3
    ensures ((b | (e << 4)) >> 2) & 3 == (b >> 2) & 3
    ensures ((b | (e << 4)) >> 6) & 3 == (b >> 6) & 3
  {
  }

  lemma FillSlot3(b: bv8, e: bv8)
    requires e <= 3 && (b >> 6) & 3 == 0
    ensures ((b | (e << 6)) >> 6) & 3 == e
    ensures ((b | (e << 6)) >> 0) & 3 == (b >> 0) & 3
    ensures ((b | (e << 6)) >> 2) & 3 == (b >> 2) & 3
    ensures ((b | (e << 6)) >> 4) & 3 == (b >> 4) & 3
  {
  }

  lemma EmptySlot(k: nat)
    requires k < 4
    ensures Slot(0, k) == 0
  {
  }

  /** The code that byte `i / 4` of the buffer holds for weight `i`. */
  function CodeAt(data: seq<bv8>, i: nat): bv8
    requires i / 4 < |data|
  {
    Slot(data[i / 4], i % 4)
  }

  class Packed {
    const data: array<bv8>
    const len: nat

    predicate Valid()
      reads data
    {
      data.Length == (len + 3) / 4
    }

    /** What the packed list holds at `i`, read back from its two bits. */
    function Get(i: nat): int
      requires Valid() && i < len
      reads data
    {
      Decode((data[i / 4] >> (2 * (i % 4))) & 3)
    }

    /** Packing is lossless on ternary values, for lists of every length: four to a byte from the lowest bits up, 1 as
        01 and -1 as 10. The unused slots stay zero. */
    constructor Pack(values: seq<int>)
      ensures Valid() && fresh(data) && len == |values|
      ensures forall i :: 0 <= i < len ==> Get(i) == Ternary(values[i])
      ensures forall i :: 0 <= i < len ==>
        (data[i / 4] >> (2 * (i % 4))) & 3 == if values[i] == 1 then 1 else if values[i] == -1 then 2 else 0
      ensures forall i :: len <= i < 4 * data.Length ==> CodeAt(data[..], i) == 0
    {
      len := |values|;
      data := new bv8[(|values| + 3) / 4](_ => 0);
      new;
      forall k | 0 <= k < 4 ensures Slot(0, k) == 0 {
        EmptySlot(k);
      }
      for i := 0 to |values|
        invariant data.Length == (|values| + 3) / 4
        invariant forall j :: 0 <= j < i ==> CodeAt(data[..], j) == Encode(values[j])
        invariant forall j :: i <= j < 4 * data.Length ==> CodeAt(data[..], j) == 0
      {
        var encoded := Encode(values[i]);
        var byte, shift := i / 4, 2 * (i % 4);
        ghost var before := data[..];
        assert CodeAt(before, i) == 0;
        data[byte] := data[byte] | (encoded << shift);
        DecodeOfEncode(values[i]);
        forall j | 0 <= j < 4 * data.Length
          ensures CodeAt(data[..], j) == if j == i then encoded else CodeAt(before, j)
        {
          if j / 4 == byte {
            FillSlot(before[byte], encoded, i % 4, j % 4);
          }
        }
      }
      forall i | 0 <= i < len ensures Get(i) == Ternary(values[i]) {
        assert CodeAt(data[..], i) == Encode(values[i]);
        DecodeOfEncode(values[i]);
      }
    }
  }
}
