/** The zone bitmap of a MINIX volume and its search hint
    (fs/minix_fs.c:222-319). A set bit means the zone is FREE. */
module MinixZmap {

  const MAX_ZONES := 65535

  function Bit(b: nat): bv8
    requires b < 8
  {
    1 << b
  }

  /** `minix_is_zone_free`: outside the data zones, and past the end of the
      bitmap, nothing is free. */
  predicate FreeBit(m: seq<bv8>, first: nat, z: nat) {
    && first <= z < MAX_ZONES
    && (z - first) / 8 < |m|
    && m[(z - first) / 8] & Bit((z - first) % 8) != 0
  }

  function ClearBit(m: seq<bv8>, first: nat, z: nat): seq<bv8>
    requires first <= z && (z - first) / 8 < |m|
  {
    m[(z - first) / 8 := m[(z - first) / 8] & !Bit((z - first) % 8)]
  }

  function SetBit(m: seq<bv8>, first: nat, z: nat): seq<bv8>
    requires first <= z && (z - first) / 8 < |m|
  {
    m[(z - first) / 8 := m[(z - first) / 8] | Bit((z - first) % 8)]
  }

  lemma BitsOfByte(x: bv8, b: nat, c: nat)
    requires b < 8 && c < 8
    ensures (x & !Bit(b)) & Bit(c) == if b == c then 0 else x & Bit(c)
    ensures (x | Bit(b)) & Bit(c) == if b == c then Bit(c) else x & Bit(c)
    ensures Bit(c) != 0
  {
    var p, q := Bit(b), Bit(c);
    assert b == c || p & q == 0 by {
      assert Bit(0) == 1 && Bit(1) == 2 && Bit(2) == 4 && Bit(3) == 8;
      assert Bit(4) == 16 && Bit(5) == 32 && Bit(6) == 64 && Bit(7) == 128;
    }
  }

  lemma ClearBitEffect(m: seq<bv8>, first: nat, z: nat, y: nat)
    requires first <= z < MAX_ZONES && (z - first) / 8 < |m|
    ensures FreeBit(ClearBit(m, first, z), first, y) <==> FreeBit(m, first, y) && y != z
  {
    if first <= y < MAX_ZONES && (y - first) / 8 == (z - first) / 8 {
      BitsOfByte(m[(z - first) / 8], (z - first) % 8, (y - first) % 8);
    }
  }

  lemma SetBitEffect(m: seq<bv8>, first: nat, z: nat, y: nat)
    requires first <= z < MAX_ZONES && (z - first) / 8 < |m|
    ensures FreeBit(SetBit(m, first, z), first, y) <==> FreeBit(m, first, y) || y == z
  {
    if first <= y < MAX_ZONES && (y - first) / 8 == (z - first) / 8 {
      BitsOfByte(m[(z - first) / 8], (z - first) % 8, (y - first) % 8);
    }
  }
}
