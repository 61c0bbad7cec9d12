/** Disk blocks of a MINIX volume, and the little-endian zone pointers an
    indirect block holds. */
module MinixBlocks {
  import opened Bytes

  const BLOCK_SIZE := 1024
  const PTRS := 512 // BLOCK_SIZE / sizeof(uint16_t)

  type Zone16 = x: int | 0 <= x < 65536
  type Block = b: seq<Byte> | |b| == BLOCK_SIZE witness seq(BLOCK_SIZE, _ => 0)

  /** The block `kmemset(buffer, 0, MINIX_BLOCK_SIZE)` produces. */
  function ZeroBlock(): Block {
    seq(BLOCK_SIZE, _ => 0)
  }

  /** `((uint16_t *)buffer)[i]` on a little-endian machine. */
  function Ptr(b: Block, i: nat): Zone16
    requires i < PTRS
  {
    var lo: int := b[2 * i];
    var hi: int := b[2 * i + 1];
    lo + 256 * hi
  }

  /** `((uint16_t *)buffer)[i] = v`. */
  function SetPtr(b: Block, i: nat, v: Zone16): Block
    requires i < PTRS
  {
    b[2 * i := v % 256][2 * i + 1 := v / 256]
  }

  lemma PtrOfSetPtr(b: Block, i: nat, v: Zone16, j: nat)
    requires i < PTRS && j < PTRS
    ensures Ptr(SetPtr(b, i, v), j) == if j == i then v else Ptr(b, j)
  {
  }

  ghost predicate NoPtrs(b: Block) {
    forall i :: 0 <= i < PTRS ==> Ptr(b, i) == 0
  }

  /** The scan that decides whether an indirect block has become empty. */
  method IsEmptyPointerBlock(b: Block) returns (empty: bool)
    ensures empty <==> NoPtrs(b)
  {
    for i := 0 to PTRS
      invariant forall k :: 0 <= k < i ==> Ptr(b, k) == 0
    {
      if Ptr(b, i) != 0 {
        return false;
      }
    }
    return true;
  }

  /** Overlay `chunk` on a block from byte `off` (`kmemcpy(buffer + off, ...)`). */
  function Splice(b: Block, off: nat, chunk: seq<Byte>): Block
    requires off + |chunk| <= BLOCK_SIZE
  {
    b[..off] + chunk + b[off + |chunk|..]
  }
}
