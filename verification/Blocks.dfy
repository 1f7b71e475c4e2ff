/** Disk blocks. */
module Blocks {

  const BSIZE: nat := 4096

  type Byte = b: int | 0 <= b < 256

  type Block = s: seq<Byte> | |s| == BSIZE witness seq<Byte>(BSIZE, _ => 0)

  function ZeroBlock(): Block {
    seq<Byte>(BSIZE, _ => 0)
  }

  /** The contents of block `b`; blocks never written are zero. */
  function DiskAt(disk: map<nat, Block>, b: nat): Block {
    if b in disk then disk[b] else ZeroBlock()
  }

  /** The block with its first byte changed. */
  function Changed(b: Block): (c: Block)
    ensures c != b && c[1..] == b[1..]
  {
    var c := b[0 := 255 - b[0]];
    assert c[0] != b[0];
    c
  }
}
