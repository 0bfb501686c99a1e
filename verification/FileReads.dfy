/** read_data, on a caller's buffer. */
module FileReads {
  import opened Bytes
  import opened FileSystem

  /** read_data: the loop over the bytes of a read. */
  method ReadData(img: Image, inode: nat, offset: nat, buf: array<byte>, length: nat) returns (rc: int)
    requires WellFormed(img) && length <= buf.Length
    modifies buf
    ensures rc == ReadOutcome(img, inode, offset, length).rc
    ensures var bytes := StoredBytes(img, inode, offset, length);
            && (forall i :: 0 <= i < |bytes| ==> buf[i] == bytes[i])
            && (forall i :: |bytes| <= i < buf.Length ==> buf[i] == old(buf[i]))
  {
    if inode >= |img.inodes| {
      return -1;
    }
    var n := img.inodes[inode];
    var blockLen := n.length / 4096 + 1;
    var dbOffset := offset / 4096;
    if dbOffset >= blockLen {
      return -1;
    }
    assert n in img.inodes;
    if n.blockNums[dbOffset] >= |img.blocks| {
      return -1;
    }
    rc := ReadBlocks(img, inode, offset, buf, length, StoredBytes(img, inode, offset, length));
  }

  /** Before byte `i` of the loop: block `dbOffset`, the `k`th of this read, is being copied. */
  ghost predicate InLoop(img: Image, inode: nat, offset: nat, i: nat, dbOffset: nat, off: nat, k: nat) {
    && inode < |img.inodes|
    && var n, b, o := img.inodes[inode], offset / BLOCK, offset % BLOCK;
       && b < BlockLen(n) && ValidBlock(img, n, b) && k < GoodBlocks(img, n, b, 1)
       && dbOffset == b + k && off == (if k == 0 then o else 0)
       && BlockOf(o, i) == k && i <= LastOf(o, k)
  }

  /** The file has another block after `dbOffset`, and its number is in range. */
  ghost predicate HasNext(img: Image, inode: nat, dbOffset: nat)
    requires inode < |img.inodes|
  {
    dbOffset + 1 < BlockLen(img.inodes[inode]) && ValidBlock(img, img.inodes[inode], dbOffset + 1)
  }

  /** The loop's body up to the test for a block boundary. */
  method StoreByte(img: Image, inode: nat, offset: nat, length: nat, buf: array<byte>, i: nat, dbOffset: nat, off: nat,
                   ghost k: nat)
    returns (boundary: bool)
    requires WellFormed(img) && InLoop(img, inode, offset, i, dbOffset, off, k) && i < length <= buf.Length
    modifies buf
    ensures i < ReadOutcome(img, inode, offset, length).stored
    ensures buf[i] == StoredByte(img, inode, offset, length, i)
    ensures forall j :: 0 <= j < buf.Length && j != i ==> buf[j] == old(buf[j])
    ensures !boundary ==> InLoop(img, inode, offset, i + 1, dbOffset, off, k)
    ensures boundary && HasNext(img, inode, dbOffset) ==> InLoop(img, inode, offset, i + 1, dbOffset + 1, 0, k + 1)
    ensures boundary && !HasNext(img, inode, dbOffset) ==>
              ReadOutcome(img, inode, offset, length)
              == Outcome(if dbOffset + 1 == BlockLen(img.inodes[inode]) then i else -1, i + 1)
  {
    NextByte(offset % BLOCK, i, k);
    ByteStep(img, inode, offset, length, k, i);
    buf[i] := ByteIn(img, img.inodes[inode], dbOffset, (i + off) % 4096);
    boundary := (i + off + 1) % 4096 == 0;
    if boundary && !HasNext(img, inode, dbOffset) {
      LastByte(img, inode, offset, length, k, i);
    }
  }

  lemma LoopEnds(img: Image, inode: nat, offset: nat, i: nat, dbOffset: nat, off: nat, k: nat)
    requires InLoop(img, inode, offset, i, dbOffset, off, k)
    ensures ReadOutcome(img, inode, offset, i) == Outcome(i, i)
  {
    var n, b := img.inodes[inode], offset / BLOCK;
    LastIsMonotone(offset % BLOCK, k, GoodBlocks(img, n, b, 1) - 1);
  }

  /** The loop of read_data. */
  method ReadBlocks(img: Image, inode: nat, offset: nat, buf: array<byte>, length: nat, ghost bytes: seq<byte>)
    returns (rc: int)
    requires WellFormed(img) && inode < |img.inodes| && length <= buf.Length
    requires offset / BLOCK < BlockLen(img.inodes[inode]) && ValidBlock(img, img.inodes[inode], offset / BLOCK)
    requires bytes == StoredBytes(img, inode, offset, length)
    modifies buf
    ensures rc == ReadOutcome(img, inode, offset, length).rc
    ensures forall i :: 0 <= i < |bytes| ==> buf[i] == bytes[i]
    ensures forall i :: |bytes| <= i < buf.Length ==> buf[i] == old(buf[i])
  {
    var n := img.inodes[inode];
    var dbOffset: nat, off: nat := offset / 4096, offset % 4096;
    var blockLen := n.length / 4096 + 1;
    assert n in img.inodes;
    ghost var k := 0;
    var i := 0;
    while i < length
      invariant 0 <= i <= length && InLoop(img, inode, offset, i, dbOffset, off, k)
      invariant i <= |bytes| && forall j :: 0 <= j < i ==> buf[j] == bytes[j]
      invariant forall j :: i <= j < buf.Length ==> buf[j] == old(buf[j])
    {
      var boundary := StoreByte(img, inode, offset, length, buf, i, dbOffset, off, k);
      if boundary {
        dbOffset := dbOffset + 1;
        if dbOffset == blockLen {
          return i;
        }
        if n.blockNums[dbOffset] >= |img.blocks| {
          return -1;
        }
        off := 0;
        k := k + 1;
      }
      i := i + 1;
    }
    LoopEnds(img, inode, offset, i, dbOffset, off, k);
    return i;
  }

  ghost function StoredBytes(img: Image, inode: nat, offset: nat, length: nat): (s: seq<byte>)
    requires WellFormed(img)
    ensures |s| == ReadOutcome(img, inode, offset, length).stored
    ensures forall i: nat :: i < |s| ==> s[i] == StoredByte(img, inode, offset, length, i)
  {
    var r := ReadOutcome(img, inode, offset, length);
    seq(r.stored, (i: nat) requires i < r.stored => StoredByte(img, inode, offset, length, i))
  }

  /** Byte `i` of the loop, which comes from the `k`th block, is one that the read stores. */
  lemma ByteStep(img: Image, inode: nat, offset: nat, length: nat, k: nat, i: nat)
    requires WellFormed(img) && inode < |img.inodes| && i < length
    requires var n, b, o := img.inodes[inode], offset / BLOCK, offset % BLOCK;
             && b < BlockLen(n) && ValidBlock(img, n, b) && k < GoodBlocks(img, n, b, 1)
             && BlockOf(o, i) == k && i <= LastOf(o, k)
    ensures ValidBlock(img, img.inodes[inode], offset / BLOCK + k)
    ensures i < ReadOutcome(img, inode, offset, length).stored
    ensures img.inodes[inode] in img.inodes
    ensures StoredByte(img, inode, offset, length, i)
         == ByteIn(img, img.inodes[inode], offset / BLOCK + k, (i + if k == 0 then offset % BLOCK else 0) % BLOCK)
  {
    var n, b, o := img.inodes[inode], offset / BLOCK, offset % BLOCK;
    LastIsMonotone(o, k, GoodBlocks(img, n, b, 1) - 1);
    NextByte(o, i, k);
  }

  /** At the end of the last good block the read ends. */
  lemma LastByte(img: Image, inode: nat, offset: nat, length: nat, k: nat, i: nat)
    requires WellFormed(img) && inode < |img.inodes| && i < length
    requires var n, b, o := img.inodes[inode], offset / BLOCK, offset % BLOCK;
             && b < BlockLen(n) && ValidBlock(img, n, b) && k < GoodBlocks(img, n, b, 1)
             && i == LastOf(o, k)
             && (b + k + 1 == BlockLen(n) || !ValidBlock(img, n, b + k + 1))
    ensures ReadOutcome(img, inode, offset, length)
         == Outcome(if offset / BLOCK + k + 1 == BlockLen(img.inodes[inode]) then i else -1, i + 1)
  {
  }

  lemma ResultIsStored(img: Image, inode: nat, offset: nat, length: nat)
    requires WellFormed(img) && ReadOutcome(img, inode, offset, length).rc >= 0
    ensures var r := ReadOutcome(img, inode, offset, length);
            r.rc <= r.stored && StoredBytes(img, inode, offset, length)[..r.rc] == Delivered(img, inode, offset, length)
  {
  }
}
