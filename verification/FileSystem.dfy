/** The read-only file system image, and what reading a file delivers. */
module FileSystem {
  import opened Bytes

  const BLOCK: nat := 4096
  const DATA_NUMBER: nat := 1023
  const ENTRY_NUM: nat := 63
  const FILENAME_LEN: nat := 32

  datatype Inode = Inode(length: nat, blockNums: seq<nat>)
  datatype Dentry = Dentry(filename: seq<byte>, filetype: nat, inodeNum: nat)
  datatype Image = Image(dentries: seq<Dentry>, inodes: seq<Inode>, blocks: seq<seq<byte>>)

  /** Number of blocks of a file: one more than its length fills. */
  function BlockLen(n: Inode): nat {
    n.length / BLOCK + 1
  }

  predicate WellFormed(img: Image) {
    && |img.dentries| == ENTRY_NUM
    && (forall d :: d in img.dentries ==> |d.filename| == FILENAME_LEN)
    && (forall n :: n in img.inodes ==> |n.blockNums| == DATA_NUMBER && BlockLen(n) <= DATA_NUMBER)
    && (forall b :: b in img.blocks ==> |b| == BLOCK)
  }

  /** Block `k` of a file exists. */
  predicate ValidBlock(img: Image, n: Inode, k: nat) {
    k < |n.blockNums| && n.blockNums[k] < |img.blocks|
  }

  predicate AllBlocksValid(img: Image, n: Inode) {
    forall k :: 0 <= k < BlockLen(n) ==> ValidBlock(img, n, k)
  }

  function ByteIn(img: Image, n: Inode, k: nat, at: nat): byte
    requires WellFormed(img) && n in img.inodes && ValidBlock(img, n, k) && at < BLOCK
  {
    assert img.blocks[n.blockNums[k]] in img.blocks;
    img.blocks[n.blockNums[k]][at]
  }

  // ---------- which bytes one read delivers ----------

  /** The block, counted from the one the read starts in at `o`, that byte `i` comes from. */
  function BlockOf(o: nat, i: nat): nat {
    if i + o < BLOCK then 0 else if o == 0 then i / BLOCK else 1 + i / BLOCK
  }

  /** Its place in that block: after a block boundary the offset counts from the start of the
      read, not from the boundary. */
  function PlaceOf(o: nat, i: nat): (at: nat)
    ensures at < BLOCK
  {
    if i + o < BLOCK then i + o else i % BLOCK
  }

  /** The last byte that comes from the `k`th block. */
  function LastOf(o: nat, k: nat): nat
    requires o < BLOCK
  {
    if k == 0 then BLOCK - 1 - o else if o == 0 then BLOCK * (k + 1) - 1 else BLOCK * k - 1
  }

  lemma NextByte(o: nat, i: nat, k: nat)
    requires o < BLOCK && BlockOf(o, i) == k && i <= LastOf(o, k)
    ensures BlockOf(o, i + 1) == if i == LastOf(o, k) then k + 1 else k
    ensures i == LastOf(o, k) ==> LastOf(o, k + 1) > i
    ensures PlaceOf(o, i) == (i + if k == 0 then o else 0) % BLOCK
    ensures (i + (if k == 0 then o else 0) + 1) % BLOCK == 0 <==> i == LastOf(o, k)
  {
  }

  /** The number of blocks from block `b` on that are read before the file ends or a block number
      is out of range. */
  function GoodBlocks(img: Image, n: Inode, b: nat, k: nat): (g: nat)
    requires b + k <= BlockLen(n)
    ensures k <= g && b + g <= BlockLen(n)
    ensures b + g < BlockLen(n) ==> !ValidBlock(img, n, b + g)
    ensures forall j :: b + k <= j < b + g ==> ValidBlock(img, n, j)
    decreases BlockLen(n) - b - k
  {
    if b + k == BlockLen(n) || !ValidBlock(img, n, b + k) then k else GoodBlocks(img, n, b, k + 1)
  }

  /** The result of read_data, and how many bytes it stores. */
  datatype Outcome = Outcome(rc: int, stored: nat)

  function ReadOutcome(img: Image, inode: nat, offset: nat, length: nat): (r: Outcome)
    ensures r.stored <= length
  {
    if inode >= |img.inodes| then Outcome(-1, 0)
    else
      var n, b, o := img.inodes[inode], offset / BLOCK, offset % BLOCK;
      if b >= BlockLen(n) || !ValidBlock(img, n, b) then Outcome(-1, 0)
      else
        var g := GoodBlocks(img, n, b, 1);
        var last := LastOf(o, g - 1);
        if length <= last then Outcome(length, length)
        else if b + g == BlockLen(n) then Outcome(last, last + 1)
        else Outcome(-1, last + 1)
  }

  /** Byte `i` that a read stores. */
  function StoredByte(img: Image, inode: nat, offset: nat, length: nat, i: nat): byte
    requires WellFormed(img) && i < ReadOutcome(img, inode, offset, length).stored
  {
    var n, b, o := img.inodes[inode], offset / BLOCK, offset % BLOCK;
    StoredInGoodBlock(img, inode, offset, length, i);
    ByteIn(img, n, b + BlockOf(o, i), PlaceOf(o, i))
  }

  lemma StoredInGoodBlock(img: Image, inode: nat, offset: nat, length: nat, i: nat)
    requires WellFormed(img) && i < ReadOutcome(img, inode, offset, length).stored
    ensures inode < |img.inodes|
    ensures var n, b, o := img.inodes[inode], offset / BLOCK, offset % BLOCK;
            b < BlockLen(n) && BlockOf(o, i) < GoodBlocks(img, n, b, 1) && ValidBlock(img, n, b + BlockOf(o, i))
  {
    var n, b, o := img.inodes[inode], offset / BLOCK, offset % BLOCK;
    var g := GoodBlocks(img, n, b, 1);
    assert i <= LastOf(o, g - 1);
    BlockBound(o, i, g - 1);
  }

  lemma BlockBound(o: nat, i: nat, k: nat)
    requires o < BLOCK && i <= LastOf(o, k)
    ensures BlockOf(o, i) <= k
  {
  }

  // ---------- the file as a flat sequence of bytes ----------

  function FlatByte(img: Image, n: Inode, p: nat): byte
    requires WellFormed(img) && n in img.inodes && AllBlocksValid(img, n) && p < BLOCK * BlockLen(n)
  {
    ByteIn(img, n, p / BLOCK, p % BLOCK)
  }

  /** All bytes that reading can deliver: the file's blocks without the very last byte. */
  function Flat(img: Image, n: Inode): (s: seq<byte>)
    requires WellFormed(img) && n in img.inodes && AllBlocksValid(img, n)
    ensures |s| == BLOCK * BlockLen(n) - 1
  {
    seq(BLOCK * BlockLen(n) - 1, (p: nat) requires p < BLOCK * BlockLen(n) => FlatByte(img, n, p))
  }

  /** The position in the file that byte `i` of a read comes from. */
  function SourcePosition(offset: nat, i: nat): nat {
    BLOCK * (offset / BLOCK + BlockOf(offset % BLOCK, i)) + PlaceOf(offset % BLOCK, i)
  }

  /** A read of `count` bytes takes them from consecutive positions if and only if it starts at a
      block boundary or does not cross one. */
  lemma ConsecutiveIff(offset: nat, count: nat)
    ensures (forall i: nat :: i < count ==> SourcePosition(offset, i) == offset + i)
       <==> offset % BLOCK == 0 || offset % BLOCK + count <= BLOCK
  {
    var o := offset % BLOCK;
    if o == 0 || o + count <= BLOCK {
      forall i: nat | i < count
        ensures SourcePosition(offset, i) == offset + i
      {
      }
    } else {
      assert SourcePosition(offset, BLOCK - o) != offset + (BLOCK - o);
    }
  }

  /** Every byte of the file is among the deliverable ones. */
  lemma FileIsDeliverable(n: Inode)
    ensures n.length <= BLOCK * BlockLen(n) - 1
  {
  }

  function Total(img: Image, inode: nat): nat
    requires inode < |img.inodes|
  {
    BLOCK * BlockLen(img.inodes[inode]) - 1
  }

  /** read_f: the descriptor moves on by the result, as an unsigned 32-bit sum. */
  function Advance(position: nat, rc: int): nat {
    (position + rc) % 0x1_0000_0000
  }

  /** The bytes a caller of read gets. */
  function Delivered(img: Image, inode: nat, offset: nat, length: nat): (s: seq<byte>)
    requires WellFormed(img)
  {
    var r := ReadOutcome(img, inode, offset, length);
    if 0 <= r.rc <= r.stored
    then seq(r.rc, (i: nat) requires i < r.stored => StoredByte(img, inode, offset, length, i)) else []
  }

  /** The byte that a read stores at `i` is the one of the flat file at that position. */
  lemma StoredIsFlat(img: Image, inode: nat, offset: nat, length: nat, i: nat)
    requires WellFormed(img) && ReadableInode(img, inode) && i < ReadOutcome(img, inode, offset, length).stored
    ensures SourcePosition(offset, i) < BLOCK * BlockLen(img.inodes[inode])
    ensures StoredByte(img, inode, offset, length, i) == FlatByte(img, img.inodes[inode], SourcePosition(offset, i))
  {
    StoredInGoodBlock(img, inode, offset, length, i);
    var k, at := offset / BLOCK + BlockOf(offset % BLOCK, i), PlaceOf(offset % BLOCK, i);
    assert (BLOCK * k + at) / BLOCK == k && (BLOCK * k + at) % BLOCK == at;
  }

  lemma AllGood(img: Image, n: Inode, b: nat)
    requires AllBlocksValid(img, n) && b < BlockLen(n)
    ensures GoodBlocks(img, n, b, 1) == BlockLen(n) - b
  {
  }

  predicate ReadableInode(img: Image, inode: nat) {
    inode < |img.inodes| && AllBlocksValid(img, img.inodes[inode])
  }

  /** A file of `blocks` blocks, all of them valid. */
  predicate HasFile(img: Image, inode: nat, blocks: nat) {
    WellFormed(img) && ReadableInode(img, inode) && BlockLen(img.inodes[inode]) == blocks
  }

  /** The result of a read in a file of `blocks` blocks. */
  function ResultOf(blocks: nat, offset: nat, length: nat): (rc: nat)
    requires offset / BLOCK < blocks
    ensures rc <= length && offset + rc < BLOCK * blocks
    ensures length > 0 && offset < BLOCK * blocks - 1 ==> rc > 0
  {
    var last := LastOf(offset % BLOCK, blocks - offset / BLOCK - 1);
    if length <= last then length else last
  }

  lemma GoodOutcome(img: Image, inode: nat, offset: nat, length: nat)
    requires WellFormed(img) && ReadableInode(img, inode) && offset / BLOCK < BlockLen(img.inodes[inode])
    ensures ReadOutcome(img, inode, offset, length).rc == ResultOf(BlockLen(img.inodes[inode]), offset, length)
    ensures ReadOutcome(img, inode, offset, length).rc <= ReadOutcome(img, inode, offset, length).stored
  {
    AllGood(img, img.inodes[inode], offset / BLOCK);
  }

  /** A read starts at a block boundary, or does not cross one, or crosses none before the file ends. */
  predicate Straight(blocks: nat, offset: nat, length: nat) {
    || offset % BLOCK == 0
    || offset % BLOCK + length <= BLOCK
    || offset / BLOCK + 1 == blocks
    || (offset % BLOCK == 1 && offset / BLOCK + 2 == blocks)
  }

  /** These are the reads that deliver bytes from consecutive positions. */
  lemma StraightIff(blocks: nat, offset: nat, length: nat)
    requires offset / BLOCK < blocks
    ensures (forall i: nat :: i < ResultOf(blocks, offset, length) ==> SourcePosition(offset, i) == offset + i)
       <==> Straight(blocks, offset, length)
  {
    var o, rc := offset % BLOCK, ResultOf(blocks, offset, length);
    ConsecutiveIff(offset, rc);
    if o != 0 {
      assert o + rc <= BLOCK <==>
             o + length <= BLOCK || offset / BLOCK + 1 == blocks || (o == 1 && offset / BLOCK + 2 == blocks);
    }
  }

  /** A read delivers what lies at its offset in the flat file. */
  ghost predicate DeliversFlat(img: Image, inode: nat, offset: nat, length: nat)
    requires WellFormed(img) && ReadableInode(img, inode) && offset / BLOCK < BlockLen(img.inodes[inode])
  {
    var rc := ResultOf(BlockLen(img.inodes[inode]), offset, length);
    Delivered(img, inode, offset, length) == Flat(img, img.inodes[inode])[offset..offset + rc]
  }

  lemma StraightDelivers(img: Image, inode: nat, offset: nat, length: nat)
    requires WellFormed(img) && ReadableInode(img, inode) && offset / BLOCK < BlockLen(img.inodes[inode])
    requires Straight(BlockLen(img.inodes[inode]), offset, length)
    ensures DeliversFlat(img, inode, offset, length)
  {
    var n := img.inodes[inode];
    var rc := ResultOf(BlockLen(n), offset, length);
    GoodOutcome(img, inode, offset, length);
    StraightIff(BlockLen(n), offset, length);
    forall i: nat | i < rc
      ensures Delivered(img, inode, offset, length)[i] == Flat(img, n)[offset..offset + rc][i]
    {
      assert SourcePosition(offset, i) == offset + i;
      StoredIsFlat(img, inode, offset, length, i);
    }
  }

  // ---------- a file that tells positions apart ----------

  const EMPTY_DENTRY: Dentry := Dentry(seq(FILENAME_LEN, i => NUL), 0, 0)

  /** A file of `blocks` blocks that is zero everywhere but at `mark`. */
  function MarkedImage(blocks: nat, mark: nat): (img: Image)
    requires 0 < blocks <= DATA_NUMBER
    ensures HasFile(img, 0, blocks)
  {
    Image(seq(ENTRY_NUM, i => EMPTY_DENTRY),
          [Inode(BLOCK * (blocks - 1), seq(DATA_NUMBER, i => i))],
          seq(blocks, (k: nat) => seq(BLOCK, (at: nat) => if BLOCK * k + at == mark then 1 else NUL)))
  }

  lemma MarkedByte(blocks: nat, mark: nat, p: nat)
    requires 0 < blocks <= DATA_NUMBER && p < BLOCK * blocks
    ensures FlatByte(MarkedImage(blocks, mark), MarkedImage(blocks, mark).inodes[0], p) == if p == mark then 1 else NUL
  {
    assert BLOCK * (p / BLOCK) + p % BLOCK == p;
  }

  /** For every file length, offset and number of bytes: a read delivers the bytes at its offset,
      whatever the file holds, if and only if it is straight. */
  lemma ReadIsFlatIff(blocks: nat, offset: nat, length: nat)
    requires 0 < blocks <= DATA_NUMBER && offset / BLOCK < blocks
    ensures (forall img: Image, inode: nat :: HasFile(img, inode, blocks) ==> DeliversFlat(img, inode, offset, length))
       <==> Straight(blocks, offset, length)
  {
    if Straight(blocks, offset, length) {
      forall img: Image, inode: nat | HasFile(img, inode, blocks)
        ensures DeliversFlat(img, inode, offset, length)
      {
        StraightDelivers(img, inode, offset, length);
      }
    } else {
      var mark, i := Stray(blocks, offset, length);
      assert !DeliversFlat(MarkedImage(blocks, mark), 0, offset, length);
    }
  }

  /** A read that is not straight goes astray at some byte. */
  lemma Stray(blocks: nat, offset: nat, length: nat) returns (mark: nat, i: nat)
    requires 0 < blocks <= DATA_NUMBER && offset / BLOCK < blocks && !Straight(blocks, offset, length)
    ensures i < ResultOf(blocks, offset, length) && mark == offset + i
    ensures !DeliversFlat(MarkedImage(blocks, mark), 0, offset, length)
  {
    StraightIff(blocks, offset, length);
    i :| i < ResultOf(blocks, offset, length) && SourcePosition(offset, i) != offset + i;
    mark := offset + i;
    FlatAt(MarkedImage(blocks, mark), 0, offset, length, i);
    MarkedByte(blocks, mark, SourcePosition(offset, i));
    MarkedByte(blocks, mark, mark);
  }

  lemma FlatAt(img: Image, inode: nat, offset: nat, length: nat, i: nat)
    requires WellFormed(img) && ReadableInode(img, inode) && offset / BLOCK < BlockLen(img.inodes[inode])
    requires i < ResultOf(BlockLen(img.inodes[inode]), offset, length)
    ensures SourcePosition(offset, i) < BLOCK * BlockLen(img.inodes[inode])
    ensures DeliversFlat(img, inode, offset, length) ==>
              FlatByte(img, img.inodes[inode], SourcePosition(offset, i))
              == FlatByte(img, img.inodes[inode], offset + i)
  {
    var n, rc := img.inodes[inode], ResultOf(BlockLen(img.inodes[inode]), offset, length);
    GoodOutcome(img, inode, offset, length);
    StoredIsFlat(img, inode, offset, length, i);
    assert Delivered(img, inode, offset, length)[i] == FlatByte(img, n, SourcePosition(offset, i));
    assert Flat(img, n)[offset..offset + rc][i] == FlatByte(img, n, offset + i);
  }

  /** In particular a read from a block boundary delivers as much of the file as was asked for. */
  lemma AlignedRead(img: Image, inode: nat, offset: nat, length: nat)
    requires WellFormed(img) && ReadableInode(img, inode)
    requires offset % BLOCK == 0 && offset < BLOCK * BlockLen(img.inodes[inode])
    ensures var rc := if offset + length <= Total(img, inode) then length else Total(img, inode) - offset;
            && ReadOutcome(img, inode, offset, length).rc == rc
            && Delivered(img, inode, offset, length) == Flat(img, img.inodes[inode])[offset..offset + rc]
  {
    GoodOutcome(img, inode, offset, length);
    StraightDelivers(img, inode, offset, length);
  }

  // ---------- in terms of the image alone ----------

  lemma LastIsMonotone(o: nat, k: nat, m: nat)
    requires o < BLOCK && k <= m
    ensures LastOf(o, k) <= LastOf(o, m)
  {
  }

  /** A byte lies at a place of the block whose number the inode holds at index `k`. */
  predicate ByteAt(img: Image, n: Inode, k: nat, at: nat, c: byte) {
    k < |n.blockNums| && n.blockNums[k] < |img.blocks| && at < |img.blocks[n.blockNums[k]]|
    && c == img.blocks[n.blockNums[k]][at]
  }

  /** Where any read takes its bytes from: the first ones from the offset on, up to the end of that
      block; the others from the following blocks, but counted from the start of the read. */
  lemma StoredByteIs(img: Image, inode: nat, offset: nat, length: nat, i: nat)
    requires WellFormed(img) && i < ReadOutcome(img, inode, offset, length).stored
    ensures inode < |img.inodes|
    ensures var b, o := offset / 4096, offset % 4096;
            ByteAt(img, img.inodes[inode],
                   if o + i < 4096 then b else if o == 0 then b + i / 4096 else b + 1 + i / 4096,
                   if o + i < 4096 then o + i else i % 4096,
                   StoredByte(img, inode, offset, length, i))
  {
    ByteAtSource(img, inode, offset, length, i);
  }

  lemma ByteAtSource(img: Image, inode: nat, offset: nat, length: nat, i: nat)
    requires WellFormed(img) && i < ReadOutcome(img, inode, offset, length).stored
    ensures inode < |img.inodes|
    ensures ByteAt(img, img.inodes[inode], offset / BLOCK + BlockOf(offset % BLOCK, i), PlaceOf(offset % BLOCK, i),
                   StoredByte(img, inode, offset, length, i))
  {
    StoredInGoodBlock(img, inode, offset, length, i);
    var n, k := img.inodes[inode], offset / BLOCK + BlockOf(offset % BLOCK, i);
    assert n in img.inodes && img.blocks[n.blockNums[k]] in img.blocks;
  }

  /** Byte `p` of a file is byte p % 4096 of the block whose number its inode holds at index p / 4096. */
  lemma FlatByteIs(img: Image, inode: nat, p: nat)
    requires WellFormed(img) && ReadableInode(img, inode) && p < |Flat(img, img.inodes[inode])|
    ensures |Flat(img, img.inodes[inode])| == 4096 * (img.inodes[inode].length / 4096 + 1) - 1
    ensures ByteAt(img, img.inodes[inode], p / 4096, p % 4096, Flat(img, img.inodes[inode])[p])
  {
    var n := img.inodes[inode];
    assert ValidBlock(img, n, p / BLOCK);
    assert img.blocks[n.blockNums[p / BLOCK]] in img.blocks;
  }

  /** A straight read delivers the bytes of the file from the offset on. */
  lemma DeliveredByteIs(img: Image, inode: nat, offset: nat, length: nat, i: nat)
    requires WellFormed(img) && ReadableInode(img, inode) && offset / 4096 <= img.inodes[inode].length / 4096
    requires || offset % 4096 == 0
             || offset % 4096 + length <= 4096
             || offset / 4096 == img.inodes[inode].length / 4096
             || (offset % 4096 == 1 && offset / 4096 + 1 == img.inodes[inode].length / 4096)
    requires i < |Delivered(img, inode, offset, length)|
    ensures ByteAt(img, img.inodes[inode], (offset + i) / 4096, (offset + i) % 4096,
                   Delivered(img, inode, offset, length)[i])
  {
    GoodOutcome(img, inode, offset, length);
    StraightIff(BlockLen(img.inodes[inode]), offset, length);
    assert SourcePosition(offset, i) == offset + i;
    ByteAtSource(img, inode, offset, length, i);
    SameSource(offset, i);
  }

  lemma SameSource(offset: nat, i: nat)
    requires SourcePosition(offset, i) == offset + i
    ensures (offset + i) / BLOCK == offset / BLOCK + BlockOf(offset % BLOCK, i)
    ensures (offset + i) % BLOCK == PlaceOf(offset % BLOCK, i)
  {
  }

  /** How many bytes have been read when the `k`th block boundary is reached. */
  function Boundary(o: nat, k: nat): int {
    if o == 0 then 4096 * k else if k <= 1 then 4096 - o else 4096 * (k - 1)
  }

  /** Block `k` of the file is missing, and the read gets there. */
  predicate RunsInto(img: Image, n: Inode, offset: nat, length: nat, k: nat) {
    && 0 < k && offset / 4096 + k <= n.length / 4096
    && offset / 4096 + k < |n.blockNums| && n.blockNums[offset / 4096 + k] >= |img.blocks|
    && length >= Boundary(offset % 4096, k)
  }

  /** A read fails exactly if there is no such inode, if it starts behind the last block or in a
      missing one, or if it runs into a missing one. Otherwise it returns what it was asked for, but
      stops one short of the end of the last block. */
  lemma ReadResultIs(img: Image, inode: nat, offset: nat, length: nat)
    requires WellFormed(img)
    ensures var rc := ReadOutcome(img, inode, offset, length).rc;
            if inode >= |img.inodes| then rc == -1
            else
              var n, b := img.inodes[inode], offset / 4096;
              if b > n.length / 4096 || b >= |n.blockNums| || n.blockNums[b] >= |img.blocks| then rc == -1
              else if exists k: nat :: RunsInto(img, n, offset, length, k) then rc == -1
              else
                var all := Boundary(offset % 4096, n.length / 4096 + 1 - b);
                rc == if length < all then length else all - 1
  {
    if inode < |img.inodes| {
      var n, b := img.inodes[inode], offset / 4096;
      assert n in img.inodes;
      if b <= n.length / 4096 && n.blockNums[b] < |img.blocks| {
        ReadResultFrom(img, n, offset, length);
      }
    }
  }

  lemma ReadResultFrom(img: Image, n: Inode, offset: nat, length: nat)
    requires WellFormed(img) && n in img.inodes
    requires offset / BLOCK < BlockLen(n) && ValidBlock(img, n, offset / BLOCK)
    ensures var g, o := GoodBlocks(img, n, offset / BLOCK, 1), offset % BLOCK;
            && Boundary(o, g) == LastOf(o, g - 1) + 1
            && ((exists k: nat :: RunsInto(img, n, offset, length, k))
                <==> offset / BLOCK + g < BlockLen(n) && length >= Boundary(o, g))
  {
    var b, o := offset / BLOCK, offset % BLOCK;
    var g := GoodBlocks(img, n, b, 1);
    if b + g < BlockLen(n) && length >= Boundary(o, g) {
      assert RunsInto(img, n, offset, length, g);
    }
    forall k: nat | RunsInto(img, n, offset, length, k)
      ensures b + g < BlockLen(n) && length >= Boundary(o, g)
    {
      assert !ValidBlock(img, n, b + k);
      LastIsMonotone(o, g - 1, k - 1);
    }
  }
}
