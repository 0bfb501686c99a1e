/** Readers: open files that are read in chunks of one size, several of them in any order. */
module ReadRuns {
  import opened Bytes
  import opened Wrappers
  import opened Descriptors
  import opened FileSystem

  /** A descriptor and the chunk size its owner always asks for. */
  datatype Reader = Reader(fd: Descriptor, chunk: nat)

  /** `a` is a multiple of `b`. */
  ghost predicate Multiple(a: nat, b: nat) {
    exists m: nat :: a == Times(m, b)
  }

  function Times(m: nat, b: nat): nat {
    m * b
  }

  lemma MultipleNext(a: nat, b: nat)
    requires Multiple(a, b)
    ensures Multiple(a + b, b)
  {
    var m: nat :| a == Times(m, b);
    assert Times(m + 1, b) == a + b;
  }

  lemma {:induction false} MultipleOfProduct(m: nat, q: nat, b: nat) returns (d: nat, r: nat)
    requires q > 0
    ensures r < q && m * b == d * (q * b) + r * b
    decreases m
  {
    if m < q {
      d, r := 0, m;
    } else {
      d, r := MultipleOfProduct(m - q, q, b);
      assert m * b == (m - q) * b + q * b;
      d := d + 1;
    }
  }

  /** A chunk that divides the block size never crosses a block boundary. */
  lemma ChunkStaysInBlock(position: nat, chunk: nat)
    requires Multiple(BLOCK, chunk) && Multiple(position, chunk)
    ensures position % BLOCK + chunk <= BLOCK
  {
    var q: nat :| BLOCK == Times(q, chunk);
    var m: nat :| position == Times(m, chunk);
    var d, r := MultipleOfProduct(m, q, chunk);
    RestOfBlock(position, d, r, q, chunk);
  }

  lemma RestOfBlock(position: nat, d: nat, r: nat, q: nat, chunk: nat)
    requires r < q && q * chunk == BLOCK && position == d * BLOCK + r * chunk && chunk > 0
    ensures position % BLOCK + chunk <= BLOCK
  {
    assert r * chunk + chunk == (r + 1) * chunk;
    MulMonotone(r + 1, q, chunk);
    assert r * chunk < BLOCK;
  }

  lemma MulMonotone(a: nat, b: nat, c: nat)
    requires a <= b
    ensures a * c <= b * c
  {
  }

  // ---------- chunk sizes ----------

  /** Reading a file of `blocks` blocks in chunks of this size delivers it in order: the chunk
      divides the block size, or is a multiple of it, or the chunk after the first reaches into the
      last block only. */
  ghost predicate KeepsOrder(blocks: nat, chunk: nat) {
    || Multiple(BLOCK, chunk)
    || chunk % BLOCK == 0
    || blocks <= chunk / BLOCK + 1
    || (chunk % BLOCK == 1 && blocks == chunk / BLOCK + 2)
  }

  /** The offsets at which such reads start. */
  ghost predicate Reached(blocks: nat, chunk: nat, offset: nat) {
    && offset < BLOCK * blocks
    && (|| offset == 0
        || offset / BLOCK + 1 == blocks
        || (Multiple(BLOCK, chunk) && Multiple(offset, chunk))
        || (chunk % BLOCK == 0 && offset % BLOCK == 0)
        || (offset == chunk && chunk > 1 && chunk % BLOCK == 1 && blocks == chunk / BLOCK + 2))
  }

  lemma ReachedIsStraight(blocks: nat, chunk: nat, offset: nat)
    requires Reached(blocks, chunk, offset)
    ensures offset / BLOCK < blocks && Straight(blocks, offset, chunk)
  {
    if Multiple(BLOCK, chunk) && Multiple(offset, chunk) {
      ChunkStaysInBlock(offset, chunk);
    }
  }

  lemma ReachedNext(blocks: nat, chunk: nat, offset: nat)
    requires KeepsOrder(blocks, chunk) && Reached(blocks, chunk, offset) && offset / BLOCK < blocks
    ensures Reached(blocks, chunk, offset + ResultOf(blocks, offset, chunk))
  {
    if offset / BLOCK + 1 < blocks {
      if offset == 0 {
        FirstChunk(blocks, chunk);
      } else if Multiple(BLOCK, chunk) && Multiple(offset, chunk) {
        ChunkStaysInBlock(offset, chunk);
        MultipleNext(offset, chunk);
      }
    }
  }

  lemma FirstChunk(blocks: nat, chunk: nat)
    requires KeepsOrder(blocks, chunk) && blocks > 1
    ensures Reached(blocks, chunk, ResultOf(blocks, 0, chunk))
  {
    assert Times(1, chunk) == chunk && Times(BLOCK, 1) == BLOCK;
    assert Multiple(chunk, chunk);
    assert chunk == 1 ==> Multiple(BLOCK, chunk);
  }

  // ---------- one reader ----------

  /** `got` is the file up to the offset. */
  ghost predicate Got(img: Image, inode: nat, got: seq<byte>, offset: nat)
    requires WellFormed(img) && ReadableInode(img, inode)
  {
    offset <= Total(img, inode) && got == Flat(img, img.inodes[inode])[..offset]
  }

  /** What has been delivered so far is the beginning of the file, and so will be what is to come. */
  ghost predicate InOrder(img: Image, r: Reader, got: seq<byte>)
    requires WellFormed(img)
  {
    && ReadableInode(img, r.fd.inode)
    && var blocks := BlockLen(img.inodes[r.fd.inode]);
       && KeepsOrder(blocks, r.chunk) && Reached(blocks, r.chunk, r.fd.position)
       && Got(img, r.fd.inode, got, r.fd.position)
  }

  function NextRead(img: Image, r: Reader): Reader {
    r.(fd := r.fd.(position := Advance(r.fd.position, ReadOutcome(img, r.fd.inode, r.fd.position, r.chunk).rc)))
  }

  lemma NextOffset(img: Image, inode: nat, p: nat, chunk: nat)
    requires WellFormed(img) && ReadableInode(img, inode) && p / BLOCK < BlockLen(img.inodes[inode])
    ensures Advance(p, ReadOutcome(img, inode, p, chunk).rc) == p + ResultOf(BlockLen(img.inodes[inode]), p, chunk)
  {
    GoodOutcome(img, inode, p, chunk);
    TotalIsSmall(img, inode);
  }

  /** What comes next is the file's if and only if the read delivers what lies at its offset. */
  lemma GotNext(img: Image, inode: nat, got: seq<byte>, p: nat, chunk: nat)
    requires WellFormed(img) && ReadableInode(img, inode) && p / BLOCK < BlockLen(img.inodes[inode])
    requires Got(img, inode, got, p)
    ensures var next := p + ResultOf(BlockLen(img.inodes[inode]), p, chunk);
            && Advance(p, ReadOutcome(img, inode, p, chunk).rc) == next
            && (Got(img, inode, got + Delivered(img, inode, p, chunk), next) <==> DeliversFlat(img, inode, p, chunk))
  {
    NextOffset(img, inode, p, chunk);
    AddedPart(Flat(img, img.inodes[inode]), got, p, p + ResultOf(BlockLen(img.inodes[inode]), p, chunk),
              Delivered(img, inode, p, chunk));
  }

  lemma TotalIsSmall(img: Image, inode: nat)
    requires WellFormed(img) && inode < |img.inodes|
    ensures Total(img, inode) < BLOCK * DATA_NUMBER
  {
    assert img.inodes[inode] in img.inodes;
  }

  lemma AddedPart(s: seq<byte>, got: seq<byte>, a: nat, b: nat, part: seq<byte>)
    requires a <= b <= |s| && got == s[..a]
    ensures got + part == s[..b] <==> part == s[a..b]
  {
    assert (s[..a] + part)[a..] == part;
    assert s[..b][a..] == s[a..b];
    assert s[..a] + s[a..b] == s[..b];
  }

  lemma ReadContinues(img: Image, r: Reader, got: seq<byte>)
    requires WellFormed(img) && InOrder(img, r, got)
    ensures var next := r.fd.position + ResultOf(BlockLen(img.inodes[r.fd.inode]), r.fd.position, r.chunk);
            && NextRead(img, r) == r.(fd := r.fd.(position := next))
            && Reached(BlockLen(img.inodes[r.fd.inode]), r.chunk, next)
            && Got(img, r.fd.inode, got + Delivered(img, r.fd.inode, r.fd.position, r.chunk), next)
  {
    var inode, p := r.fd.inode, r.fd.position;
    ReachedIsStraight(BlockLen(img.inodes[inode]), r.chunk, p);
    ReachedNext(BlockLen(img.inodes[inode]), r.chunk, p);
    StraightDelivers(img, inode, p, r.chunk);
    GotNext(img, inode, got, p, r.chunk);
  }

  /** One read keeps the order and, unless everything has been delivered, makes progress. */
  lemma ReadKeepsOrder(img: Image, r: Reader, got: seq<byte>)
    requires WellFormed(img) && InOrder(img, r, got)
    ensures InOrder(img, NextRead(img, r), got + Delivered(img, r.fd.inode, r.fd.position, r.chunk))
    ensures r.chunk > 0 && r.fd.position < Total(img, r.fd.inode) ==> r.fd.position < NextRead(img, r).fd.position
    ensures r.chunk > 0 ==>
              (ReadOutcome(img, r.fd.inode, r.fd.position, r.chunk).rc == 0
               <==> r.fd.position == Total(img, r.fd.inode))
  {
    ReadContinues(img, r, got);
    GoodOutcome(img, r.fd.inode, r.fd.position, r.chunk);
  }

  /** A reader that gets 0 has the whole file. */
  lemma EndOfFileMeansAll(img: Image, r: Reader, got: seq<byte>)
    requires WellFormed(img) && InOrder(img, r, got) && r.chunk > 0
    requires ReadOutcome(img, r.fd.inode, r.fd.position, r.chunk).rc == 0
    ensures got == Flat(img, img.inodes[r.fd.inode]) && |got| >= img.inodes[r.fd.inode].length
  {
    ReadKeepsOrder(img, r, got);
    FileIsDeliverable(img.inodes[r.fd.inode]);
  }

  /** The descriptor that sys_open returns for a regular file is at its start. */
  lemma OpenIsInOrder(img: Image, fds: seq<Descriptor>, inode: nat, chunk: nat)
    requires |fds| == FD_COUNT && OpenResult(fds, Some(Entry(inode, 2))) >= 0
    requires WellFormed(img) && ReadableInode(img, inode) && KeepsOrder(BlockLen(img.inodes[inode]), chunk)
    ensures var fd := Opened(fds, Some(Entry(inode, 2)))[OpenResult(fds, Some(Entry(inode, 2)))];
            fd.ops == RegularFileOps && InOrder(img, Reader(fd, chunk), [])
  {
    OpenThenRead(fds, Some(Entry(inode, 2)));
  }

  // ---------- several readers ----------

  /** The readers, and what each of them has got. */
  datatype Reading = Reading(readers: seq<Reader>, got: seq<seq<byte>>)

  ghost function ReadBy(img: Image, s: Reading, d: nat): (s': Reading)
    requires WellFormed(img) && |s.readers| == |s.got| && d < |s.got|
    ensures |s'.readers| == |s'.got| == |s.got|
  {
    var r := s.readers[d];
    Reading(s.readers[d := NextRead(img, r)],
            s.got[d := s.got[d] + Delivered(img, r.fd.inode, r.fd.position, r.chunk)])
  }

  /** Reads by the readers `which[0]`, `which[1]`, ... */
  ghost function ReadAll(img: Image, s: Reading, which: seq<nat>): Reading
    requires WellFormed(img) && |s.readers| == |s.got|
    decreases |which|
  {
    if which == [] then s
    else if which[0] >= |s.got| then ReadAll(img, s, which[1..])
    else ReadAll(img, ReadBy(img, s, which[0]), which[1..])
  }

  ghost predicate AllInOrder(img: Image, s: Reading)
    requires WellFormed(img)
  {
    |s.readers| == |s.got| && forall d :: 0 <= d < |s.got| ==> InOrder(img, s.readers[d], s.got[d])
  }

  /** However the reads of several descriptors are interleaved, each delivers its file in order. */
  lemma {:induction false} InterleavedReads(img: Image, s: Reading, which: seq<nat>)
    requires WellFormed(img) && AllInOrder(img, s)
    ensures AllInOrder(img, ReadAll(img, s, which))
    decreases |which|
  {
    if which != [] {
      if which[0] < |s.got| {
        ReadKeepsOrder(img, s.readers[which[0]], s.got[which[0]]);
        InterleavedReads(img, ReadBy(img, s, which[0]), which[1..]);
      } else {
        InterleavedReads(img, s, which[1..]);
      }
    }
  }

  // ---------- no other chunk sizes ----------

  /** A reader that has just opened a file. */
  function Start(inode: nat, chunk: nat): Reader {
    At(inode, chunk, 0)
  }

  /** The reader after some reads, and what it has got. */
  datatype Progress = Progress(r: Reader, got: seq<byte>)

  function Advanced(img: Image, p: Progress): Progress
    requires WellFormed(img)
  {
    Progress(NextRead(img, p.r), p.got + Delivered(img, p.r.fd.inode, p.r.fd.position, p.r.chunk))
  }

  function Step(img: Image): (step: Progress -> Progress)
    requires WellFormed(img)
  {
    (p: Progress) => Advanced(img, p)
  }

  function Iterated(step: Progress -> Progress, p: Progress, n: nat): Progress {
    if n == 0 then p else step(Iterated(step, p, n - 1))
  }

  function After(img: Image, r: Reader, n: nat): Progress
    requires WellFormed(img)
  {
    Iterated(Step(img), Progress(r, []), n)
  }

  ghost predicate Keeps(step: Progress -> Progress, k: nat, p: Progress, good: (nat, Progress) -> bool) {
    good(k, p) ==> good(k + 1, step(p))
  }

  /** What holds at the start and is kept by every step, holds after `n` steps. */
  lemma {:induction false} Kept(step: Progress -> Progress, p: Progress, n: nat, good: (nat, Progress) -> bool,
                                limit: nat)
    requires good(0, p) && n <= limit
    requires forall k: nat, q: Progress {:trigger Keeps(step, k, q, good)} :: k < limit ==> Keeps(step, k, q, good)
    ensures good(n, Iterated(step, p, n))
  {
    if n > 0 {
      Kept(step, p, n - 1, good, limit);
      assert Keeps(step, n - 1, Iterated(step, p, n - 1), good);
    }
  }

  /** A reader stays with the file if and only if its next read delivers what lies at its offset. */
  lemma AdvancedGot(img: Image, p: Progress)
    requires WellFormed(img) && ReadableInode(img, p.r.fd.inode)
    requires Got(img, p.r.fd.inode, p.got, p.r.fd.position)
    ensures Got(img, p.r.fd.inode, Advanced(img, p).got, Advanced(img, p).r.fd.position)
       <==> DeliversFlat(img, p.r.fd.inode, p.r.fd.position, p.r.chunk)
  {
    GotNext(img, p.r.fd.inode, p.got, p.r.fd.position, p.r.chunk);
  }

  /** After `n` reads the bytes up to the offset have been delivered. */
  ghost predicate Beginning(img: Image, inode: nat, chunk: nat, n: nat)
    requires WellFormed(img) && ReadableInode(img, inode)
  {
    var p := After(img, Start(inode, chunk), n);
    Got(img, inode, p.got, p.r.fd.position)
  }

  lemma GoodChunks(img: Image, inode: nat, chunk: nat, n: nat)
    requires WellFormed(img) && InOrder(img, Start(inode, chunk), [])
    ensures Beginning(img, inode, chunk, n)
  {
    var good := (k: nat, p: Progress) => p.r.fd.inode == inode && InOrder(img, p.r, p.got);
    forall k: nat, p: Progress
      ensures Keeps(Step(img), k, p, good)
    {
      if good(k, p) { ReadKeepsOrder(img, p.r, p.got); }
    }
    Kept(Step(img), Progress(Start(inode, chunk), []), n, good, n);
  }

  /** The number of reads before one goes astray. */
  function Whole(chunk: nat): nat
    requires chunk > 0
  {
    if chunk < BLOCK then BLOCK / chunk else 1
  }

  lemma WholeReads(img: Image, inode: nat, chunk: nat)
    requires WellFormed(img) && ReadableInode(img, inode) && chunk > 0
    requires chunk / BLOCK + 1 < BlockLen(img.inodes[inode])
    ensures var p := After(img, Start(inode, chunk), Whole(chunk));
            p.r == At(inode, chunk, Whole(chunk) * chunk) && Got(img, inode, p.got, Whole(chunk) * chunk)
  {
    var good := (k: nat, p: Progress) => p.r == At(inode, chunk, k * chunk) && Got(img, inode, p.got, k * chunk);
    forall k: nat, p: Progress | k < Whole(chunk)
      ensures Keeps(Step(img), k, p, good)
    {
      WholeFits(chunk, k + 1);
      if good(k, p) { OneWholeRead(img, inode, chunk, k * chunk, p.got); }
    }
    Kept(Step(img), Progress(Start(inode, chunk), []), Whole(chunk), good, Whole(chunk));
  }

  function At(inode: nat, chunk: nat, p: nat): Reader {
    Reader(Descriptor(RegularFileOps, inode, p, true), chunk)
  }

  lemma OneWholeRead(img: Image, inode: nat, chunk: nat, p: nat, got: seq<byte>)
    requires WellFormed(img) && ReadableInode(img, inode) && chunk / BLOCK + 1 < BlockLen(img.inodes[inode])
    requires p + chunk <= (if chunk < BLOCK then BLOCK else chunk) && Got(img, inode, got, p)
    ensures NextRead(img, At(inode, chunk, p)) == At(inode, chunk, p + chunk)
    ensures Got(img, inode, got + Delivered(img, inode, p, chunk), p + chunk)
  {
    WholeRead(BlockLen(img.inodes[inode]), chunk, p);
    StraightDelivers(img, inode, p, chunk);
    GotNext(img, inode, got, p, chunk);
  }

  lemma WholeRead(blocks: nat, chunk: nat, p: nat)
    requires chunk / BLOCK + 1 < blocks && p + chunk <= if chunk < BLOCK then BLOCK else chunk
    ensures p / BLOCK < blocks && Straight(blocks, p, chunk) && ResultOf(blocks, p, chunk) == chunk
  {
  }

  lemma WholeFits(chunk: nat, n: nat)
    requires chunk > 0 && n <= Whole(chunk)
    ensures n * chunk <= if chunk < BLOCK then BLOCK else chunk
    ensures n > 0 ==> (n - 1) * chunk + chunk == n * chunk && (chunk >= BLOCK ==> n == 1)
  {
    if chunk < BLOCK {
      MulMonotone(n, BLOCK / chunk, chunk);
      assert BLOCK / chunk * chunk <= BLOCK;
    }
  }

  /** After these reads the next one is not straight. */
  lemma NextStrays(blocks: nat, chunk: nat)
    requires !KeepsOrder(blocks, chunk)
    ensures chunk > 0
    ensures var p := Whole(chunk) * chunk;
            p / BLOCK < blocks && !Straight(blocks, p, chunk)
  {
    if chunk < BLOCK {
      var m := BLOCK / chunk;
      assert BLOCK == chunk * m + BLOCK % chunk;
      assert m * chunk != BLOCK by {
        assert !Multiple(BLOCK, chunk);
        assert BLOCK != Times(m, chunk);
      }
      assert chunk == 1 ==> Times(BLOCK, chunk) == BLOCK;
      ProductNotOne(m, chunk);
    }
  }

  lemma ProductNotOne(m: nat, chunk: nat)
    requires chunk > 1
    ensures m * chunk != 1
  {
    if m >= 1 { MulMonotone(1, m, chunk); }
  }

  /** The mark is found at the wrong place. */
  lemma StrayReader(blocks: nat, chunk: nat)
    requires 0 < blocks <= DATA_NUMBER && !KeepsOrder(blocks, chunk)
    ensures exists img: Image, n: nat :: HasFile(img, 0, blocks) && !Beginning(img, 0, chunk, n)
  {
    NextStrays(blocks, chunk);
    var m := Whole(chunk);
    var p := m * chunk;
    var mark, i := Stray(blocks, p, chunk);
    var img := MarkedImage(blocks, mark);
    WholeReads(img, 0, chunk);
    AdvancedGot(img, After(img, Start(0, chunk), m));
    assert After(img, Start(0, chunk), m + 1) == Advanced(img, After(img, Start(0, chunk), m));
    assert !Beginning(img, 0, chunk, m + 1);
  }

  /** For every file length: reading in chunks of one size delivers every such file in order, however
      often it is read, if and only if the chunk size suits. */
  lemma ChunksKeepOrderIff(blocks: nat, chunk: nat)
    requires 0 < blocks <= DATA_NUMBER
    ensures (forall img: Image, inode: nat, n: nat :: HasFile(img, inode, blocks) ==> Beginning(img, inode, chunk, n))
       <==> KeepsOrder(blocks, chunk)
  {
    if KeepsOrder(blocks, chunk) {
      forall img: Image, inode: nat, n: nat | HasFile(img, inode, blocks)
        ensures Beginning(img, inode, chunk, n)
      {
        GoodChunks(img, inode, chunk, n);
      }
    } else {
      StrayReader(blocks, chunk);
    }
  }
}
