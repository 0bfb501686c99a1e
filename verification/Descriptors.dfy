/** The descriptor table of a process: what opening and closing files do to it. */
module Descriptors {
  import opened Wrappers

  const FD_COUNT: nat := 8
  const FD_START: nat := 2

  datatype FileOps = StdinOps | StdoutOps | RtcOps | DirectoryOps | RegularFileOps | BadOps

  datatype Descriptor = Descriptor(ops: FileOps, inode: nat, position: nat, inUse: bool)

  /** What the directory says about a file. */
  datatype Entry = Entry(inode: nat, filetype: nat)

  /** The handlers for a type of file; an unknown type has none. */
  function OpsFor(filetype: nat): Option<FileOps> {
    match filetype
    case 0 => Some(RtcOps)
    case 1 => Some(DirectoryOps)
    case 2 => Some(RegularFileOps)
    case _ => None
  }

  /** The first free descriptor from `i` on, or 8. */
  function FreeFrom(fds: seq<Descriptor>, i: nat): (n: nat)
    requires |fds| == FD_COUNT && i <= FD_COUNT
    ensures i <= n <= FD_COUNT && (n < FD_COUNT ==> !fds[n].inUse)
    ensures forall q :: i <= q < n ==> fds[q].inUse
    decreases FD_COUNT - i
  {
    if i == FD_COUNT || !fds[i].inUse then i else FreeFrom(fds, i + 1)
  }

  /** The table after sys_open, given the result of the lookup: the descriptor is taken even when
      the type of the file is unknown, and then keeps its old handlers. */
  function Opened(fds: seq<Descriptor>, found: Option<Entry>): (r: seq<Descriptor>)
    requires |fds| == FD_COUNT
    ensures |r| == FD_COUNT
  {
    var i := FreeFrom(fds, FD_START);
    if found.None? || i == FD_COUNT then fds
    else
      var ops := OpsFor(found.value.filetype);
      fds[i := Descriptor(if ops.Some? then ops.value else fds[i].ops, found.value.inode, 0, true)]
  }

  function OpenResult(fds: seq<Descriptor>, found: Option<Entry>): int
    requires |fds| == FD_COUNT
  {
    var i := FreeFrom(fds, FD_START);
    if found.None? || i == FD_COUNT || OpsFor(found.value.filetype).None? then -1 else i
  }

  predicate Closable(fds: seq<Descriptor>, fd: int)
    requires |fds| == FD_COUNT
  {
    FD_START <= fd < FD_COUNT && fds[fd].inUse
  }

  function Closed(fds: seq<Descriptor>, fd: int): (r: seq<Descriptor>)
    requires |fds| == FD_COUNT
    ensures |r| == FD_COUNT
  {
    if Closable(fds, fd) then fds[fd := fds[fd].(inUse := false)] else fds
  }

  /** The close handler of a descriptor without handlers fails. */
  function CloseResult(fds: seq<Descriptor>, fd: int): int
    requires |fds| == FD_COUNT
  {
    if Closable(fds, fd) && fds[fd].ops != BadOps then 0 else -1
  }

  /** The handlers whose read routine sys_read calls. */
  function ReaderOf(fds: seq<Descriptor>, fd: int): Option<FileOps>
    requires |fds| == FD_COUNT
  {
    if 0 <= fd < FD_COUNT && fd != 1 && fds[fd].inUse then Some(fds[fd].ops) else None
  }

  /** sys_open succeeds exactly on a known file of a known type while a descriptor is free. */
  lemma OpenSucceeds(fds: seq<Descriptor>, found: Option<Entry>)
    requires |fds| == FD_COUNT
    ensures OpenResult(fds, found) >= 0
       <==> found.Some? && found.value.filetype <= 2 && exists i :: FD_START <= i < FD_COUNT && !fds[i].inUse
    ensures OpenResult(fds, found) >= 0 || OpenResult(fds, found) == -1
  {
    if i :| FD_START <= i < FD_COUNT && !fds[i].inUse {
      assert FreeFrom(fds, FD_START) <= i;
    }
  }

  /** The lowest free descriptor from 2 on reads from the start of the file through the handlers of
      its type; the others are untouched. */
  lemma OpenThenRead(fds: seq<Descriptor>, found: Option<Entry>)
    requires |fds| == FD_COUNT && OpenResult(fds, found) >= 0
    ensures var fd, after := OpenResult(fds, found), Opened(fds, found);
            && 2 <= fd < 8 && !fds[fd].inUse && (forall lower :: 2 <= lower < fd ==> fds[lower].inUse)
            && after[fd].inUse && after[fd].inode == found.value.inode && after[fd].position == 0
            && (forall other :: 0 <= other < 8 && other != fd ==> after[other] == fds[other])
    ensures var fd, after, filetype := OpenResult(fds, found), Opened(fds, found), found.value.filetype;
            && (ReaderOf(after, fd) == Some(RtcOps) <==> filetype == 0)
            && (ReaderOf(after, fd) == Some(DirectoryOps) <==> filetype == 1)
            && (ReaderOf(after, fd) == Some(RegularFileOps) <==> filetype == 2)
            && ReaderOf(after, fd) == Some(after[fd].ops)
  {
  }

  /** An open that fails changes nothing, unless the file is known but of an unknown type: then the
      lowest free descriptor is taken all the same. */
  lemma FailedOpen(fds: seq<Descriptor>, found: Option<Entry>)
    requires |fds| == FD_COUNT && OpenResult(fds, found) < 0
    ensures OpenResult(fds, found) == -1
    ensures found.None? || (forall i :: 2 <= i < 8 ==> fds[i].inUse) ==> Opened(fds, found) == fds
    ensures forall fd :: 2 <= fd < 8 && found.Some? && !fds[fd].inUse
                         && (forall lower :: 2 <= lower < fd ==> fds[lower].inUse) ==>
              Opened(fds, found) == fds[fd := Descriptor(fds[fd].ops, found.value.inode, 0, true)]
  {
    var n := FreeFrom(fds, FD_START);
    forall fd | 2 <= fd < 8 && !fds[fd].inUse && (forall lower :: 2 <= lower < fd ==> fds[lower].inUse)
      ensures fd == n
    {
      assert n <= fd;
    }
  }

  /** Closing works for descriptors from 2 to 7 that are in use, and clears their flag only. */
  lemma CloseIs(fds: seq<Descriptor>, fd: int)
    requires |fds| == FD_COUNT
    ensures CloseResult(fds, fd) == 0 || CloseResult(fds, fd) == -1
    ensures CloseResult(fds, fd) == 0 <==> 2 <= fd < 8 && fds[fd].inUse && fds[fd].ops != BadOps
    ensures forall i :: 0 <= i < 8 ==>
              Closed(fds, fd)[i] == if i == fd && 2 <= fd then fds[i].(inUse := false) else fds[i]
  {
  }

  /** sys_read calls nothing for descriptors out of range, for the output and for unused ones. */
  lemma ReaderIs(fds: seq<Descriptor>, fd: int)
    requires |fds| == FD_COUNT
    ensures fd < 0 || fd > 7 || fd == 1 || !fds[fd].inUse ==> ReaderOf(fds, fd) == None
    ensures !(fd < 0 || fd > 7 || fd == 1 || !fds[fd].inUse) ==> ReaderOf(fds, fd) == Some(fds[fd].ops)
  {
  }

  /** Closing the descriptor again frees exactly it. */
  lemma CloseUndoesOpen(fds: seq<Descriptor>, found: Option<Entry>)
    requires |fds| == FD_COUNT && OpenResult(fds, found) >= 0
    ensures var fd, after := OpenResult(fds, found), Opened(fds, found);
            && CloseResult(after, fd) == 0
            && (forall i :: 0 <= i < FD_COUNT ==> Closed(after, fd)[i].inUse == fds[i].inUse)
            && OpenResult(Closed(after, fd), found) == fd
  {
    var fd, after := OpenResult(fds, found), Opened(fds, found);
    SameFree(fds, Closed(after, fd), FD_START);
  }

  lemma {:induction false} SameFree(a: seq<Descriptor>, b: seq<Descriptor>, i: nat)
    requires |a| == |b| == FD_COUNT && i <= FD_COUNT
    requires forall j :: 0 <= j < FD_COUNT ==> a[j].inUse == b[j].inUse
    ensures FreeFrom(a, i) == FreeFrom(b, i)
    decreases FD_COUNT - i
  {
    if i < FD_COUNT && a[i].inUse {
      SameFree(a, b, i + 1);
    }
  }

  function InUseFrom(fds: seq<Descriptor>, i: nat): nat
    requires i <= |fds|
    decreases |fds| - i
  {
    if i == |fds| then 0 else (if fds[i].inUse then 1 else 0) + InUseFrom(fds, i + 1)
  }

  lemma {:induction false} OneMoreInUse(fds: seq<Descriptor>, i: nat, at: nat, d: Descriptor)
    requires i <= at < |fds| && !fds[at].inUse && d.inUse
    ensures InUseFrom(fds[at := d], i) == InUseFrom(fds, i) + 1
    decreases |fds| - i
  {
    if i < at {
      OneMoreInUse(fds, i + 1, at, d);
    } else {
      SameInUseFrom(fds, fds[at := d], i + 1);
    }
  }

  lemma {:induction false} SameInUseFrom(a: seq<Descriptor>, b: seq<Descriptor>, i: nat)
    requires |a| == |b| && i <= |a| && forall j :: i <= j < |a| ==> a[j] == b[j]
    ensures InUseFrom(a, i) == InUseFrom(b, i)
    decreases |a| - i
  {
    if i < |a| {
      SameInUseFrom(a, b, i + 1);
    }
  }

  /** sys_open uses up a descriptor exactly when it succeeds or the file is of an unknown type: in
      the second case the caller is told that it failed, and the descriptor is lost. */
  lemma OpenUsesOne(fds: seq<Descriptor>, found: Option<Entry>)
    requires |fds| == FD_COUNT
    ensures InUseFrom(Opened(fds, found), 0) == InUseFrom(fds, 0) + 1
       <==> found.Some? && exists i :: FD_START <= i < FD_COUNT && !fds[i].inUse
    ensures found.Some? && found.value.filetype > 2 ==> OpenResult(fds, found) == -1
  {
    var n := FreeFrom(fds, FD_START);
    if i :| FD_START <= i < FD_COUNT && !fds[i].inUse {
      assert n <= i;
    }
    if found.Some? && n < FD_COUNT {
      OneMoreInUse(fds, 0, n, Opened(fds, found)[n]);
    }
  }
}
