/** The directory of the file system: listing it and looking names up. */
module Directory {
  import opened Bytes
  import opened FileSystem

  /** The name of an entry: up to the first NUL, or all 32 bytes. */
  ghost function Name(d: Dentry): (s: seq<byte>)
    ensures IsCString(s) && s <= d.filename && (|s| < |d.filename| ==> d.filename[|s|] == 0)
  {
    assert forall i :: 0 <= i < FirstIndex(d.filename, NUL) ==> d.filename[i] != NUL;
    d.filename[..FirstIndex(d.filename, NUL)]
  }

  /** Byte `i` of a C string, its terminator included. */
  function CByte(s: seq<byte>, i: nat): byte
    requires i <= |s|
  {
    if i < |s| then s[i] else NUL
  }

  /** strncmp(filename, fname, 32): zero exactly for the entry's name. */
  method Strncmp(s1: seq<byte>, s2: seq<byte>, n: nat) returns (r: int)
    requires |s1| == n && IsCString(s2) && |s2| <= n
    ensures r == 0 <==> s1[..FirstIndex(s1, NUL)] == s2
  {
    var i := 0;
    while i < n
      invariant 0 <= i <= n && i <= |s2|
      invariant forall j :: 0 <= j < i ==> s1[j] == s2[j] && s1[j] != NUL
    {
      if s1[i] != CByte(s2, i) || s1[i] == NUL {
        r := s1[i] as int - CByte(s2, i) as int;
        if r == 0 {
          FirstIndexUnique(s1, NUL, i);
        } else if s1[i] == NUL {
          FirstIndexUnique(s1, NUL, i);
        } else {
          assert FirstIndex(s1, NUL) > i;
        }
        return;
      }
      assert s1[i] == s2[i];
      i := i + 1;
    }
    FirstIndexUnique(s1, NUL, n);
    return 0;
  }

  /** The first entry, from `i` on, with a given name; 63 if there is none. */
  ghost function FindFrom(img: Image, fname: seq<byte>, i: nat): (k: nat)
    requires WellFormed(img) && i <= ENTRY_NUM
    ensures i <= k <= ENTRY_NUM
    ensures k < ENTRY_NUM ==> Name(img.dentries[k]) == fname
    ensures forall j :: i <= j < k ==> Name(img.dentries[j]) != fname
    decreases ENTRY_NUM - i
  {
    if i == ENTRY_NUM || Name(img.dentries[i]) == fname then i else FindFrom(img, fname, i + 1)
  }

  method ReadDentryByIndex(img: Image, index: nat) returns (rc: int, d: Dentry)
    requires WellFormed(img) && index < ENTRY_NUM
    ensures if img.dentries[index].inodeNum > ENTRY_NUM then rc == -1 else rc == 0 && d == img.dentries[index]
  {
    d := img.dentries[index];
    rc := if d.inodeNum > ENTRY_NUM then -1 else 0;
  }

  /** read_dentry_by_name finds the first entry of that name; it fails if there is none, if the name
      is longer than 32 bytes, or if that entry's inode number exceeds 63. */
  method ReadDentryByName(img: Image, fname: seq<byte>) returns (rc: int, d: Dentry)
    requires WellFormed(img) && IsCString(fname)
    ensures var k := FindFrom(img, fname, 0);
            if k < 63 && img.dentries[k].inodeNum <= 63 then rc == 0 && d == img.dentries[k] else rc == -1
  {
    d := img.dentries[0];
    if |fname| > FILENAME_LEN {
      NoLongName(img, fname);
      return -1, d;
    }
    var idx := FindName(img, fname);
    if idx == ENTRY_NUM {
      return -1, d;
    }
    rc, d := ReadDentryByIndex(img, idx);
  }

  /** The loop of read_dentry_by_name. */
  method FindName(img: Image, fname: seq<byte>) returns (idx: nat)
    requires WellFormed(img) && IsCString(fname) && |fname| <= FILENAME_LEN
    ensures idx == FindFrom(img, fname, 0)
  {
    idx := 0;
    while idx < ENTRY_NUM
      invariant 0 <= idx <= ENTRY_NUM
      invariant FindFrom(img, fname, 0) == FindFrom(img, fname, idx)
    {
      assert img.dentries[idx] in img.dentries;
      var c := Strncmp(img.dentries[idx].filename, fname, FILENAME_LEN);
      assert c == 0 <==> Name(img.dentries[idx]) == fname;
      if c == 0 {
        return;
      }
      idx := idx + 1;
    }
  }

  lemma NoLongName(img: Image, fname: seq<byte>)
    requires WellFormed(img) && |fname| > FILENAME_LEN
    ensures FindFrom(img, fname, 0) == ENTRY_NUM
  {
    forall j | 0 <= j < ENTRY_NUM
      ensures Name(img.dentries[j]) != fname
    {
      assert img.dentries[j] in img.dentries;
    }
  }

  /** The result of read_d at a position, and whether the caller's buffer is filled. */
  ghost function ListOutcome(img: Image, position: nat, nbytes: nat): (rc: nat)
    requires WellFormed(img)
  {
    if position < ENTRY_NUM && Name(img.dentries[position]) != [] then
      if |Name(img.dentries[position])| < FILENAME_LEN then |Name(img.dentries[position])| else nbytes
    else 0
  }

  /** read_d: the name of the next entry; the position advances even at the end. */
  method ReadD(img: Image, position: nat, buf: array<byte>, nbytes: nat) returns (rc: nat, position': nat)
    requires WellFormed(img) && FILENAME_LEN <= buf.Length
    modifies buf
    ensures position' == (position + 1) % 0x1_0000_0000
    ensures rc == ListOutcome(img, position, nbytes)
    ensures position < 63 && img.dentries[position].filename[..1] != [NUL] ==>
              && rc == (if |Name(img.dentries[position])| < 32 then |Name(img.dentries[position])| else nbytes)
              && buf[..32] == img.dentries[position].filename
              && buf[32..] == old(buf[32..])
    ensures position >= 63 || img.dentries[position].filename[..1] == [NUL] ==> rc == 0 && buf[..] == old(buf[..])
  {
    position' := (position + 1) % 0x1_0000_0000;
    if position < ENTRY_NUM {
      var d := img.dentries[position];
      assert d in img.dentries;
      if d.filename[0] == NUL {
        FirstIndexUnique(d.filename, NUL, 0);
        return 0, position';
      }
      var j := 0;
      rc := nbytes;
      while j < FILENAME_LEN
        invariant 0 <= j <= FILENAME_LEN && rc == nbytes
        invariant forall i :: 0 <= i < j ==> d.filename[i] != NUL
      {
        if d.filename[j] == NUL {
          rc := j;
          break;
        }
        j := j + 1;
      }
      FirstIndexUnique(d.filename, NUL, j);
      forall i | 0 <= i < FILENAME_LEN {
        buf[i] := d.filename[i];
      }
      return;
    }
    return 0, position';
  }

  /** The names that reading the directory from `position` on lists before the first empty result. */
  ghost function Listing(img: Image, position: nat): (names: seq<seq<byte>>)
    requires WellFormed(img)
    decreases if position < ENTRY_NUM then ENTRY_NUM - position else 0
  {
    if ListOutcome(img, position, FILENAME_LEN) == 0 then []
    else [img.dentries[position].filename[..ListOutcome(img, position, FILENAME_LEN)]] + Listing(img, position + 1)
  }

  lemma ListsName(img: Image, position: nat)
    requires WellFormed(img) && position < ENTRY_NUM
    ensures ListOutcome(img, position, FILENAME_LEN) == |Name(img.dentries[position])|
    ensures img.dentries[position].filename[..|Name(img.dentries[position])|] == Name(img.dentries[position])
  {
    assert img.dentries[position] in img.dentries;
  }

  lemma {:induction false} ListedName(img: Image, position: nat, i: nat)
    requires WellFormed(img) && position <= ENTRY_NUM && i < |Listing(img, position)|
    ensures position + i < ENTRY_NUM
    ensures Listing(img, position)[i] == Name(img.dentries[position + i]) && Listing(img, position)[i] != []
    decreases i
  {
    ListsName(img, position);
    if i > 0 {
      ListedName(img, position + 1, i - 1);
    }
  }

  lemma {:induction false} ListingEnd(img: Image, position: nat)
    requires WellFormed(img) && position <= ENTRY_NUM
    ensures position + |Listing(img, position)| <= ENTRY_NUM
    ensures position + |Listing(img, position)| < ENTRY_NUM ==>
              Name(img.dentries[position + |Listing(img, position)|]) == []
    decreases ENTRY_NUM - position
  {
    if position < ENTRY_NUM {
      ListsName(img, position);
      if Name(img.dentries[position]) != [] {
        ListingEnd(img, position + 1);
      }
    }
  }

  /** The listing is the names of the entries, in order, up to the first empty one. */
  lemma ListingIsPrefix(img: Image)
    requires WellFormed(img)
    ensures |Listing(img, 0)| <= ENTRY_NUM
    ensures forall i :: 0 <= i < |Listing(img, 0)| ==>
              Listing(img, 0)[i] == Name(img.dentries[i]) && Listing(img, 0)[i] != []
    ensures |Listing(img, 0)| < ENTRY_NUM ==> Name(img.dentries[|Listing(img, 0)|]) == []
  {
    ListingEnd(img, 0);
    forall i | 0 <= i < |Listing(img, 0)|
      ensures Listing(img, 0)[i] == Name(img.dentries[i]) && Listing(img, 0)[i] != []
    {
      ListedName(img, 0, i);
    }
  }

  /** Lookup finds a name inside the listed part of the directory exactly if it is listed, and then
      at its first entry; it fails exactly for the names that are nowhere in the table. */
  lemma ListedNamesAreFound(img: Image, fname: seq<byte>)
    requires WellFormed(img)
    ensures fname in Listing(img, 0) <==> FindFrom(img, fname, 0) < |Listing(img, 0)|
    ensures FindFrom(img, fname, 0) == ENTRY_NUM <==> forall j :: 0 <= j < ENTRY_NUM ==> Name(img.dentries[j]) != fname
  {
    var names, k := Listing(img, 0), FindFrom(img, fname, 0);
    if fname in names {
      var i :| 0 <= i < |names| && names[i] == fname;
      FoundAtMost(img, fname, i);
    }
    if k < |names| {
      ListedName(img, 0, k);
      assert names[k] == fname;
    }
  }

  lemma FoundAtMost(img: Image, fname: seq<byte>, i: nat)
    requires WellFormed(img) && i < |Listing(img, 0)| && Listing(img, 0)[i] == fname
    ensures FindFrom(img, fname, 0) <= i
  {
    ListedName(img, 0, i);
  }
}
