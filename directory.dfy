/** Directories (directory.cpp). A directory is the file of one inode whose
    content is the record stream of DirectoryFormat. A `Directory` object
    reads that stream through a `File` cursor that stays open from one
    `nextName` to the next until `namesEnd` closes it, and keeps the last
    record read in its private buffer `dirEntry`. Each method is proved
    against the stream functions of DirectoryFormat. */
module Directories {
  import opened Fs33Types
  import opened FileVolumes
  import opened InodeTable
  import opened DirectoryFormat
  import Shell

  const SLASH: byte := 47

  /** `okNameSyntax`: a name is acceptable when it is not empty, starts
      with a letter, a digit or a dot, and holds no slash. */
  function OkNameSyntax(nm: seq<byte>): (ok: bool)
    ensures ok ==> |nm| > 0 && SLASH !in nm
  {
    |nm| > 0 && Shell.IsAlphaNumDot(nm[0] as int as char) && SLASH !in nm
  }

  /** Truncating an acceptable C string to a positive length keeps it
      acceptable, and it is then a name a record can hold. */
  lemma SyntaxSurvivesTruncation(nm: seq<byte>, limit: nat)
    requires OkNameSyntax(nm) && NulFree(nm) && limit > 0
    ensures OkNameSyntax(Truncate(nm, limit)) && NameOk(Truncate(nm, limit))
  {
    var t := Truncate(nm, limit);
    assert t[0] == nm[0];
    forall k | 0 <= k < |t|
      ensures t[k] != 0 && t[k] != SLASH
    {
      assert t[k] == nm[k];
    }
  }

  /** "." and ".." are acceptable names. */
  lemma DotsAreNames()
    ensures OkNameSyntax(DOT) && OkNameSyntax(DOTDOT) && NulFree(DOT) && NulFree(DOTDOT)
  {
  }

  /** The stream a new directory gets: `addLeafName(".", ino)` then
      `addLeafName("..", parent)`, each name truncated to `limit`. */
  function Seeded(s: seq<byte>, ino: Word, parent: Word, limit: nat): seq<byte> {
    var s1 := AddLeaf(s, 0, Truncate(DOT, limit), ino);
    AddLeaf(s1, 0, Truncate(DOTDOT, limit), parent)
  }

  /** A new directory over an empty file, when names of two bytes fit,
      lists "." for itself and ".." for its parent and counts no other
      file. */
  lemma SeededEmpty(ino: Word, parent: Word, limit: nat)
    requires ino != 0 && parent != 0 && limit >= 2
    ensures Parse(Seeded([], ino, parent, limit)) == [Entry(DOT, ino), Entry(DOTDOT, parent)]
    ensures WellFormed(Seeded([], ino, parent, limit))
    ensures OthersCount(Seeded([], ino, parent, limit)) == 0
  {
    var es := [Entry(DOT, ino), Entry(DOTDOT, parent)];
    assert Truncate(DOT, limit) == DOT && Truncate(DOTDOT, limit) == DOTDOT;
    assert Seeded([], ino, parent, limit) == AddLeaf(AddLeaf([], 0, DOT, ino), 0, DOTDOT, parent);
    SeedEmpty(ino, parent);
    assert NameOk(es[0].name) && NameOk(es[1].name);
    assert NamesOk(es);
    ParseEncode(es);
    assert [es[0], es[1]] + [] == es;
    OthersCountOfSeeded(es[0], es[1], []);
  }

  /** Creating a name that is absent and short enough adds exactly its
      record: the directory stays well-formed, the name now resolves to
      the new inode, every other name resolves as before, and names stay
      unique. */
  lemma CreatedNameResolves(s: seq<byte>, n: seq<byte>, ino: Word, limit: nat)
    requires WellFormed(s) && InumsNonZero(Parse(s)) && UniqueNames(Parse(s))
    requires OkNameSyntax(n) && NulFree(n) && |n| <= limit && ino != 0
    requires InumOf(Lookup(Parse(s), ByName(n))) == 0
    ensures var s' := AddLeaf(s, 0, Truncate(n, limit), ino);
      && Parse(s') == Parse(s) + [Entry(n, ino)]
      && WellFormed(s') && UniqueNames(Parse(s')) && InumsNonZero(Parse(s'))
      && Lookup(Parse(s'), ByName(n)) == Some(Entry(n, ino))
      && forall m :: m != n ==> Lookup(Parse(s'), ByName(m)) == Lookup(Parse(s), ByName(m))
  {
    var es := Parse(s);
    LookupByNameAbsent(es, n);
    AddLeafAbsent(s, n, ino);
    var es' := es + [Entry(n, ino)];
    forall i | 0 <= i < |es'|
      ensures es'[i].inum != 0
    {
      assert es'[i] == if i < |es| then es[i] else Entry(n, ino);
    }
  }

  /** Every record names a real inode of the volume. */
  predicate InumsBelow(es: seq<Entry>, bound: nat) {
    forall i :: 0 <= i < |es| ==> es[i].inum < bound
  }

  /** The first loop of `nextName`: read bytes up to and including the
      next NUL; at the end of the stream the read yields 0 and stays. */
  method ReadName(f: File, ghost s: seq<byte>) returns (name: seq<byte>)
    requires f.Content() == s && f.cursor <= |s|
    modifies f`cursor
    ensures var j := NulFrom(s, old(f.cursor));
      name == s[old(f.cursor)..j] && f.cursor == Min(j + 1, |s|)
    ensures NulFree(name)
  {
    ghost var c := f.cursor;
    name := [];
    var b := f.GetNextByte();
    while b != 0
      invariant f.Content() == s
      invariant c + |name| <= |s| && name == s[c..c + |name|]
      invariant forall k :: c <= k < c + |name| ==> s[k] != 0
      invariant b == if c + |name| < |s| then s[c + |name|] else 0
      invariant f.cursor == Min(c + |name| + 1, |s|)
      decreases |s| - |name|
    {
      name := name + [b];
      b := f.GetNextByte();
    }
    NulFromSkipsToEnd(s, c, c + |name|);
  }

  /** NUL search over a run of non-NUL bytes that ends at a NUL or at the
      end of the stream. */
  lemma NulFromSkipsToEnd(s: seq<byte>, c: nat, j: nat)
    requires c <= j <= |s| && (j == |s| || s[j] == 0)
    requires forall k :: c <= k < j ==> s[k] != 0
    ensures NulFrom(s, c) == j
  {
  }

  /** The second loop of `nextName`: `n` reads, each yielding the byte
      under the cursor, or 0 at the end of the stream. */
  method ReadBytes(f: File, ghost s: seq<byte>, n: nat) returns (b: seq<byte>)
    requires f.Content() == s && f.cursor <= |s|
    modifies f`cursor
    ensures b == Padded(s, old(f.cursor), n) && f.cursor == Min(old(f.cursor) + n, |s|)
  {
    ghost var c := f.cursor;
    b := [];
    while |b| < n
      invariant f.Content() == s
      invariant |b| <= n
      invariant f.cursor == Min(c + |b|, |s|)
      invariant forall q :: 0 <= q < |b| ==> b[q] == if c + q < |s| then s[c + q] else 0
    {
      var x := f.GetNextByte();
      b := b + [x];
    }
  }

  class Directory {
    const fv: FileVolume
    /** The volume's inode table (`fv->inodes`). */
    const inodes: Inodes
    const nInode: Word
    /** The open cursor over the directory's file; null between scans. */
    var dirf: File?
    /** The record `nextName` read last (name, NUL, i-number bytes), or a
        lone NUL once the end of the directory was reached. */
    var dirEntry: seq<byte>

    /** Records carry `sizeof(uint)`-byte i-numbers, and an open cursor
        reads this directory's file and lies within it. */
    ghost predicate StreamOk()
      reads this, dirf, fv
    {
      && fv.superBlock.iWidth == I_WIDTH
      && (dirf != null ==> dirf.fv == fv && dirf.nInode == nInode && dirf.cursor <= |fv.StreamOf(nInode)|)
    }

    /** The cursor is consistent and the volume's inode table is usable. */
    ghost predicate Valid()
      reads this, dirf, fv, inodes, inodes.fv, inodes.fv.disk
    {
      StreamOk() && inodes.fv == fv && inodes.Valid()
    }

    /** The directory's record stream. */
    function Stream(): seq<byte>
      reads this, fv
    {
      fv.StreamOf(nInode)
    }

    /** Where the next read starts: a closed cursor reopens at 0. */
    function Cursor(): nat
      reads this, dirf
    {
      if dirf == null then 0 else dirf.cursor
    }

    /** Only `nextName` reads a directory: `new Directory(fv, in, 0)`,
        which changes nothing on the volume. */
    constructor Open(pfv: FileVolume, pinodes: Inodes, ino: Word)
      requires pfv.superBlock.iWidth == I_WIDTH
      ensures StreamOk() && fv == pfv && inodes == pinodes && nInode == ino
      ensures dirf == null && dirEntry == []
    {
      fv := pfv;
      inodes := pinodes;
      nInode := ino;
      dirf := null;
      dirEntry := [];
    }

    /** `nextName`: read the record at the cursor, opening the file first
        if it is closed. The records read one after another are the
        records of the stream from where reading started. */
    method NextName() returns (r: Option<Entry>)
      requires StreamOk()
      modifies this`dirf, this`dirEntry, dirf
      ensures StreamOk() && dirf != null
      ensures old(dirf) != null ==> dirf == old(dirf)
      ensures old(dirf) == null ==> fresh(dirf)
      ensures var st := ReadRecord(Stream(), old(Cursor()));
        && dirf.cursor == st.next
        && (r.None? <==> st.Stop?)
        && (r.None? ==> dirEntry == [0])
        && (r.Some? ==> r.value == Entry(st.name, WordOf(st.ibytes)) && dirEntry == EncodeEntry(r.value))
      ensures r.Some? ==> NameOk(r.value.name)
      ensures ParseFrom(Stream(), old(Cursor())) ==
        if r.None? then [] else [r.value] + ParseFrom(Stream(), dirf.cursor)
    {
      if dirf == null {
        dirf := new File(fv, nInode);
      }
      var f := dirf;
      ghost var s := Stream();
      ghost var c := f.cursor;
      var name := ReadName(f, s);
      if |name| == 0 {
        dirEntry := [0];
        r := None;
        return;
      }
      var ib := ReadBytes(f, s, fv.superBlock.iWidth);
      assert ReadRecord(s, c) == Rec(name, ib, f.cursor);
      var e := Entry(name, WordOf(ib));
      WordOfRoundTrip(ib);
      assert EncodeEntry(e) == name + [0] + ib;
      r := Some(e);
      dirEntry := name + [0] + ib;
    }

    /** `namesEnd`: close the cursor; the next read starts over. */
    method NamesEnd()
      requires StreamOk()
      modifies this`dirf
      ensures StreamOk() && dirf == null
    {
      dirf := null;
    }

    /** One turn of the scan loops of `nameOf` and `setDirEntry`: read a
        record with `NextName` and say how it moves a scan for `k`. */
    method ScanStep(ghost k: Key) returns (r: Option<Entry>)
      requires StreamOk()
      modifies this`dirf, this`dirEntry, dirf
      ensures StreamOk() && dirf != null
      ensures old(dirf) != null ==> dirf == old(dirf)
      ensures old(dirf) == null ==> fresh(dirf)
      ensures old(Cursor()) <= dirf.cursor
      ensures r.Some? ==> NameOk(r.value.name) && old(Cursor()) < dirf.cursor
      ensures r.None? ==> dirEntry == [0]
      ensures r.Some? ==> dirEntry == EncodeEntry(r.value)
      ensures ScanFrom(Stream(), old(Cursor()), k) ==
        if r.None? then NotFound(dirf.cursor)
        else if Hit(r.value, k) then Found(r.value, dirf.cursor)
        else ScanFrom(Stream(), dirf.cursor, k)
    {
      r := NextName();
    }

    /** `nameOf`: the first record, from the cursor on, whose i-number is
        `ino`; the cursor is closed afterwards. */
    method NameOf(ino: Word) returns (r: Option<Entry>)
      requires StreamOk()
      modifies this`dirf, this`dirEntry, dirf
      ensures StreamOk() && dirf == null
      ensures r == Lookup(ParseFrom(Stream(), old(Cursor())), ByInum(ino))
      ensures dirEntry == if r.Some? then EncodeEntry(r.value) else [0]
    {
      ghost var s := Stream();
      ghost var c0 := Cursor();
      ghost var k := ByInum(ino);
      r := ScanStep(k);
      ghost var d0 := dirf;
      while r.Some? && r.value.inum != ino
        invariant StreamOk() && dirf == d0 && Stream() == s
        invariant ScanFrom(s, c0, k) ==
          if r.None? then NotFound(dirf.cursor)
          else if Hit(r.value, k) then Found(r.value, dirf.cursor)
          else ScanFrom(s, dirf.cursor, k)
        invariant r.None? ==> dirEntry == [0]
        invariant r.Some? ==> dirEntry == EncodeEntry(r.value)
        decreases |s| - dirf.cursor, r.Some?
      {
        r := ScanStep(k);
      }
      ScanIsLookup(s, c0, k);
      NamesEnd();
    }

    /** `setDirEntry`: scan from the cursor for the record named `n`,
        comparing the name and its NUL bytewise, and leave the cursor
        right after it (or where the directory ends). The i-number found
        is the one `Lookup` gives, 0 when there is none; an empty name
        finds nothing and reads nothing. */
    method SetDirEntry(n: seq<byte>) returns (ino: Word)
      requires StreamOk() && NulFree(n)
      modifies this`dirf, this`dirEntry, dirf
      ensures StreamOk()
      ensures ino == InumOf(Lookup(ParseFrom(Stream(), old(Cursor())), ByName(n)))
      ensures dirf != null ==> dirf == old(dirf) || fresh(dirf)
      ensures |n| == 0 ==> ino == 0 && dirf == old(dirf) && dirEntry == old(dirEntry) && Cursor() == old(Cursor())
      ensures |n| > 0 ==> var f := ScanFrom(Stream(), old(Cursor()), ByName(n));
        && dirf != null && (old(dirf) != null ==> dirf == old(dirf)) && dirf.cursor == f.next
        && dirEntry == if f.Found? then EncodeEntry(f.entry) else [0]
    {
      ghost var s := Stream();
      ghost var c0 := Cursor();
      ghost var k := ByName(n);
      ParseFromNamesOk(s, c0);
      if |n| == 0 {
        assert Lookup(ParseFrom(s, c0), k).None?;
        return 0;
      }
      var r := ScanStep(k);
      if r.Some? {
        MemMatchesIffSameName(r.value.name, WordBytes(r.value.inum), n);
      }
      ghost var d0 := dirf;
      while r.Some? && !MemMatches(dirEntry, n)
        invariant StreamOk() && dirf == d0 && Stream() == s
        invariant r.Some? ==> NameOk(r.value.name)
        invariant ScanFrom(s, c0, k) ==
          if r.None? then NotFound(dirf.cursor)
          else if Hit(r.value, k) then Found(r.value, dirf.cursor)
          else ScanFrom(s, dirf.cursor, k)
        invariant r.None? ==> dirEntry == [0]
        invariant r.Some? ==> dirEntry == EncodeEntry(r.value)
        invariant r.Some? ==> (MemMatches(dirEntry, n) <==> Hit(r.value, k))
        decreases |s| - dirf.cursor, r.Some?
      {
        r := ScanStep(k);
        if r.Some? {
          MemMatchesIffSameName(r.value.name, WordBytes(r.value.inum), n);
        }
      }
      ScanIsLookup(s, c0, k);
      ino := if r.Some? then r.value.inum else 0;
    }

    /** `iNumberOf`: the i-number `setDirEntry` finds, with the cursor
        closed afterwards. */
    method INumberOf(n: seq<byte>) returns (ino: Word)
      requires StreamOk() && NulFree(n)
      modifies this`dirf, this`dirEntry, dirf
      ensures StreamOk() && dirf == null
      ensures ino == InumOf(Lookup(ParseFrom(Stream(), old(Cursor())), ByName(n)))
      ensures |n| == 0 ==> dirEntry == old(dirEntry)
      ensures |n| > 0 ==> var f := ScanFrom(Stream(), old(Cursor()), ByName(n));
        dirEntry == if f.Found? then EncodeEntry(f.entry) else [0]
    {
      ino := SetDirEntry(n);
      NamesEnd();
    }

    /** `addLeafName`: add a record for `n`, truncated to
        `fileNameLengthMax - 1` bytes, with i-number `ino`, unless `ino`
        is 0, the name is not acceptable, or a scan from the cursor finds
        the truncated name with a non-zero i-number; the cursor is closed
        afterwards unless the call gave up at once. */
    method AddLeafName(n: seq<byte>, ino: Word)
      requires StreamOk() && NulFree(n)
      requires NameLimit(fv.superBlock.fileNameLengthMax) > 0
      modifies this`dirf, this`dirEntry, dirf, fv`files
      ensures StreamOk()
      ensures ino == 0 || !OkNameSyntax(n) ==>
        && fv.files == old(fv.files) && dirf == old(dirf) && dirEntry == old(dirEntry)
        && Cursor() == old(Cursor())
      ensures ino != 0 && OkNameSyntax(n) ==>
        var t := Truncate(n, NameLimit(fv.superBlock.fileNameLengthMax));
        var hit := Lookup(ParseFrom(old(Stream()), old(Cursor())), ByName(t));
        && dirf == null
        && fv.files == old(fv.files)[nInode := AddLeaf(old(Stream()), old(Cursor()), t, ino)]
        && dirEntry == if InumOf(hit) == 0 then EncodeEntry(Entry(t, ino)) else EncodeEntry(hit.value)
    {
      if ino == 0 || !OkNameSyntax(n) {
        return;
      }
      var limit := NameLimit(fv.superBlock.fileNameLengthMax);
      var t := n;
      if |t| > limit {
        t := t[..limit];
      }
      SyntaxSurvivesTruncation(n, limit);
      assert t == Truncate(n, limit);
      AddRecord(t, ino);
    }

    /** The part of `addLeafName` after the name is checked and
        truncated: scan for it and append its record if the scan finds
        no non-zero i-number; then close the cursor. */
    method AddRecord(t: seq<byte>, ino: Word)
      requires StreamOk() && NameOk(t)
      modifies this`dirf, this`dirEntry, dirf, fv`files
      ensures StreamOk() && dirf == null
      ensures var hit := Lookup(ParseFrom(old(Stream()), old(Cursor())), ByName(t));
        && fv.files == old(fv.files)[nInode := AddLeaf(old(Stream()), old(Cursor()), t, ino)]
        && dirEntry == if InumOf(hit) == 0 then EncodeEntry(Entry(t, ino)) else EncodeEntry(hit.value)
    {
      ghost var s := Stream();
      ghost var c := Cursor();
      ghost var hit := Lookup(ParseFrom(s, c), ByName(t));
      ScanIsLookup(s, c, ByName(t));
      var found := SetDirEntry(t);
      if found == 0 {
        AppendEntry(t, ino);
      } else {
        assert ReadRecord(s, c).Rec?;
        assert nInode in fv.files && fv.files[nInode] == s;
      }
      NamesEnd();
    }

    /** The append of `addLeafName`: build the record in `dirEntry` and
        write it at the end of the file. */
    method AppendEntry(t: seq<byte>, ino: Word)
      requires StreamOk() && dirf != null
      modifies this`dirEntry, fv`files
      ensures StreamOk() && dirf == old(dirf)
      ensures dirEntry == EncodeEntry(Entry(t, ino))
      ensures fv.files == old(fv.files)[nInode := old(Stream()) + dirEntry]
    {
      dirEntry := t + [0] + WordBytes(ino);
      dirf.AppendBytes(dirEntry);
    }

    /** `new Directory(fv, in, parent)` with `parent != 0`: mark inode
        `ino` in use, type it a directory and add "." for itself and ".."
        for `parent` to its file. */
    constructor Format(pfv: FileVolume, pinodes: Inodes, ino: Word, parent: Word)
      requires pinodes.fv == pfv && pinodes.Valid()
      requires 0 < ino < pfv.superBlock.nInodes && parent != 0
      requires NameLimit(pfv.superBlock.fileNameLengthMax) > 0
      modifies pfv.fbvInodes, pinodes`uintbuffer, pfv.disk, pfv`files
      ensures Valid() && fv == pfv && inodes == pinodes && nInode == ino && dirf == null
      ensures pfv.fbvInodes[..] == WithBit(old(pfv.fbvInodes[..]), ino, false)
      ensures pinodes.Disk() == WithField(pinodes.SB(), old(pinodes.Disk()), ino, pinodes.SB().iHeight - 2, I_TYPE_DIRECTORY)
      ensures pfv.files == old(pfv.files)[ino :=
        Seeded(old(pfv.StreamOf(ino)), ino, parent, NameLimit(pfv.superBlock.fileNameLengthMax))]
    {
      fv := pfv;
      inodes := pinodes;
      nInode := ino;
      dirf := null;
      dirEntry := [];
      new;
      SetBit(fv.fbvInodes, ino, false);
      var _ := inodes.SetType(ino, I_TYPE_DIRECTORY);
      AddDots(parent);
    }

    /** The two `addLeafName` calls of the constructor. */
    method AddDots(parent: Word)
      requires StreamOk() && dirf == null && nInode != 0 && parent != 0
      requires NameLimit(fv.superBlock.fileNameLengthMax) > 0
      modifies this`dirf, this`dirEntry, fv`files
      ensures StreamOk() && dirf == null
      ensures fv.files == old(fv.files)[nInode :=
        Seeded(old(Stream()), nInode, parent, NameLimit(fv.superBlock.fileNameLengthMax))]
    {
      DotsAreNames();
      AddOkName(DOT, nInode);
      AddOkName(DOTDOT, parent);
    }

    /** `addLeafName` of an acceptable name into a closed directory, as the
        constructor calls it: the files change as `AddLeaf` says. */
    method AddOkName(n: seq<byte>, ino: Word)
      requires StreamOk() && dirf == null && ino != 0 && OkNameSyntax(n) && NulFree(n)
      requires NameLimit(fv.superBlock.fileNameLengthMax) > 0
      modifies this`dirf, this`dirEntry, fv`files
      ensures StreamOk() && dirf == null
      ensures fv.files == old(fv.files)[nInode :=
        AddLeaf(old(Stream()), 0, Truncate(n, NameLimit(fv.superBlock.fileNameLengthMax)), ino)]
    {
      AddLeafName(n, ino);
    }

    /** `lsPrivate`: the number of records in directory `ino`'s file, less
        "." and "..", as a `uint`. */
    method LsPrivate(ino: Word) returns (count: Word)
      requires fv.superBlock.iWidth == I_WIDTH
      ensures count == OthersCount(fv.StreamOf(ino))
    {
      var d := new Directory.Open(fv, inodes, ino);
      ghost var s := fv.StreamOf(ino);
      var n: nat := 0;
      var r := d.NextName();
      while r.Some?
        invariant d.StreamOk() && d.dirf != null && fresh(d.dirf)
        invariant d.fv == fv && d.nInode == ino && d.Stream() == s
        invariant n + (if r.Some? then 1 + |ParseFrom(s, d.dirf.cursor)| else 0) == |Parse(s)|
        decreases |s| - d.dirf.cursor, r.Some?
      {
        n := n + 1;
        r := d.NextName();
      }
      count := Wrap(n - 2);
    }

    /** `ls`: list this directory; the count it returns. */
    method Ls() returns (count: Word)
      requires fv.superBlock.iWidth == I_WIDTH
      ensures count == OthersCount(Stream())
    {
      count := LsPrivate(nInode);
    }

    /** `createFile`: when a scan from the cursor finds `n`, its i-number;
        otherwise a new file made by `NewFile`, or 0 when no inode is
        free. */
    method CreateFile(n: seq<byte>, dirFlag: bool) returns (ino: Word)
      requires Valid() && NulFree(n)
      requires NameLimit(fv.superBlock.fileNameLengthMax) > 0
      requires nInode < fv.fbvInodes.Length && !fv.fbvInodes[nInode]
      modifies this`dirf, this`dirEntry, dirf, fv`files, fv.disk, fv.fbvInodes, inodes`uintbuffer
      ensures Valid() && dirf == null
      ensures var found := InumOf(Lookup(ParseFrom(old(Stream()), old(Cursor())), ByName(n)));
        && (found != 0 ==> ino == found && fv.files == old(fv.files) && inodes.Disk() == old(inodes.Disk())
                           && fv.fbvInodes[..] == old(fv.fbvInodes[..]))
        && (found == 0 ==> ino == FirstFree(old(fv.fbvInodes[..])))
        && (found == 0 && ino == 0 ==> fv.files == old(fv.files) && inodes.Disk() == old(inodes.Disk())
                                       && fv.fbvInodes[..] == old(fv.fbvInodes[..]))
        && (found == 0 && ino != 0 ==>
              NewFileMade(fv.superBlock, nInode, n, dirFlag, ino,
                          old(fv.files), old(inodes.Disk()), old(fv.fbvInodes[..]),
                          fv.files, inodes.Disk(), fv.fbvInodes[..]))
    {
      ino := INumberOf(n);
      if ino == 0 {
        ino := NewFile(n, dirFlag);
      }
    }

    /** The part of `createFile` after the name was not found: take a free
        inode, add `n` for it here, and make it a directory or an ordinary
        file. The name is added only if it is acceptable, but the inode is
        taken regardless. */
    method NewFile(n: seq<byte>, dirFlag: bool) returns (ino: Word)
      requires Valid() && NulFree(n) && dirf == null
      requires NameLimit(fv.superBlock.fileNameLengthMax) > 0
      requires nInode < fv.fbvInodes.Length && !fv.fbvInodes[nInode]
      modifies this`dirf, this`dirEntry, fv`files, fv.disk, fv.fbvInodes, inodes`uintbuffer
      ensures Valid() && dirf == null
      ensures ino == FirstFree(old(fv.fbvInodes[..]))
      ensures ino == 0 ==> fv.files == old(fv.files) && inodes.Disk() == old(inodes.Disk())
                           && fv.fbvInodes[..] == old(fv.fbvInodes[..])
      ensures ino != 0 ==>
        NewFileMade(fv.superBlock, nInode, n, dirFlag, ino,
                    old(fv.files), old(inodes.Disk()), old(fv.fbvInodes[..]),
                    fv.files, inodes.Disk(), fv.fbvInodes[..])
    {
      ghost var files0: map<Word, seq<byte>> := fv.files;
      ghost var bits0 := fv.fbvInodes[..];
      ghost var disk0 := inodes.Disk();
      ino := inodes.GetFree();
      if ino > 0 {
        assert bits0[ino] && ino != nInode;
        ghost var bits1 := fv.fbvInodes[..];
        ghost var disk1 := inodes.Disk();
        NameAndType(n, dirFlag, ino);
        NewFileSteps(fv.superBlock, nInode, n, dirFlag, ino, files0, disk0, bits0,
                     disk1, bits1, fv.files, inodes.Disk(), fv.fbvInodes[..]);
      }
    }

    /** `createFile` once inode `ino` is taken and cleared: add `n` for it
        here, then type it. */
    method NameAndType(n: seq<byte>, dirFlag: bool, ino: Word)
      requires Valid() && NulFree(n) && dirf == null
      requires NameLimit(fv.superBlock.fileNameLengthMax) > 0
      requires 0 < ino < fv.superBlock.nInodes && ino != nInode && ino in fv.files && fv.files[ino] == []
      modifies this`dirf, this`dirEntry, fv`files, fv.disk, fv.fbvInodes, inodes`uintbuffer
      ensures Valid() && dirf == null
      ensures var limit := NameLimit(fv.superBlock.fileNameLengthMax);
        && fv.files == Named(old(fv.files), nInode, n, ino, limit)
                         [ino := if dirFlag && nInode != 0 then Seeded([], ino, nInode, limit) else []]
      ensures fv.fbvInodes[..] == if dirFlag && nInode != 0 then WithBit(old(fv.fbvInodes[..]), ino, false)
                                  else old(fv.fbvInodes[..])
      ensures inodes.Disk() == (
        if dirFlag && nInode == 0 then old(inodes.Disk())
        else WithField(inodes.SB(), old(inodes.Disk()), ino, inodes.SB().iHeight - 2,
                       if dirFlag then I_TYPE_DIRECTORY else I_TYPE_ORDINARY))
    {
      AddLeafName(n, ino);
      ghost var mid := fv.files;
      assert ino in mid && mid[ino] == [];
      TypeNewInode(ino, dirFlag);
      if !(dirFlag && nInode != 0) {
        assert mid[ino := []] == mid;
      }
    }

    /** The last step of `createFile`: `delete new Directory(fv, in,
        nInode)` for a directory, `setType(in, iTypeOrdinary)` otherwise. */
    method TypeNewInode(ino: Word, dirFlag: bool)
      requires Valid() && dirf == null && 0 < ino < fv.superBlock.nInodes && ino != nInode
      requires NameLimit(fv.superBlock.fileNameLengthMax) > 0
      modifies fv`files, fv.disk, fv.fbvInodes, inodes`uintbuffer
      ensures Valid()
      ensures fv.fbvInodes[..] == if dirFlag && nInode != 0 then WithBit(old(fv.fbvInodes[..]), ino, false)
                                  else old(fv.fbvInodes[..])
      ensures inodes.Disk() == (
        if dirFlag && nInode == 0 then old(inodes.Disk())
        else WithField(inodes.SB(), old(inodes.Disk()), ino, inodes.SB().iHeight - 2,
                       if dirFlag then I_TYPE_DIRECTORY else I_TYPE_ORDINARY))
      ensures fv.files == if dirFlag && nInode != 0
        then old(fv.files)[ino := Seeded(old(fv.StreamOf(ino)), ino, nInode, NameLimit(fv.superBlock.fileNameLengthMax))]
        else old(fv.files)
    {
      if dirFlag {
        if nInode != 0 {
          var _ := new Directory.Format(fv, inodes, ino, nInode);
        } else {
          var _ := new Directory.Open(fv, inodes, ino);
        }
      } else {
        var _ := inodes.SetType(ino, I_TYPE_ORDINARY);
      }
    }

    /** `deleteFile`: refuse "." and ".."; otherwise scan from the cursor
        for `n` and, when it is found with a non-zero i-number, cut its
        record out (`CutRecord`). */
    method DeleteFile(n: seq<byte>, freeInodeFlag: bool) returns (ino: Word)
      requires Valid() && NulFree(n)
      requires freeInodeFlag ==> InumsBelow(ParseFrom(Stream(), Cursor()), fv.superBlock.nInodes)
      modifies this`dirf, this`dirEntry, dirf, fv`files, inodes`uintbuffer, fv.fbvBlocks, fv.fbvInodes
      ensures Valid()
      ensures n == DOT || n == DOTDOT ==>
        ino == 0 && dirf == old(dirf) && Cursor() == old(Cursor()) && dirEntry == old(dirEntry)
      ensures n != DOT && n != DOTDOT ==> ino == InumOf(Lookup(ParseFrom(old(Stream()), old(Cursor())), ByName(n)))
      ensures ino == 0 ==> (fv.files == old(fv.files)
        && fv.fbvBlocks[..] == old(fv.fbvBlocks[..]) && fv.fbvInodes[..] == old(fv.fbvInodes[..]))
      ensures n != DOT && n != DOTDOT && |n| == 0 ==>
        dirf == old(dirf) && Cursor() == old(Cursor()) && dirEntry == old(dirEntry)
      ensures n != DOT && n != DOTDOT && |n| > 0 ==>
        var f := ScanFrom(old(Stream()), old(Cursor()), ByName(n));
        && dirf != null && (old(dirf) != null ==> dirf == old(dirf))
        && dirEntry == (if f.Found? then EncodeEntry(f.entry) else [0])
        && (ino == 0 ==> Cursor() == f.next)
      ensures ino != 0 ==>
        var f := ScanFrom(old(Stream()), old(Cursor()), ByName(n));
        && dirf != null
        && RecordCut(inodes.SB(), nInode, f.next, |n|, ino, freeInodeFlag,
                     old(fv.files), old(fv.fbvBlocks[..]), old(fv.fbvInodes[..]),
                     fv.files, fv.fbvBlocks[..], fv.fbvInodes[..], inodes.Disk(), dirf.cursor)
    {
      if n == DOT || n == DOTDOT {
        return 0;
      }
      ghost var s := Stream();
      ghost var c := Cursor();
      ScanIsLookup(s, c, ByName(n));
      ino := SetDirEntry(n);
      if ino > 0 {
        ghost var es := ParseFrom(s, c);
        assert es[FirstHit(es, ByName(n))].inum == ino;
        CutRecord(|n|, ino, freeInodeFlag);
      }
    }

    /** The part of `deleteFile` after a successful scan: delete the bytes
        of the record before the cursor and, if asked, free the inode. */
    method CutRecord(len: nat, ino: Word, freeInodeFlag: bool)
      requires Valid() && dirf != null
      requires freeInodeFlag ==> ino < fv.superBlock.nInodes
      modifies dirf, fv`files, inodes`uintbuffer, fv.fbvBlocks, fv.fbvInodes
      ensures Valid() && dirf == old(dirf)
      ensures RecordCut(inodes.SB(), nInode, old(dirf.cursor), len, ino, freeInodeFlag,
                        old(fv.files), old(fv.fbvBlocks[..]), old(fv.fbvInodes[..]),
                        fv.files, fv.fbvBlocks[..], fv.fbvInodes[..], inodes.Disk(), dirf.cursor)
    {
      dirf.DeletePrecedingBytes(1 + len + fv.superBlock.iWidth);
      if freeInodeFlag {
        var _ := inodes.SetFree(ino);
      }
    }

    /** `moveFile`: not implemented; it reports 0 and changes nothing. */
    method MoveFile(pn: Word, leafnm: seq<byte>) returns (r: Word)
      ensures r == 0
    {
      r := 0;
    }
  }

  /** The files after `addLeafName(n, ino)` in directory `dir`, which
      starts its scan at the front: the truncated name is added when it is
      acceptable. */
  function Named(files: map<Word, seq<byte>>, dir: Word, n: seq<byte>, ino: Word, limit: nat): (r: map<Word, seq<byte>>)
    ensures r.Keys == if OkNameSyntax(n) then files.Keys + {dir} else files.Keys
    ensures forall k :: k in files && k != dir ==> k in r && r[k] == files[k]
  {
    if OkNameSyntax(n) then
      var s := if dir in files then files[dir] else [];
      files[dir := AddLeaf(s, 0, Truncate(n, limit), ino)]
    else files
  }

  /** Naming in `dir` does not see an update of another file that a later
      update overwrites. */
  lemma NamedUnderOtherUpdate(m: map<Word, seq<byte>>, k: Word, v: seq<byte>, dir: Word,
                              n: seq<byte>, limit: nat, w: seq<byte>)
    requires k != dir
    ensures Named(m[k := v], dir, n, k, limit)[k := w] == Named(m, dir, n, k, limit)[k := w]
  {
  }

  /** `GetFree` followed by `NameAndType` makes the new file as
      `NewFileMade` says. */
  lemma NewFileSteps(sb: SuperBlock, dir: Word, n: seq<byte>, dirFlag: bool, ino: Word,
                     files0: map<Word, seq<byte>>, disk0: seq<seq<Word>>, bits0: seq<bool>,
                     disk1: seq<seq<Word>>, bits1: seq<bool>,
                     files2: map<Word, seq<byte>>, disk2: seq<seq<Word>>, bits2: seq<bool>)
    requires ino != dir && InodeOk(sb, disk0, ino) && ino < |bits0|
    requires bits1 == bits0[ino := false] && disk1 == ZeroedInode(sb, disk0, ino)
    requires bits2 == if dirFlag && dir != 0 then WithBit(bits1, ino, false) else bits1
    requires disk2 == if dirFlag && dir == 0 then disk1
                      else WithField(sb, disk1, ino, sb.iHeight - 2,
                                     if dirFlag then I_TYPE_DIRECTORY else I_TYPE_ORDINARY)
    requires var limit := NameLimit(sb.fileNameLengthMax);
      files2 == Named(files0[ino := []], dir, n, ino, limit)
                  [ino := if dirFlag && dir != 0 then Seeded([], ino, dir, limit) else []]
    ensures NewFileMade(sb, dir, n, dirFlag, ino, files0, disk0, bits0, files2, disk2, bits2)
  {
    var limit := NameLimit(sb.fileNameLengthMax);
    NamedUnderOtherUpdate(files0, ino, [], dir, n, limit,
                          if dirFlag && dir != 0 then Seeded([], ino, dir, limit) else []);
    assert WithBit(bits1, ino, false) == bits1;
  }

  /** The volume after `createFile` made inode `ino` for `n` in directory
      `dir`: the inode is taken and cleared, typed a directory (holding "."
      and "..") or an ordinary file (empty), and `n` is added to `dir` if
      it is acceptable. The `0` state is before, the `1` state after. */
  ghost predicate NewFileMade(sb: SuperBlock, dir: Word, n: seq<byte>, dirFlag: bool, ino: Word,
                              files0: map<Word, seq<byte>>, disk0: seq<seq<Word>>, bits0: seq<bool>,
                              files1: map<Word, seq<byte>>, disk1: seq<seq<Word>>, bits1: seq<bool>)
  {
    var limit := NameLimit(sb.fileNameLengthMax);
    && ino != dir && InodeOk(sb, disk0, ino) && ino < |bits0|
    && bits1 == bits0[ino := false]
    && (var zeroed := ZeroedInode(sb, disk0, ino);
        disk1 == if dirFlag && dir == 0 then zeroed
                 else WithField(sb, zeroed, ino, sb.iHeight - 2,
                                if dirFlag then I_TYPE_DIRECTORY else I_TYPE_ORDINARY))
    && files1 == Named(files0, dir, n, ino, limit)
                 [ino := if dirFlag && dir != 0 then Seeded([], ino, dir, limit) else []]
  }

  /** The volume after the record of a `len`-byte name ending at `next` is
      cut out of directory `dir` and, if asked, inode `ino` and its blocks
      are freed. The `0` state is before, the `1` state after. */
  ghost predicate RecordCut(sb: SuperBlock, dir: Word, next: nat, len: nat, ino: Word, freeInodeFlag: bool,
                            files0: map<Word, seq<byte>>, blocks0: seq<bool>, inodes0: seq<bool>,
                            files1: map<Word, seq<byte>>, blocks1: seq<bool>, inodes1: seq<bool>,
                            disk1: seq<seq<Word>>, cursor1: nat)
  {
    var s0 := if dir in files0 then files0[dir] else [];
    var m := len + 1 + I_WIDTH;
    && next <= |s0|
    && files1 == files0[dir := Splice(s0, next, m)]
    && cursor1 == next - Min(m, next)
    && (freeInodeFlag ==>
          && InodeOk(sb, disk1, ino)
          && inodes1 == WithBit(inodes0, ino, true)
          && blocks1 == Freed(blocks0, FileBlocks(Record(sb, disk1, ino), sb.nBytesPerBlock, sb.iDirect)))
    && (!freeInodeFlag ==> blocks1 == blocks0 && inodes1 == inodes0)
  }
}
