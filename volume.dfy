/** The collaborators the storage core runs on: the file volume (superblock,
    simulated disk, the two free bitmaps), and the sequential byte stream
    over one inode's content (`File`). Their implementations are not part
    of this model; each is given the smallest behaviour the core relies on. */
module FileVolumes {
  import opened Fs33Types

  /** The superblock fields the core reads and `Inodes::create` writes. */
  datatype SuperBlock = SuperBlock(
    nBytesPerBlock: Word,
    nTotalBlocks: Word,
    nBlockBeginInodes: Word,
    nInodes: Word,
    iWidth: Word,
    iHeight: Word,
    nBlocksOfInodes: Word,
    inodesPerBlock: Word,
    iDirect: Word,
    fileNameLengthMax: Word)

  /** Words in one disk block: a block of `nBytesPerBlock` bytes viewed as `uint`s. */
  function WordsPerBlock(sb: SuperBlock): nat {
    sb.nBytesPerBlock / I_WIDTH
  }

  class FileVolume {
    var superBlock: SuperBlock
    /** The simulated disk: block number -> the block's words. */
    const disk: array<seq<Word>>
    /** Free bitmaps, `true` = free (bit value 1). */
    const fbvInodes: array<bool>
    const fbvBlocks: array<bool>
    /** The byte content of each inode's file, as the `File` stream sees it. */
    var files: map<Word, seq<byte>>

    constructor (sb: SuperBlock, disk: array<seq<Word>>, fbvInodes: array<bool>, fbvBlocks: array<bool>)
      ensures superBlock == sb && this.disk == disk
      ensures this.fbvInodes == fbvInodes && this.fbvBlocks == fbvBlocks
      ensures files == map[]
    {
      superBlock := sb;
      this.disk := disk;
      this.fbvInodes := fbvInodes;
      this.fbvBlocks := fbvBlocks;
      files := map[];
    }

    /** The content of inode `ino`'s file; a file never written to is empty. */
    function StreamOf(ino: Word): seq<byte>
      reads this
    {
      if ino in files then files[ino] else []
    }
  }

  /** The lowest free index at or after `k`, or 0 when there is none. */
  function FirstFreeFrom(bits: seq<bool>, k: nat): (i: nat)
    requires 1 <= k
    ensures i == 0 ==> forall j :: k <= j < |bits| ==> !bits[j]
    ensures i != 0 ==> k <= i < |bits| && bits[i] && forall j :: k <= j < i ==> !bits[j]
    decreases |bits| - k
  {
    if k >= |bits| then 0 else if bits[k] then k else FirstFreeFrom(bits, k + 1)
  }

  /** The index `getFreeBit` hands out: the lowest free one; index 0 is the
      "none" sentinel and is never handed out. */
  function FirstFree(bits: seq<bool>): nat {
    FirstFreeFrom(bits, 1)
  }

  /** `FreeBitVector::getFreeBit`: find a free index, mark it in use and
      return it; 0 when every index is in use. */
  method GetFreeBit(bits: array<bool>) returns (i: nat)
    modifies bits
    ensures i == FirstFree(old(bits[..]))
    ensures bits[..] == if i == 0 then old(bits[..]) else old(bits[..])[i := false]
  {
    i := 1;
    while i < bits.Length && !bits[i]
      invariant 1 <= i
      invariant FirstFreeFrom(bits[..], i) == FirstFree(bits[..])
    {
      i := i + 1;
    }
    if i < bits.Length {
      bits[i] := false;
    } else {
      i := 0;
    }
  }

  /** The bitmap after index `i` is set to `free`; an index outside the
      bitmap leaves it as it is. */
  function WithBit(bits: seq<bool>, i: nat, free: bool): (r: seq<bool>)
    ensures |r| == |bits|
    ensures forall j :: 0 <= j < |bits| ==> r[j] == if j == i then free else bits[j]
  {
    if i < |bits| then bits[i := free] else bits
  }

  /** `FreeBitVector::setBit`: set index `i` to free (`true`) or in use
      (`false`); an index outside the bitmap is ignored. */
  method SetBit(bits: array<bool>, i: nat, free: bool)
    modifies bits
    ensures bits[..] == WithBit(old(bits[..]), i, free)
  {
    if i < bits.Length {
      bits[i] := free;
    }
  }

  /** The byte stream over one inode's file, with a read cursor. */
  class File {
    const fv: FileVolume
    const nInode: Word
    var cursor: nat

    constructor (pfv: FileVolume, ino: Word)
      ensures fv == pfv && nInode == ino && cursor == 0
    {
      fv := pfv;
      nInode := ino;
      cursor := 0;
    }

    function Content(): seq<byte>
      reads this, fv
    {
      fv.StreamOf(nInode)
    }

    /** The byte under the cursor, advancing past it; 0 at the end of the
        stream, where the cursor stays. */
    method GetNextByte() returns (b: byte)
      requires cursor <= |Content()|
      modifies this`cursor
      ensures old(cursor) < |Content()| ==> b == Content()[old(cursor)] && cursor == old(cursor) + 1
      ensures old(cursor) == |Content()| ==> b == 0 && cursor == old(cursor)
    {
      if cursor < |fv.StreamOf(nInode)| {
        b := fv.StreamOf(nInode)[cursor];
        cursor := cursor + 1;
      } else {
        b := 0;
      }
    }

    /** Append `bytes` at the end of the file; the cursor does not move. */
    method AppendBytes(bytes: seq<byte>)
      modifies fv`files
      ensures fv.files == old(fv.files)[nInode := old(Content()) + bytes]
    {
      fv.files := fv.files[nInode := fv.StreamOf(nInode) + bytes];
    }

    /** Remove the `k` bytes before the cursor (as many as there are), and
        move the cursor back over them. */
    method DeletePrecedingBytes(k: nat)
      requires cursor <= |Content()|
      modifies this`cursor, fv`files
      ensures var m := if k <= old(cursor) then k else old(cursor);
        cursor == old(cursor) - m &&
        fv.files == old(fv.files)[nInode := old(Content())[..old(cursor) - m] + old(Content())[old(cursor)..]]
    {
      var m := if k <= cursor then k else cursor;
      var s := fv.StreamOf(nInode);
      fv.files := fv.files[nInode := s[..cursor - m] + s[cursor..]];
      cursor := cursor - m;
    }
  }
}
