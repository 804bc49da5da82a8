/** The inode table (inodes.cpp): fixed-size inode records packed into
    the blocks that follow `nBlockBeginInodes`, each record `iHeight`
    words: direct block numbers, up to three indirect pointers, the type
    tag (`iHeight - 2`) and the file size in bytes (`iHeight - 1`).

    The first half of the module states the layout as functions over the
    disk's value (`seq<seq<Word>>`); the class `Inodes` below works on the
    disk in place, through the shared block buffer `uintbuffer`, and each
    of its methods is proved against those functions. */
module InodeTable {
  import opened Fs33Types
  import opened FileVolumes

  /** Type tags; their values live in fs33types.hpp, which is not part of
      this model: only their being distinct matters here. */
  const I_TYPE_ORDINARY: Word := 1
  const I_TYPE_DIRECTORY: Word := 2

  // ---------------------------------------------------------------------
  // Geometry (Inodes::create)
  // ---------------------------------------------------------------------

  /** How many indirect pointers an inode of `iHeight` fields carries. */
  function IndirectLevels(iHeight: nat): (r: nat)
    ensures r == 0 <==> iHeight <= 4
    ensures r == 1 <==> iHeight == 5
    ensures r == 2 <==> iHeight == 6
    ensures r == 3 <==> iHeight >= 7
  {
    if iHeight > 6 then 3 else if iHeight > 5 then 2 else if iHeight > 4 then 1 else 0
  }

  /** Direct block-number slots: every field but the indirect pointers,
      the type tag and the file size. */
  function DirectSlots(iHeight: nat): nat
    requires iHeight >= 3
  {
    iHeight - 1 - 1 - IndirectLevels(iHeight)
  }

  function InodesPerBlock(bsz: Word, iHeight: Word): Word
    requires iHeight > 0
  {
    bsz / I_WIDTH / iHeight
  }

  /** The size of the inode table in blocks as inodes.cpp computes it:
      as if records were packed across block boundaries. */
  function BlocksOfInodesAsWritten(bsz: Word, nInodes: Word, iHeight: Word): Word
    requires bsz > 0
  {
    Wrap(nInodes * I_WIDTH * iHeight + bsz - 1) / bsz
  }

  /** The size of the inode table in blocks when, as `getInode` assumes,
      every block holds `ipb` whole records. */
  function BlocksOfInodes(nInodes: Word, ipb: Word): Word
    requires ipb > 0
  {
    (nInodes + ipb - 1) / ipb
  }

  /** Finding, as written: with 512-byte blocks, 3-field inodes and 128
      inodes, the table is 3 blocks long, but 42 records fit in a block,
      so inode 127 is read from and written to block `nBlockBeginInodes + 3`,
      which lies past the table. */
  lemma CreateAsWrittenMisplacesInodes()
    ensures InodesPerBlock(512, 3) == 42
    ensures BlocksOfInodesAsWritten(512, 128, 3) == 3
    ensures 127 / InodesPerBlock(512, 3) == 3
  {
  }

  /** Corrected: the table covers the block of every inode and not one
      block more. */
  lemma {:induction false} BlocksOfInodesCoversTable(nInodes: Word, ipb: Word)
    requires ipb > 0
    ensures nInodes <= ipb * BlocksOfInodes(nInodes, ipb)
    ensures BlocksOfInodes(nInodes, ipb) > 0 ==> ipb * (BlocksOfInodes(nInodes, ipb) - 1) < nInodes
    ensures forall ino: nat :: ino < nInodes ==> ino / ipb < BlocksOfInodes(nInodes, ipb)
  {
    var nb := BlocksOfInodes(nInodes, ipb);
    var t := nInodes + ipb - 1;
    DivMod(t, ipb);
    assert t == ipb * nb + t % ipb;
    forall ino: nat | ino < nInodes
      ensures ino / ipb < nb
    {
      DivBelow(ino, ipb, nb);
    }
  }

  // ---------------------------------------------------------------------
  // Small arithmetic facts
  // ---------------------------------------------------------------------

  lemma DivMod(a: nat, d: nat)
    requires d > 0
    ensures a == d * (a / d) + a % d && 0 <= a % d < d
  {
  }

  lemma MulLe(a: nat, b: nat, c: nat)
    requires a <= b
    ensures a * c <= b * c
  {
  }

  /** A multiple of `h` strictly between `-h` and `h` is 0. */
  lemma SmallMultiple(k: int, h: int)
    requires h > 0 && -h < h * k < h
    ensures k == 0
  {
    if k > 0 {
      assert false;
    } else if k < 0 {
      assert false;
    }
  }

  /** Quotient and remainder are the only ones: `a == h * q + m` with
      `m < h` fixes both. */
  lemma DivUnique(a: nat, h: nat, q: nat, m: nat)
    requires h > 0 && m < h && a == h * q + m
    ensures a / h == q && a % h == m
  {
    DivMod(a, h);
    assert h * (q - a / h) == a % h - m;
    SmallMultiple(q - a / h, h);
  }

  /** `a < d * n` puts `a` in one of the first `n` groups of `d`. */
  lemma DivBelow(a: nat, d: nat, n: nat)
    requires d > 0 && a < d * n
    ensures a / d < n
  {
    DivMod(a, d);
  }

  /** Field `x` of record `r`, records of `h` words packed from word 0 of a
      block of `w` words, lies inside the block when `r` is one of the
      `w / h` records that fit. */
  lemma RecordFits(r: nat, h: nat, x: nat, w: nat)
    requires h > 0 && x < h && r < w / h
    ensures r * h + x < w
  {
    MulLe(r + 1, w / h, h);
    DivMod(w, h);
    assert (r + 1) * h == r * h + h;
  }

  // ---------------------------------------------------------------------
  // Where an inode lives
  // ---------------------------------------------------------------------

  /** The geometry the inode operations rely on, as `create` leaves it. */
  predicate GeometryOk(sb: SuperBlock) {
    && sb.iWidth == I_WIDTH
    && sb.iHeight >= 3
    && sb.nBytesPerBlock > 0
    && sb.inodesPerBlock == InodesPerBlock(sb.nBytesPerBlock, sb.iHeight)
    && sb.inodesPerBlock > 0
    && sb.iDirect == DirectSlots(sb.iHeight)
    && sb.nBlockBeginInodes + sb.nBlocksOfInodes <= sb.nTotalBlocks
    && sb.nInodes <= sb.inodesPerBlock * sb.nBlocksOfInodes
  }

  /** A disk image of the volume's shape: `nTotalBlocks` word-blocks. */
  predicate DiskOk(sb: SuperBlock, d: seq<seq<Word>>) {
    |d| == sb.nTotalBlocks && forall b :: 0 <= b < |d| ==> |d[b]| == WordsPerBlock(sb)
  }

  predicate InodeOk(sb: SuperBlock, d: seq<seq<Word>>, ino: nat) {
    GeometryOk(sb) && DiskOk(sb, d) && ino < sb.nInodes
  }

  /** The block holding inode `ino`. */
  function BlockOf(sb: SuperBlock, ino: nat): nat
    requires sb.inodesPerBlock > 0
  {
    sb.nBlockBeginInodes + ino / sb.inodesPerBlock
  }

  /** The word at which inode `ino`'s record starts within its block. */
  function SlotOf(sb: SuperBlock, ino: nat): nat
    requires sb.inodesPerBlock > 0
  {
    (ino % sb.inodesPerBlock) * sb.iHeight
  }

  /** Every field of every inode lies inside the inode table and inside
      its block. */
  lemma InodeLocation(sb: SuperBlock, ino: nat, x: nat)
    requires GeometryOk(sb) && ino < sb.nInodes && x < sb.iHeight
    ensures sb.nBlockBeginInodes <= BlockOf(sb, ino) < sb.nBlockBeginInodes + sb.nBlocksOfInodes
    ensures SlotOf(sb, ino) + x < WordsPerBlock(sb)
  {
    var ipb := sb.inodesPerBlock;
    assert ino < ipb * sb.nBlocksOfInodes;
    DivBelow(ino, ipb, sb.nBlocksOfInodes);
    assert BlockOf(sb, ino) == sb.nBlockBeginInodes + ino / ipb;
    assert ipb == WordsPerBlock(sb) / sb.iHeight;
    assert ino % ipb < ipb;
    RecordFits(ino % ipb, sb.iHeight, x, WordsPerBlock(sb));
    assert SlotOf(sb, ino) == (ino % ipb) * sb.iHeight;
  }

  /** Two fields of two inodes share a word only if they are the same field
      of the same inode. */
  lemma LocationInjective(sb: SuperBlock, i1: nat, x1: nat, i2: nat, x2: nat)
    requires GeometryOk(sb) && x1 < sb.iHeight && x2 < sb.iHeight
    requires BlockOf(sb, i1) == BlockOf(sb, i2) && SlotOf(sb, i1) + x1 == SlotOf(sb, i2) + x2
    ensures i1 == i2 && x1 == x2
  {
    var ipb, h := sb.inodesPerBlock, sb.iHeight;
    var w := SlotOf(sb, i1) + x1;
    DivUnique(w, h, i1 % ipb, x1);
    DivUnique(w, h, i2 % ipb, x2);
    DivMod(i1, ipb);
    DivMod(i2, ipb);
  }

  /** The block holding inode `ino`, as `getInode` reads it. */
  function InodeBlock(sb: SuperBlock, d: seq<seq<Word>>, ino: nat): (blk: seq<Word>)
    requires InodeOk(sb, d, ino)
    ensures |blk| == WordsPerBlock(sb)
  {
    InodeLocation(sb, ino, 0);
    d[BlockOf(sb, ino)]
  }

  /** The disk after the block of inode `ino` is overwritten by `blk`, as
      `putInode` writes it. */
  function WithInodeBlock(sb: SuperBlock, d: seq<seq<Word>>, ino: nat, blk: seq<Word>): (d': seq<seq<Word>>)
    requires InodeOk(sb, d, ino) && |blk| == WordsPerBlock(sb)
    ensures DiskOk(sb, d') && InodeBlock(sb, d', ino) == blk
  {
    InodeLocation(sb, ino, 0);
    d[BlockOf(sb, ino) := blk]
  }

  /** Field `x` of inode `ino`: `getEntry`. */
  function Field(sb: SuperBlock, d: seq<seq<Word>>, ino: nat, x: nat): Word
    requires InodeOk(sb, d, ino) && x < sb.iHeight
  {
    InodeLocation(sb, ino, x);
    d[BlockOf(sb, ino)][SlotOf(sb, ino) + x]
  }

  /** The whole record of inode `ino`. */
  function Record(sb: SuperBlock, d: seq<seq<Word>>, ino: nat): (rec: seq<Word>)
    requires InodeOk(sb, d, ino)
    ensures |rec| == sb.iHeight
    ensures forall x :: 0 <= x < sb.iHeight ==> rec[x] == Field(sb, d, ino, x)
  {
    InodeLocation(sb, ino, sb.iHeight - 1);
    d[BlockOf(sb, ino)][SlotOf(sb, ino)..SlotOf(sb, ino) + sb.iHeight]
  }

  /** The disk after field `x` of inode `ino` is set to `v`: `setEntry`. */
  function WithField(sb: SuperBlock, d: seq<seq<Word>>, ino: nat, x: nat, v: Word): (d': seq<seq<Word>>)
    requires InodeOk(sb, d, ino) && x < sb.iHeight
    ensures DiskOk(sb, d')
  {
    InodeLocation(sb, ino, x);
    var b := BlockOf(sb, ino);
    var blk: seq<Word> := d[b][SlotOf(sb, ino) + x := v];
    d[b := blk]
  }

  function Zeros(n: nat): (z: seq<Word>)
    ensures |z| == n && forall i :: 0 <= i < n ==> z[i] == 0
  {
    seq(n, _ => 0)
  }

  /** The disk after all fields of inode `ino` are cleared: `getFree`'s memset. */
  function ZeroedInode(sb: SuperBlock, d: seq<seq<Word>>, ino: nat): (d': seq<seq<Word>>)
    requires InodeOk(sb, d, ino)
    ensures DiskOk(sb, d')
  {
    InodeLocation(sb, ino, sb.iHeight - 1);
    var b, s := BlockOf(sb, ino), SlotOf(sb, ino);
    d[b := d[b][..s] + Zeros(sb.iHeight) + d[b][s + sb.iHeight..]]
  }

  /** Writing one field is writing back the inode's block with that word
      changed. */
  lemma WithFieldIsBlockWrite(sb: SuperBlock, d: seq<seq<Word>>, ino: nat, x: nat, v: Word)
    requires InodeOk(sb, d, ino) && x < sb.iHeight
    ensures SlotOf(sb, ino) + x < WordsPerBlock(sb)
    ensures WithField(sb, d, ino, x, v) ==
            WithInodeBlock(sb, d, ino, InodeBlock(sb, d, ino)[SlotOf(sb, ino) + x := v])
  {
    InodeLocation(sb, ino, x);
  }

  /** Clearing a record is writing back the inode's block with the
      record's words zeroed. */
  lemma ZeroedInodeIsBlockWrite(sb: SuperBlock, d: seq<seq<Word>>, ino: nat)
    requires InodeOk(sb, d, ino)
    ensures SlotOf(sb, ino) + sb.iHeight <= WordsPerBlock(sb)
    ensures var blk, s := InodeBlock(sb, d, ino), SlotOf(sb, ino);
      ZeroedInode(sb, d, ino) == WithInodeBlock(sb, d, ino, blk[..s] + Zeros(sb.iHeight) + blk[s + sb.iHeight..])
  {
    InodeLocation(sb, ino, sb.iHeight - 1);
  }

  /** `setEntry` changes exactly one field of one inode. */
  lemma FieldAfterWithField(sb: SuperBlock, d: seq<seq<Word>>, ino: nat, x: nat, v: Word, ino2: nat, x2: nat)
    requires InodeOk(sb, d, ino) && x < sb.iHeight
    requires ino2 < sb.nInodes && x2 < sb.iHeight
    ensures Field(sb, WithField(sb, d, ino, x, v), ino2, x2) ==
            if ino2 == ino && x2 == x then v else Field(sb, d, ino2, x2)
  {
    InodeLocation(sb, ino, x);
    InodeLocation(sb, ino2, x2);
    if BlockOf(sb, ino) == BlockOf(sb, ino2) && SlotOf(sb, ino) + x == SlotOf(sb, ino2) + x2 {
      LocationInjective(sb, ino, x, ino2, x2);
    }
  }

  /** `getFree` clears exactly the fields of the inode it hands out. */
  lemma FieldAfterZeroedInode(sb: SuperBlock, d: seq<seq<Word>>, ino: nat, ino2: nat, x2: nat)
    requires InodeOk(sb, d, ino)
    requires ino2 < sb.nInodes && x2 < sb.iHeight
    ensures Field(sb, ZeroedInode(sb, d, ino), ino2, x2) == if ino2 == ino then 0 else Field(sb, d, ino2, x2)
  {
    var b, s, h := BlockOf(sb, ino), SlotOf(sb, ino), sb.iHeight;
    InodeLocation(sb, ino, h - 1);
    InodeLocation(sb, ino2, x2);
    var w := SlotOf(sb, ino2) + x2;
    if BlockOf(sb, ino2) == b && s <= w < s + h {
      LocationInjective(sb, ino, w - s, ino2, x2);
    }
  }

  // ---------------------------------------------------------------------
  // Block addressing
  // ---------------------------------------------------------------------

  /** Blocks in a file of `size` bytes, in `uint` arithmetic:
      `(size + bsz - 1) / bsz`. */
  function BlockCount(size: Word, bsz: Word): Word
    requires bsz > 0
  {
    Wrap(size + bsz - 1) / bsz
  }

  /** Without wrap-around the block count is the ceiling of `size / bsz`. */
  lemma BlockCountIsCeiling(size: Word, bsz: Word)
    requires bsz > 0 && size + bsz - 1 < WORD_MOD
    ensures size == 0 ==> BlockCount(size, bsz) == 0
    ensures size > 0 ==> (BlockCount(size, bsz) - 1) * bsz < size <= BlockCount(size, bsz) * bsz
  {
    var n := BlockCount(size, bsz);
    var t := size + bsz - 1;
    assert Wrap(t) == t;
    if size == 0 {
      DivUnique(t, bsz, 0, t);
    } else {
      DivMod(t, bsz);
      assert t == bsz * n + t % bsz;
      assert (n - 1) * bsz == bsz * n - bsz;
    }
  }

  /** The first logical block index of each region, in `uint` arithmetic
      (setLastBlockNumber and getBlockNumber compute them alike). */
  datatype Regions = Regions(direct: Word, one: Word, two: Word, three: Word)

  function BlockNumbersPerBlock(bsz: Word): nat {
    bsz / I_WIDTH
  }

  function RegionsOf(bsz: Word, iDirect: Word): Regions {
    var bnpb := BlockNumbersPerBlock(bsz);
    var one := Wrap(iDirect + bnpb);
    var two := Wrap(one + Wrap(bnpb * bnpb));
    var three := Wrap(two + Wrap(Wrap(bnpb * bnpb) * bnpb));
    Regions(iDirect, one, two, three)
  }

  /** Where logical block `n` is kept. */
  datatype Slot =
    | Direct(k: nat)
    | SingleIndirect(offset: nat)
    | DoubleIndirect(offset: nat)
    | TripleIndirect(offset: nat)
    | Beyond

  /** setLastBlockNumber's dispatch, tested from the top region down. */
  function SetSlot(r: Regions, nu: nat): Slot {
    if nu >= r.three then Beyond
    else if nu >= r.two then TripleIndirect(nu - r.two)
    else if nu >= r.one then DoubleIndirect(nu - r.one)
    else if nu >= r.direct then SingleIndirect(nu - r.direct)
    else Direct(nu)
  }

  /** getBlockNumber's dispatch, tested from the direct slots up. */
  function GetSlot(r: Regions, nth: nat): Slot {
    if nth < r.direct then Direct(nth)
    else if nth < r.one then SingleIndirect(nth - r.direct)
    else if nth < r.two then DoubleIndirect(nth - r.one)
    else if nth < r.three then TripleIndirect(nth - r.two)
    else Beyond
  }

  /** The geometry's total capacity fits in a word, so no region bound wraps. */
  predicate NoWrap(bsz: Word, iDirect: Word) {
    var bnpb := BlockNumbersPerBlock(bsz);
    iDirect + bnpb + bnpb * bnpb + bnpb * bnpb * bnpb < WORD_MOD
  }

  /** A slot that exists in the geometry: each region holds `bnpb` to the
      power of its level. */
  predicate SlotExists(bsz: Word, iDirect: Word, s: Slot) {
    var bnpb := BlockNumbersPerBlock(bsz);
    match s
    case Direct(k) => k < iDirect
    case SingleIndirect(o) => o < bnpb
    case DoubleIndirect(o) => o < bnpb * bnpb
    case TripleIndirect(o) => o < bnpb * bnpb * bnpb
    case Beyond => false
  }

  /** The logical block index a slot stands for. */
  function Position(r: Regions, s: Slot): nat
    requires !s.Beyond?
  {
    match s
    case Direct(k) => k
    case SingleIndirect(o) => r.direct + o
    case DoubleIndirect(o) => r.one + o
    case TripleIndirect(o) => r.two + o
  }

  lemma RegionsExact(bsz: Word, iDirect: Word)
    requires NoWrap(bsz, iDirect)
    ensures var bnpb := BlockNumbersPerBlock(bsz); var r := RegionsOf(bsz, iDirect);
      && r.one == iDirect + bnpb
      && r.two == iDirect + bnpb + bnpb * bnpb
      && r.three == iDirect + bnpb + bnpb * bnpb + bnpb * bnpb * bnpb
  {
    var bnpb := BlockNumbersPerBlock(bsz);
    var p2 := bnpb * bnpb;
    var p3 := p2 * bnpb;
    assert 0 <= p2 && 0 <= p3 && iDirect + bnpb + p2 + p3 < WORD_MOD;
    WrapSmall(p2);
    WrapSmall(p3);
    WrapSmall(iDirect + bnpb);
    WrapSmall(iDirect + bnpb + p2);
    WrapSmall(iDirect + bnpb + p2 + p3);
  }

  /** Without wrap-around the regions follow one another. */
  lemma RegionsOrdered(bsz: Word, iDirect: Word)
    requires NoWrap(bsz, iDirect)
    ensures var r := RegionsOf(bsz, iDirect);
      r.direct == iDirect <= r.one <= r.two <= r.three
  {
    RegionsExact(bsz, iDirect);
  }

  /** Without wrap-around the two dispatches agree, and exactly the
      indices from the capacity on land nowhere. */
  lemma {:induction false} DispatchesAgree(bsz: Word, iDirect: Word, n: nat)
    requires NoWrap(bsz, iDirect)
    ensures var r := RegionsOf(bsz, iDirect);
      && GetSlot(r, n) == SetSlot(r, n)
      && (GetSlot(r, n).Beyond? <==> n >= r.three)
  {
    RegionsOrdered(bsz, iDirect);
  }

  /** Without wrap-around every index below the capacity lands in an
      existing slot that stands for that index. */
  lemma {:induction false} DispatchPosition(bsz: Word, iDirect: Word, n: nat)
    requires NoWrap(bsz, iDirect) && n < RegionsOf(bsz, iDirect).three
    ensures var r := RegionsOf(bsz, iDirect);
      SlotExists(bsz, iDirect, GetSlot(r, n)) && Position(r, GetSlot(r, n)) == n
  {
    RegionsExact(bsz, iDirect);
  }

  /** Every existing slot is reached from exactly one logical index. */
  lemma {:induction false} SlotRoundTrip(bsz: Word, iDirect: Word, s: Slot)
    requires NoWrap(bsz, iDirect) && SlotExists(bsz, iDirect, s)
    ensures GetSlot(RegionsOf(bsz, iDirect), Position(RegionsOf(bsz, iDirect), s)) == s
  {
    RegionsExact(bsz, iDirect);
  }

  /** The capacity of a file: with seven or more fields per inode there
      are three indirect levels, so the fields beyond five are direct
      slots, and a logical block lies beyond the file exactly when it is
      past the direct slots and the three levels of `bsz / 4` block
      numbers each. */
  lemma FileCapacity(bsz: Word, iHeight: Word)
    requires iHeight >= 7 && NoWrap(bsz, iHeight - 5)
    ensures DirectSlots(iHeight) == iHeight - 5
    ensures var p := BlockNumbersPerBlock(bsz);
      forall nu: nat :: SetSlot(RegionsOf(bsz, DirectSlots(iHeight)), nu) == Beyond
        <==> nu >= iHeight - 5 + p + p * p + p * p * p
  {
    RegionsExact(bsz, iHeight - 5);
  }

  /** The indirect helpers of inodes.cpp are unimplemented: they store
      nothing and report no block (their pointer argument is unused). */
  function GetBlockNumberIndirectStub(offset: nat): Word {
    0
  }

  /** Logical block `nth` of the file whose inode record is `rec`: 0 past
      the end of the file, the direct slot in the direct range, and what
      the indirect stubs report beyond. */
  function RecBlockNumber(rec: seq<Word>, bsz: Word, iDirect: Word, nth: nat): Word
    requires |rec| >= 3 && iDirect <= |rec| - 2 && bsz > 0
  {
    if nth >= BlockCount(rec[|rec| - 1], bsz) then 0
    else match GetSlot(RegionsOf(bsz, iDirect), nth)
      case Direct(k) => rec[k]
      case SingleIndirect(o) => GetBlockNumberIndirectStub(o)
      case DoubleIndirect(o) => GetBlockNumberIndirectStub(o)
      case TripleIndirect(o) => GetBlockNumberIndirectStub(o)
      case Beyond => 0
  }

  /** The slot setLastBlockNumber fills next for inode `ino`: the one
      after the file's last block. A direct slot is a field of the record. */
  function LastSlot(sb: SuperBlock, d: seq<seq<Word>>, ino: nat): (slot: Slot)
    requires InodeOk(sb, d, ino)
    ensures slot.Direct? ==> slot.k < sb.iDirect < sb.iHeight
  {
    SetSlot(RegionsOf(sb.nBytesPerBlock, sb.iDirect), BlockCount(Field(sb, d, ino, sb.iHeight - 1), sb.nBytesPerBlock))
  }

  /** The record after setLastBlockNumber(bn): the slot the current block
      count selects gets `bn` when it is direct; indirect slots are stubs. */
  function RecSetLast(rec: seq<Word>, bsz: Word, iDirect: Word, bn: Word): (rec': seq<Word>)
    requires |rec| >= 3 && iDirect <= |rec| - 2 && bsz > 0
    ensures |rec'| == |rec|
  {
    match SetSlot(RegionsOf(bsz, iDirect), BlockCount(rec[|rec| - 1], bsz))
    case Direct(k) => rec[k := bn]
    case _ => rec
  }

  /** The disk after setLastBlockNumber(bn) on inode `ino`. */
  function SetLastOnDisk(sb: SuperBlock, d: seq<seq<Word>>, ino: nat, bn: Word): (d': seq<seq<Word>>)
    requires InodeOk(sb, d, ino)
    ensures DiskOk(sb, d')
  {
    var slot := LastSlot(sb, d, ino);
    if slot.Direct? then WithField(sb, d, ino, slot.k, bn) else d
  }

  /** On disk, setLastBlockNumber changes inode `ino`'s record as
      `RecSetLast` says and no field of any other inode. */
  lemma SetLastOnDiskSpec(sb: SuperBlock, d: seq<seq<Word>>, ino: nat, bn: Word, i: nat, x: nat)
    requires InodeOk(sb, d, ino) && i < sb.nInodes && x < sb.iHeight
    ensures Record(sb, SetLastOnDisk(sb, d, ino, bn), ino) ==
            RecSetLast(Record(sb, d, ino), sb.nBytesPerBlock, sb.iDirect, bn)
    ensures i != ino ==> Field(sb, SetLastOnDisk(sb, d, ino, bn), i, x) == Field(sb, d, i, x)
  {
    var slot := LastSlot(sb, d, ino);
    var rec := Record(sb, d, ino);
    if slot.Direct? {
      FieldAfterWithField(sb, d, ino, slot.k, bn, i, x);
      forall y | 0 <= y < sb.iHeight
        ensures Record(sb, SetLastOnDisk(sb, d, ino, bn), ino)[y] == rec[slot.k := bn][y]
      {
        FieldAfterWithField(sb, d, ino, slot.k, bn, ino, y);
      }
    }
  }

  /** Appending in the direct range keeps every earlier block, and once the
      file has grown by a block the new last block is `bn`. */
  lemma {:induction false} AppendThenGet(rec: seq<Word>, bsz: Word, iDirect: Word, bn: Word, size': Word)
    requires |rec| >= 3 && iDirect <= |rec| - 2 && bsz > 0 && NoWrap(bsz, iDirect)
    requires BlockCount(rec[|rec| - 1], bsz) < iDirect
    requires BlockCount(size', bsz) == BlockCount(rec[|rec| - 1], bsz) + 1
    ensures var nu := BlockCount(rec[|rec| - 1], bsz);
      var rec' := RecSetLast(rec, bsz, iDirect, bn)[|rec| - 1 := size'];
      && (forall j :: 0 <= j < nu ==> RecBlockNumber(rec', bsz, iDirect, j) == RecBlockNumber(rec, bsz, iDirect, j))
      && RecBlockNumber(rec', bsz, iDirect, nu) == bn
      && RecBlockNumber(rec', bsz, iDirect, nu + 1) == 0
  {
    var nu := BlockCount(rec[|rec| - 1], bsz);
    var r := RegionsOf(bsz, iDirect);
    RegionsOrdered(bsz, iDirect);
    assert SetSlot(r, nu) == Direct(nu);
    var rec' := rec[nu := bn][|rec| - 1 := size'];
    assert RecSetLast(rec, bsz, iDirect, bn)[|rec| - 1 := size'] == rec';
    forall j | 0 <= j < nu
      ensures RecBlockNumber(rec', bsz, iDirect, j) == RecBlockNumber(rec, bsz, iDirect, j)
    {
      assert GetSlot(r, j) == Direct(j);
    }
    assert GetSlot(r, nu) == Direct(nu);
  }

  /** The block numbers of a file, logical index order. */
  function FileBlocks(rec: seq<Word>, bsz: Word, iDirect: Word): (bns: seq<Word>)
    requires |rec| >= 3 && iDirect <= |rec| - 2 && bsz > 0
    ensures |bns| == BlockCount(rec[|rec| - 1], bsz)
    ensures forall j :: 0 <= j < |bns| ==> bns[j] == RecBlockNumber(rec, bsz, iDirect, j)
  {
    seq(BlockCount(rec[|rec| - 1], bsz), j requires 0 <= j => RecBlockNumber(rec, bsz, iDirect, j))
  }

  /** The bitmap after each of `bns` is marked free, `bns[0]` last. */
  function Freed(bits: seq<bool>, bns: seq<Word>): seq<bool> {
    if bns == [] then bits else WithBit(Freed(bits, bns[1..]), bns[0], true)
  }

  /** Freeing a list of blocks frees exactly those blocks and keeps the
      rest of the bitmap. */
  lemma {:induction false} FreedSpec(bits: seq<bool>, bns: seq<Word>)
    ensures |Freed(bits, bns)| == |bits|
    ensures forall b :: 0 <= b < |bits| ==> Freed(bits, bns)[b] == (bits[b] || b in bns)
  {
    if bns != [] {
      FreedSpec(bits, bns[1..]);
      assert forall b :: b in bns <==> b == bns[0] || b in bns[1..];
    }
  }

  // ---------------------------------------------------------------------
  // The inode table in place
  // ---------------------------------------------------------------------

  class Inodes {
    var fv: FileVolume
    /** The shared scratch block: the last inode block read. */
    var uintbuffer: seq<Word>

    constructor (pfv: FileVolume)
      ensures fv == pfv && uintbuffer == []
    {
      fv := pfv;
      uintbuffer := [];
    }

    ghost predicate Valid()
      reads this, fv`superBlock, fv.disk
    {
      && GeometryOk(fv.superBlock)
      && DiskOk(fv.superBlock, fv.disk[..])
      && fv.fbvInodes.Length == fv.superBlock.nInodes
      && fv.fbvBlocks.Length == fv.superBlock.nTotalBlocks
      && fv.fbvInodes != fv.fbvBlocks
      && |uintbuffer| == WordsPerBlock(fv.superBlock)
    }

    /** The disk's present value. */
    function Disk(): seq<seq<Word>>
      reads this`fv, fv.disk
    {
      fv.disk[..]
    }

    function SB(): SuperBlock
      reads this`fv, fv`superBlock
    {
      fv.superBlock
    }

    /** `create`: derive and record the geometry, clear every block of the
        inode table and mark those blocks in use. */
    method Create(pfv: FileVolume, nBegin: Word, nInodes: Word, iHeight: Word) returns (r: Word)
      requires iHeight >= 3
      requires pfv.superBlock.nBytesPerBlock > 0
      requires InodesPerBlock(pfv.superBlock.nBytesPerBlock, iHeight) > 0
      requires DiskOk(pfv.superBlock, pfv.disk[..])
      requires pfv.fbvBlocks.Length == pfv.superBlock.nTotalBlocks
      requires pfv.fbvInodes.Length == nInodes && pfv.fbvInodes != pfv.fbvBlocks
      requires nBegin + BlocksOfInodes(nInodes, InodesPerBlock(pfv.superBlock.nBytesPerBlock, iHeight))
               <= pfv.superBlock.nTotalBlocks
      modifies this, pfv`superBlock, pfv.disk, pfv.fbvBlocks
      ensures Valid() && fv == pfv && r == nInodes
      ensures var bsz := old(pfv.superBlock.nBytesPerBlock);
        var ipb := InodesPerBlock(bsz, iHeight);
        fv.superBlock == old(pfv.superBlock).(
          nBlockBeginInodes := nBegin, nInodes := nInodes, iWidth := I_WIDTH, iHeight := iHeight,
          nBlocksOfInodes := BlocksOfInodes(nInodes, ipb), inodesPerBlock := ipb,
          iDirect := DirectSlots(iHeight))
      ensures forall b :: 0 <= b < fv.disk.Length ==>
        fv.disk[b] == if nBegin <= b < nBegin + fv.superBlock.nBlocksOfInodes
                      then Zeros(WordsPerBlock(fv.superBlock)) else old(pfv.disk[b])
      ensures forall b :: 0 <= b < fv.fbvBlocks.Length ==>
        fv.fbvBlocks[b] == if nBegin <= b < nBegin + fv.superBlock.nBlocksOfInodes
                           then false else old(pfv.fbvBlocks[b])
      ensures uintbuffer == Zeros(WordsPerBlock(fv.superBlock))
    {
      fv := pfv;
      var bsz := fv.superBlock.nBytesPerBlock;
      var ipb := InodesPerBlock(bsz, iHeight);
      var nb := BlocksOfInodes(nInodes, ipb);
      BlocksOfInodesCoversTable(nInodes, ipb);
      fv.superBlock := fv.superBlock.(
        nBlockBeginInodes := nBegin, nInodes := nInodes, iWidth := I_WIDTH, iHeight := iHeight,
        nBlocksOfInodes := nb, inodesPerBlock := ipb, iDirect := DirectSlots(iHeight));
      uintbuffer := Zeros(bsz / I_WIDTH);
      ghost var sb := fv.superBlock;
      var i, j := nBegin, nBegin + nb;
      while i < j
        invariant fv == pfv && fv.superBlock == sb && uintbuffer == Zeros(bsz / I_WIDTH)
        invariant nBegin <= i <= j
        invariant forall b :: 0 <= b < fv.disk.Length ==>
          fv.disk[b] == if nBegin <= b < i then uintbuffer else old(pfv.disk[b])
        invariant forall b :: 0 <= b < fv.fbvBlocks.Length ==>
          fv.fbvBlocks[b] == if nBegin <= b < i then false else old(pfv.fbvBlocks[b])
      {
        fv.disk[i] := uintbuffer;
        SetBit(fv.fbvBlocks, i, false);
        i := i + 1;
      }
      r := nInodes;
    }

    /** `getInode`: read the block holding inode `ino` into the buffer;
        report where its record starts and how many blocks its file has. */
    method GetInode(ino: Word) returns (pin: nat, ne: Word)
      requires Valid() && ino < SB().nInodes
      modifies this`uintbuffer
      ensures Valid()
      ensures InodeOk(SB(), Disk(), ino)
      ensures pin == SlotOf(SB(), ino) && pin + SB().iHeight <= |uintbuffer|
      ensures uintbuffer == InodeBlock(SB(), Disk(), ino)
      ensures ne == BlockCount(Field(SB(), Disk(), ino, SB().iHeight - 1), SB().nBytesPerBlock)
      ensures uintbuffer[pin..pin + SB().iHeight] == Record(SB(), Disk(), ino)
    {
      var sb := fv.superBlock;
      InodeLocation(sb, ino, sb.iHeight - 1);
      var nblock := BlockOf(sb, ino);
      uintbuffer := fv.disk[nblock];
      pin := SlotOf(sb, ino);
      var fileSize := uintbuffer[pin + sb.iHeight - 1];
      ne := BlockCount(fileSize, sb.nBytesPerBlock);
    }

    /** `putInode`: write the buffer back to the block of inode `ino`. */
    method PutInode(ino: Word)
      requires Valid() && ino < SB().nInodes
      modifies fv.disk
      ensures Valid()
      ensures Disk() == WithInodeBlock(SB(), old(Disk()), ino, uintbuffer)
    {
      var sb := fv.superBlock;
      InodeLocation(sb, ino, 0);
      var nblock := sb.nBlockBeginInodes + ino / sb.inodesPerBlock;
      fv.disk[nblock] := uintbuffer;
    }

    /** `getFree`: take a free inode from the bitmap and clear its record;
        0 when none is free. A cleared inode has size 0, so its file's byte
        stream is empty. */
    method GetFree() returns (ino: Word)
      requires Valid()
      modifies this`uintbuffer, fv.disk, fv.fbvInodes, fv`files
      ensures Valid()
      ensures ino == FirstFree(old(fv.fbvInodes[..])) && (ino != 0 ==> ino < SB().nInodes)
      ensures ino == 0 ==> Disk() == old(Disk()) && fv.fbvInodes[..] == old(fv.fbvInodes[..])
                           && fv.files == old(fv.files) && uintbuffer == old(uintbuffer)
      ensures ino != 0 ==> && Disk() == ZeroedInode(SB(), old(Disk()), ino)
                           && fv.fbvInodes[..] == old(fv.fbvInodes[..])[ino := false]
                           && fv.files == old(fv.files)[ino := []]
                           && uintbuffer == InodeBlock(SB(), Disk(), ino)
    {
      var i := GetFreeBit(fv.fbvInodes);
      ino := i;
      if ino > 0 {
        ClearInode(ino);
      }
    }

    /** The rest of `getFree` once inode `ino` is marked in use: zero its
        record on disk and give it an empty file. */
    method ClearInode(ino: Word)
      requires Valid() && ino < SB().nInodes
      modifies this`uintbuffer, fv.disk, fv`files
      ensures Valid()
      ensures Disk() == ZeroedInode(SB(), old(Disk()), ino)
      ensures fv.files == old(fv.files)[ino := []]
      ensures uintbuffer == InodeBlock(SB(), Disk(), ino)
    {
      ghost var d0 := Disk();
      var pin, _ := GetInode(ino);
      ZeroedInodeIsBlockWrite(SB(), d0, ino);
      uintbuffer := uintbuffer[..pin] + Zeros(fv.superBlock.iHeight) + uintbuffer[pin + fv.superBlock.iHeight..];
      PutInode(ino);
      fv.files := fv.files[ino := []];
    }

    /** `getEntry`: field `x` of inode `ino`. */
    method GetEntry(ino: Word, x: Word) returns (v: Word)
      requires Valid() && ino < SB().nInodes && x < SB().iHeight
      modifies this`uintbuffer
      ensures Valid()
      ensures InodeOk(SB(), Disk(), ino) && v == Field(SB(), Disk(), ino, x)
      ensures uintbuffer == InodeBlock(SB(), Disk(), ino)
    {
      var pin, _ := GetInode(ino);
      v := uintbuffer[pin + x];
    }

    /** `setEntry`: set field `x` of inode `ino` to `tp` on disk; returns `tp`. */
    method SetEntry(ino: Word, x: Word, tp: Word) returns (r: Word)
      requires Valid() && ino < SB().nInodes && x < SB().iHeight
      modifies this`uintbuffer, fv.disk
      ensures Valid()
      ensures InodeOk(SB(), old(Disk()), ino)
      ensures Disk() == WithField(SB(), old(Disk()), ino, x, tp)
      ensures r == tp && uintbuffer == InodeBlock(SB(), Disk(), ino)
    {
      ghost var d0 := Disk();
      var pin, _ := GetInode(ino);
      WithFieldIsBlockWrite(SB(), d0, ino, x, tp);
      uintbuffer := uintbuffer[pin + x := tp];
      PutInode(ino);
      r := uintbuffer[pin + x];
    }

    method GetType(ino: Word) returns (tp: Word)
      requires Valid() && ino < SB().nInodes
      modifies this`uintbuffer
      ensures Valid()
      ensures InodeOk(SB(), Disk(), ino) && tp == Field(SB(), Disk(), ino, SB().iHeight - 2)
    {
      tp := GetEntry(ino, fv.superBlock.iHeight - 2);
    }

    method SetType(ino: Word, tp: Word) returns (r: Word)
      requires Valid() && ino < SB().nInodes
      modifies this`uintbuffer, fv.disk
      ensures Valid()
      ensures InodeOk(SB(), old(Disk()), ino)
      ensures Disk() == WithField(SB(), old(Disk()), ino, SB().iHeight - 2, tp) && r == tp
    {
      r := SetEntry(ino, fv.superBlock.iHeight - 2, tp);
    }

    method GetFileSize(ino: Word) returns (sz: Word)
      requires Valid() && ino < SB().nInodes
      modifies this`uintbuffer
      ensures Valid()
      ensures InodeOk(SB(), Disk(), ino) && sz == Field(SB(), Disk(), ino, SB().iHeight - 1)
    {
      sz := GetEntry(ino, fv.superBlock.iHeight - 1);
    }

    method SetFileSize(ino: Word, sz: Word) returns (r: Word)
      requires Valid() && ino < SB().nInodes
      modifies this`uintbuffer, fv.disk
      ensures Valid()
      ensures InodeOk(SB(), old(Disk()), ino)
      ensures Disk() == WithField(SB(), old(Disk()), ino, SB().iHeight - 1, sz) && r == sz
    {
      r := SetEntry(ino, fv.superBlock.iHeight - 1, sz);
    }

    /** `incFileSize`: add a signed `inc` to the size, modulo 2^32. */
    method IncFileSize(ino: Word, inc: Int32) returns (r: Word)
      requires Valid() && ino < SB().nInodes
      modifies this`uintbuffer, fv.disk
      ensures Valid()
      ensures InodeOk(SB(), old(Disk()), ino)
      ensures r == Wrap(Field(SB(), old(Disk()), ino, SB().iHeight - 1) + inc)
      ensures Disk() == WithField(SB(), old(Disk()), ino, SB().iHeight - 1, r)
    {
      var pin, _ := GetInode(ino);
      var x := pin + fv.superBlock.iHeight - 1;
      uintbuffer := uintbuffer[x := Wrap(uintbuffer[x] + inc)];
      PutInode(ino);
      r := uintbuffer[x];
    }

    /** `setLastBlockNumber`: store `bn` in the slot that follows the file's
        last block. In the direct range the slot is written (and, when `bn`
        is 0, the block it held is first marked free); the indirect ranges
        are stubs and beyond them nothing happens. Always returns 1. */
    method SetLastBlockNumber(ino: Word, bn: Word) returns (r: Word)
      requires Valid() && ino < SB().nInodes
      modifies this`uintbuffer, fv.disk, fv.fbvBlocks
      ensures Valid() && r == 1
      ensures InodeOk(SB(), old(Disk()), ino)
      ensures Disk() == SetLastOnDisk(SB(), old(Disk()), ino, bn)
      ensures var slot := LastSlot(SB(), old(Disk()), ino);
        fv.fbvBlocks[..] == if slot.Direct? && bn == 0
                            then WithBit(old(fv.fbvBlocks[..]), Field(SB(), old(Disk()), ino, slot.k), true)
                            else old(fv.fbvBlocks[..])
    {
      var sb := fv.superBlock;
      ghost var d0 := Disk();
      var pin, nu := GetInode(ino);
      var slot := SetSlot(RegionsOf(sb.nBytesPerBlock, sb.iDirect), nu);
      assert slot == LastSlot(sb, d0, ino);
      if slot.Direct? {
        SetDirect(ino, pin, slot.k, bn);
      }
      r := 1;
    }

    /** The direct case of `setLastBlockNumber`: with inode `ino`'s block
        in the buffer, free the block slot `k` held when `bn` is 0, write
        `bn` into the slot and write the block back. */
    method SetDirect(ino: Word, pin: nat, k: nat, bn: Word)
      requires Valid() && ino < SB().nInodes && k < SB().iHeight
      requires pin == SlotOf(SB(), ino) && uintbuffer == InodeBlock(SB(), Disk(), ino)
      modifies this`uintbuffer, fv.disk, fv.fbvBlocks
      ensures Valid()
      ensures Disk() == WithField(SB(), old(Disk()), ino, k, bn)
      ensures fv.fbvBlocks[..] == if bn == 0 then WithBit(old(fv.fbvBlocks[..]), Field(SB(), old(Disk()), ino, k), true)
                                  else old(fv.fbvBlocks[..])
    {
      WithFieldIsBlockWrite(SB(), Disk(), ino, k, bn);
      assert uintbuffer[pin + k] == Field(SB(), Disk(), ino, k);
      if bn == 0 {
        SetBit(fv.fbvBlocks, uintbuffer[pin + k], true);
      }
      uintbuffer := uintbuffer[pin + k := bn];
      PutInode(ino);
    }

    /** `addBlockNumber`: append block `bn` to the file of inode `ino`,
        refusing (0, no change) the null inode, the null block and numbers
        out of range. */
    method AddBlockNumber(ino: Word, bn: Word) returns (r: Word)
      requires Valid()
      modifies this`uintbuffer, fv.disk, fv.fbvBlocks
      ensures Valid()
      ensures (ino == 0 || ino >= SB().nInodes || bn == 0 || bn >= SB().nTotalBlocks) ==>
        r == 0 && Disk() == old(Disk()) && fv.fbvBlocks[..] == old(fv.fbvBlocks[..])
      ensures !(ino == 0 || ino >= SB().nInodes || bn == 0 || bn >= SB().nTotalBlocks) ==>
        && r == 1 && InodeOk(SB(), old(Disk()), ino)
        && fv.fbvBlocks[..] == old(fv.fbvBlocks[..])
        && Disk() == SetLastOnDisk(SB(), old(Disk()), ino, bn)
    {
      var sb := fv.superBlock;
      if ino == 0 || ino >= sb.nInodes || bn == 0 || bn >= sb.nTotalBlocks {
        r := 0;
      } else {
        r := SetLastBlockNumber(ino, bn);
      }
    }

    /** `getBlockNumber`: logical block `nth` of the file of inode `ino`. */
    method GetBlockNumber(ino: Word, nth: Word) returns (bn: Word)
      requires Valid() && ino < SB().nInodes
      modifies this`uintbuffer
      ensures Valid()
      ensures InodeOk(SB(), Disk(), ino)
      ensures bn == RecBlockNumber(Record(SB(), Disk(), ino), SB().nBytesPerBlock, SB().iDirect, nth)
      ensures uintbuffer == InodeBlock(SB(), Disk(), ino)
    {
      var pin, nthmax := GetInode(ino);
      if nth >= nthmax {
        return 0;
      }
      var sb := fv.superBlock;
      var iDirect := sb.iDirect;
      if nth < iDirect {
        return uintbuffer[pin + nth];
      }
      var bnpb := sb.nBytesPerBlock / sb.iWidth;
      var iIndirectOne := Wrap(iDirect + bnpb);
      if nth < iIndirectOne {
        return GetBlockNumberIndirectStub(nth - iDirect);
      }
      var iIndirectTwo := Wrap(iIndirectOne + Wrap(bnpb * bnpb));
      if nth < iIndirectTwo {
        return GetBlockNumberIndirectStub(nth - iIndirectOne);
      }
      var iIndirectThree := Wrap(iIndirectTwo + Wrap(Wrap(bnpb * bnpb) * bnpb));
      if nth < iIndirectThree {
        return GetBlockNumberIndirectStub(nth - iIndirectTwo);
      }
      return 0;
    }

    /** `setFree`: mark free every block of the file, last to first, then
        the inode itself; the record is left as it is. Returns the number
        of blocks the file had. */
    method SetFree(ino: Word) returns (nu: Word)
      requires Valid() && ino < SB().nInodes
      modifies this`uintbuffer, fv.fbvBlocks, fv.fbvInodes
      ensures Valid()
      ensures InodeOk(SB(), Disk(), ino)
      ensures var rec := Record(SB(), Disk(), ino);
        && nu == BlockCount(rec[SB().iHeight - 1], SB().nBytesPerBlock)
        && fv.fbvBlocks[..] == Freed(old(fv.fbvBlocks[..]), FileBlocks(rec, SB().nBytesPerBlock, SB().iDirect))
      ensures fv.fbvInodes[..] == WithBit(old(fv.fbvInodes[..]), ino, true)
    {
      var _, n := GetInode(ino);
      nu := n;
      ghost var bns := FileBlocks(Record(SB(), Disk(), ino), SB().nBytesPerBlock, SB().iDirect);
      var i := nu;
      while i > 0
        invariant Valid() && 0 <= i <= nu
        invariant fv.fbvBlocks[..] == Freed(old(fv.fbvBlocks[..]), bns[i..])
        invariant fv.fbvInodes[..] == old(fv.fbvInodes[..])
      {
        i := i - 1;
        var bn := GetBlockNumber(ino, i);
        SetBit(fv.fbvBlocks, bn, true);
        assert bns[i..][1..] == bns[i + 1..];
      }
      SetBit(fv.fbvInodes, ino, true);
    }
  }
}
