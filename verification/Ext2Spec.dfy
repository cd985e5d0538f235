/**
  What a file of an ext2 file system holds: the map from its logical blocks to disk blocks through the direct, single,
  double and triple indirect entries of its inode, and the bytes of those blocks. Beside it stands the block the read
  iterator of fs/ext2/ext2.c looks up for the same logical block.
 */
module Ext2Spec {

  const SECTOR: int := 512
  const BLOCK: int := 1024
  const L1_IDX: int := 12
  const L2_IDX: int := 13
  const L3_IDX: int := 14
  const PER: int := 256                       // block numbers in one block
  const LBA28: int := 0x1000_0000             // the sector registers of the drive hold 28 bits

  // First logical block past each level.
  const L1_END: int := L1_IDX + PER
  const L2_END: int := L1_END + PER * PER
  const L3_END: int := L2_END + PER * PER * PER

  type byte = x: int | 0 <= x < 256

  type Disk = nat -> seq<byte>

  ghost predicate DiskOk(disk: Disk) {
    forall s :: |disk(s)| == SECTOR
  }

  function Min(a: int, b: int): int {
    if a < b then a else b
  }

  /** The bytes of `n` sectors from `s` on. */
  ghost function Sectors(disk: Disk, s: nat, n: nat): (r: seq<byte>)
    requires DiskOk(disk)
    ensures |r| == n * SECTOR
  {
    if n == 0 then [] else Sectors(disk, s, n - 1) + disk(s + n - 1)
  }

  /** The two sectors of block `b` of the partition that starts at sector `lba`. */
  ghost function BlockBytes(disk: Disk, lba: nat, b: nat): (r: seq<byte>)
    requires DiskOk(disk)
    ensures |r| == BLOCK
  {
    Sectors(disk, (lba + 2 * b) % LBA28, 2)
  }

  /** The little-endian 32-bit number at index `k` of a block of numbers. */
  function Number(b: seq<byte>, k: nat): nat
    requires |b| == BLOCK && k < PER
  {
    b[4 * k] as int + 0x100 * b[4 * k + 1] as int + 0x1_0000 * b[4 * k + 2] as int + 0x100_0000 * b[4 * k + 3] as int
  }

  // ----- blocks of numbers, as a file system writes them

  /** The lowest `k` bytes of a number, low byte first. */
  function LittleEndian(n: nat, k: nat): (r: seq<byte>)
    ensures |r| == k
  {
    if k == 0 then [] else [n % 256] + LittleEndian(n / 256, k - 1)
  }

  /** Four bytes for each number. */
  function Written(ns: seq<nat>): (r: seq<byte>)
    ensures |r| == 4 * |ns|
  {
    if ns == [] then [] else LittleEndian(ns[0], 4) + Written(ns[1..])
  }

  lemma {:induction false} WrittenAt(ns: seq<nat>, k: nat)
    requires k < |ns|
    ensures Written(ns)[4 * k..4 * k + 4] == LittleEndian(ns[k], 4)
  {
    hide LittleEndian;
    var first, rest := LittleEndian(ns[0], 4), Written(ns[1..]);
    if k == 0 {
      assert (first + rest)[0..4] == first;
    } else {
      WrittenAt(ns[1..], k - 1);
      assert (first + rest)[4 * k..4 * k + 4] == rest[4 * (k - 1)..4 * (k - 1) + 4];
    }
  }

  lemma LittleEndianFour(n: nat)
    ensures LittleEndian(n, 4) == [n % 256, n / 256 % 256, n / 256 / 256 % 256, n / 256 / 256 / 256 % 256]
  {
    assert LittleEndian(n / 256 / 256 / 256, 1) == [n / 256 / 256 / 256 % 256];
    assert LittleEndian(n / 256 / 256, 2) == [n / 256 / 256 % 256, n / 256 / 256 / 256 % 256];
    assert LittleEndian(n / 256, 3) == [n / 256 % 256, n / 256 / 256 % 256, n / 256 / 256 / 256 % 256];
  }

  lemma ByteOff(n: nat, low: byte, high: nat)
    ensures n == low + 256 * high <==> n % 256 == low && n / 256 == high
  {
  }

  /** Four bytes low byte first are the number they stand for, and every four bytes stand for one. */
  lemma FourBytes(n: nat, b: seq<byte>)
    requires n < 0x1_0000_0000 && |b| == 4
    ensures LittleEndian(n, 4) == b <==>
            n == b[0] as int + 0x100 * b[1] as int + 0x1_0000 * b[2] as int + 0x100_0000 * b[3] as int
  {
    hide LittleEndian;
    LittleEndianFour(n);
    var r := LittleEndian(n, 4);
    assert r == b <==> r[0] == b[0] && r[1] == b[1] && r[2] == b[2] && r[3] == b[3];
    var middle: nat, top: nat := b[1], b[3];
    var high: nat := b[2] as int + 256 * top;
    ByteOff(n, b[0], middle + 256 * high);
    ByteOff(n / 256, b[1], high);
    ByteOff(n / 256 / 256, b[2], top);
  }

  /** Reading a written block of numbers gives them back, and a block is the writing of the numbers read from it. */
  lemma NumbersWritten(ns: seq<nat>, b: seq<byte>)
    requires |ns| == PER && |b| == BLOCK && forall k :: 0 <= k < PER ==> ns[k] < 0x1_0000_0000
    ensures b == Written(ns) <==> forall k :: 0 <= k < PER ==> Number(b, k) == ns[k]
  {
    hide LittleEndian, Written;
    forall k | 0 <= k < PER
      ensures Number(b, k) == ns[k] <==> b[4 * k..4 * k + 4] == Written(ns)[4 * k..4 * k + 4]
    {
      WrittenAt(ns, k);
      FourBytes(ns[k], b[4 * k..4 * k + 4]);
    }
    if forall k :: 0 <= k < PER ==> Number(b, k) == ns[k] {
      forall x | 0 <= x < BLOCK
        ensures b[x] == Written(ns)[x]
      {
        var k := x / 4;
        assert Number(b, k) == ns[k];
        assert b[4 * k..4 * k + 4][x % 4] == b[x] && Written(ns)[4 * k..4 * k + 4][x % 4] == Written(ns)[x];
      }
    }
  }

  /** Entry `k` of the index block `b`; no index block, no entry. */
  ghost function Entry(disk: Disk, lba: nat, b: nat, k: nat): nat
    requires DiskOk(disk) && k < PER
  {
    if b == 0 then 0 else Number(BlockBytes(disk, lba, b), k)
  }

  /** The disk block of logical block `i`, zero for none, as the file system lays it out. */
  ghost function Mapped(disk: Disk, lba: nat, inode: seq<nat>, i: nat): nat
    requires DiskOk(disk) && |inode| == 15
  {
    if i < L1_IDX then inode[i]
    else if i < L1_END then Entry(disk, lba, inode[L1_IDX], i - L1_IDX)
    else if i < L2_END then
      var o := i - L1_END;
      Entry(disk, lba, Entry(disk, lba, inode[L2_IDX], o / PER), o % PER)
    else if i < L3_END then
      var o := i - L2_END;
      var middle := Entry(disk, lba, inode[L3_IDX], o / (PER * PER));
      Entry(disk, lba, Entry(disk, lba, middle, o / PER % PER), o % PER)
    else 0
  }

  /** Number of blocks of a file without holes, counting from block `i`: the blocks before the first unmapped one. */
  ghost function Length(disk: Disk, lba: nat, inode: seq<nat>, i: nat): (n: nat)
    requires DiskOk(disk) && |inode| == 15 && i <= L3_END
    ensures i <= n <= L3_END && Mapped(disk, lba, inode, n) == 0
    ensures forall k :: i <= k < n ==> Mapped(disk, lba, inode, k) != 0
    decreases L3_END - i
  {
    if Mapped(disk, lba, inode, i) == 0 then i else Length(disk, lba, inode, i + 1)
  }

  /** The bytes of the first `n` logical blocks, in order. */
  ghost function Contents(disk: Disk, lba: nat, inode: seq<nat>, n: nat): (r: seq<byte>)
    requires DiskOk(disk) && |inode| == 15
    ensures |r| == n * BLOCK
  {
    if n == 0 then []
    else Contents(disk, lba, inode, n - 1) + BlockBytes(disk, lba, Mapped(disk, lba, inode, n - 1))
  }

  /** A shorter prefix of the file is a prefix of the longer one. */
  lemma {:induction false} ContentsPrefix(disk: Disk, lba: nat, inode: seq<nat>, m: nat, n: nat)
    requires DiskOk(disk) && |inode| == 15 && m <= n
    ensures Contents(disk, lba, inode, n)[..m * BLOCK] == Contents(disk, lba, inode, m)
    decreases n
  {
    if m < n {
      ContentsPrefix(disk, lba, inode, m, n - 1);
      assert Contents(disk, lba, inode, n)[..m * BLOCK] == Contents(disk, lba, inode, n - 1)[..m * BLOCK];
    }
  }

  // ----- files as they are laid out

  /** The two sectors of block `b` hold `data`. */
  ghost predicate Stores(disk: Disk, lba: nat, b: nat, data: seq<byte>) {
    lba + 2 * b + 1 < LBA28 && disk(lba + 2 * b) + disk(lba + 2 * b + 1) == data
  }

  /** `ns` filled up with zeros to `n` numbers. */
  function Filled(ns: seq<nat>, n: nat): (r: seq<nat>)
    requires |ns| <= n
    ensures |r| == n
  {
    ns + seq(n - |ns|, _ => 0)
  }

  /** A file of at most 268 blocks: block `where[i]` of the disk stores block `i` of the file, the inode names the first
      twelve and the index block, and that lists the others. */
  ghost predicate LaidOut(disk: Disk, lba: nat, inode: seq<nat>, data: seq<seq<byte>>, where: seq<nat>, index: nat) {
    && |data| == |where| <= L1_END
    && (forall i :: 0 <= i < |where| ==> 0 < where[i] < 0x1_0000_0000 && Stores(disk, lba, where[i], data[i]))
    && (if |where| <= L1_IDX then inode == Filled(where, 15)
        else index > 0 && inode == where[..L1_IDX] + [index, 0, 0]
             && Stores(disk, lba, index, Written(Filled(where[L1_IDX..], PER))))
  }

  function Joined(data: seq<seq<byte>>): seq<byte> {
    if data == [] then [] else Joined(data[..|data| - 1]) + data[|data| - 1]
  }

  lemma StoresBlock(disk: Disk, lba: nat, b: nat, data: seq<byte>)
    requires DiskOk(disk) && Stores(disk, lba, b, data)
    ensures BlockBytes(disk, lba, b) == data
  {
    var s := lba + 2 * b;
    assert Sectors(disk, s, 1) == [] + disk(s);
    assert Sectors(disk, s, 2) == Sectors(disk, s, 1) + disk(s + 1);
  }

  lemma LaidOutMapped(disk: Disk, lba: nat, inode: seq<nat>, data: seq<seq<byte>>, where: seq<nat>, index: nat, i: nat)
    requires DiskOk(disk) && LaidOut(disk, lba, inode, data, where, index) && i <= |where|
    ensures |inode| == 15 && Mapped(disk, lba, inode, i) == if i < |where| then where[i] else 0
  {
    hide Written, BlockBytes, Number;
    if L1_IDX <= i < L1_END && |where| > L1_IDX {
      var ns := Filled(where[L1_IDX..], PER);
      StoresBlock(disk, lba, index, Written(ns));
      NumbersWritten(ns, BlockBytes(disk, lba, index));
      assert Number(BlockBytes(disk, lba, index), i - L1_IDX) == ns[i - L1_IDX];
    }
  }

  lemma {:induction false} LaidOutLength(disk: Disk, lba: nat, inode: seq<nat>, data: seq<seq<byte>>, where: seq<nat>,
          index: nat, i: nat)
    requires DiskOk(disk) && LaidOut(disk, lba, inode, data, where, index) && i <= |where|
    ensures |inode| == 15 && Length(disk, lba, inode, i) == |where|
    decreases |where| - i
  {
    hide LaidOut, Mapped;
    LaidOutSmall(disk, lba, inode, data, where, index);
    LaidOutMapped(disk, lba, inode, data, where, index, i);
    if i < |where| {
      LaidOutLength(disk, lba, inode, data, where, index, i + 1);
    }
  }

  lemma LaidOutSmall(disk: Disk, lba: nat, inode: seq<nat>, data: seq<seq<byte>>, where: seq<nat>, index: nat)
    requires LaidOut(disk, lba, inode, data, where, index)
    ensures |data| == |where| <= L1_END && |inode| == 15
    ensures forall i :: 0 <= i < |where| ==> where[i] > 0 && Stores(disk, lba, where[i], data[i])
  {
  }

  lemma {:induction false} LaidOutContents(disk: Disk, lba: nat, inode: seq<nat>, data: seq<seq<byte>>, where: seq<nat>,
          index: nat, n: nat)
    requires DiskOk(disk) && LaidOut(disk, lba, inode, data, where, index) && n <= |data|
    ensures |inode| == 15 && Contents(disk, lba, inode, n) == Joined(data[..n])
  {
    hide LaidOut, Mapped, BlockBytes, Stores;
    LaidOutSmall(disk, lba, inode, data, where, index);
    if n > 0 {
      LaidOutContents(disk, lba, inode, data, where, index, n - 1);
      LaidOutMapped(disk, lba, inode, data, where, index, n - 1);
      StoresBlock(disk, lba, where[n - 1], data[n - 1]);
      assert data[..n][..n - 1] == data[..n - 1];
    }
  }

  /** The file that was laid out is the file there is: all its blocks, in order, and no more. */
  lemma LaidOutReads(disk: Disk, lba: nat, inode: seq<nat>, data: seq<seq<byte>>, where: seq<nat>, index: nat)
    requires DiskOk(disk) && LaidOut(disk, lba, inode, data, where, index)
    ensures |inode| == 15 && Reached(disk, lba, inode) == Length(disk, lba, inode, 0) == |data|
    ensures Contents(disk, lba, inode, |data|) == Joined(data)
  {
    hide LaidOut, Mapped, BlockBytes, Stores, Length, Contents;
    LaidOutSmall(disk, lba, inode, data, where, index);
    LaidOutLength(disk, lba, inode, data, where, index, 0);
    LaidOutContents(disk, lba, inode, data, where, index, |data|);
    assert data[..|data|] == data;
  }

  // ----- the block the iterator looks up

  /** block_iter_L2 and block_iter_L3: the quotient of the offset is passed on as a block number. */
  ghost function LookL2(disk: Disk, lba: nat, b: nat, o: nat): nat
    requires DiskOk(disk)
  {
    if b == 0 then 0 else Entry(disk, lba, o / PER, o % PER)
  }

  ghost function LookL3(disk: Disk, lba: nat, b: nat, o: nat): nat
    requires DiskOk(disk)
  {
    if b == 0 then 0 else LookL2(disk, lba, o / (PER * PER), o % (PER * PER))
  }

  // The iterator counts its levels from the twelfth block each time.
  const ITER_L2_END: int := L1_IDX + PER * PER
  const ITER_L3_END: int := L1_IDX + PER * PER * PER

  /** The disk block the iterator takes for logical block `i`. */
  ghost function Looked(disk: Disk, lba: nat, inode: seq<nat>, i: nat): nat
    requires DiskOk(disk) && |inode| == 15
  {
    if i < L1_IDX then inode[i]
    else if i < L1_END then Entry(disk, lba, inode[L1_IDX], i - L1_IDX)
    else if i < ITER_L2_END then LookL2(disk, lba, inode[L2_IDX], i - L1_END)
    else LookL3(disk, lba, inode[L3_IDX], i - ITER_L2_END)
  }

  /** How many blocks a read of `count` bytes delivers: it ends with the single indirect level. */
  ghost function Reached(disk: Disk, lba: nat, inode: seq<nat>): nat
    requires DiskOk(disk) && |inode| == 15
  {
    Min(Length(disk, lba, inode, 0), L1_END)
  }

  /** The iterator follows the file through the single indirect level, and there it ends, whatever the inode names. */
  lemma LookedIsMapped(disk: Disk, lba: nat, inode: seq<nat>, i: nat)
    requires DiskOk(disk) && |inode| == 15 && i <= L1_END
    ensures Looked(disk, lba, inode, i) == if i < L1_END then Mapped(disk, lba, inode, i) else 0
    ensures Looked(disk, lba, inode, i) == 0 <==> i >= L1_END || Mapped(disk, lba, inode, i) == 0
  {
  }

  /** Past the single indirect level the iterator does not read the index blocks that the inode names. It looks the
      block up as in a file whose single indirect block is the quotient of the offset. */
  lemma DeepLooked(disk: Disk, lba: nat, inode: seq<nat>, i: nat, other: seq<nat>)
    requires DiskOk(disk) && |inode| == |other| == 15 && i >= 268
    requires other[12] == if i < 65548 then (i - 268) / 256 else (i - 65548) % 65536 / 256
    ensures Looked(disk, lba, inode, i) ==
            if i < 65548 then if inode[13] == 0 then 0 else Mapped(disk, lba, other, 12 + (i - 268) % 256)
            else if inode[14] == 0 || i - 65548 < 65536 then 0
            else Mapped(disk, lba, other, 12 + (i - 65548) % 256)
  {
    if i >= 65548 {
      var o := i - 65548;
      assert o % 65536 % 256 == o % 256;
      assert o / 65536 == 0 <==> o < 65536;
    }
  }

  /** A read delivers all it should of a file exactly when the file or the request ends within the first 268 blocks. */
  lemma DeliversExact(disk: Disk, lba: nat, inode: seq<nat>, count: nat)
    requires DiskOk(disk) && |inode| == 15
    ensures var n, m := Reached(disk, lba, inode), Length(disk, lba, inode, 0);
            && var got := Contents(disk, lba, inode, n)[..Min(count, n * BLOCK)];
            && var due := Contents(disk, lba, inode, m)[..Min(count, m * BLOCK)];
            && got <= due
            && (got == due <==> m <= L1_END || count <= L1_END * BLOCK)
  {
    hide Mapped, Length, Contents;
    var n, m := Reached(disk, lba, inode), Length(disk, lba, inode, 0);
    ContentsPrefix(disk, lba, inode, n, m);
    var whole := Contents(disk, lba, inode, m);
    var got, due := Min(count, n * BLOCK), Min(count, m * BLOCK);
    assert whole[..n * BLOCK][..got] == whole[..got] == whole[..due][..got];
    assert |whole[..got]| == got && |whole[..due]| == due;
  }

  /** There are longer files: on a disk of ones every index block is full, and the read is cut short. */
  lemma LongFileCutShort()
    ensures var disk, inode := (s: nat) => seq(SECTOR, _ => 1 as byte), seq(15, _ => 1);
            && DiskOk(disk)
            && Length(disk, 0, inode, 0) > L1_END
            && Reached(disk, 0, inode) == L1_END
  {
    var disk, inode := (s: nat) => seq(SECTOR, _ => 1 as byte), seq(15, _ => 1);
    var n := Length(disk, 0, inode, 0);
    var first := Sectors(disk, 2, 2);
    assert Sectors(disk, 2, 1) == disk(2);
    assert forall k :: 0 <= k < BLOCK ==> first[k] == 1;
    assert (0 + 2 * 1) % LBA28 == 2;
    assert forall k :: 0 <= k < PER ==> Number(first, k) == 0x101_0101;
    assert Entry(disk, 0, 1, 0) == 0x101_0101;
    assert n != L1_END by {
      var b := 0x101_0101;
      var s := (0 + 2 * b) % LBA28;
      assert Sectors(disk, s, 1) == disk(s);
      assert Number(Sectors(disk, s, 2), 0) == 0x101_0101;
    }
  }

  const FIRST: nat := 63                      // where partitions usually start

  /** Twelve direct blocks from block 20 on, an index block at 5, and in it the number 7. */
  function ThirteenBlocks(): seq<nat> {
    seq(L1_IDX, i => 20 + i) + [7]
  }

  /** The index block is written as a file system would; every other sector is full of its own number. */
  function ThirteenDisk(s: nat): (r: seq<byte>)
    ensures |r| == SECTOR
  {
    var table := Written(Filled([7], PER));
    if s == FIRST + 10 then table[..SECTOR] else if s == FIRST + 11 then table[SECTOR..] else seq(SECTOR, _ => s % 256)
  }

  /** Such a file exists, and its thirteenth block is block 7 of the disk. */
  lemma ThirteenthBlock()
    ensures var where, inode := ThirteenBlocks(), seq(L1_IDX, i => 20 + i) + [5, 0, 0];
            var data := seq(13, i requires 0 <= i < 13 =>
                              ThirteenDisk(FIRST + 2 * where[i]) + ThirteenDisk(FIRST + 2 * where[i] + 1));
            && DiskOk(ThirteenDisk) && LaidOut(ThirteenDisk, FIRST, inode, data, where, 5)
            && Mapped(ThirteenDisk, FIRST, inode, 12) == 7
            && forall x :: 0 <= x < BLOCK ==> data[12][x] == if x < SECTOR then 77 else 78
  {
    hide Written, Mapped;
    var where, inode := ThirteenBlocks(), seq(L1_IDX, i => 20 + i) + [5, 0, 0];
    var data := seq(13, i requires 0 <= i < 13 =>
                      ThirteenDisk(FIRST + 2 * where[i]) + ThirteenDisk(FIRST + 2 * where[i] + 1));
    assert where[..L1_IDX] == seq(L1_IDX, i => 20 + i) && where[L1_IDX..] == [7];
    var table := Written(Filled([7], PER));
    assert table[..SECTOR] + table[SECTOR..] == table;
    assert Stores(ThirteenDisk, FIRST, 5, table);
    LaidOutMapped(ThirteenDisk, FIRST, inode, data, where, 5, 12);
  }
}
