/**
  Reading a file: the ATA driver (drivers/harddisk/harddisk.c), which takes a sector word by word from the data port,
  and the block iterator and read loop of fs/ext2/ext2.c on top of it.
 */
module Ext2 {
  import opened Buffers
  import opened Ext2Spec

  const TIMED_OUT: int := -1                  // stand for -ETIMEDOUT, -ENOMEM and -EINVAL
  const NO_MEMORY: int := -2
  const INVALID: int := -3

  /** Storing the part that fits of the next sector behind the part that fits of the sectors before it. */
  lemma SectorStored(was: seq<byte>, off: nat, disk: Disk, s: nat, i: nat, size: nat)
    requires DiskOk(disk) && off + size <= |was|
    ensures var n, m := Min(i * SECTOR, size), Min((i + 1) * SECTOR, size);
            Splice(Splice(was, off, Sectors(disk, s, i)[..n]), off + n, disk(s + i)[..m - n])
            == Splice(was, off, Sectors(disk, s, i + 1)[..m])
  {
    hide Splice;
    var n, m := Min(i * SECTOR, size), Min((i + 1) * SECTOR, size);
    SpliceTwice(was, off, Sectors(disk, s, i)[..n], disk(s + i)[..m - n]);
    assert Sectors(disk, s, i)[..n] + disk(s + i)[..m - n] == Sectors(disk, s, i + 1)[..m];
  }

  /** More sectors than fit change nothing about the part that fits. */
  lemma {:induction false} SectorsPrefix(disk: Disk, s: nat, i: nat, count: nat, n: nat)
    requires DiskOk(disk) && i <= count && n <= i * SECTOR
    ensures Sectors(disk, s, count)[..n] == Sectors(disk, s, i)[..n]
    decreases count
  {
    if i < count {
      SectorsPrefix(disk, s, i, count - 1, n);
      assert Sectors(disk, s, count)[..n] == Sectors(disk, s, count - 1)[..n];
    }
  }

  /** The drive with its data port: `sector` and `word` name the next word the port gives. */
  class Drive {
    const disk: Disk
    const busy: nat -> bool                   // whether it stays busy when asked for a sector
    const ready: nat -> bool                  // whether it has the data before the driver stops polling for it
    const interrupts: bool                    // the interrupt flag at the time of a read
    var sector: nat
    var word: nat

    constructor (disk: Disk, busy: nat -> bool, ready: nat -> bool, interrupts: bool)
      ensures this.disk == disk && this.busy == busy && this.ready == ready && this.interrupts == interrupts
    {
      this.disk, this.busy, this.ready, this.interrupts, sector, word := disk, busy, ready, interrupts, 0, 0;
    }

    /** A request for sector `s` is served: with interrupts the driver waits as long as it takes. */
    function Answers(s: nat): bool {
      !busy(s) && (interrupts || ready(s))
    }

    ghost predicate Valid() {
      DiskOk(disk)
    }

    method InWord() returns (w: nat)
      requires Valid() && word < SECTOR / 2
      modifies this
      ensures var s := disk(old(sector)); w == s[2 * old(word)] as int + 0x100 * s[2 * old(word) + 1] as int
      ensures if old(word) + 1 == SECTOR / 2 then sector == old(sector) + 1 && word == 0
              else sector == old(sector) && word == old(word) + 1
    {
      var s := disk(sector);
      w := s[2 * word] as int + 0x100 * s[2 * word + 1] as int;
      if word + 1 == SECTOR / 2 { sector, word := sector + 1, 0; } else { word := word + 1; }
    }

    /** read_one_sector: at most `size` bytes of a sector; an odd last byte is half a word, further words are
        dropped. */
    method ReadOneSector(buf: array<byte>, off: nat, size: nat) returns (n: nat)
      requires Valid() && word == 0 && off + size <= buf.Length
      modifies this, buf
      ensures word == 0 && sector == old(sector) + 1
      ensures n == Min(SECTOR, size)
      ensures buf[..] == Splice(old(buf[..]), off, disk(old(sector))[..n])
    {
      n := 0;
      ghost var s, was := disk(sector), buf[..];
      for i := 0 to SECTOR / 2
        invariant n == Min(2 * i, size)
        invariant if i == SECTOR / 2 then sector == old(sector) + 1 && word == 0 else sector == old(sector) && word == i
        invariant forall x :: 0 <= x < buf.Length ==> buf[x] == if off <= x < off + n then s[x - off] else was[x]
      {
        if n == size - 1 {
          var w := InWord();
          buf[off + n] := w % 0x100;
          n := n + 1;
        } else if n < size {
          var w := InWord();
          buf[off + n] := w % 0x100;
          buf[off + n + 1] := w / 0x100;
          n := n + 2;
        } else {
          var _ := InWord();
        }
      }
    }

    /** do_read_sync: stops as soon as `size` bytes are stored. */
    method DoReadSync(count: nat, buf: array<byte>, off: nat, size: nat) returns (n: int)
      requires Valid() && word == 0 && off + size <= buf.Length
      modifies this, buf
      ensures !ready(old(sector)) ==> n == TIMED_OUT && buf[..] == old(buf[..])
      ensures ready(old(sector)) ==>
                n == Min(count * SECTOR, size) &&
                    buf[..] == Splice(old(buf[..]), off, Sectors(disk, old(sector), count)[..n])
    {
      hide Splice, Sectors;
      if !ready(sector) { return TIMED_OUT; }
      n := 0;
      var i := 0;
      ghost var s, was := sector, buf[..];
      SpliceNone(was, off);
      assert Sectors(disk, s, 0)[..n] == [];
      while i < count && n < size
        invariant i <= count && word == 0 && sector == s + i && n == Min(i * SECTOR, size)
        invariant buf[..] == Splice(was, off, Sectors(disk, s, i)[..n])
      {
        var got := ReadOneSector(buf, off + n, size - n);
        SectorStored(was, off, disk, s, i, size);
        n := n + got;
        i := i + 1;
      }
      SectorsPrefix(disk, s, i, count, n);
    }

    /** do_read_async: takes every sector, the ones past `size` with nothing left to store. */
    method DoReadAsync(count: nat, buf: array<byte>, off: nat, size: nat) returns (n: int)
      requires Valid() && word == 0 && off + size <= buf.Length
      modifies this, buf
      ensures n == Min(count * SECTOR, size)
      ensures buf[..] == Splice(old(buf[..]), off, Sectors(disk, old(sector), count)[..n])
    {
      hide Splice, Sectors;
      n := 0;
      ghost var s, was := sector, buf[..];
      SpliceNone(was, off);
      assert Sectors(disk, s, 0)[..n] == [];
      for i := 0 to count
        invariant word == 0 && sector == s + i && n == Min(i * SECTOR, size)
        invariant buf[..] == Splice(was, off, Sectors(disk, s, i)[..n])
      {
        var got := ReadOneSector(buf, off + n, size - n);
        SectorStored(was, off, disk, s, i, size);
        n := n + got;
      }
    }

    /** hd_read, with the sector number split over the four address registers. */
    method HdRead(s: nat, count: nat, buf: array<byte>, off: nat, size: nat) returns (n: int)
      requires Valid() && off + size <= buf.Length
      modifies this, buf
      ensures count == 0 ==> n == INVALID && buf[..] == old(buf[..])
      ensures count != 0 && !Answers(s % LBA28) ==> n == TIMED_OUT && buf[..] == old(buf[..])
      ensures count != 0 && Answers(s % LBA28) ==>
                n == Min(count * SECTOR, size) &&
                    buf[..] == Splice(old(buf[..]), off, Sectors(disk, s % LBA28, count)[..n])
    {
      if count == 0 { return INVALID; }
      var low, mid, high, head := s % 0x100, s / 0x100 % 0x100, s / 0x1_0000 % 0x100, s / 0x100_0000 % 0x10;
      sector, word := low + 0x100 * mid + 0x1_0000 * high + 0x100_0000 * head, 0;
      Registers(s);
      if busy(sector) { return TIMED_OUT; }
      if interrupts {
        n := DoReadAsync(count, buf, off, size);
      } else {
        n := DoReadSync(count, buf, off, size);
      }
    }

    /** The request for block `b` is served. */
    function Serves(lba: nat, b: nat): bool {
      Answers((lba + 2 * b) % LBA28)
    }

    /** read_block for one block of the partition at `lba`. */
    method ReadBlock(lba: nat, b: nat, buf: array<byte>, off: nat, size: nat) returns (n: int)
      requires Valid() && off + size <= buf.Length
      modifies this, buf
      ensures !Serves(lba, b) ==> n == TIMED_OUT && buf[..] == old(buf[..])
      ensures Serves(lba, b) ==>
                n == Min(BLOCK, size) && buf[..] == Splice(old(buf[..]), off, BlockBytes(disk, lba, b)[..n])
    {
      n := HdRead(lba + BLOCK / SECTOR * b, BLOCK / SECTOR, buf, off, size);
    }
  }

  /** The address registers hold the low 28 bits of the sector number. */
  lemma Registers(s: nat)
    ensures s % 0x100 + 0x100 * (s / 0x100 % 0x100) + 0x1_0000 * (s / 0x1_0000 % 0x100)
            + 0x100_0000 * (s / 0x100_0000 % 0x10) == s % LBA28
  {
    var a := s / 0x100;
    var b := a / 0x100;
    var c := b / 0x100;
    assert b == s / 0x1_0000 && c == s / 0x100_0000;
    assert s == s % 0x100 + 0x100 * (a % 0x100) + 0x1_0000 * (b % 0x100) + 0x100_0000 * (c % 0x10) + LBA28 * (c / 0x10);
  }

  /** Whether a buffer can be had for the index blocks of each level. */
  type Supply = nat -> bool

  /** The error met on the way to a block at each level, zero for none. */
  ghost function FailRead(d: Drive, lba: nat, b: nat): int {
    if b != 0 && !d.Serves(lba, b) then TIMED_OUT else 0
  }

  ghost function FailLoad(d: Drive, lba: nat, memory: Supply, level: nat, b: nat): int {
    if b != 0 && !memory(level) then NO_MEMORY else FailRead(d, lba, b)
  }

  ghost function FailL1(d: Drive, lba: nat, memory: Supply, b: nat, o: nat): int
    requires d.Valid() && o < PER
  {
    var e := FailLoad(d, lba, memory, 1, b);
    if b == 0 || e != 0 then e else FailRead(d, lba, Entry(d.disk, lba, b, o))
  }

  ghost function FailL2(d: Drive, lba: nat, memory: Supply, b: nat, o: nat): int
    requires d.Valid()
  {
    var e := FailLoad(d, lba, memory, 2, b);
    if b == 0 || e != 0 then e else FailL1(d, lba, memory, o / PER, o % PER)
  }

  ghost function FailL3(d: Drive, lba: nat, memory: Supply, b: nat, o: nat): int
    requires d.Valid()
  {
    var e := FailLoad(d, lba, memory, 3, b);
    if b == 0 || e != 0 then e else FailL2(d, lba, memory, o / (PER * PER), o % (PER * PER))
  }

  /** The error met on the way to logical block `i`. */
  ghost function Failure(d: Drive, lba: nat, memory: Supply, inode: seq<nat>, i: nat): int
    requires d.Valid() && |inode| == 15
  {
    if i < L1_IDX then FailRead(d, lba, inode[i])
    else if i < L1_END then FailL1(d, lba, memory, inode[L1_IDX], i - L1_IDX)
    else if i < ITER_L2_END then FailL2(d, lba, memory, inode[L2_IDX], i - L1_END)
    else FailL3(d, lba, memory, inode[L3_IDX], i - ITER_L2_END)
  }

  /** What one call of the iterator stores of block `b`, or the error it meets on the way there. */
  ghost predicate Stored(d: Drive, lba: nat, error: int, b: nat, was: seq<byte>, off: nat, count: nat,
          now: seq<byte>, res: int)
    requires d.Valid() && off + count <= |was|
  {
    if error != 0 then res == error && now == was
    else if b == 0 then res == 0 && now == was
    else res == Min(BLOCK, count) && now == Splice(was, off, BlockBytes(d.disk, lba, b)[..res])
  }

  /** struct block_iter, with its three buffers for index blocks. */
  class BlockIter {
    const drive: Drive
    const lba: nat
    const inode: seq<nat>
    const memory: Supply
    var index: nat
    var l1: array?<byte>
    var l2: array?<byte>
    var l3: array?<byte>

    constructor (drive: Drive, lba: nat, inode: seq<nat>, memory: Supply)
      requires drive.Valid() && |inode| == 15
      ensures this.drive == drive && this.lba == lba && this.inode == inode && this.memory == memory
      ensures Valid() && index == 0 && l1 == null && l2 == null && l3 == null
    {
      this.drive, this.lba, this.inode, this.memory := drive, lba, inode, memory;
      index, l1, l2, l3 := 0, null, null, null;
    }

    ghost predicate Table(t: array?<byte>, level: nat) {
      t != null ==> memory(level) && t.Length == BLOCK
    }

    ghost predicate Valid()
      reads this
    {
      && drive.Valid() && |inode| == 15
      && Table(l1, 1) && Table(l2, 2) && Table(l3, 3)
    }

    ghost predicate Apart()
      reads this
    {
      && (l1 != null ==> l1 != l2 && l1 != l3)
      && (l2 != null ==> l2 != l3)
    }

    /** Allocates the buffer of a level if need be and reads index block `b`, which no level ever remembers. */
    method Load(t: array?<byte>, level: nat, b: nat) returns (res: int, u: array?<byte>)
      requires drive.Valid() && Table(t, level) && b != 0
      modifies drive, t
      ensures Table(u, level) && (u == t || (u != null && fresh(u)))
      ensures var e := FailLoad(drive, lba, memory, level, b);
              if e != 0 then res == e else res == BLOCK && u != null && u[..] == BlockBytes(drive.disk, lba, b)
    {
      u := t;
      if u == null {
        if !memory(level) { return NO_MEMORY, null; }
        u := new byte[BLOCK];
      }
      res := drive.ReadBlock(lba, b, u, 0, BLOCK);
    }

    method IterL1(b: nat, o: nat, buf: array<byte>, off: nat, count: nat) returns (res: int)
      requires Valid() && o < PER && off + count <= buf.Length && buf != l1
      modifies this`l1, drive, l1, buf
      ensures Valid() && (l1 == old(l1) || fresh(l1))
      ensures Stored(drive, lba, FailL1(drive, lba, memory, b, o), Entry(drive.disk, lba, b, o),
                     old(buf[..]), off, count, buf[..], res)
    {
      if b == 0 { return 0; }
      res, l1 := Load(l1, 1, b);
      if res < 0 { return; }
      var number := Number(l1[..], o);
      if number == 0 { return 0; }
      res := drive.ReadBlock(lba, number, buf, off, count);
    }

    method IterL2(b: nat, o: nat, buf: array<byte>, off: nat, count: nat) returns (res: int)
      requires Valid() && off + count <= buf.Length && buf != l1 && buf != l2 && Apart()
      modifies this`l1, this`l2, drive, l1, l2, buf
      ensures Valid() && Apart() && (l1 == old(l1) || fresh(l1)) && (l2 == old(l2) || fresh(l2))
      ensures Stored(drive, lba, FailL2(drive, lba, memory, b, o), LookL2(drive.disk, lba, b, o),
                     old(buf[..]), off, count, buf[..], res)
    {
      if b == 0 { return 0; }
      res, l2 := Load(l2, 2, b);
      if res < 0 { return; }
      res := IterL1(o / PER, o % PER, buf, off, count);
    }

    method IterL3(b: nat, o: nat, buf: array<byte>, off: nat, count: nat) returns (res: int)
      requires Valid() && off + count <= buf.Length && buf != l1 && buf != l2 && buf != l3 && Apart()
      modifies this`l1, this`l2, this`l3, drive, l1, l2, l3, buf
      ensures Valid() && Apart() && (l1 == old(l1) || fresh(l1))
              && (l2 == old(l2) || fresh(l2)) && (l3 == old(l3) || fresh(l3))
      ensures Stored(drive, lba, FailL3(drive, lba, memory, b, o), LookL3(drive.disk, lba, b, o),
                     old(buf[..]), off, count, buf[..], res)
    {
      if b == 0 { return 0; }
      res, l3 := Load(l3, 3, b);
      if res < 0 { return; }
      res := IterL2(o / (PER * PER), o % (PER * PER), buf, off, count);
    }

    /** block_read_iter: the next logical block, as far as `count` allows. A direct hole does not advance. */
    method Next(buf: array<byte>, off: nat, count: nat) returns (res: int)
      requires Valid() && off + count <= buf.Length && buf != l1 && buf != l2 && buf != l3 && Apart()
      modifies this, drive, l1, l2, l3, buf
      ensures Valid() && Apart() && (l1 == old(l1) || fresh(l1))
              && (l2 == old(l2) || fresh(l2)) && (l3 == old(l3) || fresh(l3))
      ensures var i := old(index);
              if i >= ITER_L3_END then res == INVALID && buf[..] == old(buf[..]) && index == i
              else
                && index == (if i < L1_IDX && inode[i] == 0 then i else i + 1)
                && Stored(drive, lba, Failure(drive, lba, memory, inode, i), Looked(drive.disk, lba, inode, i),
                          old(buf[..]), off, count, buf[..], res)
    {
      hide Entry, LookL2, LookL3, BlockBytes, Splice, FailL1, FailL2, FailL3;
      if index < L1_IDX {
        if inode[index] == 0 { return 0; }
        res := drive.ReadBlock(lba, inode[index], buf, off, count);
      } else if index < L1_END {
        res := IterL1(inode[L1_IDX], index - L1_IDX, buf, off, count);
      } else if index < ITER_L2_END {
        res := IterL2(inode[L2_IDX], index - L1_END, buf, off, count);
      } else if index < ITER_L3_END {
        res := IterL3(inode[L3_IDX], index - ITER_L2_END, buf, off, count);
      } else {
        return INVALID;
      }
      index := index + 1;
    }
  }

  /** The logical block at which a read of `count` bytes stops: an error on the way to it, no block there, or nothing
      left to read. */
  ghost function Stop(d: Drive, lba: nat, memory: Supply, inode: seq<nat>, count: nat, i: nat): (e: nat)
    requires d.Valid() && |inode| == 15 && i <= L1_END
    ensures i <= e <= L1_END
    decreases L1_END - i
  {
    if Failure(d, lba, memory, inode, i) != 0 || i == L1_END
       || Mapped(d.disk, lba, inode, i) == 0 || count <= i * BLOCK
    then i
    else Stop(d, lba, memory, inode, count, i + 1)
  }

  /** The buffer holds what fits of the first `i` blocks, and the read goes on at least that far. */
  ghost predicate Holds(d: Drive, lba: nat, memory: Supply, inode: seq<nat>,
                        was: seq<byte>, count: nat, i: nat, offset: nat, now: seq<byte>)
    requires d.Valid() && |inode| == 15 && count <= |was|
  {
    && i <= L1_END && Stop(d, lba, memory, inode, count, i) == Stop(d, lba, memory, inode, count, 0)
    && offset == Min(count, i * BLOCK)
    && now == Splice(was, 0, Contents(d.disk, lba, inode, i)[..offset])
  }

  /** A block that delivers bytes carries the read one block further. */
  lemma HoldsNext(d: Drive, lba: nat, memory: Supply, inode: seq<nat>, was: seq<byte>, count: nat, i: nat, offset: nat,
                  now: seq<byte>, after: seq<byte>, res: int)
    requires d.Valid() && |inode| == 15 && count <= |was|
    requires Holds(d, lba, memory, inode, was, count, i, offset, now)
    requires Stored(d, lba, Failure(d, lba, memory, inode, i), Looked(d.disk, lba, inode, i),
                    now, offset, count - offset, after, res)
    requires res > 0
    ensures Holds(d, lba, memory, inode, was, count, i + 1, offset + res, after)
    ensures i < L1_IDX ==> inode[i] != 0
  {
    hide Splice, Contents, BlockBytes, Number, LookL2, FailL1, FailL2;
    LookedIsMapped(d.disk, lba, inode, i);
    FailureNegative(d, lba, memory, inode, i);
    var b := BlockBytes(d.disk, lba, Mapped(d.disk, lba, inode, i));
    SpliceTwice(was, 0, Contents(d.disk, lba, inode, i)[..offset], b[..res]);
    ContentsStep(d.disk, lba, inode, i, offset, res);
  }

  lemma ContentsStep(disk: Disk, lba: nat, inode: seq<nat>, i: nat, offset: nat, n: nat)
    requires DiskOk(disk) && |inode| == 15 && offset == i * BLOCK && n <= BLOCK
    ensures Contents(disk, lba, inode, i)[..offset] + BlockBytes(disk, lba, Mapped(disk, lba, inode, i))[..n]
            == Contents(disk, lba, inode, i + 1)[..offset + n]
  {
    hide BlockBytes, Mapped;
  }

  /** What ext2_f_read returns and leaves in the buffer: what fits of the blocks before the one it stops at, and their
      length or the error met there. */
  ghost predicate ReadResult(d: Drive, lba: nat, memory: Supply, inode: seq<nat>,
                             was: seq<byte>, count: nat, now: seq<byte>, r: int)
    requires d.Valid() && |inode| == 15 && count <= |was|
  {
    var e := Stop(d, lba, memory, inode, count, 0);
    var n, error := Min(count, e * BLOCK), Failure(d, lba, memory, inode, e);
    r == (if error != 0 then error else n) && now == Splice(was, 0, Contents(d.disk, lba, inode, e)[..n])
  }

  /** A block that delivers nothing ends the read. */
  lemma HoldsEnd(d: Drive, lba: nat, memory: Supply, inode: seq<nat>, was: seq<byte>, count: nat, i: nat, offset: nat,
                 now: seq<byte>, after: seq<byte>, res: int)
    requires d.Valid() && |inode| == 15 && count <= |was|
    requires Holds(d, lba, memory, inode, was, count, i, offset, now)
    requires Stored(d, lba, Failure(d, lba, memory, inode, i), Looked(d.disk, lba, inode, i),
                    now, offset, count - offset, after, res)
    requires res <= 0
    ensures ReadResult(d, lba, memory, inode, was, count, after, if res < 0 then res else offset)
  {
    hide Splice, Contents, BlockBytes, Number, LookL2, FailL1, FailL2;
    LookedIsMapped(d.disk, lba, inode, i);
    FailureNegative(d, lba, memory, inode, i);
    SpliceNone(now, offset);
    assert BlockBytes(d.disk, lba, Looked(d.disk, lba, inode, i))[..0] == [];
  }

  lemma FailureNegative(d: Drive, lba: nat, memory: Supply, inode: seq<nat>, i: nat)
    requires d.Valid() && |inode| == 15
    ensures Failure(d, lba, memory, inode, i) <= 0
  {
  }

  /** Without errors a read delivers what fits of the blocks reached. */
  lemma {:induction false} StopReached(d: Drive, lba: nat, memory: Supply, inode: seq<nat>, count: nat, i: nat)
    requires d.Valid() && |inode| == 15 && i <= Reached(d.disk, lba, inode)
    requires forall j :: i <= j <= L1_END ==> Failure(d, lba, memory, inode, j) == 0
    requires i > 0 ==> count > (i - 1) * BLOCK
    ensures var e, n := Stop(d, lba, memory, inode, count, i), Reached(d.disk, lba, inode);
            e <= n && Min(count, e * BLOCK) == Min(count, n * BLOCK)
    decreases L1_END - i
  {
    hide Failure, Mapped;
    if i < Reached(d.disk, lba, inode) && count > i * BLOCK {
      StopReached(d, lba, memory, inode, count, i + 1);
    }
  }

  /** Then the buffer holds exactly the first min(count, blocks * 1024) bytes of the first 268 blocks of the file, and
      that number is returned. */
  lemma ReadDelivers(d: Drive, lba: nat, memory: Supply, inode: seq<nat>, was: seq<byte>, count: nat,
          now: seq<byte>, r: int)
    requires d.Valid() && |inode| == 15 && count <= |was| && ReadResult(d, lba, memory, inode, was, count, now, r)
    requires forall j :: 0 <= j <= L1_END ==> Failure(d, lba, memory, inode, j) == 0
    ensures var n := Reached(d.disk, lba, inode);
            r == Min(count, n * BLOCK) && now == Splice(was, 0, Contents(d.disk, lba, inode, n)[..r])
  {
    hide Failure, Mapped, Contents, Splice, Length, Stop;
    var e, n := Stop(d, lba, memory, inode, count, 0), Reached(d.disk, lba, inode);
    StopReached(d, lba, memory, inode, count, 0);
    ContentsTake(d.disk, lba, inode, e, n, Min(count, e * BLOCK));
  }

  /** So a file laid out on the disk in up to 268 blocks is delivered as it is: the first min(count, length) bytes. */
  lemma ReadReturnsFile(d: Drive, lba: nat, memory: Supply, inode: seq<nat>, was: seq<byte>, count: nat,
          now: seq<byte>, r: int, data: seq<seq<byte>>, where: seq<nat>, index: nat)
    requires d.Valid() && LaidOut(d.disk, lba, inode, data, where, index) && |inode| == 15 && count <= |was|
    requires ReadResult(d, lba, memory, inode, was, count, now, r)
    requires forall j :: 0 <= j <= L1_END ==> Failure(d, lba, memory, inode, j) == 0
    ensures r == Min(count, |Joined(data)|) && now == Splice(was, 0, Joined(data)[..r])
  {
    hide Failure, LaidOut, Contents, Splice, Length, ReadResult;
    ReadDelivers(d, lba, memory, inode, was, count, now, r);
    LaidOutReads(d.disk, lba, inode, data, where, index);
  }

  lemma ContentsTake(disk: Disk, lba: nat, inode: seq<nat>, m: nat, n: nat, k: nat)
    requires DiskOk(disk) && |inode| == 15 && m <= n && k <= m * BLOCK
    ensures Contents(disk, lba, inode, n)[..k] == Contents(disk, lba, inode, m)[..k]
  {
    hide Contents;
    ContentsPrefix(disk, lba, inode, m, n);
    assert Contents(disk, lba, inode, n)[..m * BLOCK][..k] == Contents(disk, lba, inode, n)[..k];
  }

  /** ext2_f_read */
  method FRead(d: Drive, lba: nat, inode: seq<nat>, memory: Supply, buf: array<byte>, count: nat) returns (r: int)
    requires d.Valid() && |inode| == 15 && count <= buf.Length
    modifies d, buf
    ensures ReadResult(d, lba, memory, inode, old(buf[..]), count, buf[..], r)
  {
    hide Splice, Contents, Stored, ReadResult, Mapped, Looked, Failure, Stop;
    ghost var was := buf[..];
    var offset := 0;
    var iter := new BlockIter(d, lba, inode, memory);
    HoldsInit(d, lba, memory, inode, was, count);
    while true
      invariant iter.Valid() && iter.Apart()
      invariant fresh(iter) && iter.drive == d && iter.lba == lba && iter.inode == inode && iter.memory == memory
      invariant (iter.l1 != null ==> fresh(iter.l1)) && (iter.l2 != null ==> fresh(iter.l2))
      invariant iter.l3 != null ==> fresh(iter.l3)
      invariant Holds(d, lba, memory, inode, was, count, iter.index, offset, buf[..])
      decreases L1_END - iter.index
    {
      ghost var i, now := iter.index, buf[..];
      var res := iter.Next(buf, offset, count - offset);
      if res <= 0 {
        HoldsEnd(d, lba, memory, inode, was, count, i, offset, now, buf[..], res);
        return if res < 0 then res else offset;
      }
      HoldsNext(d, lba, memory, inode, was, count, i, offset, now, buf[..], res);
      offset := offset + res;
    }
  }

  lemma HoldsInit(d: Drive, lba: nat, memory: Supply, inode: seq<nat>, was: seq<byte>, count: nat)
    requires d.Valid() && |inode| == 15 && count <= |was|
    ensures Holds(d, lba, memory, inode, was, count, 0, 0, was)
  {
    SpliceNone(was, 0);
    assert Contents(d.disk, lba, inode, 0)[..0] == [];
  }
}
