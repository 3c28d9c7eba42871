/** src/memory/memory.c in its own form: the indexes, buffers and write time are fields the functions update.
    Each method is tied to the log on values in CircularLog. */
module Memory {
  import opened Common
  import opened Checksum
  import opened IndexPage
  import opened CircularLog

  const UNSET: u32 := 0xFFFF_FFFF
  const MAX_BLOCKS := 1000
  const QUIET_SECONDS := 3

  /** get_blocks_to_read on values: nothing once the write index has wrapped below the read index, nothing
      within three seconds of a write, and never more than a thousand. */
  function BlocksToRead(read: u32, write: u32, now: u32, lastWrite: u32): u16 {
    var blocks := (write - read) % TWO_32;
    if blocks >= 0x8000_0000 then 0
    else if (now - lastWrite) % TWO_32 < QUIET_SECONDS then 0
    else if blocks < MAX_BLOCKS then blocks else MAX_BLOCKS
  }

  /** Three seconds have passed since the last write, as far as a 32-bit timer can tell. */
  predicate Quiet(now: u32, lastWrite: u32) { (now - lastWrite) % TWO_32 >= 3 }

  /** Blocks are offered exactly when the log is quiet and the read index is below the write index: then the blocks
      from the read index up to the newest, which is left out, or the first thousand of them. */
  lemma OfferedBlocksAreConsecutive(log: Log, now: u32, lastWrite: u32)
    requires log.Valid()
    ensures var count := BlocksToRead(log.read, log.write, now, lastWrite);
            && (count > 0 <==> log.read < log.write && Quiet(now, lastWrite))
            && (count > 0 ==> count == if log.write - log.read <= 1000 then log.write - log.read else 1000)
            && (count > 0 ==> log.read + count <= log.write <= log.n)
  {
    if log.write < log.read {
      assert (log.write - log.read) % TWO_32 == log.write - log.read + TWO_32;
    }
  }

  /** For any indexes whatever: the difference is taken as a signed 32-bit number, and nothing is offered when it is
      negative. */
  lemma OfferedForAnyIndexes(read: u32, write: u32, now: u32, lastWrite: u32, ahead: int)
    requires -0x8000_0000 <= ahead < 0x8000_0000 && (write == read + ahead || write == read + ahead + TWO_32
                                                     || write == read + ahead - TWO_32)
    ensures BlocksToRead(read, write, now, lastWrite)
         == if ahead <= 0 || !Quiet(now, lastWrite) then 0 else if ahead <= 1000 then ahead else 1000
  {
    assert (write - read) % TWO_32 == if ahead < 0 then ahead + TWO_32 else ahead;
  }

  class Memory {
    const sectors: nat
    var disk: map<nat, Record>
    var page: Page
    var readIndex: u32
    var writeIndex: u32
    const indexesBuf: array<u32>
    var memBuf: Record
    var lastWriteTime: u32

    ghost predicate Valid()
      reads this
    {
      indexesBuf.Length == INDEX_WORDS && sectors >= 2
    }

    function Value(): Log
      requires sectors >= 2
      reads this
    {
      Log(LastBlock(sectors), disk, page, readIndex, writeIndex)
    }

    /** memory_init, on a card that already holds `disk` and `page`. */
    constructor (sectors: nat, disk: map<nat, Record>, page: Page)
      requires sectors >= 2
      ensures Valid() && fresh(indexesBuf) && this.sectors == sectors && this.disk == disk && this.page == page
      ensures (readIndex, writeIndex) == match DecodePage(page) case Some(pair) => pair case None => (UNSET, UNSET)
      ensures lastWriteTime == 0
    {
      this.sectors := sectors;
      this.disk := disk;
      this.page := page;
      this.indexesBuf := new u32[INDEX_WORDS];
      this.lastWriteTime := 0;
      this.readIndex := UNSET;
      this.writeIndex := UNSET;
      this.memBuf := seq(24, _ => 0);
      new;
      var _ := GetMemoryIndexes();
    }

    /** get_memory_indexes */
    method GetMemoryIndexes() returns (ok: bool)
      requires Valid()
      modifies this`readIndex, this`writeIndex, indexesBuf
      ensures ok <==> DecodePage(page).Some?
      ensures ok ==> (readIndex, writeIndex) == DecodePage(page).value
      ensures !ok ==> readIndex == writeIndex == UNSET
    {
      hide Offset, EncodePage;
      forall k | 0 <= k < INDEX_WORDS {
        indexesBuf[k] := page[k];
      }
      readIndex, writeIndex := indexesBuf[0], indexesBuf[1];
      NoOffset(readIndex);
      NoOffset(writeIndex);
      var i := 2;
      while i < INDEX_WORDS
        invariant 2 <= i <= INDEX_WORDS && i % 2 == 0
        invariant indexesBuf[..] == page
        invariant readIndex == page[0] && writeIndex == page[1]
        invariant forall k :: 0 <= k < i && k % 2 == 0 ==>
                  page[k] == Offset(page[0], k) && page[k + 1] == Offset(page[1], k)
      {
        if indexesBuf[i] != Offset(readIndex, i) || indexesBuf[i + 1] != Offset(writeIndex, i) {
          readIndex, writeIndex := UNSET, UNSET;
          CopiesOf(page[0], page[1], i / 2);
          return false;
        }
        i := i + 2;
      }
      PageOfCopies(page, page[0], page[1]);
      return true;
    }

    /** put_memory_indexes */
    method PutMemoryIndexes()
      requires Valid()
      modifies this`page, indexesBuf
      ensures page == EncodePage(readIndex, writeIndex)
    {
      hide Offset, EncodePage;
      var i := 0;
      while i < INDEX_WORDS
        invariant 0 <= i <= INDEX_WORDS && i % 2 == 0
        invariant forall k :: 0 <= k < i && k % 2 == 0 ==>
                    indexesBuf[k] == Offset(readIndex, k) && indexesBuf[k + 1] == Offset(writeIndex, k)
      {
        indexesBuf[i] := Offset(readIndex, i);
        indexesBuf[i + 1] := Offset(writeIndex, i);
        i := i + 2;
      }
      page := indexesBuf[..];
      PageOfCopies(page, readIndex, writeIndex);
    }

    /** is_block_valid */
    predicate BlockValid(block: u32) {
      !(block == 0 || block > 0x7F_FFFF || block > sectors - 1)
    }

    /** next_block */
    method Next(block: u32) returns (next: u32)
      requires Valid()
      ensures next == NextBlock(LastBlock(sectors), block)
      ensures BlockValid(next)
    {
      next := (block + 1) % TWO_32;
      if !BlockValid(next) {
        next := 1;
      }
    }

    /** get_sample. A block number past the address space leaves the buffer as it was. */
    method GetSample(index: u32) returns (r: Option<Record>)
      requires Valid()
      modifies this`memBuf
      ensures index <= LAST_ADDRESSABLE ==> r == Value().Sample(index)
      ensures index > LAST_ADDRESSABLE ==> memBuf == old(memBuf) && r == if Evaluate(memBuf) then Some(memBuf) else None
    {
      hide PageRecord;
      if index <= LAST_ADDRESSABLE {
        if index == 0 {
          memBuf := PageRecord(page);
        } else {
          if index !in disk { return None; }
          memBuf := disk[index];
        }
      }
      var checksum := CalculateChecksum(memBuf);
      if GetChecksum(memBuf) != checksum { return None; }
      return Some(memBuf);
    }

    /** get_blocks_to_read at timer value `now` */
    method GetBlocksToRead(now: u32) returns (count: u16)
      requires Valid()
      ensures count == BlocksToRead(readIndex, writeIndex, now, lastWriteTime)
    {
      var blocks := (writeIndex - readIndex) % TWO_32;
      if blocks >= 0x8000_0000 { return 0; }
      if (now - lastWriteTime) % TWO_32 < QUIET_SECONDS { return 0; }
      count := if blocks < MAX_BLOCKS then blocks else MAX_BLOCKS;
    }

    /** put_sample at timer value `now` */
    method PutSample(block: Record, now: u32) returns (stored: bool)
      requires Valid()
      modifies this`disk, this`writeIndex, this`page, this`lastWriteTime, indexesBuf
      ensures (Value(), stored) == old(Value()).Put(block)
      ensures lastWriteTime == if stored then now else old(lastWriteTime)
    {
      var next := Next(writeIndex);
      if next != readIndex {
        disk := disk[next := block];
        writeIndex := next;
        lastWriteTime := now;
        if next % 8 == 0 {
          PutMemoryIndexes();
        }
        return true;
      } else {
        return false;
      }
    }

    /** good_upload_done */
    method GoodUploadDone()
      requires Valid()
      modifies this`readIndex, this`page, indexesBuf
      ensures Value() == old(Value()).Done()
    {
      readIndex := Next(readIndex);
      if readIndex % 8 == 0 {
        PutMemoryIndexes();
      }
    }
  }

  lemma NoOffset(x: u32)
    ensures Offset(x, 0) == x
  {}

  lemma PageOfCopies(p: Page, read: u32, write: u32)
    requires forall k :: 0 <= k < 8 && k % 2 == 0 ==> p[k] == Offset(read, k) && p[k + 1] == Offset(write, k)
    ensures p == EncodePage(read, write)
  {
    hide Offset;
    NoOffset(read);
    NoOffset(write);
    assert p[0 + 1] == Offset(write, 0) && p[2 + 1] == Offset(write, 2) && p[4 + 1] == Offset(write, 4)
           && p[6 + 1] == Offset(write, 6);
    assert p == [p[0], p[1], p[2], p[3], p[4], p[5], p[6], p[7]];
  }
}
