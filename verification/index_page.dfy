/** The index page of src/memory/memory.c: both log indexes, four times over, each copy offset by its word
    position. */
module IndexPage {
  import opened Common

  const INDEX_WORDS := 8

  type Page = p: seq<u32> | |p| == 8 witness seq(8, _ => 0)

  function Offset(x: u32, i: nat): u32 { (x + i) % TWO_32 }

  /** What put_memory_indexes leaves in the page. */
  function EncodePage(read: u32, write: u32): Page {
    [read, write, Offset(read, 2), Offset(write, 2),
     Offset(read, 4), Offset(write, 4), Offset(read, 6), Offset(write, 6)]
  }

  /** What get_memory_indexes makes of a page. */
  function DecodePage(p: Page): Option<(u32, u32)> {
    if p == EncodePage(p[0], p[1]) then Some((p[0], p[1])) else None
  }

  /** A page is accepted exactly when it is one that can be written, and gives back that pair; in particular
      different pairs have different pages, at any 32-bit values. */
  lemma DecodeExactlyEncoded(p: Page, read: u32, write: u32)
    ensures DecodePage(p) == Some((read, write)) <==> p == EncodePage(read, write)
  {
    assert EncodePage(read, write)[0] == read && EncodePage(read, write)[1] == write;
  }

  /** The raw words: copy `i` of either index is the index plus twice `i`, in 32 bits. */
  lemma PageWords(read: u32, write: u32, i: nat)
    requires i < 4
    ensures EncodePage(read, write)[2 * i] == (read + 2 * i) % 0x1_0000_0000
    ensures EncodePage(read, write)[2 * i + 1] == (write + 2 * i) % 0x1_0000_0000
  {}

  lemma CopiesOf(read: u32, write: u32, i: nat)
    requires i < 4
    ensures EncodePage(read, write)[2 * i] == Offset(read, 2 * i)
    ensures EncodePage(read, write)[2 * i + 1] == Offset(write, 2 * i)
  {}

  lemma OffsetInjective(x: u32, y: u32, i: nat)
    requires i <= 6 && Offset(x, i) == Offset(y, i)
    ensures x == y
  {}

  /** Damage that leaves at least one copy of each index alone is always rejected: any single word, and any
      proper part of the copies of either index. */
  lemma DamagedPageRejected(p: Page, q: Page, read: u32, write: u32, i: nat, j: nat)
    requires p == EncodePage(read, write) && q != p
    requires i < 4 && j < 4 && q[2 * i] == p[2 * i] && q[2 * j + 1] == p[2 * j + 1]
    ensures DecodePage(q) == None
  {
    hide EncodePage, Offset;
    if q == EncodePage(q[0], q[1]) {
      CopiesOf(read, write, i);
      CopiesOf(read, write, j);
      CopiesOf(q[0], q[1], i);
      CopiesOf(q[0], q[1], j);
      OffsetInjective(q[0], read, 2 * i);
      OffsetInjective(q[1], write, 2 * j);
    }
  }

  /** An erased or otherwise constant page is never taken for indexes. */
  lemma ConstantPageRejected(p: Page, c: u32)
    requires forall i :: 0 <= i < |p| ==> p[i] == c
    ensures DecodePage(p) == None
  {
    assert p[2] == p[0] != Offset(p[0], 2);
  }
}
