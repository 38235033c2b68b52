/** Physical memory as 4 KB pages of 512 little-endian quadwords, indexed by page number. */
module Frames {

  type Word = w: int | 0 <= w < 0x1_0000_0000_0000_0000
  type Index = i: int | 0 <= i < 512
  type Page = p: seq<Word> | |p| == 512 witness seq(512, _ => 0)
  type Memory = m: imap<nat, Page> | forall p: nat :: p in m ghost witness imap p: nat :: ZeroPage()

  /** What memset(page, 0, PAGE_SIZE_4K) leaves. */
  function ZeroPage(): (p: Page)
    ensures forall i :: 0 <= i < 512 ==> p[i] == 0
  {
    seq(512, _ => 0)
  }

  function WriteWord(m: Memory, p: nat, i: Index, w: Word): (m': Memory)
    ensures forall q: nat :: q != p ==> m'[q] == m[q]
    ensures forall q: nat, j: Index :: m'[q][j] == if q == p && j == i then w else m[q][j]
  {
    m[p := m[p][i := w]]
  }
}
