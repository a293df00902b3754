/** The 32-bit words of page directories and page tables (head comment of mm/memory.c).
    A word is kept as the record of its bit fields; Encode is the number the machine holds. */
module PageWord {
  const LOW_MEM := 0x100000
  const LOW_FRAME := 256       // LOW_MEM >> 12
  const PAGING_PAGES := 3840
  const FRAMES := 4096         // LOW_FRAME + PAGING_PAGES
  const USED := 100
  const WORDS := 1024          // words in a page, entries in a table
  const NR_TASKS := 64

  type FrameNo = f: int | 0 <= f < 0x100000
  type Flags = m: int | 0 <= m < 0x400

  /** frame: bits 31-12, misc: bits 11-2, rw: bit 1, p: bit 0. */
  datatype Word = Word(frame: FrameNo, misc: Flags, rw: bool, p: bool) {
    function Encode(): nat {
      frame * 4096 + misc * 4 + (if rw then 2 else 0) + (if p then 1 else 0)
    }

    /** word & ~2 */
    function ReadOnly(): Word {
      this.(rw := false)
    }

    /** word | 2 */
    function Writable(): Word {
      this.(rw := true)
    }
  }

  const ZERO := Word(0, 0, false, false)

  /** address | 7 for the page-aligned address of frame f: user, read/write, present. */
  function FullAccess(f: FrameNo): Word {
    Word(f, 1, true, true)
  }

  type Page = s: seq<Word> | |s| == WORDS witness seq(WORDS, _ => ZERO)

  function ZeroPage(): (p: Page)
    ensures forall t :: 0 <= t < WORDS ==> p[t] == ZERO
  {
    seq(WORDS, _ => ZERO)
  }

  /** The bit tests and masks the source applies to a raw word, in terms of the fields:
      `& 1`, `& 3`, `& 0xfffff000`, and the unsigned comparison with LOW_MEM, which the
      source makes on the word with its flag bits still in place. */
  lemma EncodeFields(w: Word)
    ensures w.Encode() < 0x1_0000_0000
    ensures w.Encode() % 2 == 1 <==> w.p
    ensures w.Encode() % 4 == 1 <==> w.p && !w.rw
    ensures w.Encode() - w.Encode() % 4096 == w.frame * 4096
    ensures w.p ==> (w.Encode() > LOW_MEM <==> w.frame >= LOW_FRAME)
    ensures w.frame >= LOW_FRAME ==> (w.Encode() - LOW_MEM) / 4096 == w.frame - LOW_FRAME
  {
    HighBits(w);
    var low := (if w.rw then 2 else 0) + (if w.p then 1 else 0);
    RemainderOf4(w.Encode(), w.frame * 1024 + w.misc, low);
    RemainderOf2(w.Encode(), w.frame * 2048 + w.misc * 2 + (if w.rw then 1 else 0), if w.p then 1 else 0);
  }

  lemma RemainderOf4(n: nat, q: nat, r: nat)
    requires n == 4 * q + r && r < 4
    ensures n % 4 == r
  {
  }

  lemma RemainderOf2(n: nat, q: nat, r: nat)
    requires n == 2 * q + r && r < 2
    ensures n % 2 == r
  {
  }

  /** Bits 31-12 of a word. */
  lemma HighBits(w: Word)
    ensures w.Encode() < 0x1_0000_0000
    ensures w.Encode() - w.Encode() % 4096 == w.frame * 4096
    ensures w.p ==> (w.Encode() > LOW_MEM <==> w.frame >= LOW_FRAME)
    ensures w.frame >= LOW_FRAME ==> (w.Encode() - LOW_MEM) / 4096 == w.frame - LOW_FRAME
  {
    var low := w.Encode() - w.frame * 4096;
    assert 0 <= low < 4096;
    assert w.Encode() % 4096 == low;
  }

  /** The masks that build words: clearing bit 1, setting bit 1, and or-ing 7 into a page address. */
  lemma EncodeMasks(w: Word, f: FrameNo)
    ensures w.ReadOnly().Encode() == w.Encode() - (w.Encode() / 2 % 2) * 2
    ensures w.Writable().Encode() == w.Encode() + (1 - w.Encode() / 2 % 2) * 2
    ensures FullAccess(f).Encode() == f * 4096 + 7
    ensures ZERO.Encode() == 0
  {
    assert w.Encode() / 2 == w.frame * 2048 + w.misc * 2 + (if w.rw then 1 else 0);
  }

  /** No two different words are the same machine number. */
  lemma EncodeInjective(w: Word, v: Word)
    requires w.Encode() == v.Encode()
    ensures w == v
  {
    EncodeFields(w);
    EncodeFields(v);
    EncodeMasks(w, 0);
    EncodeMasks(v, 0);
    assert w.Encode() / 2 == w.frame * 2048 + w.misc * 2 + (if w.rw then 1 else 0);
    assert v.Encode() / 2 == v.frame * 2048 + v.misc * 2 + (if v.rw then 1 else 0);
  }
}
