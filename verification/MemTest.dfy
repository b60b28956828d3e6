// The two memory self-tests (task1.c, task2.c) run against a memory in which
// any bit of any word may be stuck at a level: what their verdict means, and
// that they leave the memory as they found it.
module MemTest {

  type Word = bv32

  const PATTERN: Word := 0x55AA55AA

  /** Stored words, plus one mask of stuck bits and their level for each word. */
  class Memory {
    const cells: array<Word>
    const stuck: seq<Word>
    const level: seq<Word>

    predicate Valid() {
      |stuck| == |level| == cells.Length
    }

    constructor (words: nat, stuck: seq<Word>, level: seq<Word>)
      requires |stuck| == |level| == words
      ensures Valid() && cells.Length == words && this.stuck == stuck && this.level == level
      ensures fresh(cells)
    {
      cells := new Word[words];
      this.stuck, this.level := stuck, level;
    }

    /** What a read of word i returns. */
    function Seen(i: nat): Word
      requires Valid() && i < cells.Length
      reads cells
    {
      Reads(cells[i], stuck[i], level[i])
    }

    /** What reading the whole memory returns. */
    function Image(): (image: seq<Word>)
      requires Valid()
      reads cells
    {
      ReadsAll(cells[..], stuck, level)
    }

    method ReadPrivilegedData(i: nat) returns (value: Word)
      requires Valid() && i < cells.Length
      ensures value == Seen(i)
    {
      value := Reads(cells[i], stuck[i], level[i]);
    }

    method WritePrivilegedData(i: nat, value: Word)
      requires Valid() && i < cells.Length
      modifies cells
      ensures cells[i] == value
      ensures forall j :: 0 <= j < cells.Length && j != i ==> cells[j] == old(cells[j])
    {
      cells[i] := value;
    }
  }

  /** A stuck bit answers its level, any other bit what was stored. */
  function Reads(stored: Word, stuck: Word, level: Word): Word {
    (stored & !stuck) | (level & stuck)
  }

  function ReadsAll(stored: seq<Word>, stuck: seq<Word>, level: seq<Word>): (image: seq<Word>)
    requires |stored| == |stuck| == |level|
  {
    if stored == [] then []
    else [Reads(stored[0], stuck[0], level[0])] + ReadsAll(stored[1..], stuck[1..], level[1..])
  }

  lemma {:induction false} ReadsAllAt(stored: seq<Word>, stuck: seq<Word>, level: seq<Word>, i: nat)
    requires |stored| == |stuck| == |level| && i < |stored|
    ensures |ReadsAll(stored, stuck, level)| == |stored|
    ensures ReadsAll(stored, stuck, level)[i] == Reads(stored[i], stuck[i], level[i])
  {
    if |stored| > 1 {
      ReadsAllAt(stored[1..], stuck[1..], level[1..], if i == 0 then 0 else i - 1);
    }
  }

  lemma {:induction false} SameReads(a: seq<Word>, b: seq<Word>, stuck: seq<Word>, level: seq<Word>)
    requires |a| == |b| == |stuck| == |level|
    requires forall i :: 0 <= i < |a| ==> Reads(a[i], stuck[i], level[i]) == Reads(b[i], stuck[i], level[i])
    ensures ReadsAll(a, stuck, level) == ReadsAll(b, stuck, level)
  {
    if a != [] {
      SameReads(a[1..], b[1..], stuck[1..], level[1..]);
    }
  }

  /** The do-while loops visit one word even when the size is below four bytes. */
  function Tested(size: nat): (n: nat)
    ensures n >= 1
  {
    if size / 4 == 0 then 1 else size / 4
  }

  // ----- One word ----------------------------------------------------------

  /** The inverse of what was read comes back exactly from a word without stuck bits. */
  lemma InversionDetects(before: Word, stored: Word, stuck: Word, level: Word)
    requires before == Reads(stored, stuck, level)
    ensures Reads(!before, stuck, level) == !before <==> stuck == 0
  {
  }

  /** The pattern comes back exactly when every stuck bit already has its level. */
  lemma PatternDetects(stuck: Word, level: Word)
    ensures Reads(0x55AA55AA, stuck, level) == 0x55AA55AA <==> Agrees(stuck, level)
  {
  }

  /** Writing back what was read restores what is read. */
  lemma WriteBackRestores(before: Word, stored: Word, stuck: Word, level: Word)
    requires before == Reads(stored, stuck, level)
    ensures Reads(before, stuck, level) == before
  {
  }

  // ----- The tests ---------------------------------------------------------

  ghost predicate Region(m: Memory, origin: nat, size: nat) {
    m.Valid() && origin + Tested(size) <= m.cells.Length
  }

  /** The n flags from origin are all set. */
  predicate AllSet(flags: seq<bool>, origin: nat, n: nat)
    requires origin + n <= |flags|
  {
    forall i :: origin <= i < origin + n ==> flags[i]
  }

  predicate Agrees(stuck: Word, level: Word) {
    stuck & (level ^ PATTERN) == 0
  }

  /** Which words have no stuck bit at all. */
  function Healthy(stuck: seq<Word>): (flags: seq<bool>)
    ensures |flags| == |stuck|
  {
    if stuck == [] then [] else [stuck[0] == 0] + Healthy(stuck[1..])
  }

  lemma {:induction false} HealthyAt(stuck: seq<Word>, i: nat)
    requires i < |stuck|
    ensures Healthy(stuck)[i] <==> stuck[i] == 0
  {
    if i > 0 {
      HealthyAt(stuck[1..], i - 1);
    }
  }

  /** Which words have no stuck bit that disagrees with the pattern. */
  function Agreeing(stuck: seq<Word>, level: seq<Word>): (flags: seq<bool>)
    requires |stuck| == |level|
    ensures |flags| == |stuck|
  {
    if stuck == [] then [] else [Agrees(stuck[0], level[0])] + Agreeing(stuck[1..], level[1..])
  }

  lemma {:induction false} AgreeingAt(stuck: seq<Word>, level: seq<Word>, i: nat)
    requires i < |stuck| == |level|
    ensures Agreeing(stuck, level)[i] <==> Agrees(stuck[i], level[i])
  {
    if i > 0 {
      AgreeingAt(stuck[1..], level[1..], i - 1);
    }
  }

  // Which words the verdict is about, in bytes: the first, and every word that
  // lies in the region with all of its four bytes.

  predicate InRegion(offset: nat, size: nat) {
    offset == 0 || 4 * offset + 4 <= size
  }

  predicate Sound(stuck: Word) {
    stuck == 0
  }

  lemma TestedInBytes(offset: nat, size: nat)
    ensures offset < Tested(size) <==> InRegion(offset, size)
  {
  }

  /** From four bytes on, fewer than four bytes at the end are left out. */
  lemma TailIsShort(size: nat) returns (last: nat)
    requires size >= 4
    ensures forall offset: nat :: InRegion(offset, size) <==> offset <= last
    ensures 0 <= size - 4 * (last + 1) < 4
  {
    last := size / 4 - 1;
  }

  lemma HealthInBytes(stuck: seq<Word>, origin: nat, size: nat)
    requires origin + Tested(size) <= |stuck|
    ensures AllSet(Healthy(stuck), origin, Tested(size))
       <==> forall i :: origin <= i < |stuck| && InRegion(i - origin, size) ==> Sound(stuck[i])
  {
    forall i | origin <= i < |stuck|
      ensures Healthy(stuck)[i] <==> Sound(stuck[i])
      ensures i < origin + Tested(size) <==> InRegion(i - origin, size)
    {
      HealthyAt(stuck, i);
      TestedInBytes(i - origin, size);
    }
  }

  lemma AgreementInBytes(stuck: seq<Word>, level: seq<Word>, origin: nat, size: nat)
    requires origin + Tested(size) <= |stuck| == |level|
    ensures AllSet(Agreeing(stuck, level), origin, Tested(size))
       <==> forall i :: origin <= i < |stuck| && InRegion(i - origin, size) ==> Agrees(stuck[i], level[i])
  {
    forall i | origin <= i < |stuck|
      ensures Agreeing(stuck, level)[i] <==> Agrees(stuck[i], level[i])
      ensures i < origin + Tested(size) <==> InRegion(i - origin, size)
    {
      AgreeingAt(stuck, level, i);
      TestedInBytes(i - origin, size);
    }
  }

  // One round of each loop: read, write the test value, read it back, restore.

  method ProbeWithPattern(m: Memory, at: nat) returns (passed: bool)
    requires m.Valid() && at < m.cells.Length
    modifies m.cells
    ensures passed <==> Agreeing(m.stuck, m.level)[at]
    ensures m.Image() == old(m.Image())
  {
    var readBefore := m.ReadPrivilegedData(at);
    PatternDetects(m.stuck[at], m.level[at]);
    AgreeingAt(m.stuck, m.level, at);
    WriteBackRestores(readBefore, m.cells[at], m.stuck[at], m.level[at]);
    m.WritePrivilegedData(at, PATTERN);
    var readAfter := m.ReadPrivilegedData(at);
    m.WritePrivilegedData(at, readBefore);
    SameReads(old(m.cells[..]), m.cells[..], m.stuck, m.level);
    passed := readAfter == PATTERN;
  }

  method ProbeWithInverse(m: Memory, at: nat) returns (passed: bool)
    requires m.Valid() && at < m.cells.Length
    modifies m.cells
    ensures passed <==> Healthy(m.stuck)[at]
    ensures m.Image() == old(m.Image())
  {
    var readBefore := m.ReadPrivilegedData(at);
    HealthyAt(m.stuck, at);
    InversionDetects(readBefore, m.cells[at], m.stuck[at], m.level[at]);
    WriteBackRestores(readBefore, m.cells[at], m.stuck[at], m.level[at]);
    m.WritePrivilegedData(at, !readBefore);
    var readAfter := m.ReadPrivilegedData(at);
    m.WritePrivilegedData(at, readBefore);
    SameReads(old(m.cells[..]), m.cells[..], m.stuck, m.level);
    passed := readAfter == !readBefore;
  }

  method Task1MemTest(m: Memory, origin: nat, memSize: nat) returns (ok: bool)
    requires Region(m, origin, memSize)
    modifies m.cells
    ensures ok <==> AllSet(Agreeing(m.stuck, m.level), origin, Tested(memSize))
    ensures ok <==> forall i :: origin <= i < m.cells.Length && InRegion(i - origin, memSize) ==>
                      Agrees(m.stuck[i], m.level[i])
    ensures m.Image() == old(m.Image())
  {
    var memIndex, words := 0, memSize / 4;
    ghost var flags := Agreeing(m.stuck, m.level);
    AgreementInBytes(m.stuck, m.level, origin, memSize);
    while true
      invariant 0 <= memIndex < Tested(memSize)
      invariant AllSet(flags, origin, memIndex)
      invariant m.Image() == old(m.Image())
      decreases Tested(memSize) - memIndex
    {
      var at := origin + memIndex;
      var passed := ProbeWithPattern(m, at);
      if !passed {
        return false;
      }
      memIndex := memIndex + 1;
      if memIndex >= words {
        break;
      }
    }
    return true;
  }

  method Task2MemTest(m: Memory, origin: nat, memSize: nat) returns (ok: bool)
    requires Region(m, origin, memSize)
    modifies m.cells
    ensures ok <==> AllSet(Healthy(m.stuck), origin, Tested(memSize))
    ensures ok <==> forall i :: origin <= i < m.cells.Length && InRegion(i - origin, memSize) ==> Sound(m.stuck[i])
    ensures m.Image() == old(m.Image())
  {
    var memIndex, words := 0, memSize / 4;
    ghost var flags := Healthy(m.stuck);
    HealthInBytes(m.stuck, origin, memSize);
    while true
      invariant 0 <= memIndex < Tested(memSize)
      invariant AllSet(flags, origin, memIndex)
      invariant m.Image() == old(m.Image())
      decreases Tested(memSize) - memIndex
    {
      var at := origin + memIndex;
      var passed := ProbeWithInverse(m, at);
      if !passed {
        return false;
      }
      memIndex := memIndex + 1;
      if memIndex >= words {
        break;
      }
    }
    return true;
  }

  // ----- What the verdicts mean --------------------------------------------

  /** A word is healthy exactly when it gives back everything that is stored in it. */
  lemma HealthyHoldsEveryWord(stuck: Word, level: Word)
    ensures stuck == 0 <==> forall w: Word :: Reads(w, stuck, level) == w
  {
    if forall w: Word :: Reads(w, stuck, level) == w {
      assert Reads(0, stuck, level) == 0;
      assert Reads(!0, stuck, level) == !0;
      NoLevelSuitsBoth(stuck, level);
    } else {
      var w: Word :| Reads(w, stuck, level) != w;
      UnstuckReads(w, level);
    }
  }

  lemma UnstuckReads(w: Word, level: Word)
    ensures Reads(w, 0, level) == w
  {
  }

  lemma NoLevelSuitsBoth(stuck: Word, level: Word)
    requires Reads(0, stuck, level) == 0 && Reads(!0, stuck, level) == !0
    ensures stuck == 0
  {
  }

  /** The verdict of task 2: every word of the region holds every value. */
  lemma HealthyRegionHoldsEverything(stuck: seq<Word>, level: seq<Word>, origin: nat, n: nat)
    requires origin + n <= |stuck| == |level|
    ensures AllSet(Healthy(stuck), origin, n)
       <==> forall i, w: Word :: origin <= i < origin + n ==> Reads(w, stuck[i], level[i]) == w
  {
    forall i | origin <= i < origin + n
      ensures Healthy(stuck)[i] <==> forall w: Word :: Reads(w, stuck[i], level[i]) == w
    {
      HealthyAt(stuck, i);
      HealthyHoldsEveryWord(stuck[i], level[i]);
    }
  }

  /** A region that passes task 2 passes task 1. */
  lemma InversionSubsumesPattern(stuck: seq<Word>, level: seq<Word>, origin: nat, n: nat)
    requires origin + n <= |stuck| == |level|
    ensures AllSet(Healthy(stuck), origin, n) ==> AllSet(Agreeing(stuck, level), origin, n)
  {
    forall i | origin <= i < origin + n && Healthy(stuck)[i]
      ensures Agreeing(stuck, level)[i]
    {
      HealthyAt(stuck, i);
      AgreeingAt(stuck, level, i);
      PatternDetects(stuck[i], level[i]);
      UnstuckReads(PATTERN, level[i]);
    }
  }

  /**
   * The converse fails for every set of stuck bits: some level hides all of
   * them from task 1, and that level is the pattern itself.
   */
  lemma PatternMissesItsOwnLevels(before: Word, stored: Word, stuck: Word)
    requires before == Reads(stored, stuck, PATTERN)
    ensures Reads(PATTERN, stuck, PATTERN) == PATTERN
    ensures stuck != 0 ==> Reads(!before, stuck, PATTERN) != !before
  {
    PatternDetects(stuck, PATTERN);
    InversionDetects(before, stored, stuck, PATTERN);
  }
}
