/**
 The page bitmap of kernel/memmap.c: one bit for each page, 32 pages to a word.

 `Marked` is what the bitmap means, a set of page numbers. The operations are
 shown to act on that set, and the two searches, which skip over words that are
 all ones, to find the lowest page (or run of pages) a page-by-page scan would.
 */
module Memmaps {
  import opened Words

  const PAGE_SIZE: nat := 0x1000

  predicate Marks(words: seq<Word>, page: nat)
  {
    page / 32 < |words| && Test(words[page / 32], page % 32)
  }

  /** The pages a bitmap marks as used. */
  ghost function Marked(words: seq<Word>): set<nat>
  {
    set page: nat | 0 <= page < 32 * |words| && Marks(words, page)
  }

  /** `pages` consecutive unmarked pages from `start` on, all within the first `limit` pages. */
  ghost predicate FreeRun(used: set<nat>, limit: nat, start: nat, pages: nat)
  {
    start + pages <= limit && forall p :: start <= p < start + pages ==> p !in used
  }

  ghost predicate LowestRun(used: set<nat>, limit: nat, start: nat, pages: nat)
  {
    FreeRun(used, limit, start, pages) && forall s: nat :: FreeRun(used, limit, s, pages) ==> start <= s
  }

  /** Setting or clearing one bit of one word adds or removes exactly one page. */
  lemma UpdateWord(words: seq<Word>, page: nat, w: Word, on: bool)
    requires page / 32 < |words|
    requires forall k: nat :: k < 32 ==>
               (Test(w, k) <==> if k == page % 32 then on else Test(words[page / 32], k))
    ensures Marked(words[page / 32 := w]) ==
            if on then Marked(words) + {page} else Marked(words) - {page}
  {
    var next := words[page / 32 := w];
    forall p: nat
      ensures p in Marked(next) <==> if p == page then on else p in Marked(words)
    {
      if p / 32 == page / 32 {
        assert p == page <==> p % 32 == page % 32;
        assert Test(w, p % 32) <==> if p % 32 == page % 32 then on else Test(words[page / 32], p % 32);
      }
    }
  }

  class Memmap {
    var pagemap: array<Word>
    var length: nat

    ghost predicate Valid()
      reads this
    {
      pagemap.Length == length / 32
    }

    ghost function Used(): set<nat>
      reads this, pagemap
    {
      Marked(pagemap[..])
    }

    /** The pages the map can record: its length rounded down to whole words. */
    ghost function Limit(): nat
      reads this
    {
      32 * (length / 32)
    }

    constructor (pages: nat)
      ensures Valid() && fresh(pagemap) && length == pages
      ensures Used() == {}
    {
      length := pages;
      pagemap := new Word[pages / 32](_ => 0);
      new;
      forall p: nat ensures !Marks(pagemap[..], p) {
        TestZero(p % 32);
      }
    }

    constructor Clone(src: Memmap)
      requires src.Valid()
      ensures Valid() && fresh(pagemap) && length == src.length
      ensures Used() == src.Used()
    {
      length := src.length;
      var words := src.pagemap[..];
      pagemap := new Word[|words|](i requires 0 <= i < |words| => words[i]);
      new;
      assert pagemap[..] == src.pagemap[..];
    }

    method SetPage(address: nat)
      requires Valid()
      requires address % PAGE_SIZE == 0
      requires address / PAGE_SIZE < Limit()
      modifies pagemap
      ensures Used() == old(Used()) + {address / PAGE_SIZE}
    {
      var page := address / PAGE_SIZE;
      ghost var before := pagemap[..];
      forall k: nat
        ensures Or(before[page / 32], Pow2(page % 32)) < 0x1_0000_0000
        ensures Test(Or(before[page / 32], Pow2(page % 32)), k) <==> k == page % 32 || Test(before[page / 32], k)
      {
        SetBit(before[page / 32], page % 32, k);
      }
      SetBit(before[page / 32], page % 32, 0);
      pagemap[page / 32] := Or(pagemap[page / 32], Pow2(page % 32));
      UpdateWord(before, page, pagemap[page / 32], true);
      assert pagemap[..] == before[page / 32 := pagemap[page / 32]];
    }

    method ClearPage(address: nat)
      requires Valid()
      requires address / PAGE_SIZE < Limit()
      modifies pagemap
      ensures Used() == old(Used()) - {address / PAGE_SIZE}
    {
      var frame := address / PAGE_SIZE;
      var index, offset := frame / 32, frame % 32;
      ghost var before := pagemap[..];
      forall k: nat
        ensures AndNot(before[index], Pow2(offset)) <= before[index]
        ensures Test(AndNot(before[index], Pow2(offset)), k) <==> k != offset && Test(before[index], k)
      {
        ClearBit(before[index], offset, k);
      }
      ClearBit(before[index], offset, 0);
      pagemap[index] := AndNot(pagemap[index], Pow2(offset));
      UpdateWord(before, frame, pagemap[index], false);
      assert pagemap[..] == before[index := pagemap[index]];
    }

    method TestPage(address: nat) returns (r: nat)
      requires Valid()
      requires address / PAGE_SIZE < Limit()
      ensures r == if address / PAGE_SIZE in Used() then 1 else 0
    {
      var frame := address / PAGE_SIZE;
      var index, offset := frame / 32, frame % 32;
      AndBit(pagemap[index], offset);
      r := if And(pagemap[index], Pow2(offset)) != 0 then 1 else 0;
    }

    /** The lowest unmarked page, or 0 when every page is marked. */
    method FindFreePage() returns (page: nat)
      requires Valid()
      ensures if exists p :: 0 <= p < Limit() && p !in Used()
              then page < Limit() && page !in Used() && forall p :: 0 <= p < page ==> p in Used()
              else page == 0
    {
      var i := 0;
      while i < length / 32
        invariant i <= length / 32
        invariant forall p :: 0 <= p < 32 * i ==> p in Used()
      {
        if pagemap[i] != 0xFFFF_FFFF {
          var j := 0;
          while j < 32
            invariant j <= 32
            invariant forall p :: 0 <= p < 32 * i + j ==> p in Used()
          {
            BitOfPage(pagemap[..], i, j);
            if And(pagemap[i], Pow2(j)) == 0 {
              page := i * 4 * 8 + j;
              assert page !in Used();
              return;
            }
            j := j + 1;
          }
        } else {
          FullWord(pagemap[..], i);
        }
        i := i + 1;
      }
      return 0;
    }

    /** The inner loop of the run search, over the bits of one word. */
    method ScanWord(i: nat, before: nat, first: nat, pages: nat) returns (found: nat, startPage: nat, done: bool)
      requires Valid() && i < length / 32 && pages != 0
      requires ScanState(Used(), 32 * i, before, first, pages)
      ensures done ==> LowestRun(Used(), Limit(), startPage, pages)
      ensures !done ==> ScanState(Used(), 32 * (i + 1), found, startPage, pages)
    {
      hide And, Marked, ScanState, LowestRun;
      found, startPage, done := before, first, false;
      var j := 0;
      while j < 32
        invariant j <= 32 && ScanState(Used(), 32 * i + j, found, startPage, pages)
      {
        BitOfPage(pagemap[..], i, j);
        ScanOne(Used(), Limit(), 32 * i + j, found, startPage, pages);
        if And(pagemap[i], Pow2(j)) == 0 {
          if found == 0 {
            startPage := i * 4 * 8 + j;
          }
          found := found + 1;
          if found == pages {
            return found, startPage, true;
          }
        } else {
          found := 0;
        }
        j := j + 1;
      }
    }

    /**
     The lowest start of a run of `pages` unmarked pages, or 0 when there is none.
     The run may cross word boundaries.
     */
    method FindFreePages(pages: nat) returns (start: nat)
      requires Valid()
      requires pages != 0
      ensures if exists s: nat :: FreeRun(Used(), Limit(), s, pages)
              then LowestRun(Used(), Limit(), start, pages)
              else start == 0
      ensures 0 in Used() ==> (start == 0 <==> !exists s: nat :: FreeRun(Used(), Limit(), s, pages))
    {
      ghost var used := Used();
      var i, found: nat, startPage: nat := 0, 0, 0;
      while i < length / 32
        invariant i <= length / 32
        invariant ScanState(used, 32 * i, found, startPage, pages)
      {
        if pagemap[i] != 0xFFFF_FFFF {
          var done;
          found, startPage, done := ScanWord(i, found, startPage, pages);
          if done { return startPage; }
        } else {
          FullWord(pagemap[..], i);
          SkipMarked(used, 32 * i, 32, pages);
          found := 0;
        }
        i := i + 1;
      }
      forall s: nat ensures !FreeRun(used, Limit(), s, pages) {
        NoRun(used, Limit(), s, pages);
      }
      return 0;
    }
  }

  /** The bit test of the two searches asks whether page `32 * i + j` is marked. */
  lemma BitOfPage(words: seq<Word>, i: nat, j: nat)
    requires i < |words| && j < 32
    ensures And(words[i], Pow2(j)) == 0 <==> 32 * i + j !in Marked(words)
  {
    AndBit(words[i], j);
    assert (32 * i + j) / 32 == i && (32 * i + j) % 32 == j;
  }

  /** A word equal to 0xFFFFFFFF marks all of its 32 pages. */
  lemma FullWord(words: seq<Word>, i: nat)
    requires i < |words| && words[i] == 0xFFFF_FFFF
    ensures forall p :: 32 * i <= p < 32 * i + 32 ==> p in Marked(words)
  {
    forall p | 32 * i <= p < 32 * i + 32 ensures p in Marked(words) {
      PowerOf32();
      AllOnes(32, p % 32);
    }
  }

  /** How many pages right below `pos` are unmarked. */
  ghost function RunBelow(used: set<nat>, pos: nat): (r: nat)
    ensures r <= pos
  {
    if pos == 0 || pos - 1 in used then 0 else RunBelow(used, pos - 1) + 1
  }

  /** No run of `pages` unmarked pages ends at or below `pos`. */
  ghost predicate NoneBelow(used: set<nat>, pos: nat, pages: nat)
  {
    RunBelow(used, pos) < pages && (pos > 0 ==> NoneBelow(used, pos - 1, pages))
  }

  /** What the run search knows after looking at `pos` pages. */
  ghost predicate ScanState(used: set<nat>, pos: nat, found: nat, start: nat, pages: nat)
  {
    found == RunBelow(used, pos) && (found > 0 ==> start == pos - found) && NoneBelow(used, pos, pages)
  }

  /** What one more page tells the run search. */
  lemma ScanOne(used: set<nat>, limit: nat, pos: nat, found: nat, start: nat, pages: nat)
    requires pos < limit && pages > 0 && ScanState(used, pos, found, start, pages)
    ensures found < pages
    ensures pos in used ==> ScanState(used, pos + 1, 0, start, pages)
    ensures pos !in used && found + 1 < pages ==>
            ScanState(used, pos + 1, found + 1, if found == 0 then pos else start, pages)
    ensures pos !in used && found + 1 == pages ==> LowestRun(used, limit, if found == 0 then pos else start, pages)
  {
    if pos !in used && found + 1 == pages { RunFound(used, limit, pos, pages); }
  }

  lemma {:induction false} RunBelowIsFree(used: set<nat>, pos: nat)
    ensures forall p :: pos - RunBelow(used, pos) <= p < pos ==> p !in used
  {
    if pos > 0 && pos - 1 !in used { RunBelowIsFree(used, pos - 1); }
  }

  lemma {:induction false} RunBelowIsLongest(used: set<nat>, pos: nat, s: nat)
    requires s <= pos && forall p :: s <= p < pos ==> p !in used
    ensures RunBelow(used, pos) >= pos - s
  {
    if s < pos { RunBelowIsLongest(used, pos - 1, s); }
  }

  lemma {:induction false} NoRun(used: set<nat>, pos: nat, s: nat, pages: nat)
    requires NoneBelow(used, pos, pages)
    ensures !FreeRun(used, pos, s, pages)
    decreases pos
  {
    if s + pages < pos {
      NoRun(used, pos - 1, s, pages);
    } else if FreeRun(used, pos, s, pages) {
      RunBelowIsLongest(used, pos, s);
    }
  }

  lemma {:induction false} SkipMarked(used: set<nat>, pos: nat, count: nat, pages: nat)
    requires NoneBelow(used, pos, pages)
    requires forall p :: pos <= p < pos + count ==> p in used
    ensures NoneBelow(used, pos + count, pages)
    ensures count > 0 ==> RunBelow(used, pos + count) == 0
    decreases count
  {
    if count > 0 { SkipMarked(used, pos, count - 1, pages); }
  }

  lemma RunFound(used: set<nat>, limit: nat, pos: nat, pages: nat)
    requires NoneBelow(used, pos, pages)
    requires pos < limit && pos !in used && RunBelow(used, pos + 1) == pages
    ensures LowestRun(used, limit, pos + 1 - pages, pages)
  {
    RunBelowIsFree(used, pos + 1);
    forall s: nat | FreeRun(used, limit, s, pages) ensures pos + 1 - pages <= s {
      if s + pages <= pos {
        NoRun(used, pos, s, pages);
      }
    }
  }
}
