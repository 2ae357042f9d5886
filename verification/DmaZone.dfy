/** Runs of frames in the DMA zone: a bitmap of one bit a frame, searched for the first run of clear
    bits that is long enough. */
module DmaZone {
  import opened Common
  import opened FrameBitmaps
  import opened PageTables

  const BYTE: nat := 8
  const BITMAP_BYTES: nat := DMA_FRAMES / BYTE

  predicate FreeRun(bits: seq<bool>, first: nat, n: nat) {
    first + n <= |bits| && forall p :: first <= p < first + n ==> !bits[p]
  }

  ghost predicate FirstFreeRun(bits: seq<bool>, first: nat, n: nat) {
    FreeRun(bits, first, n) && forall k: nat :: k < first ==> !FreeRun(bits, k, n)
  }

  ghost predicate NoFreeRun(bits: seq<bool>, n: nat) {
    forall k: nat :: !FreeRun(bits, k, n)
  }

  /** The bits with those of one run set or cleared. */
  function Marked(bits: seq<bool>, first: nat, n: nat, bit: bool): (r: seq<bool>)
    ensures |r| == |bits|
  {
    seq(|bits|, p requires 0 <= p < |bits| => if first <= p < first + n then bit else bits[p])
  }

  /** Giving back a run restores the bitmap from which it was taken. */
  lemma TakenAndGivenBack(bits: seq<bool>, first: nat, n: nat)
    requires FreeRun(bits, first, n)
    ensures Marked(Marked(bits, first, n, true), first, n, false) == bits
  {
    var r := Marked(Marked(bits, first, n, true), first, n, false);
    forall p | 0 <= p < |bits|
      ensures r[p] == bits[p]
    {
    }
  }

  // ---------- the search ----------

  /** What the search knows before page p: the last found pages are free, the one before those is
      not, and no run of n free pages ends by p. */
  ghost predicate Scanned(bits: seq<bool>, n: nat, p: nat, found: nat) {
    && found <= p <= |bits| && found < n && FreeRun(bits, p - found, found)
    && (found < p ==> bits[p - found - 1])
    && forall k: nat :: k + n <= p ==> !FreeRun(bits, k, n)
  }

  lemma ScanStart(bits: seq<bool>, n: nat)
    requires n > 0
    ensures Scanned(bits, n, 0, 0)
  {
  }

  lemma ScanUsed(bits: seq<bool>, n: nat, p: nat, found: nat)
    requires Scanned(bits, n, p, found) && p < |bits| && bits[p]
    ensures Scanned(bits, n, p + 1, 0)
  {
    forall k: nat | k + n <= p + 1
      ensures !FreeRun(bits, k, n)
    {
      assert k + n == p + 1 ==> k <= p < k + n;
    }
  }

  lemma ScanFree(bits: seq<bool>, n: nat, p: nat, found: nat)
    requires Scanned(bits, n, p, found) && p < |bits| && !bits[p]
    ensures if found + 1 < n then Scanned(bits, n, p + 1, found + 1) else FirstFreeRun(bits, p - found, n) && FreeRun(bits, p - found, n)
  {
    forall k: nat | k + n <= p + 1 && k < p + 1 - n
      ensures !FreeRun(bits, k, n)
    {
    }
    if found + 1 < n && n <= p + 1 {
      assert p + 1 - n <= p - found - 1 < p + 1;
      assert !FreeRun(bits, p + 1 - n, n);
    }
  }

  lemma ScanDone(bits: seq<bool>, n: nat, found: nat)
    requires Scanned(bits, n, |bits|, found)
    ensures NoFreeRun(bits, n)
  {
  }

  // ---------- runs that are handed out ----------

  /** The runs that are handed out, first page to length. */
  type Runs = map<nat, nat>

  predicate Disjoint(a: nat, m: nat, b: nat, n: nat) {
    a + m <= b || b + n <= a
  }

  /** The runs are in use, do not contain page 0, and are pairwise disjoint. */
  ghost predicate Owned(bits: seq<bool>, runs: Runs) {
    && |bits| == DMA_FRAMES && bits[0]
    && (forall a :: a in runs ==> 0 < a && 0 < runs[a] && a + runs[a] <= DMA_FRAMES)
    && (forall a, p :: a in runs && a <= p < a + runs[a] ==> bits[p])
    && (forall a, b :: a in runs && b in runs && a != b ==> Disjoint(a, runs[a], b, runs[b]))
  }

  lemma TakingKeepsOwned(bits: seq<bool>, runs: Runs, first: nat, n: nat)
    requires Owned(bits, runs) && FreeRun(bits, first, n) && n > 0
    ensures first > 0 && first !in runs && Owned(Marked(bits, first, n, true), runs[first := n])
  {
    var runs' := runs[first := n];
    assert !bits[first];
    forall a | a in runs
      ensures Disjoint(a, runs[a], first, n)
    {
      assert bits[a];
    }
  }

  lemma GivingBackKeepsOwned(bits: seq<bool>, runs: Runs, first: nat)
    requires Owned(bits, runs) && first in runs
    ensures Owned(Marked(bits, first, runs[first], false), runs - {first})
  {
    forall a, p | a in runs - {first} && a <= p < a + runs[a]
      ensures Marked(bits, first, runs[first], false)[p]
    {
      assert Disjoint(a, runs[a], first, runs[first]);
    }
  }

  class DmaAllocator {
    const bitmap: array<bool>

    // the positions behind the bitmap that have been cleared
    var strayBits: set<nat>

    ghost var runs: Runs

    ghost predicate Valid()
      reads this, bitmap
    {
      Owned(bitmap[..], runs)
    }

    /** Takes over the bitmap of the loader, and reserves page 0. */
    constructor (loaderBits: seq<bool>)
      requires |loaderBits| == DMA_FRAMES
      ensures Valid() && runs == map[] && strayBits == {} && bitmap[..] == loaderBits[0 := true] && fresh(bitmap)
    {
      bitmap := new bool[DMA_FRAMES](p requires 0 <= p < DMA_FRAMES => loaderBits[p]);
      runs, strayBits := map[], {};
      new;
      bitmap[0] := true;
    }

    method Mark(first: nat, n: nat, bit: bool)
      requires first + n <= bitmap.Length
      modifies bitmap
      ensures bitmap[..] == Marked(old(bitmap[..]), first, n, bit)
    {
      for p := first to first + n
        invariant bitmap[..] == Marked(old(bitmap[..]), first, p - first, bit)
      {
        bitmap[p] := bit;
      }
    }

    /** The first run of free pages, searched bit by bit. */
    method FindRun(pages: nat) returns (start: Option<nat>)
      requires bitmap.Length == DMA_FRAMES && pages > 0
      ensures start.None? ==> NoFreeRun(bitmap[..], pages)
      ensures start.Some? ==> FirstFreeRun(bitmap[..], start.value, pages)
    {
      hide FreeRun, FirstFreeRun, Scanned, NoFreeRun;
      var startPage := 0;
      var pagesFound := 0;
      ghost var bits := bitmap[..];
      ScanStart(bits, pages);
      for i := 0 to BITMAP_BYTES
        invariant Scanned(bits, pages, i * BYTE, pagesFound)
        invariant pagesFound < pages && pagesFound <= i * BYTE && (pagesFound > 0 ==> startPage == i * BYTE - pagesFound)
      {
        var byte := bitmap[i * BYTE..(i + 1) * BYTE];
        for j := 0 to BYTE
          invariant Scanned(bits, pages, i * BYTE + j, pagesFound)
          invariant pagesFound < pages && pagesFound <= i * BYTE + j
          invariant pagesFound > 0 ==> startPage == i * BYTE + j - pagesFound
        {
          assert byte[j] == bits[i * BYTE + j];
          if byte[j] {
            ScanUsed(bits, pages, i * BYTE + j, pagesFound);
            pagesFound := 0;
          } else {
            ScanFree(bits, pages, i * BYTE + j, pagesFound);
            if pagesFound == 0 {
              startPage := BYTE * i + j;
            }
            pagesFound := pagesFound + 1;
          }
          if pagesFound >= pages {
            return Some(startPage);
          }
        }
      }
      ScanDone(bits, pages, pagesFound);
      return None;
    }

    /** Takes the first run of free pages; null if there is none, or if no pages are asked for. */
    method AllocateDMA(pages: nat) returns (address: nat)
      requires Valid()
      modifies this`runs, bitmap
      ensures Valid()
      ensures address == 0 <==> pages == 0 || NoFreeRun(old(bitmap[..]), pages)
      ensures address == 0 ==> bitmap[..] == old(bitmap[..]) && runs == old(runs)
      ensures address != 0 ==>
                var first := address / FRAME_SIZE;
                && address == first * FRAME_SIZE && FirstFreeRun(old(bitmap[..]), first, pages)
                && bitmap[..] == Marked(old(bitmap[..]), first, pages, true)
                && first !in old(runs) && runs == old(runs)[first := pages]
    {
      if pages == 0 {
        return 0;
      }
      var start := FindRun(pages);
      if start.None? {
        return 0;
      }
      TakingKeepsOwned(bitmap[..], runs, start.value, pages);
      Mark(start.value, pages, true);
      runs := runs[start.value := pages];
      return start.value * FRAME_SIZE;
    }

    /** Clears the bits of a range of pages, whatever it is.  The check that the range lies in the zone
        has no effect: its failure is not returned.  Bits that lie behind the bitmap are cleared in
        whatever memory follows it. */
    method FreeDMA(address: nat, pages: nat) returns (ok: bool)
      requires bitmap.Length == DMA_FRAMES && address < WORD_LIMIT && pages < WORD_LIMIT
      modifies this, bitmap
      ensures ok
      ensures bitmap[..] == Marked(old(bitmap[..]), address / FRAME_SIZE, PagesCleared(address, pages), false)
      ensures strayBits == old(strayBits) + StrayBits(address, pages)
      ensures old(Valid()) && IsLiveRun(old(runs), address, pages) ==>
                Valid() && strayBits == old(strayBits) && runs == old(runs) - {address / FRAME_SIZE}
    {
      ghost var bits := bitmap[..];
      if Valid() && IsLiveRun(runs, address, pages) {
        LiveRunsFit(bits, runs, address, pages);
      }
      var end := (address + FRAME_SIZE * (pages - 1)) % WORD_LIMIT;
      if !IsDMAAddress(address) || !IsDMAAddress(end) {
        var discarded := false;
      }
      EndOfRange(address, pages);
      hide Marked, Owned, Span, IsDMAAddress;
      ClearPages(address / FRAME_SIZE, (address / FRAME_SIZE + pages) % WORD_LIMIT);
      if IsLiveRun(runs, address, pages) {
        runs := runs - {address / FRAME_SIZE};
      }
      ok := true;
    }

    /** The loop over the pages of a range, up to its end. */
    method ClearPages(first: nat, end: nat)
      requires bitmap.Length == DMA_FRAMES
      modifies this`strayBits, bitmap
      ensures bitmap[..] == Marked(old(bitmap[..]), first, if first < end then end - first else 0, false)
      ensures strayBits == old(strayBits) + Span(if first < DMA_FRAMES then DMA_FRAMES else first, end)
    {
      var p := first;
      while p < end
        invariant first <= p && (p <= end || p == first)
        invariant bitmap[..] == Marked(old(bitmap[..]), first, p - first, false)
        invariant strayBits == old(strayBits) + Span(if first < DMA_FRAMES then DMA_FRAMES else first, p)
      {
        if p < DMA_FRAMES {
          bitmap[p] := false;
        } else {
          strayBits := strayBits + {p};
        }
        p := p + 1;
      }
    }
  }

  /** The numbers from lo up to hi. */
  function Span(lo: nat, hi: nat): (s: set<nat>)
    ensures forall p: nat :: p in s <==> lo <= p < hi
  {
    if hi <= lo then {} else Span(lo, hi - 1) + {hi - 1}
  }

  const WORD_LIMIT: nat := 0x1_0000_0000_0000_0000

  predicate IsDMAAddress(address: nat) {
    address < DMA_FRAMES * FRAME_SIZE
  }

  /** How many pages the loop goes through: the end of the range is a 64-bit number. */
  function PagesCleared(address: nat, pages: nat): nat {
    if address / FRAME_SIZE + pages < WORD_LIMIT then pages else 0
  }

  lemma EndOfRange(address: nat, pages: nat)
    requires address < WORD_LIMIT && pages < WORD_LIMIT
    ensures var first := address / FRAME_SIZE; var end := (first + pages) % WORD_LIMIT;
            && (if first < end then end - first else 0) == PagesCleared(address, pages)
            && (first < end ==> end == first + PagesCleared(address, pages))
  {
    var first := address / FRAME_SIZE;
    if first + pages >= WORD_LIMIT {
      assert (first + pages) % WORD_LIMIT == first + pages - WORD_LIMIT;
    }
  }

  /** The positions behind the bitmap that giving back a range clears. */
  function StrayBits(address: nat, pages: nat): set<nat> {
    var first := address / FRAME_SIZE;
    Span(if first < DMA_FRAMES then DMA_FRAMES else first, first + PagesCleared(address, pages))
  }

  /** Bits outside the zone are cleared exactly when the range reaches beyond it. */
  lemma StraysBeyondTheZone(address: nat, pages: nat)
    ensures StrayBits(address, pages) != {} <==>
            0 < pages && DMA_FRAMES < address / FRAME_SIZE + pages < WORD_LIMIT
  {
    var last := address / FRAME_SIZE + PagesCleared(address, pages) - 1;
    if 0 < pages && DMA_FRAMES < address / FRAME_SIZE + pages < WORD_LIMIT {
      assert last in StrayBits(address, pages);
    }
  }

  predicate IsLiveRun(runs: Runs, address: nat, pages: nat) {
    address / FRAME_SIZE in runs && runs[address / FRAME_SIZE] == pages
  }

  lemma LiveRunsFit(bits: seq<bool>, runs: Runs, address: nat, pages: nat)
    requires Owned(bits, runs) && IsLiveRun(runs, address, pages)
    ensures Owned(Marked(bits, address / FRAME_SIZE, pages, false), runs - {address / FRAME_SIZE})
    ensures PagesCleared(address, pages) == pages && StrayBits(address, pages) == {}
  {
    GivingBackKeepsOwned(bits, runs, address / FRAME_SIZE);
    StraysBeyondTheZone(address, pages);
  }

  /** Which ranges can be given back without harm to the runs that are handed out. */
  lemma ClearingKeepsOwned(bits: seq<bool>, runs: Runs, first: nat, n: nat)
    requires Owned(bits, runs) && n > 0
    ensures Owned(Marked(bits, first, n, false), runs) <==> first > 0 && forall a :: a in runs ==> Disjoint(a, runs[a], first, n)
  {
    var cleared := Marked(bits, first, n, false);
    if first > 0 && forall a :: a in runs ==> Disjoint(a, runs[a], first, n) {
      forall a, p | a in runs && a <= p < a + runs[a]
        ensures cleared[p]
      {
        assert Disjoint(a, runs[a], first, n);
      }
    }
    forall a | a in runs && !Disjoint(a, runs[a], first, n)
      ensures !Owned(cleared, runs)
    {
      var p := if a <= first then first else a;
      assert !cleared[p];
    }
  }
}
