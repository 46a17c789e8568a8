/**
 * The page layout and the log semantics of the emulated EEPROM, as values.
 *
 * A page is a sequence of 32-bit words: two status words (generation,
 * used-marker) followed by entries `id << 16 | data`.  The entries of the
 * active page form an append-only log; this module defines what reading that
 * log means (the newest entry for an id wins) and what a page swap copies
 * (the newest entry of every id, found by a backward scan), and proves the
 * swap keeps every read.
 */
module EepromLog {
  import opened Options
  import opened Flash
  import opened EepromErrors

  /** Valid ids are 0 .. NUM_IDS - 1 (softeeprom.c:148). */
  const NUM_IDS: bv16 := 127

  /** Bits in PageSwap's "already copied" vector, a multiple of 8 (softeeprom.c:159). */
  const NUM_VECTOR_BITS: nat := 128

  /** Index of the first entry slot, after the two status words. */
  const FIRST_SLOT: nat := 2

  /** Least words per page: (ulEepromPageSize / 4) >= MAX_SOFTEEPROM_IDS * 2 (softeeprom.h:47-53). */
  const MIN_PAGE_WORDS: nat := 254

  /** The two derived sizes are the header's formulas evaluated for 127 ids. */
  lemma DerivedSizes()
    ensures NUM_VECTOR_BITS == MAX_SOFTEEPROM_IDS + 8 - MAX_SOFTEEPROM_IDS % 8
    ensures NUM_VECTOR_BITS % 8 == 0 && NUM_VECTOR_BITS > MAX_SOFTEEPROM_IDS
    ensures MIN_PAGE_WORDS == 2 * MAX_SOFTEEPROM_IDS
  {
  }

  function EntryWord(id: bv16, data: bv16): (w: bv32)
    ensures IdOf(w) == id && DataOf(w) == data
  {
    ((id as bv32) << 16) | (data as bv32)
  }

  function IdOf(w: bv32): bv16 { (w >> 16) as bv16 }

  function DataOf(w: bv32): bv16 { (w & 0xFFFF) as bv16 }

  /** An erased slot carries the reserved id 0xFFFF, which is not a valid id. */
  lemma ErasedId()
    ensures IdOf(ERASED_WORD) == 0xFFFF && IdOf(ERASED_WORD) >= NUM_IDS
  {
  }

  // ---------------------------------------------------------------- page states

  /** PageIsActive (softeeprom.c:638-659). */
  predicate IsActive(page: seq<bv32>)
    requires |page| >= FIRST_SLOT
  {
    page[0] != ERASED_WORD && page[1] == ERASED_WORD
  }

  /** PageIsUsed (softeeprom.c:675-696). */
  predicate IsUsed(page: seq<bv32>)
    requires |page| >= FIRST_SLOT
  {
    page[0] != ERASED_WORD && page[1] != ERASED_WORD
  }

  /** No page is both active and used; an erased page is neither; a page with a
      generation is exactly one of the two. */
  lemma PageStates(page: seq<bv32>)
    requires |page| >= FIRST_SLOT
    ensures !(IsActive(page) && IsUsed(page))
    ensures page[0] == ERASED_WORD ==> !IsActive(page) && !IsUsed(page)
    ensures page[0] != ERASED_WORD ==> IsActive(page) != IsUsed(page)
  {
  }

  // ---------------------------------------------------------------- the log

  /** The value a backward scan of the entries finds for id. */
  function LatestIn(es: seq<bv32>, id: bv16): Option<bv16>
  {
    if es == [] then None
    else if IdOf(es[|es| - 1]) == id then Some(DataOf(es[|es| - 1]))
    else LatestIn(es[..|es| - 1], id)
  }

  /** What the scan finds: nothing exactly when no entry carries the id, and
      otherwise the data of the newest entry that does. */
  lemma {:induction false} LatestInMeaning(es: seq<bv32>, id: bv16)
    ensures LatestIn(es, id) == None <==> forall k :: 0 <= k < |es| ==> IdOf(es[k]) != id
    ensures LatestIn(es, id).Some? ==>
              exists k :: 0 <= k < |es| && IdOf(es[k]) == id && DataOf(es[k]) == LatestIn(es, id).value &&
                          forall j :: k < j < |es| ==> IdOf(es[j]) != id
  {
    if es != [] {
      var last := |es| - 1;
      if IdOf(es[last]) != id {
        var init := es[..last];
        LatestInMeaning(init, id);
        assert es == init + [es[last]];
      }
    }
  }

  /** One step of the backward read scan over the first m entries. */
  lemma LatestInPrefix(es: seq<bv32>, m: nat, id: bv16)
    requires 0 < m <= |es|
    ensures LatestIn(es[..m], id) ==
            if IdOf(es[m - 1]) == id then Some(DataOf(es[m - 1])) else LatestIn(es[..m - 1], id)
  {
    assert es[..m][..m - 1] == es[..m - 1];
  }

  /** Appending an entry makes it the newest for its id and hides nothing else. */
  lemma LatestAppend(es: seq<bv32>, w: bv32, id: bv16)
    ensures LatestIn(es + [w], id) == if IdOf(w) == id then Some(DataOf(w)) else LatestIn(es, id)
  {
    assert (es + [w])[..|es|] == es;
  }

  /** Putting an entry in front only matters when no later entry has its id. */
  lemma {:induction false} LatestPrepend(w: bv32, es: seq<bv32>, id: bv16)
    ensures LatestIn([w] + es, id) ==
            if LatestIn(es, id).Some? then LatestIn(es, id)
            else if IdOf(w) == id then Some(DataOf(w)) else None
  {
    if es != [] {
      var init := es[..|es| - 1];
      assert ([w] + es)[..|es|] == [w] + init;
      LatestPrepend(w, init, id);
    }
  }

  // ---------------------------------------------------------------- page swap

  predicate IdsBelow(es: seq<bv32>, n: nat)
  {
    forall k :: 0 <= k < |es| ==> IdOf(es[k]) as int < n
  }

  function CountTrue(bits: seq<bool>): (n: nat)
    ensures n <= |bits|
  {
    if bits == [] then 0 else (if bits[0] then 1 else 0) + CountTrue(bits[1..])
  }

  /** Setting a clear bit raises the count by one. */
  lemma {:induction false} CountTrueSet(bits: seq<bool>, i: nat)
    requires i < |bits| && !bits[i]
    ensures CountTrue(bits[i := true]) == CountTrue(bits) + 1
  {
    if i > 0 {
      assert bits[i := true][1..] == bits[1..][i - 1 := true];
      CountTrueSet(bits[1..], i - 1);
    } else {
      assert bits[i := true][1..] == bits[1..];
    }
  }

  /** What PageSwap copies (softeeprom.c:459-533), in copy order: the entries
      scanned from the last one backward, each kept only the first time its id
      is met, with `copied` the bit vector of ids already carried over.  The
      entry with id 0xFF is skipped as in the source; the scan reads the bit
      for an id before that test, so every id must index the bit vector. */
  function Sweep(es: seq<bv32>, copied: seq<bool>): (out: seq<bv32>)
    requires |copied| == NUM_VECTOR_BITS && IdsBelow(es, NUM_VECTOR_BITS)
    ensures |out| + CountTrue(copied) <= NUM_VECTOR_BITS
  {
    if es == [] then []
    else
      var e := es[|es| - 1];
      var id := IdOf(e) as int;
      assert es == es[..|es| - 1] + [e];
      if copied[id] || IdOf(e) == 0xFF then Sweep(es[..|es| - 1], copied)
      else
        CountTrueSet(copied, id);
        [e] + Sweep(es[..|es| - 1], copied[id := true])
  }

  /** The sweep copies no id already marked copied, and no id twice. */
  lemma {:induction false} SweepDistinct(es: seq<bv32>, copied: seq<bool>)
    requires |copied| == NUM_VECTOR_BITS && IdsBelow(es, NUM_VECTOR_BITS)
    ensures FreshIds(Sweep(es, copied), copied)
  {
    if es != [] {
      var e := es[|es| - 1];
      var init := es[..|es| - 1];
      assert es == init + [e];
      var id := IdOf(e) as int;
      if copied[id] || IdOf(e) == 0xFF {
        SweepDistinct(init, copied);
      } else {
        SweepDistinct(init, copied[id := true]);
        FreshCons(e, Sweep(init, copied[id := true]), copied);
      }
    }
  }

  /** Entries whose ids are in range, not marked in `copied`, and pairwise distinct. */
  ghost predicate FreshIds(out: seq<bv32>, copied: seq<bool>)
    requires |copied| == NUM_VECTOR_BITS
  {
    && IdsBelow(out, NUM_VECTOR_BITS)
    && (forall k :: 0 <= k < |out| ==> !copied[IdOf(out[k]) as int])
    && (forall i, j :: 0 <= i < j < |out| ==> IdOf(out[i]) != IdOf(out[j]))
  }

  /** Selecting an unmarked entry ahead of a selection made with its id marked. */
  lemma FreshCons(e: bv32, rest: seq<bv32>, copied: seq<bool>)
    requires |copied| == NUM_VECTOR_BITS && IdOf(e) as int < NUM_VECTOR_BITS && !copied[IdOf(e) as int]
    requires FreshIds(rest, copied[IdOf(e) as int := true])
    ensures FreshIds([e] + rest, copied)
  {
    var id := IdOf(e) as int;
    var out := [e] + rest;
    forall k | 0 <= k < |rest|
      ensures IdOf(rest[k]) != IdOf(e) && !copied[IdOf(rest[k]) as int]
    {
      IdIndexInjective(IdOf(rest[k]), IdOf(e));
    }
    forall i, j | 0 <= i < j < |out|
      ensures IdOf(out[i]) != IdOf(out[j])
    {
      if i > 0 {
        assert out[i] == rest[i - 1] && out[j] == rest[j - 1];
      } else {
        assert out[j] == rest[j - 1];
      }
    }
    assert forall k :: 0 <= k < |out| ==> !copied[IdOf(out[k]) as int] by {
      forall k | 0 <= k < |out| ensures !copied[IdOf(out[k]) as int] {
        if k > 0 { assert out[k] == rest[k - 1]; }
      }
    }
  }

  /** One step of the backward scan: the newest of the first k entries is
      either skipped or copied ahead of the rest. */
  lemma SweepStep(es: seq<bv32>, k: nat, copied: seq<bool>)
    requires |copied| == NUM_VECTOR_BITS && IdsBelow(es, NUM_VECTOR_BITS) && 0 < k <= |es|
    ensures IdsBelow(es[..k], NUM_VECTOR_BITS) && IdsBelow(es[..k - 1], NUM_VECTOR_BITS)
    ensures var id := IdOf(es[k - 1]) as int;
            Sweep(es[..k], copied) ==
            if copied[id] || IdOf(es[k - 1]) == 0xFF then Sweep(es[..k - 1], copied)
            else [es[k - 1]] + Sweep(es[..k - 1], copied[id := true])
  {
    assert es[..k][..k - 1] == es[..k - 1];
  }

  /** The copy loop's invariant carried over one slot: what is selected so far
      followed by the sweep of the unscanned entries is the whole sweep. */
  lemma SweepAdvance(es: seq<bv32>, m: nat, copied: seq<bool>, sel: seq<bv32>, total: seq<bv32>)
    requires |copied| == NUM_VECTOR_BITS && IdsBelow(es, NUM_VECTOR_BITS) && 0 < m <= |es|
    requires sel + Sweep(es[..m], copied) == total
    ensures var e := es[m - 1];
            var id := IdOf(e) as int;
            if copied[id] || IdOf(e) == 0xFF then sel + Sweep(es[..m - 1], copied) == total
            else (sel + [e]) + Sweep(es[..m - 1], copied[id := true]) == total
  {
    SweepStep(es, m, copied);
    var e := es[m - 1];
    var id := IdOf(e) as int;
    if !(copied[id] || IdOf(e) == 0xFF) {
      assert (sel + [e]) + Sweep(es[..m - 1], copied[id := true]) == sel + ([e] + Sweep(es[..m - 1], copied[id := true]));
    }
  }

  /** The state of the copy loop after scanning the entries from slot m on:
      what is selected so far followed by the sweep of es[..m] is the whole sweep. */
  ghost predicate SweepAt(es: seq<bv32>, m: nat, bits: seq<bool>, sel: seq<bv32>, total: seq<bv32>)
  {
    && m <= |es| && |bits| == NUM_VECTOR_BITS && IdsBelow(es, NUM_VECTOR_BITS)
    && sel + Sweep(es[..m], bits) == total
  }

  /** Before the scan nothing is selected. */
  lemma SweepStart(es: seq<bv32>)
    requires IdsBelow(es, NUM_VECTOR_BITS)
    ensures SweepAt(es, |es|, NoneCopied(), [], Sweep(es, NoneCopied()))
    ensures |Sweep(es, NoneCopied())| <= NUM_VECTOR_BITS
  {
    assert es[..|es|] == es;
  }

  /** One scanned slot: the entry at m - 1 is skipped or selected. */
  lemma SweepNext(es: seq<bv32>, m: nat, bits: seq<bool>, sel: seq<bv32>, total: seq<bv32>)
    requires SweepAt(es, m, bits, sel, total) && 0 < m
    ensures IdOf(es[m - 1]) as int < NUM_VECTOR_BITS
    ensures var id := IdOf(es[m - 1]) as int;
            bits[id] || IdOf(es[m - 1]) == 0xFF ==> SweepAt(es, m - 1, bits, sel, total)
    ensures var id := IdOf(es[m - 1]) as int;
            !(bits[id] || IdOf(es[m - 1]) == 0xFF) ==>
              SweepAt(es, m - 1, bits[id := true], sel + [es[m - 1]], total) && |sel| < |total|
  {
    SweepAdvance(es, m, bits, sel, total);
  }

  /** After the whole scan the selection is the sweep. */
  lemma SweepEnd(es: seq<bv32>, bits: seq<bool>, sel: seq<bv32>, total: seq<bv32>)
    requires SweepAt(es, 0, bits, sel, total)
    ensures sel == total
  {
    assert es[..0] == [];
  }

  /** The sweep only copies entries, so it keeps any bound on their ids. */
  lemma {:induction false} SweepIdsBelow(es: seq<bv32>, copied: seq<bool>, n: nat)
    requires |copied| == NUM_VECTOR_BITS && IdsBelow(es, NUM_VECTOR_BITS) && IdsBelow(es, n)
    ensures IdsBelow(Sweep(es, copied), n)
  {
    if es != [] {
      var init := es[..|es| - 1];
      var id := IdOf(es[|es| - 1]) as int;
      SweepIdsBelow(init, copied, n);
      if !(copied[id] || IdOf(es[|es| - 1]) == 0xFF) {
        SweepIdsBelow(init, copied[id := true], n);
      }
    }
  }

  /** The ids a swap starts from: none copied yet. */
  function NoneCopied(): (bits: seq<bool>)
    ensures |bits| == NUM_VECTOR_BITS && CountTrue(bits) == 0
  {
    ZeroBits(NUM_VECTOR_BITS)
  }

  function ZeroBits(n: nat): (bits: seq<bool>)
    ensures |bits| == n && CountTrue(bits) == 0 && forall i :: 0 <= i < n ==> !bits[i]
  {
    if n == 0 then [] else [false] + ZeroBits(n - 1)
  }

  /** Every read gives the same answer on the swapped page as on the full page,
      except for ids already marked copied, which the sweep leaves out. */
  lemma {:induction false} SweepKeepsLatest(es: seq<bv32>, copied: seq<bool>, id: bv16)
    requires |copied| == NUM_VECTOR_BITS && IdsBelow(es, NUM_VECTOR_BITS) && id as int < NUM_VECTOR_BITS
    ensures LatestIn(Sweep(es, copied), id) == if copied[id as int] then None else LatestIn(es, id)
  {
    if es != [] {
      var e := es[|es| - 1];
      var init := es[..|es| - 1];
      assert es == init + [e];
      var eid := IdOf(e) as int;
      if copied[eid] || IdOf(e) == 0xFF {
        assert Sweep(es, copied) == Sweep(init, copied);
        SweepKeepsLatest(init, copied, id);
        SkipKeepsLatest(e, init, copied, id);
      } else {
        var copied' := copied[eid := true];
        assert Sweep(es, copied) == [e] + Sweep(init, copied');
        SweepKeepsLatest(init, copied', id);
        TakeKeepsLatest(e, Sweep(init, copied'), init, copied, id);
      }
    }
  }

  /** The step of SweepKeepsLatest where the newest entry is skipped. */
  lemma SkipKeepsLatest(e: bv32, init: seq<bv32>, copied: seq<bool>, id: bv16)
    requires |copied| == NUM_VECTOR_BITS && IdOf(e) as int < NUM_VECTOR_BITS && id as int < NUM_VECTOR_BITS
    requires copied[IdOf(e) as int] || IdOf(e) == 0xFF
    ensures (if copied[id as int] then None else LatestIn(init, id)) ==
            (if copied[id as int] then None else LatestIn(init + [e], id))
  {
    LatestAppend(init, e, id);
    IdIndexInjective(IdOf(e), id);
  }

  /** The step of SweepKeepsLatest where the newest entry is selected. */
  lemma TakeKeepsLatest(e: bv32, rest: seq<bv32>, init: seq<bv32>, copied: seq<bool>, id: bv16)
    requires |copied| == NUM_VECTOR_BITS && IdOf(e) as int < NUM_VECTOR_BITS && id as int < NUM_VECTOR_BITS
    requires !copied[IdOf(e) as int]
    requires LatestIn(rest, id) == if copied[IdOf(e) as int := true][id as int] then None else LatestIn(init, id)
    ensures LatestIn([e] + rest, id) == if copied[id as int] then None else LatestIn(init + [e], id)
  {
    LatestAppend(init, e, id);
    LatestPrepend(e, rest, id);
    IdIndexInjective(IdOf(e), id);
    if IdOf(e) != id {
      assert copied[IdOf(e) as int := true][id as int] == copied[id as int];
    }
  }

  /** Distinct ids index distinct bits. */
  lemma IdIndexInjective(a: bv16, b: bv16)
    ensures a as int == b as int <==> a == b
  {
    IndexRoundTrip(a);
    IndexRoundTrip(b);
  }

  lemma IndexRoundTrip(a: bv16)
    ensures (a as int) as bv16 == a
  {
  }

  /** The swap as a whole: after sweeping the full page, each id holds exactly
      the entry the full page reads for it, and an id appears at most once. */
  lemma SwapPreservesReads(es: seq<bv32>, id: bv16)
    requires IdsBelow(es, NUM_VECTOR_BITS)
    ensures LatestIn(Sweep(es, NoneCopied()), id) == LatestIn(es, id)
    ensures |Sweep(es, NoneCopied())| <= NUM_VECTOR_BITS
  {
    if id as int < NUM_VECTOR_BITS {
      SweepKeepsLatest(es, NoneCopied(), id);
    } else {
      LatestInMeaning(es, id);
      SweepDistinct(es, NoneCopied());
      LatestInMeaning(Sweep(es, NoneCopied()), id);
    }
  }

  /** Appending w: its id then reads its data and every other id reads as before. */
  lemma AppendReads(es: seq<bv32>, w: bv32)
    ensures forall j :: LatestIn(es + [w], j) == if j == IdOf(w) then Some(DataOf(w)) else LatestIn(es, j)
  {
    forall j {
      LatestAppend(es, w, j);
    }
  }

  /** SwapPreservesReads for all ids at once. */
  lemma SwapReads(es: seq<bv32>)
    requires IdsBelow(es, NUM_VECTOR_BITS)
    ensures forall j :: LatestIn(Sweep(es, NoneCopied()), j) == LatestIn(es, j)
  {
    forall j {
      SwapPreservesReads(es, j);
    }
  }
}
