/**
 * What SoftEEPROMInit decides from the status words alone, as functions of
 * the region's pages (each page a sequence of words), and what it means for
 * an interrupted clear or swap.
 */
module EepromBoot {
  import opened Options
  import opened Flash
  import opened EepromLog

  /** Every page has its two status words and room for entries. */
  predicate Shaped(v: seq<seq<bv32>>)
  {
    forall p :: 0 <= p < |v| ==> |v[p]| > FIRST_SLOT
  }

  /** The ring successor of page p among n pages (softeeprom.c:414-416). */
  function Successor(p: nat, n: nat): (q: nat)
    requires p < n
    ensures q < n && (q == p + 1 || (p == n - 1 && q == 0))
  {
    if p + 1 < n then p + 1 else 0
  }

  /** The ring predecessor of page p among n pages (softeeprom.c:1118-1120). */
  function Predecessor(p: nat, n: nat): (q: nat)
    requires p < n
    ensures q < n && Successor(q, n) == p
  {
    if p == 0 then n - 1 else p - 1
  }

  lemma PredecessorOfSuccessor(p: nat, n: nat)
    requires p < n
    ensures Predecessor(Successor(p, n), n) == p
  {
  }

  // ---------------------------------------------------------------- counters

  /** Number of active pages (GetActivePageCount before truncation). */
  function CountActive(v: seq<seq<bv32>>): (c: nat)
    requires Shaped(v)
    ensures c <= |v|
  {
    if v == [] then 0
    else
      var init := v[..|v| - 1];
      assert forall p :: 0 <= p < |init| ==> init[p] == v[p];
      CountActive(init) + if IsActive(v[|v| - 1]) then 1 else 0
  }

  /** Number of used pages (GetUsedPageCount before truncation). */
  function CountUsed(v: seq<seq<bv32>>): (c: nat)
    requires Shaped(v)
    ensures c <= |v|
  {
    if v == [] then 0
    else
      var init := v[..|v| - 1];
      assert forall p :: 0 <= p < |init| ==> init[p] == v[p];
      CountUsed(init) + if IsUsed(v[|v| - 1]) then 1 else 0
  }

  /** The count is positive exactly when some page is active. */
  lemma {:induction false} CountActivePositive(v: seq<seq<bv32>>)
    requires Shaped(v)
    ensures CountActive(v) > 0 <==> exists p :: 0 <= p < |v| && IsActive(v[p])
  {
    if v != [] {
      var init := v[..|v| - 1];
      assert forall p :: 0 <= p < |init| ==> init[p] == v[p];
      CountActivePositive(init);
      if IsActive(v[|v| - 1]) {
        assert IsActive(v[|v| - 1]);
      }
    }
  }

  /** The count is positive exactly when some page is used. */
  lemma {:induction false} CountUsedPositive(v: seq<seq<bv32>>)
    requires Shaped(v)
    ensures CountUsed(v) > 0 <==> exists p :: 0 <= p < |v| && IsUsed(v[p])
  {
    if v != [] {
      var init := v[..|v| - 1];
      assert forall p :: 0 <= p < |init| ==> init[p] == v[p];
      CountUsedPositive(init);
      if IsUsed(v[|v| - 1]) {
        assert IsUsed(v[|v| - 1]);
      }
    }
  }

  /** Counting one more page adds one exactly when that page is active. */
  lemma CountActiveExtend(v: seq<seq<bv32>>, p: nat)
    requires Shaped(v) && p < |v|
    ensures Shaped(v[..p]) && Shaped(v[..p + 1])
    ensures CountActive(v[..p + 1]) == CountActive(v[..p]) + if IsActive(v[p]) then 1 else 0
  {
    assert v[..p + 1][..p] == v[..p];
  }

  /** Counting one more page adds one exactly when that page is used. */
  lemma CountUsedExtend(v: seq<seq<bv32>>, p: nat)
    requires Shaped(v) && p < |v|
    ensures Shaped(v[..p]) && Shaped(v[..p + 1])
    ensures CountUsed(v[..p + 1]) == CountUsed(v[..p]) + if IsUsed(v[p]) then 1 else 0
  {
    assert v[..p + 1][..p] == v[..p];
  }

  // ---------------------------------------------------------------- searches

  /** The first active page at or after `from`, or |v| when there is none. */
  function FirstActive(v: seq<seq<bv32>>, from: nat): (p: nat)
    requires Shaped(v) && from <= |v|
    ensures from <= p <= |v|
    ensures p < |v| ==> IsActive(v[p])
    ensures forall q :: from <= q < p ==> !IsActive(v[q])
    decreases |v| - from
  {
    if from == |v| then |v|
    else if IsActive(v[from]) then from
    else FirstActive(v, from + 1)
  }

  /** The search stops at or before any active page from its start on. */
  lemma {:induction false} FirstActiveAtMost(v: seq<seq<bv32>>, from: nat, p: nat)
    requires Shaped(v) && from <= p < |v| && IsActive(v[p])
    ensures FirstActive(v, from) <= p
    decreases p - from
  {
    if from < p && !IsActive(v[from]) {
      FirstActiveAtMost(v, from + 1, p);
    }
  }

  /** A page whose last slot has been programmed. */
  predicate LastSlotUsed(page: seq<bv32>)
    requires |page| > FIRST_SLOT
  {
    page[|page| - 1] != ERASED_WORD
  }

  /** The first active page at or after `from` whose last slot is programmed. */
  function FirstFullActive(v: seq<seq<bv32>>, from: nat): (p: nat)
    requires Shaped(v) && from <= |v|
    ensures from <= p <= |v|
    ensures p < |v| ==> IsActive(v[p]) && LastSlotUsed(v[p])
    ensures forall q :: from <= q < p ==> !(IsActive(v[q]) && LastSlotUsed(v[q]))
    decreases |v| - from
  {
    if from == |v| then |v|
    else if IsActive(v[from]) && LastSlotUsed(v[from]) then from
    else FirstFullActive(v, from + 1)
  }

  /** The first erased slot at or after `from`, or |page| when the page is full
      (GetNextAvailEntry, softeeprom.c:801-846). */
  function FirstErasedSlot(page: seq<bv32>, from: nat): (s: nat)
    requires from <= |page|
    ensures from <= s <= |page|
    ensures s < |page| ==> page[s] == ERASED_WORD
    ensures forall t :: from <= t < s ==> page[t] != ERASED_WORD
    decreases |page| - from
  {
    if from == |page| then |page|
    else if page[from] == ERASED_WORD then from
    else FirstErasedSlot(page, from + 1)
  }

  /** A page whose programmed slots form a prefix of entries with ids below
      `bound`, every slot from its first erased one on erased: the shape the
      engine's writes, swaps and clears leave on the active page. */
  predicate Intact(page: seq<bv32>, bound: nat)
    requires |page| >= FIRST_SLOT
  {
    var c := FirstErasedSlot(page, FIRST_SLOT);
    IdsBelow(page[FIRST_SLOT..c], bound) && forall s :: c <= s < |page| ==> page[s] == ERASED_WORD
  }

  // ---------------------------------------------------------------- most recently used

  /** The generation of a page (its first status word), compared unsigned. */
  function Gen(page: seq<bv32>): nat
    requires |page| > 0
  {
    page[0] as nat
  }

  /** GetMostRecentlyUsedPage as written (softeeprom.c:860-908): the scan keeps
      a page only when its generation is strictly greater than the best so far,
      and the best starts at 0, so a used page of generation 0 is never chosen.
      The result is the best generation and the page it was found on. */
  function MruAsWritten(v: seq<seq<bv32>>): (r: (nat, Option<nat>))
    requires Shaped(v)
    ensures r.1.Some? ==> r.1.value < |v|
  {
    if v == [] then (0, None)
    else
      var init := v[..|v| - 1];
      assert forall p :: 0 <= p < |init| ==> init[p] == v[p];
      var best := MruAsWritten(init);
      var last := v[|v| - 1];
      if IsUsed(last) && Gen(last) > best.0 then (Gen(last), Some(|v| - 1)) else best
  }

  /** The scan as evidently intended: the first used page starts the search,
      so a used page is found whenever one exists, with the highest generation
      (the first such page when several share it). */
  function Mru(v: seq<seq<bv32>>): (r: Option<nat>)
    requires Shaped(v)
    ensures r.Some? ==> r.value < |v|
  {
    if v == [] then None
    else
      var init := v[..|v| - 1];
      assert forall p :: 0 <= p < |init| ==> init[p] == v[p];
      var best := Mru(init);
      var last := v[|v| - 1];
      if IsUsed(last) && (best.None? || Gen(last) > Gen(v[best.value])) then Some(|v| - 1) else best
  }

  /** What the scan as written computes: the greatest generation of a used
      page, or 0, which is also what it reports when it finds nothing; and the
      first page that carries that generation. */
  lemma {:induction false} MruAsWrittenMeaning(v: seq<seq<bv32>>)
    requires Shaped(v)
    ensures var r := MruAsWritten(v);
            && (r.1.Some? ==> IsUsed(v[r.1.value]) && Gen(v[r.1.value]) == r.0)
            && (r.1.None? <==> r.0 == 0)
            && (forall p :: 0 <= p < |v| && IsUsed(v[p]) ==> Gen(v[p]) <= r.0)
            && (r.1.Some? ==> forall p :: 0 <= p < r.1.value && IsUsed(v[p]) ==> Gen(v[p]) < r.0)
  {
    if v != [] {
      var init := v[..|v| - 1];
      assert forall p :: 0 <= p < |init| ==> init[p] == v[p];
      MruAsWrittenMeaning(init);
      var best := MruAsWritten(init);
      var last := v[|v| - 1];
      if IsUsed(last) && Gen(last) > best.0 {
        assert MruAsWritten(v) == (Gen(last), Some(|v| - 1));
        ScanTakesLast(v, best);
      } else {
        assert MruAsWritten(v) == best;
        ScanKeeps(v, best);
      }
    }
  }

  /** The facts MruAsWrittenMeaning states, for a scan result r over v. */
  ghost predicate ScanFacts(v: seq<seq<bv32>>, r: (nat, Option<nat>))
    requires Shaped(v)
  {
    && (r.1.Some? ==> r.1.value < |v| && IsUsed(v[r.1.value]) && Gen(v[r.1.value]) == r.0)
    && (r.1.None? <==> r.0 == 0)
    && (forall p :: 0 <= p < |v| && IsUsed(v[p]) ==> Gen(v[p]) <= r.0)
    && (r.1.Some? ==> forall p :: 0 <= p < r.1.value && IsUsed(v[p]) ==> Gen(v[p]) < r.0)
  }

  /** The last page, used with a generation above the best so far, takes over. */
  lemma ScanTakesLast(v: seq<seq<bv32>>, best: (nat, Option<nat>))
    requires Shaped(v) && v != [] && Shaped(v[..|v| - 1]) && ScanFacts(v[..|v| - 1], best)
    requires IsUsed(v[|v| - 1]) && Gen(v[|v| - 1]) > best.0
    ensures ScanFacts(v, (Gen(v[|v| - 1]), Some(|v| - 1)))
  {
    var init := v[..|v| - 1];
    forall p | 0 <= p < |v| - 1 && IsUsed(v[p]) ensures Gen(v[p]) < Gen(v[|v| - 1]) {
      assert v[p] == init[p];
    }
  }

  /** Any other last page leaves the best so far. */
  lemma ScanKeeps(v: seq<seq<bv32>>, best: (nat, Option<nat>))
    requires Shaped(v) && v != [] && Shaped(v[..|v| - 1]) && ScanFacts(v[..|v| - 1], best)
    requires !(IsUsed(v[|v| - 1]) && Gen(v[|v| - 1]) > best.0)
    ensures ScanFacts(v, best)
  {
    var init := v[..|v| - 1];
    var last := v[|v| - 1];
    assert !IsUsed(last) || Gen(last) <= best.0;
    forall p | 0 <= p < |v| && IsUsed(v[p]) ensures Gen(v[p]) <= best.0 {
      if p < |init| {
        assert v[p] == init[p];
      } else {
        assert v[p] == last;
      }
    }
    if best.1.Some? {
      assert v[best.1.value] == init[best.1.value];
      forall p | 0 <= p < best.1.value && IsUsed(v[p]) ensures Gen(v[p]) < best.0 {
        assert v[p] == init[p];
      }
    }
  }

  /** Some page is used when the count is positive, and then the corrected
      scan finds one. */
  lemma {:induction false} MruFound(v: seq<seq<bv32>>)
    requires Shaped(v) && CountUsed(v) > 0
    ensures Mru(v).Some?
  {
    var init := v[..|v| - 1];
    assert forall p :: 0 <= p < |init| ==> init[p] == v[p];
    if !IsUsed(v[|v| - 1]) {
      MruFound(init);
    }
  }

  /** What the corrected scan computes: a used page exactly when one exists,
      with the greatest generation, and the first page among equals. */
  lemma {:induction false} MruMeaning(v: seq<seq<bv32>>)
    requires Shaped(v)
    ensures var r := Mru(v);
            && (r.Some? <==> exists p :: 0 <= p < |v| && IsUsed(v[p]))
            && (r.Some? ==> IsUsed(v[r.value]))
            && (r.Some? ==> forall p :: 0 <= p < |v| && IsUsed(v[p]) ==> Gen(v[p]) <= Gen(v[r.value]))
            && (r.Some? ==> forall p :: 0 <= p < r.value && IsUsed(v[p]) ==> Gen(v[p]) < Gen(v[r.value]))
  {
    if v != [] {
      var init := v[..|v| - 1];
      assert forall p :: 0 <= p < |init| ==> init[p] == v[p];
      MruMeaning(init);
      var best := Mru(init);
      var last := v[|v| - 1];
      if IsUsed(last) && (best.None? || Gen(last) > Gen(v[best.value])) {
        assert Mru(v) == Some(|v| - 1);
        assert forall p :: 0 <= p < |v| - 1 && IsUsed(v[p]) ==> Gen(v[p]) < Gen(last) by {
          forall p | 0 <= p < |v| - 1 && IsUsed(v[p]) ensures Gen(v[p]) < Gen(last) {
            assert v[p] == init[p];
          }
        }
      } else {
        assert Mru(v) == best;
        if best.Some? {
          assert v[best.value] == init[best.value];
        }
      }
    }
  }

  /** One more page scanned: it takes over exactly when it is used and has a
      strictly greater generation than the choice so far (or there is none). */
  lemma MruExtend(v: seq<seq<bv32>>, p: nat)
    requires Shaped(v) && p < |v|
    ensures Shaped(v[..p]) && Shaped(v[..p + 1])
    ensures var best := Mru(v[..p]);
            Mru(v[..p + 1]) ==
              if IsUsed(v[p]) && (best.None? || Gen(v[p]) > Gen(v[best.value])) then Some(p) else best
  {
    assert v[..p + 1][..p] == v[..p];
  }

  /** Whenever the scan as written finds a page, it finds the same one. */
  lemma MruAgrees(v: seq<seq<bv32>>)
    requires Shaped(v)
    ensures MruAsWritten(v).1.Some? ==> Mru(v) == MruAsWritten(v).1
  {
    var w := MruAsWritten(v);
    var m := Mru(v);
    MruAsWrittenMeaning(v);
    MruMeaning(v);
    if w.1.Some? {
      var p := w.1.value;
      assert m.Some?;
      var q := m.value;
      assert Gen(v[q]) <= w.0 && Gen(v[p]) <= Gen(v[q]);
      assert q == p by {
        if q < p {
          assert false;
        } else if p < q {
          assert false;
        }
      }
    }
  }

  /** The state a clear of page 0 at generation 0 leaves when power fails
      after its first step: page 0 is marked used, nothing is active. */
  function InterruptedFirstClear(): (v: seq<seq<bv32>>)
    ensures Shaped(v) && |v| == 2
  {
    var page0 := [0, 0] + Erased(MIN_PAGE_WORDS - 2);
    var page1 := Erased(MIN_PAGE_WORDS);
    [page0, page1]
  }

  function Erased(n: nat): (page: seq<bv32>)
    ensures |page| == n && forall s :: 0 <= s < n ==> page[s] == ERASED_WORD
  {
    seq(n, _ => ERASED_WORD)
  }

  /** On that state the scan as written reports no page although one is used. */
  lemma MruAsWrittenMissesGenerationZero()
    ensures CountActive(InterruptedFirstClear()) == 0 && CountUsed(InterruptedFirstClear()) == 1
    ensures MruAsWritten(InterruptedFirstClear()).1 == None
    ensures Mru(InterruptedFirstClear()) == Some(0)
  {
    var v := InterruptedFirstClear();
    assert IsUsed(v[0]) && !IsActive(v[0]) && !IsActive(v[1]) && !IsUsed(v[1]);
    assert v[..1][..0] == [];
  }
}

module EepromRecovery {
  import opened Options
  import opened Flash
  import opened EepromLog
  import opened EepromBoot

  /** The cases of SoftEEPROMInit (softeeprom.c:988-1299), keyed on the active
      page count as the unsigned char the source keeps it in. */
  datatype Plan =
    | FreshStart                          // no active, no used page: erase page 0, stamp generation 0
    | ResumeClear(page: nat, gen: bv32)   // no active, some used page: erase page, stamp gen
    | Boot(page: nat, cursor: nat)        // one active page, predecessor consistent: resume at cursor
    | Restamp(page: nat, gen: bv32)       // one active page, predecessor disagrees: re-erase, stamp gen
    | ResumeSwap(page: nat)               // two active pages: keep the full one, cursor at its end
    | NoFullPage                          // two active pages, neither full: ERR_TWO_ACTIVE_NO_FULL
    | TooManyActive                       // any other count: ERR_ACTIVE_PG_CNT

  function Recovery(v: seq<seq<bv32>>): (plan: Plan)
    requires Shaped(v) && |v| >= 2
    ensures plan.ResumeClear? || plan.Boot? || plan.Restamp? || plan.ResumeSwap? ==> plan.page < |v|
    ensures plan.Boot? ==> IsActive(v[plan.page]) && plan.cursor == FirstErasedSlot(v[plan.page], FIRST_SLOT)
    ensures plan.ResumeSwap? ==> IsActive(v[plan.page]) && LastSlotUsed(v[plan.page])
  {
    CountActivePositive(v);
    var active := CountActive(v) % 256;
    if active == 0 then
      if CountUsed(v) % 256 == 0 then FreshStart
      else
        MruFound(v);
        var m := Mru(v).value;
        ResumeClear(Successor(m, |v|), Newer(v[m][0]))
    else if active == 1 then
      var a := FirstActive(v, 0);
      var pr := Predecessor(a, |v|);
      if IsUsed(v[pr]) && v[pr][0] != Older(v[a][0]) then Restamp(a, Newer(v[pr][0]))
      else Boot(a, FirstErasedSlot(v[a], FIRST_SLOT))
    else if active == 2 then
      var f := FirstFullActive(v, 0);
      if f < |v| then ResumeSwap(f) else NoFullPage
    else TooManyActive
  }

  /** A count whose low byte is nonzero is positive. */
  lemma ByteCountPositive(n: nat)
    requires n % 256 != 0
    ensures n > 0
  {
  }

  /** The plan with no active page, in the terms the initialisation reads. */
  lemma NoActivePlan(v: seq<seq<bv32>>)
    requires Shaped(v) && |v| >= 2 && CountActive(v) % 256 == 0
    ensures CountUsed(v) % 256 == 0 ==> Recovery(v) == FreshStart
    ensures CountUsed(v) % 256 != 0 ==>
              Mru(v).Some? &&
              Recovery(v) == ResumeClear(Successor(Mru(v).value, |v|), Newer(v[Mru(v).value][0]))
  {
    if CountUsed(v) % 256 != 0 {
      ByteCountPositive(CountUsed(v));
      MruFound(v);
    }
  }

  /** The no-active case as the source runs it.  Its scan finds no page, and
      init reads the status word at the sentinel address 0xFFFFFFFF
      (softeeprom.c:1044-1050), exactly when every used page carries
      generation 0; whenever the scan finds a page, the plan restarts the
      successor of that very page, one generation on. */
  lemma NoActiveAsWritten(v: seq<seq<bv32>>)
    requires Shaped(v) && |v| >= 2 && CountActive(v) % 256 == 0 && CountUsed(v) % 256 != 0
    ensures MruAsWritten(v).1.None? <==> forall p :: 0 <= p < |v| && IsUsed(v[p]) ==> Gen(v[p]) == 0
    ensures MruAsWritten(v).1.Some? ==>
              var m := MruAsWritten(v).1.value;
              Recovery(v) == ResumeClear(Successor(m, |v|), Newer(v[m][0]))
  {
    MruAsWrittenMeaning(v);
    MruAgrees(v);
    NoActivePlan(v);
  }

  /** With one active page a whose ring predecessor is not used, init
      resumes a at its first erased slot. */
  lemma OneActiveFresh(v: seq<seq<bv32>>, a: nat)
    requires Shaped(v) && |v| >= 2 && CountActive(v) % 256 == 1
    requires a == FirstActive(v, 0) && a < |v|
    requires !IsUsed(v[Predecessor(a, |v|)])
    ensures Recovery(v) == Boot(a, FirstErasedSlot(v[a], FIRST_SLOT))
  {
  }

  /** ... and likewise when the predecessor is used one generation earlier. */
  lemma OneActiveSteady(v: seq<seq<bv32>>, a: nat)
    requires Shaped(v) && |v| >= 2 && CountActive(v) % 256 == 1
    requires a == FirstActive(v, 0) && a < |v|
    requires IsUsed(v[Predecessor(a, |v|)]) && v[Predecessor(a, |v|)][0] == Older(v[a][0])
    ensures Recovery(v) == Boot(a, FirstErasedSlot(v[a], FIRST_SLOT))
  {
  }

  /** With any other predecessor generation, init erases a and stamps it
      with the generation after the predecessor's. */
  lemma OneActiveStale(v: seq<seq<bv32>>, a: nat)
    requires Shaped(v) && |v| >= 2 && CountActive(v) % 256 == 1
    requires a == FirstActive(v, 0) && a < |v|
    requires IsUsed(v[Predecessor(a, |v|)]) && v[Predecessor(a, |v|)][0] != Older(v[a][0])
    ensures Recovery(v) == Restamp(a, Newer(v[Predecessor(a, |v|)][0]))
  {
  }

  /** The three cases above, as the initialisation decides between them. */
  lemma OneActiveDecision(v: seq<seq<bv32>>, a: nat, restamp: bool, gen: bv32, c: nat)
    requires Shaped(v) && |v| >= 2 && CountActive(v) % 256 == 1
    requires a == FirstActive(v, 0) && a < |v|
    requires restamp == (IsUsed(v[Predecessor(a, |v|)]) && v[Predecessor(a, |v|)][0] != Older(v[a][0]))
    requires restamp ==> gen == Newer(v[Predecessor(a, |v|)][0])
    requires !restamp ==> c == FirstErasedSlot(v[a], FIRST_SLOT)
    ensures Recovery(v) == if restamp then Restamp(a, gen) else Boot(a, c)
  {
    if restamp {
      OneActiveStale(v, a);
    } else if IsUsed(v[Predecessor(a, |v|)]) {
      OneActiveSteady(v, a);
    } else {
      OneActiveFresh(v, a);
    }
  }

  /** A nonzero count of active pages means the search finds one. */
  lemma SomeActive(v: seq<seq<bv32>>)
    requires Shaped(v) && CountActive(v) % 256 != 0
    ensures FirstActive(v, 0) < |v|
  {
    ByteCountPositive(CountActive(v));
    CountActivePositive(v);
    var p :| 0 <= p < |v| && IsActive(v[p]);
    FirstActiveAtMost(v, 0, p);
  }

  /** The plan with two active pages: resume the first full one, if any. */
  lemma TwoActivePlan(v: seq<seq<bv32>>)
    requires Shaped(v) && |v| >= 2 && CountActive(v) % 256 == 2
    ensures Recovery(v) == if FirstFullActive(v, 0) < |v| then ResumeSwap(FirstFullActive(v, 0)) else NoFullPage
  {
  }

  /** The generation after g, and the one before, in 32-bit arithmetic. */
  function Newer(g: bv32): bv32 { g + 1 }

  function Older(g: bv32): bv32 { g - 1 }

  lemma NextGeneration(g: bv32, x: bv32)
    ensures Older(x) == g ==> x == Newer(g)
    ensures x == Newer(g) ==> Older(x) == g
  {
  }

  /** Counting the active pages counts exactly the pages that are active. */
  lemma {:induction false} CountActiveExact(v: seq<seq<bv32>>, act: set<nat>)
    requires Shaped(v)
    requires forall p: nat :: p in act <==> p < |v| && IsActive(v[p])
    ensures CountActive(v) == |act|
  {
    if v == [] {
      assert act == {};
    } else {
      var init := v[..|v| - 1];
      var last := |v| - 1;
      var rest := act - {last};
      assert forall p: nat :: p in rest <==> p < |init| && IsActive(init[p]) by {
        forall p: nat ensures p in rest <==> p < |init| && IsActive(init[p]) {
          if p < |init| { assert init[p] == v[p]; }
        }
      }
      CountActiveExact(init, rest);
      if IsActive(v[last]) {
        assert act == rest + {last};
      } else {
        assert act == rest;
      }
    }
  }

  /** The normal resting state of the region: one active page `a`, whose ring
      predecessor is either not used or one generation older. */
  predicate Steady(v: seq<seq<bv32>>, a: nat)
  {
    && Shaped(v) && |v| >= 2 && a < |v|
    && IsActive(v[a])
    && (forall p :: 0 <= p < |v| && p != a ==> !IsActive(v[p]))
    && (IsUsed(v[Predecessor(a, |v|)]) ==> v[Predecessor(a, |v|)][0] == Older(v[a][0]))
  }

  /** Every used page other than `a` carries an older generation than `a`. */
  predicate Newest(v: seq<seq<bv32>>, a: nat)
    requires Shaped(v) && a < |v|
  {
    forall p :: 0 <= p < |v| && p != a && IsUsed(v[p]) ==> Gen(v[p]) < Gen(v[a])
  }

  /** A reset in the resting state resumes the same page at its first erased slot. */
  lemma SteadyBoots(v: seq<seq<bv32>>, a: nat)
    requires Steady(v, a)
    ensures Recovery(v) == Boot(a, FirstErasedSlot(v[a], FIRST_SLOT))
  {
    CountActiveExact(v, {a});
    assert FirstActive(v, 0) == a;
  }

  /** With a the only active page, FirstActive finds it. */
  lemma OnlyActive(v: seq<seq<bv32>>, a: nat)
    requires Shaped(v) && a < |v| && IsActive(v[a])
    requires forall p :: 0 <= p < |v| && p != a ==> !IsActive(v[p])
    ensures CountActive(v) == 1 && FirstActive(v, 0) == a
  {
    CountActiveExact(v, {a});
  }

  /** With exactly one active page, init boots it unless its predecessor is
      used with a generation other than one less (softeeprom.c:1100-1213). */
  lemma OneActiveRecovery(v: seq<seq<bv32>>, a: nat)
    requires Shaped(v) && |v| >= 2 && a < |v| && IsActive(v[a])
    requires forall p :: 0 <= p < |v| && p != a ==> !IsActive(v[p])
    ensures var pr := Predecessor(a, |v|);
            Recovery(v) ==
            if IsUsed(v[pr]) && v[pr][0] != Older(v[a][0]) then Restamp(a, Newer(v[pr][0]))
            else Boot(a, FirstErasedSlot(v[a], FIRST_SLOT))
  {
    OnlyActive(v, a);
  }

  // ---------------------------------------------------------------- interrupted clear

  /** With no active page, init restarts the clear that was interrupted on
      the newest used page (softeeprom.c:1039-1091). */
  lemma NoActiveRecovery(w: seq<seq<bv32>>, a: nat)
    requires Shaped(w) && 2 <= |w| < 256 && a < |w| && IsUsed(w[a])
    requires forall p :: 0 <= p < |w| ==> !IsActive(w[p])
    requires forall p :: 0 <= p < |w| && p != a && IsUsed(w[p]) ==> Gen(w[p]) < Gen(w[a])
    ensures Recovery(w) == ResumeClear(Successor(a, |w|), Newer(w[a][0]))
  {
    CountActiveExact(w, {});
    CountUsedPositive(w);
    MruMeaning(w);
    assert CountUsed(w) > 0;
    assert Mru(w) == Some(a) by {
      var m := Mru(w).value;
      if m != a {
        assert false;
      }
    }
  }

  /** Clear stopped after marking the active page used (and possibly during
      the erase of its successor, once the successor's generation is erased):
      init erases the successor and stamps generation + 1, which is what the
      clear had left to do. */
  lemma ClearResumesAfterMark(v: seq<seq<bv32>>, a: nat, mark: bv32)
    requires Steady(v, a) && Newest(v, a) && |v| < 256
    requires mark != ERASED_WORD
    ensures Recovery(v[a := v[a][1 := mark]]) == ResumeClear(Successor(a, |v|), Newer(v[a][0]))
  {
    var v1 := v[a := v[a][1 := mark]];
    assert forall p :: 0 <= p < |v1| && p != a ==> v1[p] == v[p];
    NoActiveRecovery(v1, a);
  }

  /** The same interrupted clear as the source's scan sees it: it finds the
      marked page, unless that page carries generation 0 (the first clear of
      a fresh region), where it finds none and init reads through the
      sentinel instead of resuming the clear. */
  lemma ClearAfterMarkAsWritten(v: seq<seq<bv32>>, a: nat, mark: bv32)
    requires Steady(v, a) && Newest(v, a)
    requires mark != ERASED_WORD
    ensures MruAsWritten(v[a := v[a][1 := mark]]).1 == if Gen(v[a]) == 0 then None else Some(a)
  {
    var v1 := v[a := v[a][1 := mark]];
    assert forall p :: 0 <= p < |v1| && p != a ==> v1[p] == v[p];
    assert IsUsed(v1[a]) && Gen(v1[a]) == Gen(v[a]);
    MruAsWrittenMeaning(v1);
  }

  lemma ClearResumesDuringErase(v: seq<seq<bv32>>, a: nat, mark: bv32, succ: seq<bv32>)
    requires Steady(v, a) && Newest(v, a) && |v| < 256
    requires mark != ERASED_WORD
    requires |succ| == |v[Successor(a, |v|)]| && succ[0] == ERASED_WORD
    ensures Recovery(v[a := v[a][1 := mark]][Successor(a, |v|) := succ]) ==
            ResumeClear(Successor(a, |v|), Newer(v[a][0]))
  {
    var s := Successor(a, |v|);
    var v2 := v[a := v[a][1 := mark]][s := succ];
    assert forall p :: 0 <= p < |v2| && p != a && p != s ==> v2[p] == v[p];
    assert v2[a][0] == v[a][0];
    NoActiveRecovery(v2, a);
  }

  /** Clear stopped while stamping the successor with generation + 1 (any
      nonempty part of the stamp programmed): init either boots the successor,
      when the stamp is complete, or re-erases and stamps it again.  Either way
      the successor ends active, empty, with the intended generation. */
  lemma ClearRecoversDuringStamp(v: seq<seq<bv32>>, a: nat, mark: bv32, succ: seq<bv32>)
    requires Steady(v, a) && mark != ERASED_WORD
    requires |succ| == |v[Successor(a, |v|)]| && IsActive(succ) && succ[FIRST_SLOT] == ERASED_WORD
    ensures var s := Successor(a, |v|);
            Recovery(v[a := v[a][1 := mark]][s := succ]) ==
            if succ[0] == Newer(v[a][0]) then Boot(s, FIRST_SLOT) else Restamp(s, Newer(v[a][0]))
  {
    var s := Successor(a, |v|);
    var v3 := v[a := v[a][1 := mark]][s := succ];
    MarkedAndStamped(v, a, mark, succ);
    OneActiveRecovery(v3, s);
    assert FirstErasedSlot(succ, FIRST_SLOT) == FIRST_SLOT;
    NextGeneration(v[a][0], succ[0]);
  }

  /** The shape of the region once the active page is marked used and its
      successor carries an active stamp. */
  lemma MarkedAndStamped(v: seq<seq<bv32>>, a: nat, mark: bv32, succ: seq<bv32>)
    requires Steady(v, a) && mark != ERASED_WORD
    requires |succ| == |v[Successor(a, |v|)]| && IsActive(succ)
    ensures var s := Successor(a, |v|);
            var v3 := v[a := v[a][1 := mark]][s := succ];
            && Shaped(v3) && |v3| == |v| && v3[s] == succ
            && (forall p :: 0 <= p < |v3| && p != s ==> !IsActive(v3[p]))
            && Predecessor(s, |v|) == a && IsUsed(v3[a]) && v3[a][0] == v[a][0]
  {
    PredecessorOfSuccessor(a, |v|);
  }

  // ---------------------------------------------------------------- interrupted swap

  /** No slot of the page is erased: the page is full. */
  predicate NoErasedSlot(page: seq<bv32>)
  {
    forall t :: FIRST_SLOT <= t < |page| ==> page[t] != ERASED_WORD
  }

  /** Swap stopped before the successor was stamped (while erasing it or copying
      entries into it): init keeps the full page active with the cursor at its
      end, so the next write starts the swap over. */
  lemma SwapRestartsBeforeStamp(v: seq<seq<bv32>>, a: nat, succ: seq<bv32>)
    requires Steady(v, a) && NoErasedSlot(v[a])
    requires |succ| == |v[Successor(a, |v|)]| && succ[0] == ERASED_WORD
    ensures Recovery(v[Successor(a, |v|) := succ]) == Boot(a, |v[a]|)
  {
    var s := Successor(a, |v|);
    var v1 := v[s := succ];
    OnlyActive(v1, a);
    assert FirstErasedSlot(v[a], FIRST_SLOT) == |v[a]|;
  }

  /** Swap stopped after the successor was stamped (fully or partly) but before
      the full page was marked used: two pages are active and init picks the
      full one, cursor at its end, so the next write redoes the swap. */
  lemma SwapRestartsAfterStamp(v: seq<seq<bv32>>, a: nat, succ: seq<bv32>)
    requires Steady(v, a) && LastSlotUsed(v[a])
    requires |succ| == |v[Successor(a, |v|)]| && IsActive(succ) && !LastSlotUsed(succ)
    ensures Recovery(v[Successor(a, |v|) := succ]) == ResumeSwap(a)
  {
    var s := Successor(a, |v|);
    var v2 := v[s := succ];
    CountActiveExact(v2, {a, s});
    assert |{a, s}| == 2;
    assert FirstFullActive(v2, 0) == a by {
      var f := FirstFullActive(v2, 0);
      if f != a {
        assert false;
      }
    }
  }

  /** Swap stopped while (or after) marking the full page used, with the
      successor completely stamped: init boots the successor. */
  lemma SwapBootsAfterMark(v: seq<seq<bv32>>, a: nat, succ: seq<bv32>, mark: bv32)
    requires Steady(v, a) && mark != ERASED_WORD
    requires |succ| == |v[Successor(a, |v|)]| && IsActive(succ) && succ[0] == Newer(v[a][0])
    ensures var s := Successor(a, |v|);
            Recovery(v[s := succ][a := v[a][1 := mark]]) == Boot(s, FirstErasedSlot(succ, FIRST_SLOT))
  {
    var s := Successor(a, |v|);
    var v3 := v[s := succ][a := v[a][1 := mark]];
    OnlyActive(v3, s);
    PredecessorOfSuccessor(a, |v|);
    NextGeneration(v[a][0], succ[0]);
    assert IsUsed(v3[a]) && v3[a][0] == v[a][0];
    assert v3[s] == succ;
  }
}
