/**
 * The emulated EEPROM engine (softeeprom.c): a ring of flash pages, one of
 * them active, whose entries are appended at a cursor.  The module state of
 * the source (g_pucActivePage, g_pucNextAvailEntry, g_bEEPROMInitialized)
 * becomes the fields of an Engine; pages and slots are indices instead of
 * addresses.
 */
module SoftEeprom {
  import opened Options
  import opened Flash
  import opened EepromErrors
  import opened EepromLog
  import opened EepromBoot
  import opened EepromRecovery

  /** An unsigned char counter incremented n times holds n % 256: one more
      increment wraps from 255 to 0 and otherwise adds one. */
  lemma ByteCounterStep(n: nat, m: nat)
    requires m == n + 1
    ensures m % 256 == if n % 256 == 255 then 0 else n % 256 + 1
  {
  }

  /** The truncation to unsigned short of the page's slot count. */
  function UShort(n: nat): (r: nat)
    ensures r < 0x1_0000 && (n < 0x1_0000 ==> r == n)
  {
    n % 0x1_0000
  }

  /** `w & ~ERASED_WORD == 0`: marking a status word stores 0. */
  lemma ProgramZero(w: bv32)
    ensures w & 0 == 0
  {
  }

  class Engine {
    const flash: NorFlash
    var initialized: bool
    var active: nat
    var cursor: nat

    /** Number of pages in the region. */
    function PageCount(): nat { flash.mem.Length0 }

    /** Words per page: (g_ulEEPROMPgSize / 4). */
    function PageWords(): nat { flash.mem.Length1 }

    /** The region's geometry as SoftEEPROMInit asserts it (softeeprom.c:946-951):
        at least two pages, each a whole number of erase blocks and large enough
        for two entries per id; and, once initialized, an active page and a
        cursor between the first slot and the page end. */
    ghost predicate Valid()
      reads this
    {
      && PageCount() >= 2
      && PageWords() >= MIN_PAGE_WORDS && PageWords() % 256 == 0
      && PageWords() - FIRST_SLOT < 0x1_0000
      && (initialized ==> active < PageCount() && FIRST_SLOT <= cursor <= PageWords())
    }

    constructor (f: NorFlash)
      requires f.mem.Length0 >= 2
      requires f.mem.Length1 >= MIN_PAGE_WORDS && f.mem.Length1 % BLOCK_WORDS == 0
      requires f.mem.Length1 - FIRST_SLOT < 0x1_0000
      ensures flash == f && !initialized && Valid()
    {
      flash := f;
      initialized := false;
      active := 0;
      cursor := 0;
    }

    /** The pages of the region as values. */
    ghost function View(): (v: seq<seq<bv32>>)
      reads flash.mem
      ensures |v| == PageCount() && forall p :: 0 <= p < |v| ==> v[p] == flash.Page(p)
    {
      seq(PageCount(), p requires 0 <= p < PageCount() reads flash.mem => flash.Page(p))
    }

    lemma ViewShaped()
      requires Valid()
      ensures Shaped(View())
    {
    }

    /** The entries of the active page, oldest first. */
    ghost function Entries(): (es: seq<bv32>)
      requires Valid() && initialized
      reads this, flash.mem
      ensures |es| == cursor - FIRST_SLOT
      ensures forall k :: 0 <= k < |es| ==> es[k] == flash.mem[active, FIRST_SLOT + k]
    {
      flash.Page(active)[FIRST_SLOT..cursor]
    }

    /** Every slot of page p from slot `from` on is erased. */
    ghost predicate ErasedFrom(p: nat, from: nat)
      requires p < PageCount()
      reads flash.mem
    {
      forall s :: from <= s < PageWords() ==> flash.mem[p, s] == ERASED_WORD
    }

    // ------------------------------------------------------------ flash helpers

    /** PageErase (softeeprom.c:245-288): erase the page one block at a time,
        failing at the first block that does not erase, then check that both
        status words read erased. */
    method PageErase(p: nat) returns (ok: bool)
      requires Valid() && p < PageCount()
      modifies flash.mem
      ensures ok ==> ErasedFrom(p, 0)
      ensures forall q, s :: 0 <= q < PageCount() && 0 <= s < PageWords() && q != p ==>
                flash.mem[q, s] == old(flash.mem[q, s])
    {
      var blocks := PageWords() / BLOCK_WORDS;
      var b := 0;
      while b < blocks
        invariant 0 <= b <= blocks
        invariant forall s :: 0 <= s < b * BLOCK_WORDS ==> flash.mem[p, s] == ERASED_WORD
        invariant forall q, s :: 0 <= q < PageCount() && 0 <= s < PageWords() && q != p ==>
                    flash.mem[q, s] == old(flash.mem[q, s])
      {
        var erased := flash.EraseBlock(p, b * BLOCK_WORDS);
        if !erased {
          return false;
        }
        b := b + 1;
      }
      ok := flash.mem[p, 0] == ERASED_WORD && flash.mem[p, 1] == ERASED_WORD;
    }

    /** PageDataWrite (softeeprom.c:308-350) for one word.  Its read-back loop
        never runs (`ulByteCount < ulByteCount` is false), so only a failure
        that the flash controller reports is seen. */
    method PageDataWrite(p: nat, s: nat, w: bv32) returns (ok: bool)
      requires p < PageCount() && s < PageWords()
      modifies flash.mem
      ensures ok ==> flash.mem[p, s] == Programmed(old(flash.mem[p, s]), w)
      ensures ClearsOnly(old(flash.mem[p, s]), flash.mem[p, s])
      ensures forall q, t :: 0 <= q < PageCount() && 0 <= t < PageWords() && (q != p || t != s) ==>
                flash.mem[q, t] == old(flash.mem[q, t])
    {
      ok := flash.Program(p, s, w);
    }

    // ------------------------------------------------------------ page scans

    /** GetActivePageCount (softeeprom.c:708-741), an unsigned char. */
    method ActivePageCount(ghost v: seq<seq<bv32>>) returns (c: nat)
      requires Valid() && v == View()
      ensures c == CountActive(v) % 256
    {
      c := 0;
      ghost var n := 0;
      var p := 0;
      while p < PageCount()
        invariant 0 <= p <= PageCount()
        invariant n == CountActive(v[..p]) && c == n % 256
      {
        CountActiveExtend(v, p);
        assert v[p][0] == flash.mem[p, 0] && v[p][1] == flash.mem[p, 1];
        if flash.mem[p, 0] != ERASED_WORD && flash.mem[p, 1] == ERASED_WORD {
          ByteCounterStep(n, n + 1);
          c := if c == 255 then 0 else c + 1;
          n := n + 1;
        }
        p := p + 1;
      }
      assert v[..p] == v;
    }

    /** GetUsedPageCount (softeeprom.c:753-786), an unsigned char. */
    method UsedPageCount(ghost v: seq<seq<bv32>>) returns (c: nat)
      requires Valid() && v == View()
      ensures c == CountUsed(v) % 256
    {
      c := 0;
      ghost var n := 0;
      var p := 0;
      while p < PageCount()
        invariant 0 <= p <= PageCount()
        invariant n == CountUsed(v[..p]) && c == n % 256
      {
        CountUsedExtend(v, p);
        assert v[p][0] == flash.mem[p, 0] && v[p][1] == flash.mem[p, 1];
        if flash.mem[p, 0] != ERASED_WORD && flash.mem[p, 1] != ERASED_WORD {
          ByteCounterStep(n, n + 1);
          c := if c == 255 then 0 else c + 1;
          n := n + 1;
        }
        p := p + 1;
      }
      assert v[..p] == v;
    }

    /** GetNextAvailEntry (softeeprom.c:801-846): the first erased slot of
        page p, or the page end when every slot is programmed. */
    method NextAvailEntry(p: nat, ghost v: seq<seq<bv32>>) returns (s: nat)
      requires Valid() && p < PageCount() && v == View()
      ensures s == FirstErasedSlot(v[p], FIRST_SLOT)
    {
      assert v[p] == flash.Page(p);
      var size := UShort(PageWords() - FIRST_SLOT);
      var idx := 0;
      s := FIRST_SLOT;
      while idx < size
        invariant 0 <= idx <= size && s == FIRST_SLOT + idx
        invariant FirstErasedSlot(flash.Page(p), FIRST_SLOT) == FirstErasedSlot(flash.Page(p), s)
      {
        if flash.mem[p, s] == ERASED_WORD {
          return;
        }
        s := s + 1;
        idx := idx + 1;
      }
    }

    /** GetMostRecentlyUsedPage (softeeprom.c:860-908) with its seed corrected:
        the first used page is taken whatever its generation, and a later one
        replaces it only with a strictly greater generation.  None stands for
        the 0xFFFFFFFF sentinel. */
    method MostRecentlyUsedPage(ghost v: seq<seq<bv32>>) returns (r: Option<nat>)
      requires Valid() && v == View()
      ensures r == Mru(v)
    {
      r := None;
      var best: bv32 := 0;
      var p := 0;
      while p < PageCount()
        invariant 0 <= p <= PageCount()
        invariant r == Mru(v[..p])
        invariant r.Some? ==> r.value < p && best == flash.mem[r.value, 0]
      {
        MruExtend(v, p);
        if flash.mem[p, 0] != ERASED_WORD && flash.mem[p, 1] != ERASED_WORD {
          if r.None? || flash.mem[p, 0] as nat > best as nat {
            r := Some(p);
            best := flash.mem[p, 0];
          }
        }
        p := p + 1;
      }
      assert v[..p] == v;
    }

    // ------------------------------------------------------------ read

    /** SoftEEPROMRead (softeeprom.c:1425-1487): scan the active page backward
        from the cursor for the newest entry with the id.  The caller's found
        flag and data are the in-parameters; on an error they come back as
        they went in, since the source does not write them then. */
    method Read(id: bv16, foundIn: bool, dataIn: bv16) returns (r: nat, found: bool, data: bv16)
      requires Valid()
      ensures !initialized ==> r == ERR_NOT_INIT
      ensures initialized && id >= NUM_IDS ==> r == ERR_ILLEGAL_ID
      ensures r != 0 ==> found == foundIn && data == dataIn
      ensures initialized && id < NUM_IDS ==>
                r == 0 && found == LatestIn(Entries(), id).Some? &&
                data == if found then LatestIn(Entries(), id).value else 0xFFFF
    {
      if !initialized {
        return ERR_NOT_INIT, foundIn, dataIn;
      }
      if id > NUM_IDS - 1 {
        return ERR_ILLEGAL_ID, foundIn, dataIn;
      }
      r, found, data := 0, false, 0xFFFF;
      ghost var es := Entries();
      var k := cursor;
      assert es[..k - FIRST_SLOT] == es;
      while k > FIRST_SLOT
        invariant FIRST_SLOT <= k <= cursor
        invariant LatestIn(es[..k - FIRST_SLOT], id) == LatestIn(es, id)
      {
        var w := flash.mem[active, k - 1];
        assert w == es[k - 1 - FIRST_SLOT];
        LatestInPrefix(es, k - FIRST_SLOT, id);
        if IdOf(w) == id {
          data := DataOf(w);
          found := true;
          return;
        }
        k := k - 1;
      }
      assert es[..0] == [];
    }

    // ------------------------------------------------------------ page swap

    /** Page p holds the entries `sel` from its first slot on and erased
        slots after them, with `stamp` in its first status word and an erased
        second status word. */
    ghost predicate Laid(p: nat, sel: seq<bv32>, stamp: bv32)
      requires p < PageCount()
      reads flash.mem
    {
      && FIRST_SLOT + |sel| <= PageWords()
      && (forall k :: 0 <= k < |sel| ==> flash.mem[p, FIRST_SLOT + k] == sel[k])
      && ErasedFrom(p, FIRST_SLOT + |sel|)
      && flash.mem[p, 0] == stamp && flash.mem[p, 1] == ERASED_WORD
    }

    /** A page being filled by a swap: laid out, not yet stamped. */
    ghost predicate Filled(p: nat, sel: seq<bv32>)
      requires p < PageCount()
      reads flash.mem
    {
      Laid(p, sel, ERASED_WORD)
    }

    /** Programs one copied entry into the next free slot of the new page. */
    method AppendCopy(next: nat, dst: nat, entry: bv32, ghost sel: seq<bv32>) returns (ok: bool)
      requires Valid() && next < PageCount() && dst == FIRST_SLOT + |sel| < PageWords()
      requires Filled(next, sel)
      modifies flash.mem
      ensures ok ==> Filled(next, sel + [entry])
      ensures forall q, s :: 0 <= q < PageCount() && 0 <= s < PageWords() && q != next ==>
                flash.mem[q, s] == old(flash.mem[q, s])
    {
      ok := PageDataWrite(next, dst, entry);
      if ok {
        forall k | 0 <= k < |sel| + 1
          ensures flash.mem[next, FIRST_SLOT + k] == (sel + [entry])[k]
        {
          if k < |sel| {
            assert flash.mem[next, FIRST_SLOT + k] == old(flash.mem[next, FIRST_SLOT + k]);
          }
        }
      }
    }

    /** One pass of the copy loop over the slot `used`, which holds the entry
        es[rest - 1]: the entry is skipped if its id was copied already or is
        0xFF, and appended to the new page otherwise. */
    method ScanSlot(full: nat, next: nat, used: nat, dst: nat, copied: seq<bool>,
                    ghost es: seq<bv32>, ghost rest: nat, ghost sel: seq<bv32>, ghost total: seq<bv32>)
      returns (ok: bool, dst': nat, copied': seq<bool>, ghost sel': seq<bv32>)
      requires Valid() && full < PageCount() && next < PageCount() && full != next
      requires 0 < rest <= |es| && used == FIRST_SLOT + rest - 1 < PageWords()
      requires flash.mem[full, used] == es[rest - 1]
      requires SweepAt(es, rest, copied, sel, total) && |total| <= NUM_VECTOR_BITS
      requires dst == FIRST_SLOT + |sel| && Filled(next, sel)
      modifies flash.mem
      ensures ok ==> && SweepAt(es, rest - 1, copied', sel', total)
                     && dst' == FIRST_SLOT + |sel'| && Filled(next, sel')
      ensures forall q, s :: 0 <= q < PageCount() && 0 <= s < PageWords() && q != next ==>
                flash.mem[q, s] == old(flash.mem[q, s])
    {
      var entry := flash.mem[full, used];
      SweepNext(es, rest, copied, sel, total);
      var eid := IdOf(entry) as int;
      ok, dst', copied', sel' := true, dst, copied, sel;
      if !copied[eid] && IdOf(entry) != 0xFF {
        ok := AppendCopy(next, dst, entry, sel);
        if ok {
          dst', copied', sel' := dst + 1, copied[eid := true], sel + [entry];
        }
      }
    }

    /** Step 2 of PageSwap (softeeprom.c:459-553): scan the full page from its
        last slot back and program each entry whose id has not been copied yet
        into the next free slot of the erased page.  The bit vector
        ucIDSwapped is a sequence of one flag per id. */
    method CopyLatest(full: nat, next: nat, ghost es: seq<bv32>) returns (ok: bool, dst: nat)
      requires Valid() && full < PageCount() && next < PageCount() && full != next
      requires |es| == PageWords() - FIRST_SLOT
      requires forall s :: FIRST_SLOT <= s < PageWords() ==> flash.mem[full, s] == es[s - FIRST_SLOT]
      requires IdsBelow(es, NUM_VECTOR_BITS)
      requires ErasedFrom(next, 0)
      modifies flash.mem
      ensures ok ==> dst == FIRST_SLOT + |Sweep(es, NoneCopied())| && Filled(next, Sweep(es, NoneCopied()))
      ensures forall q, s :: 0 <= q < PageCount() && 0 <= s < PageWords() && q != next ==>
                flash.mem[q, s] == old(flash.mem[q, s])
    {
      ghost var sel: seq<bv32> := [];
      ghost var total := Sweep(es, NoneCopied());
      var copied := NoneCopied();
      SweepStart(es);
      var size := UShort(PageWords() - FIRST_SLOT);
      var used := PageWords() - 1;
      dst := FIRST_SLOT;
      var cnt := 0;
      ghost var rest := |es|;
      ok := true;
      while ok && cnt < size
        invariant 0 <= cnt <= size == |es| && rest == |es| - cnt
        invariant used == PageWords() - 1 - cnt
        invariant ok ==> SweepAt(es, rest, copied, sel, total) && |total| <= NUM_VECTOR_BITS
        invariant ok ==> dst == FIRST_SLOT + |sel| && Filled(next, sel)
        invariant forall q, s :: 0 <= q < PageCount() && 0 <= s < PageWords() && q != next ==>
                    flash.mem[q, s] == old(flash.mem[q, s])
      {
        assert flash.mem[full, used] == old(flash.mem[full, used]);
        ok, dst, copied, sel := ScanSlot(full, next, used, dst, copied, es, rest, sel, total);
        used := used - 1;
        cnt := cnt + 1;
        rest := rest - 1;
      }
      if ok {
        SweepEnd(es, copied, sel, total);
      }
    }

    /** Step 3 of PageSwap (softeeprom.c:555-580): program the generation
        into the first status word of the filled page. */
    method StampPage(next: nat, stamp: bv32, ghost sel: seq<bv32>) returns (ok: bool)
      requires Valid() && next < PageCount() && Filled(next, sel)
      modifies flash.mem
      ensures ok ==> Laid(next, sel, stamp)
      ensures forall q, s :: 0 <= q < PageCount() && 0 <= s < PageWords() && q != next ==>
                flash.mem[q, s] == old(flash.mem[q, s])
    {
      ok := PageDataWrite(next, 0, stamp);
      forall k | 0 <= k < |sel| ensures flash.mem[next, FIRST_SLOT + k] == sel[k] {
        assert flash.mem[next, FIRST_SLOT + k] == old(flash.mem[next, FIRST_SLOT + k]);
      }
      assert ErasedFrom(next, FIRST_SLOT + |sel|) by {
        forall s | FIRST_SLOT + |sel| <= s < PageWords() ensures flash.mem[next, s] == ERASED_WORD {
          assert flash.mem[next, s] == old(flash.mem[next, s]);
        }
      }
    }

    /** PageSwap (softeeprom.c:377-622) on the active page, which is full:
        erase the ring successor, copy into it the newest entry of every id
        (scanning the full page from its last slot back), stamp it with the
        next generation, mark the full page used, and switch to the new page.
        Entries are copied one at a time rather than in write bursts.  The
        bit vector is read before the 0xFF test, so every slot of the full
        page must carry an id below NUM_VECTOR_BITS; an erased slot (id 0xFFFF)
        would index past it. */
    method PageSwap() returns (r: nat)
      requires Valid() && initialized
      requires IdsBelow(flash.Page(active)[FIRST_SLOT..], NUM_VECTOR_BITS)
      modifies this, flash.mem
      ensures Valid() && initialized
      ensures r == 0 || r == Tagged(ERR_PG_ERASE) || r == Tagged(ERR_PG_WRITE)
      ensures r == 0 ==>
                var copy := Sweep(old(flash.Page(active))[FIRST_SLOT..], NoneCopied());
                && active == Successor(old(active), PageCount())
                && cursor == FIRST_SLOT + |copy| < PageWords()
                && Laid(active, copy, Newer(old(flash.mem[active, 0])))
                && flash.mem[old(active), 1] == 0
      ensures r != 0 ==> active == old(active) && cursor == old(cursor)
      ensures forall s :: 0 <= s < PageWords() && s != 1 ==> flash.mem[old(active), s] == old(flash.mem[active, s])
      ensures forall q, s ::
                0 <= q < PageCount() && 0 <= s < PageWords() && q != old(active) && q != Successor(old(active), PageCount())
                ==> flash.mem[q, s] == old(flash.mem[q, s])
      ensures flash.mem[old(active), 1] == old(flash.mem[active, 1]) ||
              flash.mem[Successor(old(active), PageCount()), 0] == Newer(old(flash.mem[active, 0]))
    {
      var full := active;
      var next := if full + 1 < PageCount() then full + 1 else 0;
      ghost var es := flash.Page(full)[FIRST_SLOT..];
      ghost var copy := Sweep(es, NoneCopied());
      var dst;
      r, dst := Rebuild(full, next, flash.mem[full, 0] + 1, es);
      if r != 0 {
        return;
      }
      var ok := MarkUsed(full, next, copy, Newer(old(flash.mem[full, 0])));
      if !ok {
        return Tagged(ERR_PG_WRITE);
      }
      active := next;
      cursor := dst;
      if cursor < PageWords() {
        r := 0;
      } else {
        r := ERR_SWAP_AVAIL_ENTRY;
      }
    }

    /** Steps 1-3 of PageSwap (softeeprom.c:417-580): erase the successor page,
        copy the newest entry of every id into it and stamp it. */
    method Rebuild(full: nat, next: nat, stamp: bv32, ghost es: seq<bv32>) returns (r: nat, dst: nat)
      requires Valid() && full < PageCount() && next < PageCount() && full != next
      requires es == flash.Page(full)[FIRST_SLOT..] && IdsBelow(es, NUM_VECTOR_BITS)
      modifies flash.mem
      ensures r == 0 || r == Tagged(ERR_PG_ERASE) || r == Tagged(ERR_PG_WRITE)
      ensures r == 0 ==> var copy := Sweep(es, NoneCopied());
                         && dst == FIRST_SLOT + |copy| < PageWords() && Laid(next, copy, stamp)
      ensures forall q, s :: 0 <= q < PageCount() && 0 <= s < PageWords() && q != next ==>
                flash.mem[q, s] == old(flash.mem[q, s])
    {
      var ok := PageErase(next);
      if !ok {
        return Tagged(ERR_PG_ERASE), 0;
      }
      ok, dst := CopyLatest(full, next, es);
      if !ok {
        return Tagged(ERR_PG_WRITE), dst;
      }
      SweepStart(es);
      ok := StampPage(next, stamp, Sweep(es, NoneCopied()));
      r := if ok then 0 else Tagged(ERR_PG_WRITE);
    }

    /** Step 4 of PageSwap (softeeprom.c:582-596): clear the second status
        word of the full page, which leaves the stamped page as it is. */
    method MarkUsed(full: nat, next: nat, ghost copy: seq<bv32>, ghost stamp: bv32) returns (ok: bool)
      requires Valid() && full < PageCount() && next < PageCount() && full != next
      requires Laid(next, copy, stamp)
      modifies flash.mem
      ensures Laid(next, copy, stamp)
      ensures ok ==> flash.mem[full, 1] == 0
      ensures forall q, s :: 0 <= q < PageCount() && 0 <= s < PageWords() && (q != full || s != 1) ==>
                flash.mem[q, s] == old(flash.mem[q, s])
    {
      ok := PageDataWrite(full, 1, 0);
      ProgramZero(old(flash.mem[full, 1]));
      forall k | 0 <= k < |copy| ensures flash.mem[next, FIRST_SLOT + k] == copy[k] {
        assert flash.mem[next, FIRST_SLOT + k] == old(flash.mem[next, FIRST_SLOT + k]);
      }
      assert ErasedFrom(next, FIRST_SLOT + |copy|) by {
        forall s | FIRST_SLOT + |copy| <= s < PageWords() ensures flash.mem[next, s] == ERASED_WORD {
          assert flash.mem[next, s] == old(flash.mem[next, s]);
        }
      }
    }
      // ------------------------------------------------------------ write

    /** The working state of the engine: initialized, with entries of valid
        ids up to the cursor and erased slots from the cursor to the page end. */
    ghost predicate Healthy()
      reads this, flash.mem
    {
      && Valid() && initialized
      && IdsBelow(Entries(), NUM_IDS as nat)
      && ErasedFrom(active, cursor)
    }

    /** A healthy engine leaves its active page intact, with the cursor at
        the page's first erased slot: entries of valid ids are never erased
        words, since the erased word carries the id 0xFFFF. */
    lemma HealthyIntact()
      requires Healthy()
      ensures cursor == FirstErasedSlot(flash.Page(active), FIRST_SLOT)
      ensures Intact(flash.Page(active), NUM_IDS as nat)
    {
      var page := flash.Page(active);
      ErasedId();
      assert page[FIRST_SLOT..cursor] == Entries();
      forall t | FIRST_SLOT <= t < cursor ensures page[t] != ERASED_WORD {
        assert IdOf(Entries()[t - FIRST_SLOT]) < NUM_IDS;
      }
      assert cursor < PageWords() ==> page[cursor] == ERASED_WORD;
    }

    /** Conversely an intact active page is healthy with the cursor at its
        first erased slot, or at its end when its last slot is programmed. */
    lemma IntactHealthy()
      requires Valid() && initialized && Intact(flash.Page(active), NUM_IDS as nat)
      requires cursor == FirstErasedSlot(flash.Page(active), FIRST_SLOT) ||
               (cursor == PageWords() && flash.mem[active, PageWords() - 1] != ERASED_WORD)
      ensures Healthy()
    {
      var page := flash.Page(active);
      var c := FirstErasedSlot(page, FIRST_SLOT);
      if c < PageWords() {
        assert page[PageWords() - 1] == ERASED_WORD;
      }
      assert page[FIRST_SLOT..cursor] == Entries();
    }

    /** A page laid out by a swap or a clear, made active with the cursor
        after its entries, holds exactly those entries. */
    lemma LaidEntries(sel: seq<bv32>, stamp: bv32)
      requires Valid() && initialized && cursor == FIRST_SLOT + |sel| && Laid(active, sel, stamp)
      ensures Entries() == sel && ErasedFrom(active, cursor)
    {
      assert forall k :: 0 <= k < |sel| ==> Entries()[k] == sel[k];
    }

    /** The entries of a full active page are all of its slots. */
    lemma FullEntries()
      requires Valid() && initialized && cursor == PageWords()
      ensures Entries() == flash.Page(active)[FIRST_SLOT..]
    {
    }

    /** A healthy full page carries only ids the swap's bit vector covers,
        as a write that starts a swap needs. */
    lemma HealthySwappable()
      requires Healthy()
      ensures cursor >= PageWords() ==> IdsBelow(flash.Page(active)[FIRST_SLOT..], NUM_VECTOR_BITS)
    {
      if cursor >= PageWords() {
        FullEntries();
      }
    }

    /** Program the entry w into the slot at the cursor and move the cursor
        past it (softeeprom.c:1379-1397); a failed program leaves the cursor. */
    method Append(w: bv32, ghost erased: bool) returns (r: nat)
      requires Valid() && initialized && cursor < PageWords()
      requires erased ==> ErasedFrom(active, cursor)
      modifies this, flash.mem
      ensures Valid() && initialized && active == old(active)
      ensures r == 0 || r == ERR_PG_WRITE
      ensures r == 0 ==> cursor == old(cursor) + 1 && flash.mem[active, old(cursor)] == Programmed(old(flash.mem[active, cursor]), w)
      ensures r == 0 ==> Entries() == old(Entries()) + [flash.mem[active, old(cursor)]]
      ensures r != 0 ==> cursor == old(cursor) && Entries() == old(Entries())
      ensures erased && r == 0 ==> ErasedFrom(active, cursor) && flash.mem[active, old(cursor)] == w
      ensures forall q, s :: 0 <= q < PageCount() && 0 <= s < PageWords() && (q != active || s != old(cursor)) ==>
                flash.mem[q, s] == old(flash.mem[q, s])
    {
      ghost var before := Entries();
      var ok := PageDataWrite(active, cursor, w);
      if !ok {
        assert Entries() == before by {
          assert forall k :: 0 <= k < |before| ==> Entries()[k] == before[k];
        }
        return ERR_PG_WRITE;
      }
      cursor := cursor + 1;
      ghost var after := before + [flash.mem[active, cursor - 1]];
      forall k | 0 <= k < |after| ensures Entries()[k] == after[k] {
        if k < |before| {
          assert flash.mem[active, FIRST_SLOT + k] == old(flash.mem[active, FIRST_SLOT + k]);
        }
      }
      r := 0;
    }

    /** The state after appending an entry with a valid id to a healthy log. */
    lemma HealthyAppend(start: seq<bv32>, w: bv32)
      requires Valid() && initialized && Entries() == start + [w]
      requires IdsBelow(start, NUM_IDS as nat) && IdOf(w) < NUM_IDS && ErasedFrom(active, cursor)
      ensures Healthy()
    {
      assert forall k :: 0 <= k < |start| ==> (start + [w])[k] == start[k];
    }

    /** The page swap a write starts on a full active page, stated for the
        log: on success the new active page has a free slot and, from a
        healthy state, is healthy and reads as the full page did; on failure
        the active page and the cursor stay and so does every entry. */
    method SwapFull() returns (r: nat)
      requires Valid() && initialized && cursor >= PageWords()
      requires IdsBelow(flash.Page(active)[FIRST_SLOT..], NUM_VECTOR_BITS)
      modifies this, flash.mem
      ensures Valid() && initialized
      ensures r == 0 || r == Tagged(ERR_PG_ERASE) || r == Tagged(ERR_PG_WRITE)
      ensures r == 0 ==> active == Successor(old(active), PageCount()) && cursor < PageWords()
      ensures r != 0 ==> active == old(active) && cursor == old(cursor) && Entries() == old(Entries())
      ensures old(Healthy()) && r == 0 ==>
                Healthy() && forall j :: LatestIn(Entries(), j) == old(LatestIn(Entries(), j))
      ensures r == 0 ==> cursor == FIRST_SLOT + |Sweep(old(flash.Page(active))[FIRST_SLOT..], NoneCopied())|
      ensures forall s :: 0 <= s < PageWords() && s != 1 ==> flash.mem[old(active), s] == old(flash.mem[active, s])
      ensures forall q, s ::
                0 <= q < PageCount() && 0 <= s < PageWords() && q != old(active) && q != Successor(old(active), PageCount())
                ==> flash.mem[q, s] == old(flash.mem[q, s])
    {
      ghost var before := Entries();
      ghost var healthy := Healthy();
      ghost var full := flash.Page(active)[FIRST_SLOT..];
      ghost var g := flash.mem[active, 0];
      if healthy {
        FullEntries();
        SweepIdsBelow(full, NoneCopied(), NUM_IDS as nat);
        SwapReads(full);
      }
      r := PageSwap();
      if r != 0 {
        assert Entries() == before by {
          assert forall k :: 0 <= k < |before| ==> Entries()[k] == before[k];
        }
        return;
      }
      LaidEntries(Sweep(full, NoneCopied()), Newer(g));
    }

    /** SoftEEPROMWrite (softeeprom.c:1327-1400): reject an uninitialized
        engine or an id out of range, and store the entry otherwise. */
    method Write(id: bv16, data: bv16) returns (r: nat)
      requires Valid()
      requires initialized && id < NUM_IDS && cursor >= PageWords() ==>
                 IdsBelow(flash.Page(active)[FIRST_SLOT..], NUM_VECTOR_BITS)
      modifies this, flash.mem
      ensures Valid() && initialized == old(initialized) && IsWriteCode(r)
      ensures r == ERR_NOT_INIT <==> !initialized
      ensures r == ERR_ILLEGAL_ID <==> initialized && id >= NUM_IDS
      ensures !initialized || id >= NUM_IDS ==> unchanged(this) && unchanged(flash.mem)
      ensures IsSwapTagged(r) ==> old(cursor) >= PageWords()
      ensures r == 0 && old(cursor) < PageWords() ==> active == old(active) && cursor == old(cursor) + 1
      ensures r == 0 && old(cursor) >= PageWords() ==> active == Successor(old(active), PageCount())
      ensures old(Healthy()) && id < NUM_IDS ==>
                forall j :: LatestIn(Entries(), j) ==
                            if r == 0 && j == id then Some(data) else old(LatestIn(Entries(), j))
      ensures old(Healthy()) && r == 0 ==> Healthy()
      ensures old(cursor) < PageWords() ==>
                forall q, s :: 0 <= q < PageCount() && 0 <= s < PageWords() && (q != old(active) || s != old(cursor)) ==>
                  flash.mem[q, s] == old(flash.mem[q, s])
      ensures r == 0 && old(initialized) && old(cursor) < PageWords() ==>
                flash.mem[active, old(cursor)] == Programmed(old(flash.mem[active, cursor]), EntryWord(id, data))
      ensures old(initialized) && id < NUM_IDS && old(cursor) >= PageWords() ==>
                forall s :: 0 <= s < PageWords() && s != 1 ==> flash.mem[old(active), s] == old(flash.mem[active, s])
      ensures old(initialized) && id < NUM_IDS && old(cursor) >= PageWords() ==>
                forall q, s ::
                  0 <= q < PageCount() && 0 <= s < PageWords() && q != old(active) && q != Successor(old(active), PageCount())
                  ==> flash.mem[q, s] == old(flash.mem[q, s])
      ensures r == 0 && old(initialized) && old(cursor) >= PageWords() ==>
                cursor == FIRST_SLOT + |Sweep(old(flash.Page(active))[FIRST_SLOT..], NoneCopied())| + 1
    {
      if !initialized {
        return ERR_NOT_INIT;
      }
      if id > NUM_IDS - 1 {
        return ERR_ILLEGAL_ID;
      }
      r := Store(id, data);
    }

    /** The body of SoftEEPROMWrite past its checks (softeeprom.c:1352-1399):
        swap pages when the cursor is at the page end, then append the entry
        `id << 16 | data`.  From a healthy state the id reads the new data
        after a successful store, and every other id, and on any failure
        every id, reads as before. */
    method Store(id: bv16, data: bv16) returns (r: nat)
      requires Valid() && initialized && id < NUM_IDS
      requires cursor >= PageWords() ==> IdsBelow(flash.Page(active)[FIRST_SLOT..], NUM_VECTOR_BITS)
      modifies this, flash.mem
      ensures Valid() && initialized
      ensures r == 0 || r == ERR_PG_WRITE ||
              (old(cursor) >= PageWords() && (r == Tagged(ERR_PG_ERASE) || r == Tagged(ERR_PG_WRITE)))
      ensures r == 0 && old(cursor) < PageWords() ==> active == old(active) && cursor == old(cursor) + 1
      ensures r == 0 && old(cursor) >= PageWords() ==> active == Successor(old(active), PageCount())
      ensures old(Healthy()) ==>
                forall j :: LatestIn(Entries(), j) ==
                            if r == 0 && j == id then Some(data) else old(LatestIn(Entries(), j))
      ensures old(Healthy()) && r == 0 ==> Healthy()
      ensures old(cursor) < PageWords() ==>
                forall q, s :: 0 <= q < PageCount() && 0 <= s < PageWords() && (q != old(active) || s != old(cursor)) ==>
                  flash.mem[q, s] == old(flash.mem[q, s])
      ensures r == 0 && old(cursor) < PageWords() ==>
                flash.mem[active, old(cursor)] == Programmed(old(flash.mem[active, cursor]), EntryWord(id, data))
      ensures old(cursor) >= PageWords() ==>
                forall s :: 0 <= s < PageWords() && s != 1 ==> flash.mem[old(active), s] == old(flash.mem[active, s])
      ensures old(cursor) >= PageWords() ==>
                forall q, s ::
                  0 <= q < PageCount() && 0 <= s < PageWords() && q != old(active) && q != Successor(old(active), PageCount())
                  ==> flash.mem[q, s] == old(flash.mem[q, s])
      ensures r == 0 && old(cursor) >= PageWords() ==>
                cursor == FIRST_SLOT + |Sweep(old(flash.Page(active))[FIRST_SLOT..], NoneCopied())| + 1
    {
      if cursor >= PageWords() {
        r := SwapFull();
        if r != 0 {
          return;
        }
      }
      ghost var start := Entries();
      r := Put(id, data);
      if old(Healthy()) && r == 0 {
        AppendReads(start, EntryWord(id, data));
      }
    }

    /** Append the entry `id << 16 | data` to the log (softeeprom.c:1373-1397).
        From a healthy state the entry is added as written and the state stays
        healthy; a failed program keeps the log as it was. */
    method Put(id: bv16, data: bv16) returns (r: nat)
      requires Valid() && initialized && id < NUM_IDS && cursor < PageWords()
      modifies this, flash.mem
      ensures Valid() && initialized && active == old(active)
      ensures r == 0 || r == ERR_PG_WRITE
      ensures cursor == if r == 0 then old(cursor) + 1 else old(cursor)
      ensures r != 0 ==> Entries() == old(Entries())
      ensures old(Healthy()) && r == 0 ==> Healthy() && Entries() == old(Entries()) + [EntryWord(id, data)]
      ensures forall q, s :: 0 <= q < PageCount() && 0 <= s < PageWords() && (q != active || s != old(cursor)) ==>
                flash.mem[q, s] == old(flash.mem[q, s])
      ensures r == 0 ==> flash.mem[active, old(cursor)] == Programmed(old(flash.mem[active, cursor]), EntryWord(id, data))
    {
      ghost var healthy := Healthy();
      ghost var start := Entries();
      ghost var pos := cursor;
      var w := EntryWord(id, data);
      r := Append(w, healthy);
      if healthy && r == 0 {
        HealthyAppend(start, w);
      }
    }
      // ------------------------------------------------------------ clear

    /** Erase page p and program gen into its first status word: the steps
        SoftEEPROMClear and SoftEEPROMInit use to start an empty page. */
    method StartPage(p: nat, gen: bv32) returns (r: nat)
      requires Valid() && p < PageCount()
      modifies flash.mem
      ensures r == 0 || r == ERR_PG_ERASE || r == ERR_PG_WRITE
      ensures r == 0 ==> Laid(p, [], gen)
      ensures forall q, s :: 0 <= q < PageCount() && 0 <= s < PageWords() && q != p ==>
                flash.mem[q, s] == old(flash.mem[q, s])
    {
      var ok := PageErase(p);
      if !ok {
        return ERR_PG_ERASE;
      }
      ok := StampPage(p, gen, []);
      r := if ok then 0 else ERR_PG_WRITE;
    }

    /** Steps 1-3 of SoftEEPROMClear (softeeprom.c:1526-1560): clear the
        second status word of the active page, marking it used, then erase
        page `next` and stamp it with gen.  The entries of the active page
        stay as they are. */
    method Retire(next: nat, gen: bv32) returns (r: nat)
      requires Valid() && initialized && next < PageCount() && next != active
      modifies flash.mem
      ensures r == 0 || r == ERR_PG_WRITE || r == ERR_PG_ERASE
      ensures Entries() == old(Entries())
      ensures r == 0 ==> flash.mem[active, 1] == 0 && Laid(next, [], gen)
      ensures forall s :: 0 <= s < PageWords() && s != 1 ==> flash.mem[active, s] == old(flash.mem[active, s])
      ensures forall q, s :: 0 <= q < PageCount() && 0 <= s < PageWords() && q != active && q != next ==>
                flash.mem[q, s] == old(flash.mem[q, s])
    {
      ghost var before := Entries();
      var ok := PageDataWrite(active, 1, 0);
      ProgramZero(old(flash.mem[active, 1]));
      if !ok {
        r := ERR_PG_WRITE;
      } else {
        r := StartPage(next, gen);
      }
      assert Entries() == before by {
        assert forall k :: 0 <= k < |before| ==> Entries()[k] == before[k];
      }
    }

    /** SoftEEPROMClear (softeeprom.c:1508-1584): mark the active page used,
        erase its ring successor, stamp the successor with the next
        generation and make it the active page, empty.  A failure at any step
        leaves the active page, the cursor and every entry where they were. */
    method Clear() returns (r: nat)
      requires Valid()
      modifies this, flash.mem
      ensures Valid() && initialized == old(initialized)
      ensures r == 0 || r == ERR_NOT_INIT || r == ERR_PG_WRITE || r == ERR_PG_ERASE
      ensures !initialized <==> r == ERR_NOT_INIT
      ensures !initialized ==> unchanged(this) && unchanged(flash.mem)
      ensures r != 0 ==> active == old(active) && cursor == old(cursor)
      ensures initialized && r != 0 ==> Entries() == old(Entries())
      ensures r == 0 ==>
                && active == Successor(old(active), PageCount()) && Healthy() && Entries() == []
                && flash.mem[active, 0] == Newer(old(flash.mem[active, 0]))
                && flash.mem[old(active), 1] == 0
      ensures initialized ==> forall s :: 0 <= s < PageWords() && s != 1 ==>
                flash.mem[old(active), s] == old(flash.mem[active, s])
      ensures initialized ==> forall q, s ::
                0 <= q < PageCount() && 0 <= s < PageWords() && q != old(active) && q != Successor(old(active), PageCount())
                ==> flash.mem[q, s] == old(flash.mem[q, s])
    {
      if !initialized {
        return ERR_NOT_INIT;
      }
      var next := if active + 1 < PageCount() then active + 1 else 0;
      ghost var gen := flash.mem[active, 0];
      r := Retire(next, flash.mem[active, 0] + 1);
      if r != 0 {
        return;
      }
      active := next;
      cursor := FIRST_SLOT;
      LaidEntries([], Newer(gen));
    }
    // ------------------------------------------------------------ init

    /** What SoftEEPROMInit leaves for a plan: a fresh empty page with the
        plan's generation for the cases that start one, the chosen page and
        cursor for the cases that resume one, and the error otherwise. */
    ghost predicate Outcome(plan: Plan, r: nat)
      reads this, flash.mem
    {
      match plan
      case FreshStart =>
        (r == 0 || r == ERR_PG_ERASE || r == ERR_PG_WRITE) &&
        (r == 0 ==> Started(0, 0))
      case ResumeClear(p, g) =>
        (r == 0 || r == ERR_PG_ERASE || r == ERR_PG_WRITE) &&
        (r == 0 ==> Started(p, g))
      case Restamp(p, g) =>
        (r == 0 || r == ERR_PG_ERASE || r == ERR_PG_WRITE) &&
        (r == 0 ==> Started(p, g))
      case Boot(p, c) => r == 0 && active == p && cursor == c
      case ResumeSwap(p) => r == 0 && active == p && cursor == PageWords()
      case NoFullPage => r == ERR_TWO_ACTIVE_NO_FULL
      case TooManyActive => r == ERR_ACTIVE_PG_CNT
    }

    /** Page p is active, empty and stamped with gen, and the cursor is at
        its first slot. */
    ghost predicate Started(p: nat, gen: bv32)
      reads this, flash.mem
    {
      p < PageCount() && active == p && cursor == FIRST_SLOT && Laid(p, [], gen)
    }

    /** The page a plan erases and stamps, if any. */
    function Restarted(plan: Plan): Option<nat>
    {
      match plan
      case FreshStart => Some(0)
      case ResumeClear(p, _) => Some(p)
      case Restamp(p, _) => Some(p)
      case _ => None
    }

    /** The first active page, or the page count when there is none
        (the search loop of softeeprom.c:1102-1111). */
    method FirstActivePage(ghost v: seq<seq<bv32>>) returns (p: nat)
      requires Valid() && v == View()
      ensures p == FirstActive(v, 0)
    {
      p := 0;
      while p < PageCount() && !(flash.mem[p, 0] != ERASED_WORD && flash.mem[p, 1] == ERASED_WORD)
        invariant 0 <= p <= PageCount()
        invariant FirstActive(v, p) == FirstActive(v, 0)
      {
        assert v[p][0] == flash.mem[p, 0] && v[p][1] == flash.mem[p, 1];
        p := p + 1;
      }
      if p < PageCount() {
        assert v[p][0] == flash.mem[p, 0] && v[p][1] == flash.mem[p, 1];
      }
    }

    /** The first active page whose last slot is programmed, or the page
        count (the search loop of softeeprom.c:1226-1247). */
    method FirstFullActivePage(ghost v: seq<seq<bv32>>) returns (p: nat)
      requires Valid() && v == View()
      ensures p == FirstFullActive(v, 0)
    {
      p := 0;
      while p < PageCount() &&
            !(flash.mem[p, 0] != ERASED_WORD && flash.mem[p, 1] == ERASED_WORD &&
              flash.mem[p, PageWords() - 1] != ERASED_WORD)
        invariant 0 <= p <= PageCount()
        invariant FirstFullActive(v, p) == FirstFullActive(v, 0)
      {
        assert v[p][0] == flash.mem[p, 0] && v[p][1] == flash.mem[p, 1];
        assert v[p][|v[p]| - 1] == flash.mem[p, PageWords() - 1];
        p := p + 1;
      }
      if p < PageCount() {
        assert v[p][0] == flash.mem[p, 0] && v[p][1] == flash.mem[p, 1];
        assert v[p][|v[p]| - 1] == flash.mem[p, PageWords() - 1];
      }
    }
    /** SoftEEPROMInit (softeeprom.c:936-1310) on the region the engine was
        built over: count the active pages and follow the plan the status
        words call for (Recovery).  Whether the region ends inside the
        device's flash (the SysCtlFlashSizeGet test) is the parameter
        `inRange`.  On an error the engine keeps its previous state. */
    method Init(inRange: bool) returns (r: nat)
      requires Valid()
      modifies this, flash.mem
      ensures Valid()
      ensures !inRange ==> r == ERR_RANGE && unchanged(this) && unchanged(flash.mem)
      ensures r == 0 ==> initialized
      ensures r != 0 ==> initialized == old(initialized) && active == old(active) && cursor == old(cursor)
      ensures inRange ==> Outcome(old(Recovery(View())), r)
      ensures inRange && r == 0 && Restarted(old(Recovery(View()))).Some? ==> Healthy() && Entries() == []
      ensures inRange && r == 0 && Intact(flash.Page(active), NUM_IDS as nat) ==> Healthy()
      ensures inRange ==> forall q, s ::
                0 <= q < PageCount() && 0 <= s < PageWords() && Restarted(old(Recovery(View()))) != Some(q)
                ==> flash.mem[q, s] == old(flash.mem[q, s])
    {
      if !inRange {
        return ERR_RANGE;
      }
      ghost var v := View();
      r := Recover(v);
      if r != 0 {
        return;
      }
      initialized := true;
      if Restarted(Recovery(v)).Some? {
        StartedHealthy(Recovery(v));
      } else if Intact(flash.Page(active), NUM_IDS as nat) {
        ghost var a := active;
        assert v[a] == flash.Page(a) by {
          forall s | 0 <= s < PageWords() ensures v[a][s] == flash.mem[a, s] {
            assert flash.mem[a, s] == old(flash.mem[a, s]);
          }
        }
        ResumedHealthy(v);
      }
    }

    /** A page init resumes rather than restarts is healthy when it is intact. */
    lemma ResumedHealthy(v: seq<seq<bv32>>)
      requires Valid() && initialized && Shaped(v) && |v| == PageCount()
      requires Outcome(Recovery(v), 0) && Restarted(Recovery(v)).None?
      requires active < |v| && v[active] == flash.Page(active)
      requires Intact(flash.Page(active), NUM_IDS as nat)
      ensures Healthy()
    {
      if Recovery(v).ResumeSwap? {
        assert flash.mem[active, PageWords() - 1] == v[active][PageWords() - 1];
      }
      IntactHealthy();
    }

    /** The body of SoftEEPROMInit after its range check (softeeprom.c:978-1266):
        count the active pages and carry out the plan Recovery names for the
        region as it was, v. */
    method Recover(ghost v: seq<seq<bv32>>) returns (r: nat)
      requires Valid() && v == View()
      modifies this, flash.mem
      ensures Valid() && initialized == old(initialized)
      ensures Outcome(Recovery(v), r)
      ensures r != 0 ==> active == old(active) && cursor == old(cursor)
      ensures forall q, s ::
                0 <= q < PageCount() && 0 <= s < PageWords() && Restarted(Recovery(v)) != Some(q)
                ==> flash.mem[q, s] == old(flash.mem[q, s])
    {
      var count := ActivePageCount(v);
      if count == 0 {
        r := RecoverNoActive(v);
      } else if count == 1 {
        r := RecoverOneActive(v);
      } else if count == 2 {
        r := RecoverTwoActive(v);
      } else {
        r := ERR_ACTIVE_PG_CNT;
      }
    }

    /** No active page (softeeprom.c:988-1091). */
    method RecoverNoActive(ghost v: seq<seq<bv32>>) returns (r: nat)
      requires Valid() && v == View() && CountActive(v) % 256 == 0
      modifies this, flash.mem
      ensures Valid() && initialized == old(initialized)
      ensures Outcome(Recovery(v), r)
      ensures r != 0 ==> active == old(active) && cursor == old(cursor)
      ensures forall q, s ::
                0 <= q < PageCount() && 0 <= s < PageWords() && Restarted(Recovery(v)) != Some(q)
                ==> flash.mem[q, s] == old(flash.mem[q, s])
    {
      var p, gen := DecideNoActive(v);
      r := Restart(p, gen);
    }

    /** One active page (softeeprom.c:1092-1213). */
    method RecoverOneActive(ghost v: seq<seq<bv32>>) returns (r: nat)
      requires Valid() && v == View() && CountActive(v) % 256 == 1
      modifies this, flash.mem
      ensures Valid() && initialized == old(initialized)
      ensures Outcome(Recovery(v), r)
      ensures r != 0 ==> active == old(active) && cursor == old(cursor)
      ensures forall q, s ::
                0 <= q < PageCount() && 0 <= s < PageWords() && Restarted(Recovery(v)) != Some(q)
                ==> flash.mem[q, s] == old(flash.mem[q, s])
    {
      var a, restamp, gen, c := DecideOneActive(v);
      OneActiveDecision(v, a, restamp, gen, c);
      if restamp {
        r := Restart(a, gen);
      } else {
        active, cursor := a, c;
        r := 0;
      }
    }

    /** Two active pages (softeeprom.c:1214-1266): a swap was interrupted
        after stamping its new page; resume on the first active page whose
        last slot is programmed, cursor at its end, so that the next write
        repeats the swap.  Without such a page the region is inconsistent. */
    method RecoverTwoActive(ghost v: seq<seq<bv32>>) returns (r: nat)
      requires Valid() && v == View() && CountActive(v) % 256 == 2
      modifies this
      ensures Valid() && initialized == old(initialized)
      ensures Outcome(Recovery(v), r)
      ensures r != 0 ==> active == old(active) && cursor == old(cursor)
      ensures forall q, s ::
                0 <= q < PageCount() && 0 <= s < PageWords() && Restarted(Recovery(v)) != Some(q)
                ==> flash.mem[q, s] == old(flash.mem[q, s])
    {
      TwoActivePlan(v);
      var f := FirstFullActivePage(v);
      if f < PageCount() {
        active, cursor := f, PageWords();
        r := 0;
      } else {
        r := ERR_TWO_ACTIVE_NO_FULL;
      }
    }

    /** A page that initialisation erased and stamped holds no entries. */
    lemma StartedHealthy(plan: Plan)
      requires Valid() && initialized && Restarted(plan).Some? && Outcome(plan, 0)
      ensures Healthy() && Entries() == []
    {
      LaidEntries([], flash.mem[active, 0]);
    }

    /** Erase and stamp page p with generation gen and make it the empty
        active page; on a flash failure the engine's fields are kept. */
    method Restart(p: nat, gen: bv32) returns (r: nat)
      requires Valid() && p < PageCount()
      modifies this, flash.mem
      ensures Valid() && initialized == old(initialized)
      ensures r == 0 || r == ERR_PG_ERASE || r == ERR_PG_WRITE
      ensures r == 0 ==> Started(p, gen)
      ensures r != 0 ==> active == old(active) && cursor == old(cursor)
      ensures forall q, s :: 0 <= q < PageCount() && 0 <= s < PageWords() && q != p ==>
                flash.mem[q, s] == old(flash.mem[q, s])
    {
      r := StartPage(p, gen);
      if r == 0 {
        active, cursor := p, FIRST_SLOT;
      }
    }

    /** The decisions of the no-active-page case (softeeprom.c:988-1091):
        with no used page either, page 0 and generation 0; otherwise the
        ring successor of the most recently used page and the generation
        after it, which restarts the clear that was interrupted. */
    method DecideNoActive(ghost v: seq<seq<bv32>>) returns (p: nat, gen: bv32)
      requires Valid() && v == View() && CountActive(v) % 256 == 0
      ensures p < PageCount()
      ensures Recovery(v) == if CountUsed(v) % 256 == 0 then FreshStart else ResumeClear(p, gen)
      ensures CountUsed(v) % 256 == 0 ==> p == 0 && gen == 0
    {
      NoActivePlan(v);
      var used := UsedPageCount(v);
      if used == 0 {
        return 0, 0;
      }
      var m := MostRecentlyUsedPage(v);
      var mru := m.value;
      assert v[mru][0] == flash.mem[mru, 0];
      p := if mru + 1 < PageCount() then mru + 1 else 0;
      gen := Newer(flash.mem[mru, 0]);
    }

    /** The decisions of the one-active-page case (softeeprom.c:1092-1213):
        the active page a; whether its ring predecessor is used with a
        generation other than one less, so that a must be erased and
        stamped with the generation after the predecessor's; and otherwise
        the first erased slot of a, where writing resumes. */
    method DecideOneActive(ghost v: seq<seq<bv32>>) returns (a: nat, restamp: bool, gen: bv32, c: nat)
      requires Valid() && v == View() && CountActive(v) % 256 == 1
      ensures a == FirstActive(v, 0) && a < PageCount()
      ensures restamp == (IsUsed(v[Predecessor(a, |v|)]) && v[Predecessor(a, |v|)][0] != Older(v[a][0]))
      ensures restamp ==> gen == Newer(v[Predecessor(a, |v|)][0])
      ensures !restamp ==> c == FirstErasedSlot(v[a], FIRST_SLOT)
    {
      a := FirstActivePage(v);
      SomeActive(v);
      var pr := if a == 0 then PageCount() - 1 else a - 1;
      assert pr == Predecessor(a, |v|);
      assert v[pr][0] == flash.mem[pr, 0] && v[pr][1] == flash.mem[pr, 1] && v[a][0] == flash.mem[a, 0];
      restamp, gen, c := false, 0, 0;
      if flash.mem[pr, 0] != ERASED_WORD && flash.mem[pr, 1] != ERASED_WORD {
        if flash.mem[pr, 0] == Older(flash.mem[a, 0]) {
          c := NextAvailEntry(a, v);
        } else {
          restamp, gen := true, Newer(flash.mem[pr, 0]);
        }
      } else {
        c := NextAvailEntry(a, v);
      }
    }
  }
}
