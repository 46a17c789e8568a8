/**
 * The raw NOR flash the emulated EEPROM lives in, as the engine sees it:
 * the EEPROM region is a grid of pages by 32-bit words.  Erasing a 1 KiB
 * block sets its words to all ones; programming a word can only clear bits.
 * Either primitive may fail; the model chooses the outcome nondeterministically,
 * and a failed primitive may leave the words it was working on in any state.
 */
module Flash {
  /** The value an erased word reads as (softeeprom.c:139). */
  const ERASED_WORD: bv32 := 0xFFFF_FFFF

  /** Words in one erasable flash block (FLASH_ERASE_SIZE is 1 KiB). */
  const BLOCK_WORDS: nat := 256

  /** Going from old to new only cleared bits. */
  predicate ClearsOnly(before: bv32, after: bv32) { after & before == after }

  /** The word FlashProgram leaves when it programs v over `before`: the AND
      of the two, split on whether the word was erased, where it is v itself. */
  function Programmed(before: bv32, v: bv32): (after: bv32)
    ensures ClearsOnly(before, after)
  {
    AndClears(before, v);
    if before == ERASED_WORD then v else before & v
  }

  /** The split is the plain AND. */
  lemma ProgrammedIsAnd(before: bv32, v: bv32)
    ensures Programmed(before, v) == before & v
  {
  }

  lemma AndIdempotent(w: bv32) ensures ClearsOnly(w, w) {}

  lemma AndClears(w: bv32, v: bv32) ensures ClearsOnly(w, w & v) {}

  class NorFlash {
    /** mem[p, s] is word s of EEPROM page p. */
    const mem: array2<bv32>

    constructor (pages: nat, words: nat)
      ensures mem.Length0 == pages && mem.Length1 == words
      ensures fresh(mem)
    {
      mem := new bv32[pages, words];
    }

    /** The words of page p, as a value. */
    ghost function Page(p: nat): (page: seq<bv32>)
      requires p < mem.Length0
      reads mem
      ensures |page| == mem.Length1
      ensures forall s :: 0 <= s < mem.Length1 ==> page[s] == mem[p, s]
    {
      seq(mem.Length1, s requires 0 <= s < mem.Length1 reads mem => mem[p, s])
    }

    /** FlashErase of the 1 KiB block at word offset off of page p. */
    method EraseBlock(p: nat, off: nat) returns (ok: bool)
      requires p < mem.Length0 && off + BLOCK_WORDS <= mem.Length1
      modifies mem
      ensures ok ==> forall s :: off <= s < off + BLOCK_WORDS ==> mem[p, s] == ERASED_WORD
      ensures forall q, s ::
                0 <= q < mem.Length0 && 0 <= s < mem.Length1 && (q != p || s < off || off + BLOCK_WORDS <= s)
                ==> mem[q, s] == old(mem[q, s])
    {
      ok :| true;
      if ok {
        forall s | off <= s < off + BLOCK_WORDS {
          mem[p, s] := ERASED_WORD;
        }
      }
    }

    /** FlashProgram of one word: the word becomes the AND of its old value
        and v, so bits never get set. */
    method Program(p: nat, s: nat, v: bv32) returns (ok: bool)
      requires p < mem.Length0 && s < mem.Length1
      modifies mem
      ensures ok ==> mem[p, s] == Programmed(old(mem[p, s]), v)
      ensures ClearsOnly(old(mem[p, s]), mem[p, s])
      ensures forall q, t :: 0 <= q < mem.Length0 && 0 <= t < mem.Length1 && (q != p || t != s) ==>
                mem[q, t] == old(mem[q, t])
    {
      var w := mem[p, s];
      AndIdempotent(w);
      ok :| true;
      if ok {
        mem[p, s] := Programmed(w, v);
      }
    }
  }
}
