/**
 * The error taxonomy of the emulated EEPROM (softeeprom.h): the base codes,
 * the swap tag that SoftEEPROMWrite ORs onto errors raised inside a page swap,
 * and the id and page-size configuration constants.
 *
 * Codes are modelled as naturals.  For a base code c below 0x8000,
 * `ERR_SWAP | c` equals `c + 0x8000`, `c & 0x7FFF` equals `c % 0x8000`, and
 * `c & ERR_SWAP` is nonzero exactly when bit 15 is set, `(c / 0x8000) % 2 == 1`.
 */
module EepromErrors {
  import opened Options

  /** Number of ids; also fixes the least page size (softeeprom.h:53). */
  const MAX_SOFTEEPROM_IDS: nat := 127

  const ERR_NOT_INIT: nat := 0x0001
  const ERR_ILLEGAL_ID: nat := 0x0002
  const ERR_PG_ERASE: nat := 0x0003
  const ERR_PG_WRITE: nat := 0x0004
  const ERR_ACTIVE_PG_CNT: nat := 0x0005
  const ERR_RANGE: nat := 0x0006
  const ERR_AVAIL_ENTRY: nat := 0x0007
  const ERR_TWO_ACTIVE_NO_FULL: nat := 0x0008
  const ERR_SWAP: nat := 0x8000

  /** `ERR_SWAP | ERR_AVAIL_ENTRY`, the code of a swap that leaves no free slot. */
  const ERR_SWAP_AVAIL_ENTRY: nat := ERR_SWAP + ERR_AVAIL_ENTRY

  /** The eight failure kinds the engine reports. */
  datatype Error =
    | NotInit | IllegalId | PgErase | PgWrite
    | ActivePgCnt | Range | AvailEntry | TwoActiveNoFull

  /** The numeric code of an error kind; Decode is its inverse. */
  function Code(e: Error): (c: nat)
    ensures 1 <= c <= 8 && c < ERR_SWAP
    ensures Decode(c) == Some(e)
  {
    match e
    case NotInit => ERR_NOT_INIT
    case IllegalId => ERR_ILLEGAL_ID
    case PgErase => ERR_PG_ERASE
    case PgWrite => ERR_PG_WRITE
    case ActivePgCnt => ERR_ACTIVE_PG_CNT
    case Range => ERR_RANGE
    case AvailEntry => ERR_AVAIL_ENTRY
    case TwoActiveNoFull => ERR_TWO_ACTIVE_NO_FULL
  }

  /** `ERR_SWAP | c` for a base code c. */
  function Tagged(c: nat): (t: nat)
    requires c < ERR_SWAP
    ensures IsSwapTagged(t) && BaseCode(t) == c
  {
    ERR_SWAP + c
  }

  /** `c & 0x7FFF`: the code with the swap tag (and any higher bits) removed. */
  function BaseCode(c: nat): nat { c % 0x8000 }

  /** `(c & ERR_SWAP) != 0`. */
  predicate IsSwapTagged(c: nat) { (c / 0x8000) % 2 == 1 }

  /** The error kind that the switch of OutputErrorAndQuit names for a code
      (softeeprom_wrapper.c:298-327); None is its "Unidentified Error" case. */
  function Decode(c: nat): (r: Option<Error>)
    ensures r.Some? <==> 1 <= BaseCode(c) <= 8
  {
    match BaseCode(c)
    case 1 => Some(NotInit)
    case 2 => Some(IllegalId)
    case 3 => Some(PgErase)
    case 4 => Some(PgWrite)
    case 5 => Some(ActivePgCnt)
    case 6 => Some(Range)
    case 7 => Some(AvailEntry)
    case 8 => Some(TwoActiveNoFull)
    case _ => None
  }

  /** Two kinds never share a code, so a code names its kind. */
  lemma CodesDistinct(a: Error, b: Error)
    ensures Code(a) == Code(b) ==> a == b
  {
    assert Decode(Code(a)) == Some(a) && Decode(Code(b)) == Some(b);
  }

  /** Masking a swap-tagged code recovers the kind, and plain codes are not tagged. */
  lemma DecodeTagged(e: Error)
    ensures Decode(Tagged(Code(e))) == Some(e)
    ensures !IsSwapTagged(Code(e))
  {
  }

  /** The codes a page swap can produce: its own failures, always tagged. */
  predicate IsSwapCode(c: nat)
  {
    c == Tagged(ERR_PG_ERASE) || c == Tagged(ERR_PG_WRITE) || c == Tagged(ERR_AVAIL_ENTRY)
  }

  /** The codes SoftEEPROMWrite can return (softeeprom.h:76-93, 113-143):
      ERR_PG_ERASE only tagged, ERR_PG_WRITE plain or tagged. */
  predicate IsWriteCode(c: nat)
  {
    c == 0 || c == ERR_NOT_INIT || c == ERR_ILLEGAL_ID || c == ERR_PG_WRITE || IsSwapCode(c)
  }

  /** From a write, a page-erase failure is never reported untagged, and
      every tagged code is one of the three swap failures. */
  lemma WriteCodeForms(c: nat)
    requires IsWriteCode(c)
    ensures BaseCode(c) == ERR_PG_ERASE ==> IsSwapTagged(c)
    ensures IsSwapTagged(c) ==> BaseCode(c) in {ERR_PG_ERASE, ERR_PG_WRITE, ERR_AVAIL_ENTRY}
  {
  }
}
