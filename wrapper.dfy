/**
 * The byte-address wrapper over the emulated EEPROM (softeeprom_wrapper.c).
 * Byte address b lives in engine id b / 2: an even address is the low half of
 * the 16-bit word, an odd address the high half.  A call that fails inside the
 * engine prints a report and halts (OutputErrorAndQuit); the halt is the
 * terminal outcome Halted, carrying the code and the lines of the report.
 */
module SoftEepromWrapper {
  import opened Options
  import opened EepromErrors
  import opened EepromLog
  import opened EepromRecovery
  import opened EepromBoot
  import opened SoftEeprom

  /** How a wrapper call ends: it returns 0, it returns ERR_PAGE_RANGE (whose
      value is defined in softeeprom_wrapper.h, not part of this model), or it
      prints the report and never returns. */
  datatype Outcome = Ok | PageRange | Halted(code: nat, report: seq<string>)

  /** The wrapper operations that report engine errors. */
  datatype Op = WriteOp | ReadOp | InitOp

  /** Ids a byte range can reach once it passes the range check: the last
      byte such a range can hold is 254, in id 127. */
  const WORD_SPAN: nat := 128

  // ---------------------------------------------------------------- lanes

  /** The byte at an even address: the low half of the word. */
  function Lo(w: bv16): bv8 { (w & 0xFF) as bv8 }

  /** The byte at an odd address: the high half of the word. */
  function Hi(w: bv16): bv8 { (w >> 8) as bv8 }

  /** `d[0] | d[1] << 8`: the word an even-aligned pair of bytes is stored as. */
  function Pack(lo: bv8, hi: bv8): (w: bv16)
    ensures Lo(w) == lo && Hi(w) == hi
  {
    (lo as bv16) | ((hi as bv16) << 8)
  }

  /** `(w & 0x00FF) | b << 8`: a lone byte written at an odd address. */
  function SetHi(w: bv16, b: bv8): (r: bv16)
    ensures Lo(r) == Lo(w) && Hi(r) == b
  {
    (w & 0x00FF) | ((b as bv16) << 8)
  }

  /** `(w & 0xFF00) | b`: a lone byte written at an even address. */
  function SetLo(w: bv16, b: bv8): (r: bv16)
    ensures Lo(r) == b && Hi(r) == Hi(w)
  {
    (w & 0xFF00) | (b as bv16)
  }

  /** A word is its two lanes: packing them back gives the word. */
  lemma LanesDetermine(w: bv16)
    ensures Pack(Lo(w), Hi(w)) == w
  {
  }

  // ---------------------------------------------------------------- images

  /** The word SoftEEPROMRead hands back for a scan result: the data found,
      or 0xFFFF when the id is absent. */
  function Cell(l: Option<bv16>): bv16 { if l.Some? then l.value else 0xFFFF }

  /** The engine id of word j: `usAddress / 2` as the unsigned short that
      SoftEEPROMWrite and SoftEEPROMRead take, counted up from 0 in 16 bits
      (the words a wrapper call reaches are below 128, so it never wraps). */
  function Id(j: nat): bv16
    requires j < WORD_SPAN
  {
    if j == 0 then 0 else Id(j - 1) + 1
  }

  /** The id of word j has the value j. */
  lemma {:induction false} IdValue(j: nat)
    requires j < WORD_SPAN
    ensures Id(j) as int == j
  {
    if j > 0 {
      IdValue(j - 1);
      IdSuccessor(Id(j - 1));
    }
  }

  /** Adding one to a short below 127 adds one to its value. */
  lemma IdSuccessor(x: bv16)
    requires x < 127
    ensures (x + 1) as int == x as int + 1
  {
  }

  /** Distinct words have distinct ids, and the engine accepts exactly the
      ids of words 0..126. */
  lemma IdFacts(i: nat, j: nat)
    requires i < WORD_SPAN && j < WORD_SPAN
    ensures Id(i) == Id(j) <==> i == j
    ensures Id(j) < NUM_IDS <==> j < MAX_SOFTEEPROM_IDS
  {
    IdValue(i);
    IdValue(j);
  }

  /** The words of ids 0..127 as reads of the log es see them. */
  function Words(es: seq<bv32>): seq<bv16>
  {
    seq(WORD_SPAN, j requires 0 <= j < WORD_SPAN => Cell(LatestIn(es, Id(j))))
  }

  /** The bytes of a sequence of words, each word low byte first. */
  function Bytes(ws: seq<bv16>): (bs: seq<bv8>)
    ensures |bs| == 2 * |ws|
  {
    if ws == [] then [] else [Lo(ws[0]), Hi(ws[0])] + Bytes(ws[1..])
  }

  /** Byte b of the bytes of ws is lane b % 2 of word b / 2, even bytes low. */
  lemma {:induction false} BytesAt(ws: seq<bv16>, b: nat)
    requires b < 2 * |ws|
    ensures Bytes(ws)[b] == if b % 2 == 0 then Lo(ws[b / 2]) else Hi(ws[b / 2])
    decreases b
  {
    if b >= 2 {
      BytesAt(ws[1..], b - 2);
      assert (b - 2) / 2 + 1 == b / 2 && (b - 2) % 2 == b % 2;
    }
  }

  /** The bytes the wrapper's addresses 0..255 hold in the engine's log. */
  ghost function Image(e: Engine): (img: seq<bv8>)
    requires e.Valid() && e.initialized
    reads e, e.flash.mem
    ensures |img| == 2 * WORD_SPAN
  {
    Bytes(Words(e.Entries()))
  }

  /** The image of a log with no entries: every byte erased. */
  function Blank(): (img: seq<bv8>)
    ensures |img| == 2 * WORD_SPAN && forall b :: 0 <= b < |img| ==> img[b] == 0xFF
  {
    seq(2 * WORD_SPAN, _ => 0xFF)
  }

  /** The bytes of img with the bytes d laid over them from address a. */
  function Overlay(img: seq<bv8>, a: nat, d: seq<bv8>): (r: seq<bv8>)
    requires a + |d| <= |img|
    ensures |r| == |img|
    ensures forall b :: 0 <= b < |img| ==> r[b] == if a <= b < a + |d| then d[b - a] else img[b]
  {
    img[..a] + d + img[a + |d|..]
  }

  /** Laying one more byte of d over the image extends the overlay by it. */
  lemma OverlayOne(img: seq<bv8>, a: nat, d: seq<bv8>, k: nat)
    requires a + |d| <= |img| && k < |d|
    ensures Overlay(img, a, d[..k])[a + k := d[k]] == Overlay(img, a, d[..k + 1])
  {
    var x := Overlay(img, a, d[..k])[a + k := d[k]];
    var y := Overlay(img, a, d[..k + 1]);
    assert forall b :: 0 <= b < |img| ==> x[b] == y[b];
  }

  /** Storing word w for id j sets exactly the two bytes of id j. */
  lemma WordBytes(ws: seq<bv16>, j: nat, w: bv16)
    requires j < |ws|
    ensures Bytes(ws[j := w]) == Bytes(ws)[2 * j := Lo(w)][2 * j + 1 := Hi(w)]
  {
    var x := Bytes(ws[j := w]);
    var y := Bytes(ws)[2 * j := Lo(w)][2 * j + 1 := Hi(w)];
    forall b | 0 <= b < |x| ensures x[b] == y[b] {
      BytesAt(ws[j := w], b);
      BytesAt(ws, b);
      assert b / 2 == j <==> b == 2 * j || b == 2 * j + 1;
    }
  }

  /** A lone byte merged into the word it shares with its neighbour changes
      that byte only. */
  lemma MergeByte(ws: seq<bv16>, a: nat, b: bv8, w: bv16)
    requires a / 2 < |ws|
    requires w == if a % 2 == 1 then SetHi(ws[a / 2], b) else SetLo(ws[a / 2], b)
    ensures Bytes(ws[a / 2 := w]) == Bytes(ws)[a := b]
  {
    var j := a / 2;
    WordBytes(ws, j, w);
    BytesAt(ws, 2 * j);
    BytesAt(ws, 2 * j + 1);
    if a % 2 == 1 {
      assert a == 2 * j + 1 && Lo(w) == Bytes(ws)[2 * j];
    } else {
      assert a == 2 * j && Hi(w) == Bytes(ws)[2 * j + 1];
    }
  }

  /** A log in which no id has an entry reads erased at every byte. */
  lemma ErasedImage(es: seq<bv32>)
    requires forall id :: LatestIn(es, id) == None
    ensures Bytes(Words(es)) == Blank()
  {
    var ws := Words(es);
    var x := Bytes(ws);
    forall b | 0 <= b < |x| ensures x[b] == 0xFF {
      BytesAt(ws, b);
      assert ws[b / 2] == 0xFFFF;
    }
  }

  /** In a log whose entries all carry valid ids, id 127 is absent. */
  lemma {:induction false} LatestAbsent(es: seq<bv32>, id: bv16)
    requires IdsBelow(es, NUM_IDS as nat) && id >= NUM_IDS
    ensures LatestIn(es, id) == None
  {
    LatestInMeaning(es, id);
  }

  // ---------------------------------------------------------------- range

  /** The range check as written (softeeprom_wrapper.c:71, 172). */
  predicate AdmitsAsWritten(addr: nat, size: nat)
  {
    (addr + size) / 2 <= MAX_SOFTEEPROM_IDS
  }

  /** The range check evidently intended: the bytes end inside id 126, the
      last id SoftEEPROMWrite and SoftEEPROMRead accept. */
  predicate Fits(addr: nat, size: nat)
  {
    addr + size <= 2 * MAX_SOFTEEPROM_IDS
  }

  /** Every byte of a fitting range is in a legal id, and the written check
      passes every fitting range. */
  lemma FitsLegal(addr: nat, size: nat)
    requires Fits(addr, size)
    ensures AdmitsAsWritten(addr, size)
    ensures forall b :: addr <= b < addr + size ==> b / 2 < MAX_SOFTEEPROM_IDS
  {
  }

  /** The written check also passes ranges reaching byte 254, the low byte
      of id 127, and no range beyond it. */
  lemma AdmitsOneMore(addr: nat, size: nat)
    requires AdmitsAsWritten(addr, size)
    ensures addr + size <= 2 * MAX_SOFTEEPROM_IDS + 1
    ensures !Fits(addr, size) <==> addr + size == 2 * MAX_SOFTEEPROM_IDS + 1
  {
  }

  /** The range (254, 1) passes the written check although its byte is in
      id 127, which the engine rejects as ERR_ILLEGAL_ID. */
  lemma LastByteIllegal()
    ensures AdmitsAsWritten(254, 1) && !Fits(254, 1) && 254 / 2 >= MAX_SOFTEEPROM_IDS
  {
  }

  // ---------------------------------------------------------------- reports

  /** The line each wrapper operation prints before the engine's report. */
  function Preamble(op: Op): string
  {
    match op
    case WriteOp => "\rAn error occurred during a soft EEPROM write operation"
    case ReadOp => "\rAn error occurred during a soft EEPROM read operation"
    case InitOp => "\rAn error occurred during Soft EEPROM initialization!"
  }

  /** The message the switch of OutputErrorAndQuit prints for each kind. */
  function KindText(k: Option<Error>): string
  {
    match k
    case Some(NotInit) => "\r\nERROR: Soft EEPROM not initialized!"
    case Some(IllegalId) => "\r\nERROR: Illegal ID used!"
    case Some(PgErase) => "\r\nERROR: Soft EEPROM page erase error!"
    case Some(PgWrite) => "\r\nERROR: Soft EEPROM page write error!"
    case Some(ActivePgCnt) => "\r\nERROR: Active soft EEPROM page count error!"
    case Some(Range) => "\r\nERROR: Soft EEPROM specified out of range!"
    case Some(AvailEntry) => "\r\nERROR: Next available entry error!"
    case Some(TwoActiveNoFull) => "\r\nERROR: Two active pages found but not full!"
    case None => "\r\nERROR: Unidentified Error"
  }

  const SWAP_TEXT: string := "\r\nOccurred during the swap operation."

  /** What a failing call prints before it halts (softeeprom_wrapper.c:129-140,
      223-234, 264-275, 298-338): its preamble, the message for the base code
      `code & 0x7FFF`, and the swap note when bit ERR_SWAP is set. */
  function ErrorReport(op: Op, code: nat): (lines: seq<string>)
    ensures |lines| == if IsSwapTagged(code) then 3 else 2
  {
    [Preamble(op), KindText(Decode(code))] + (if IsSwapTagged(code) then [SWAP_TEXT] else [])
  }

  /** No two kinds share a message, and no kind message is the swap note. */
  lemma KindTextDistinct(k1: Option<Error>, k2: Option<Error>)
    ensures KindText(k1) == KindText(k2) ==> k1 == k2
    ensures KindText(k1) != SWAP_TEXT
  {
  }

  /** A report tells the kind of the failure, and whether it arose in a
      page swap: two codes with the same report agree on both. */
  lemma ReportIdentifies(op: Op, c1: nat, c2: nat)
    requires ErrorReport(op, c1) == ErrorReport(op, c2)
    ensures Decode(c1) == Decode(c2) && IsSwapTagged(c1) == IsSwapTagged(c2)
  {
    assert ErrorReport(op, c1)[1] == KindText(Decode(c1));
    KindTextDistinct(Decode(c1), Decode(c2));
  }

  /** The halt any nonzero result leads to. */
  function Fail(op: Op, code: nat): (o: Outcome)
    requires code != 0
    ensures o.Halted? && o.code == code && o.report == ErrorReport(op, code)
  {
    Halted(code, ErrorReport(op, code))
  }

  /** The engine result an Ok or Halted outcome stands for. */
  function ResultOf(o: Outcome): nat
  {
    if o.Halted? then o.code else 0
  }

  // ---------------------------------------------------------------- write

  /** The bytes one pass of the wrapper loop stores from byte address a with
      n bytes left: a lone byte at an odd address or at the end of the range,
      else an aligned pair. */
  function Step(a: nat, n: nat): (t: nat)
    requires n > 0
    ensures 1 <= t <= n
  {
    if a % 2 == 1 || n == 1 then 1 else 2
  }

  /** The passes the wrapper loop makes over n bytes from address a, one
      engine write each, following the loop pass by pass. */
  function Passes(a: nat, n: nat): nat
    decreases n
  {
    if n == 0 then 0 else var t := Step(a, n); 1 + Passes(a + t, n - t)
  }

  /** The engine writes n bytes from address a cost: half the bytes, plus
      one for a ragged start or end. */
  function Chunks(a: nat, n: nat): nat
  {
    if n == 0 then 0 else (n + a % 2 + 1) / 2
  }

  /** The loop makes exactly Chunks passes over any range. */
  lemma {:induction false} ChunksCount(a: nat, n: nat)
    ensures Passes(a, n) == Chunks(a, n)
    decreases n
  {
    if n > 0 {
      var t := Step(a, n);
      ChunksCount(a + t, n - t);
    }
  }

  /** A pass of the loop over a range from addr, k bytes in and n left,
      storing t bytes: the k bytes done are one write fewer than the k + t
      after it, and the pass, unless it is the last, ends on an even
      address, where the next one starts. */
  lemma ChunksNext(addr: nat, k: nat, n: nat, t: nat)
    requires n > 0 && t == Step(addr + k, n) && (k == 0 || (addr + k) % 2 == 0)
    ensures Chunks(addr, k + t) == 1 + Chunks(addr, k)
    ensures t == n || (addr + k + t) % 2 == 0
  {
  }

  /** The state a wrapper write needs: an engine over a valid region whose
      log, once initialized, holds valid ids only and erased slots past the
      cursor. */
  ghost predicate Ready(e: Engine)
    reads e, e.flash.mem
  {
    e.Valid() && (e.initialized ==> e.Healthy())
  }

  /** SoftEEPROMWrite of word w for id j, stated on the words of the log: a
      success stores w for j; a failure, or an id the engine rejects, keeps
      every word. */
  method PutWord(e: Engine, j: nat, w: bv16) returns (r: nat)
    requires Ready(e) && j < WORD_SPAN
    modifies e, e.flash.mem
    ensures e.Valid() && e.initialized == old(e.initialized) && IsWriteCode(r)
    ensures !e.initialized ==> r == ERR_NOT_INIT && unchanged(e) && unchanged(e.flash.mem)
    ensures e.initialized ==> (r == ERR_ILLEGAL_ID <==> j >= MAX_SOFTEEPROM_IDS)
    ensures e.initialized && r == 0 ==> e.Healthy() && Words(e.Entries()) == old(Words(e.Entries()))[j := w]
    ensures e.initialized && r != 0 ==> Words(e.Entries()) == old(Words(e.Entries()))
  {
    if e.initialized {
      e.HealthySwappable();
    }
    ghost var before := if e.initialized then e.Entries() else [];
    IdFacts(j, j);
    r := e.Write(Id(j), w);
    if e.initialized {
      if j >= MAX_SOFTEEPROM_IDS {
        assert e.Entries() == before;
      } else {
        WordsAfter(before, e.Entries(), j, w, r == 0);
      }
    }
  }

  /** The words of a log after a write that stored w for id j, or that
      stored nothing, given how the write changed the reads. */
  lemma WordsAfter(es0: seq<bv32>, es1: seq<bv32>, j: nat, w: bv16, stored: bool)
    requires j < WORD_SPAN
    requires forall i :: LatestIn(es1, i) == if stored && i == Id(j) then Some(w) else LatestIn(es0, i)
    ensures Words(es1) == if stored then Words(es0)[j := w] else Words(es0)
  {
    var x := Words(es1);
    var y := if stored then Words(es0)[j := w] else Words(es0);
    forall i | 0 <= i < WORD_SPAN ensures x[i] == y[i] {
      IdFacts(i, j);
      assert LatestIn(es1, Id(i)) == if stored && i == j then Some(w) else LatestIn(es0, Id(i));
    }
  }

  /** The read-modify-write of one byte (softeeprom_wrapper.c:79-108): read
      the word of its id, treating an absent id as 0xFFFF, merge the byte
      into its lane and write the word back.  The read's result is ignored. */
  method WriteByte(e: Engine, a: nat, b: bv8) returns (r: nat)
    requires Ready(e) && a < 2 * WORD_SPAN
    modifies e, e.flash.mem
    ensures e.Valid() && e.initialized == old(e.initialized) && IsWriteCode(r)
    ensures !e.initialized ==> r == ERR_NOT_INIT && unchanged(e) && unchanged(e.flash.mem)
    ensures e.initialized ==> (r == ERR_ILLEGAL_ID <==> a / 2 >= MAX_SOFTEEPROM_IDS)
    ensures e.initialized && r == 0 ==> e.Healthy() && Image(e) == old(Image(e))[a := b]
    ensures e.initialized && r != 0 ==> Image(e) == old(Image(e))
  {
    var rr, d := ReadWord(e, Seen(e), e.initialized, a / 2, 0xFFFF);
    ghost var ws := if e.initialized then Words(e.Entries()) else [];
    var w := if a % 2 == 1 then SetHi(d, b) else SetLo(d, b);
    r := PutWord(e, a / 2, w);
    if e.initialized && r == 0 {
      MergeByte(ws, a, b, w);
    }
  }

  /** SoftEEPROMRead of id j into a word holding d0, stated on the words of
      the log (softeeprom_wrapper.c:85, 181): the word of j when the engine
      accepts the read (0xFFFF for an absent id), and d0, untouched, when it
      rejects it.  The result code is returned for the callers that keep it. */
  method ReadWord(e: Engine, ghost ws: seq<bv16>, ghost live: bool, j: nat, d0: bv16) returns (r: nat, d: bv16)
    requires e.Valid() && j < WORD_SPAN && ws == Seen(e) && live == e.initialized
    ensures (r, d) == Fetch(ws, live, j, d0)
  {
    var found := false;
    IdFacts(j, j);
    r, found, d := e.Read(Id(j), found, d0);
  }

  /** The write of an aligned pair of bytes as one word (softeeprom_wrapper.c:110-126). */
  method WritePair(e: Engine, a: nat, b0: bv8, b1: bv8) returns (r: nat)
    requires Ready(e) && a % 2 == 0 && a < 2 * WORD_SPAN
    modifies e, e.flash.mem
    ensures e.Valid() && e.initialized == old(e.initialized) && IsWriteCode(r)
    ensures !e.initialized ==> r == ERR_NOT_INIT && unchanged(e) && unchanged(e.flash.mem)
    ensures e.initialized ==> (r == ERR_ILLEGAL_ID <==> a / 2 >= MAX_SOFTEEPROM_IDS)
    ensures e.initialized && r == 0 ==> e.Healthy() && Image(e) == old(Image(e))[a := b0][a + 1 := b1]
    ensures e.initialized && r != 0 ==> Image(e) == old(Image(e))
  {
    ghost var ws := if e.initialized then Words(e.Entries()) else [];
    var w := Pack(b0, b1);
    r := PutWord(e, a / 2, w);
    if e.initialized && r == 0 {
      WordBytes(ws, a / 2, w);
    }
  }

  /** The ids the engine rejects are those of the last two byte addresses and beyond. */
  lemma HalfBound(a: nat)
    ensures a / 2 >= MAX_SOFTEEPROM_IDS <==> a >= 2 * MAX_SOFTEEPROM_IDS
    ensures a % 2 == 0 && a < 2 * MAX_SOFTEEPROM_IDS ==> a + 2 <= 2 * MAX_SOFTEEPROM_IDS
  {
  }

  /** SoftEEPROM_WrapperWrite (softeeprom_wrapper.c:62-144): after the range
      check, store the bytes `data` from byte address addr and turn the
      engine's last result into the outcome.  `written` is the number of
      bytes stored.  A range the written check passes but that reaches id
      127 always ends in the halt for ERR_ILLEGAL_ID, unless an earlier
      write failed. */
  method Write(e: Engine, addr: nat, size: nat, data: seq<bv8>) returns (o: Outcome, ghost written: nat)
    requires addr < 0x1_0000 && size < 0x1_0000 && |data| == size
    requires Ready(e)
    modifies e, e.flash.mem
    ensures e.Valid() && e.initialized == old(e.initialized)
    ensures !AdmitsAsWritten(addr, size) ==> o == PageRange && unchanged(e) && unchanged(e.flash.mem)
    ensures AdmitsAsWritten(addr, size) ==> written <= size && (o == Ok <==> written == size)
    ensures o.Halted? ==> o.code != 0 && IsWriteCode(o.code) && o == Fail(WriteOp, o.code)
    ensures !old(e.initialized) ==> unchanged(e) && unchanged(e.flash.mem)
    ensures !old(e.initialized) && AdmitsAsWritten(addr, size) && size > 0 ==> o == Fail(WriteOp, ERR_NOT_INIT)
    ensures old(e.initialized) && AdmitsAsWritten(addr, size) ==>
              Image(e) == Overlay(old(Image(e)), addr, data[..written])
    ensures old(e.initialized) && o == Ok ==> e.Healthy()
    ensures o.Halted? && o.code == ERR_ILLEGAL_ID ==> !Fits(addr, size) && written == size - 1
    ensures old(e.initialized) && AdmitsAsWritten(addr, size) && !Fits(addr, size) && size > 0 ==> o.Halted?
  {
    written := 0;
    if (addr + size) / 2 > MAX_SOFTEEPROM_IDS {
      return PageRange, written;
    }
    AdmitsOneMore(addr, size);
    var r;
    ghost var calls;
    r, written, calls := Store(e, addr, data);
    o := if r == 0 then Ok else Fail(WriteOp, r);
  }

  /** The loop of SoftEEPROM_WrapperWrite over a range within the 256 bytes:
      one engine write per pass, stopping at the first that fails; r is the
      last engine result, `written` the bytes stored before it and `calls`
      the engine writes that succeeded: the Chunks of the bytes stored, so
      the Chunks of the whole range when all succeed. */
  method Store(e: Engine, addr: nat, data: seq<bv8>) returns (r: nat, ghost written: nat, ghost calls: nat)
    requires addr + |data| <= 2 * MAX_SOFTEEPROM_IDS + 1
    requires Ready(e)
    modifies e, e.flash.mem
    ensures e.Valid() && e.initialized == old(e.initialized) && IsWriteCode(r)
    ensures written <= |data| && (r == 0 <==> written == |data|)
    ensures calls == Chunks(addr, written)
    ensures r == 0 ==> calls == Chunks(addr, |data|)
    ensures !e.initialized ==> unchanged(e) && unchanged(e.flash.mem) && written == 0
    ensures !e.initialized && 0 < |data| ==> r == ERR_NOT_INIT
    ensures e.initialized ==> Image(e) == Overlay(old(Image(e)), addr, data[..written])
    ensures e.initialized && r == 0 ==> e.Healthy()
    ensures r == ERR_ILLEGAL_ID ==> addr + written == 2 * MAX_SOFTEEPROM_IDS && written == |data| - 1
    ensures e.initialized && addr + |data| == 2 * MAX_SOFTEEPROM_IDS + 1 && 0 < |data| ==> r != 0
  {
    ghost var init := e.initialized;
    ghost var img0 := if init then Image(e) else [];
    var a: nat, n: nat, k: nat := addr, |data|, 0;
    r, calls := 0, 0;
    while n > 0
      invariant a == addr + k && n == |data| - k && r == 0
      invariant calls == Chunks(addr, k) && (k == 0 || n == 0 || a % 2 == 0)
      invariant e.Valid() && e.initialized == init && (init ==> e.Healthy())
      invariant init ==> Image(e) == Overlay(img0, addr, data[..k])
      invariant init && k > 0 ==> a <= 2 * MAX_SOFTEEPROM_IDS
      invariant !init ==> k == 0 && unchanged(e) && unchanged(e.flash.mem)
      decreases n
    {
      var a1, n1, k1;
      r, a1, n1, k1 := WriteChunk(e, img0, addr, data, k, a, n);
      if r != 0 {
        break;
      }
      a, n, k, calls := a1, n1, k1, calls + 1;
    }
    written := k;
  }

  /** One pass of the write loop at byte k of data, byte address a, n bytes
      left: the lone byte or the aligned pair that Step chooses, after which
      the address, the bytes left and the bytes done are a1, n1 and k1; the
      pass is one of the Chunks the range costs. */
  method WriteChunk(e: Engine, ghost img0: seq<bv8>, addr: nat, data: seq<bv8>, k: nat, a: nat, n: nat)
    returns (r: nat, a1: nat, n1: nat, k1: nat)
    requires Ready(e) && addr + |data| < 2 * WORD_SPAN && k < |data|
    requires a == addr + k && n == |data| - k && (k == 0 || a % 2 == 0)
    requires e.initialized ==> |img0| == 2 * WORD_SPAN && Image(e) == Overlay(img0, addr, data[..k])
    modifies e, e.flash.mem
    ensures k1 == k + Step(a, n) && a1 == addr + k1 && n1 == |data| - k1
    ensures Chunks(addr, k1) == 1 + Chunks(addr, k) && (n1 == 0 || a1 % 2 == 0)
    ensures e.Valid() && e.initialized == old(e.initialized) && IsWriteCode(r)
    ensures !e.initialized ==> r == ERR_NOT_INIT && unchanged(e) && unchanged(e.flash.mem)
    ensures e.initialized ==> (r == ERR_ILLEGAL_ID <==> a >= 2 * MAX_SOFTEEPROM_IDS)
    ensures e.initialized && r == 0 ==> e.Healthy() && Image(e) == Overlay(img0, addr, data[..k1])
    ensures e.initialized && r == 0 ==> a1 <= 2 * MAX_SOFTEEPROM_IDS
    ensures e.initialized && r != 0 ==> Image(e) == old(Image(e))
  {
    var t := Step(a, n);
    a1, n1, k1 := a + t, n - t, k + t;
    ChunksNext(addr, k, n, t);
    HalfBound(a);
    if t == 1 {
      r := WriteByte(e, a, data[k]);
      if e.initialized && r == 0 {
        OverlayOne(img0, addr, data, k);
      }
    } else {
      r := WritePair(e, a, data[k], data[k + 1]);
      if e.initialized && r == 0 {
        OverlayOne(img0, addr, data, k);
        OverlayOne(img0, addr, data, k + 1);
      }
    }
  }

  // ---------------------------------------------------------------- read

  /** The words reads of the engine see: those of its log once it is
      initialized (all erased before; a read then fails anyway). */
  ghost function Seen(e: Engine): (ws: seq<bv16>)
    requires e.Valid()
    reads e, e.flash.mem
    ensures |ws| == WORD_SPAN
    ensures e.initialized ==> Bytes(ws) == Image(e)
  {
    if e.initialized then Words(e.Entries()) else Words([])
  }

  /** What one SoftEEPROMRead of word j hands back, given the words ws of the
      log, whether the engine is initialized, and the word d0 the caller's
      variable held: the result code and the word afterwards. */
  function Fetch(ws: seq<bv16>, live: bool, j: nat, d0: bv16): (rd: (nat, bv16))
    requires |ws| == WORD_SPAN && j < WORD_SPAN
    ensures rd.0 == 0 <==> live && j < MAX_SOFTEEPROM_IDS
    ensures rd.1 == if rd.0 == 0 then ws[j] else d0
  {
    if !live then (ERR_NOT_INIT, d0)
    else if j >= MAX_SOFTEEPROM_IDS then (ERR_ILLEGAL_ID, d0)
    else (0, ws[j])
  }

  /** Byte address of the low (odd false) or high (odd true) lane of word j. */
  function Lane(j: nat, odd: bool): nat
  {
    2 * j + if odd then 1 else 0
  }

  /** Bytes 2j and 2j+1 of the image are the low and high lanes of word j. */
  lemma {:induction false} BytesPair(ws: seq<bv16>, j: nat)
    requires j < |ws|
    ensures Bytes(ws)[2 * j] == Lo(ws[j]) && Bytes(ws)[2 * j + 1] == Hi(ws[j])
    decreases j
  {
    if j > 0 {
      BytesPair(ws[1..], j - 1);
    }
  }

  /** How many bytes one pass of the read loop stores: one from an odd
      address or for the last byte, two otherwise. */
  function Take(odd: bool, n: nat): (t: nat)
    requires n > 0
    ensures 1 <= t <= n && (odd ==> t == 1)
  {
    if odd || n == 1 then 1 else 2
  }

  /** The t lanes of word w one pass stores: the high lane from an odd
      address, else the low lane and, when t is 2, the high lane. */
  function Lanes(odd: bool, t: nat, w: bv16): (p: seq<bv8>)
  {
    if odd then [Hi(w)] else if t == 2 then [Lo(w), Hi(w)] else [Lo(w)]
  }

  /** The loop of SoftEEPROM_WrapperRead (softeeprom_wrapper.c:177-221) with
      n bytes left from byte address Lane(j, odd), the word variable holding
      d and the last result r: the final result and the bytes stored.  Each
      pass reads word j, the address over two (Fetch), and stores its lanes
      in the range (Lanes).  The source leaves the address alone after the
      last byte; the model moves on to word j + 1 with nothing left, which
      reads nothing more. */
  function ReadFrom(ws: seq<bv16>, live: bool, j: nat, odd: bool, n: nat, d: bv16, r: nat): (res: (nat, seq<bv8>))
    requires |ws| == WORD_SPAN && Lane(j, odd) + n <= 2 * WORD_SPAN
    decreases n
  {
    if n == 0 then (r, [])
    else
      var f := Fetch(ws, live, j, d);
      var t := Take(odd, n);
      var rest := ReadFrom(ws, live, j + 1, false, n - t, f.1, f.0);
      (rest.0, Lanes(odd, t, f.1) + rest.1)
  }

  /** The loop stores one byte per byte of the range. */
  lemma {:induction false} ReadFromLength(ws: seq<bv16>, live: bool, j: nat, odd: bool, n: nat, d: bv16, r: nat)
    requires |ws| == WORD_SPAN && Lane(j, odd) + n <= 2 * WORD_SPAN
    ensures |ReadFrom(ws, live, j, odd, n, d, r).1| == n
    decreases n
  {
    if n > 0 {
      var f := Fetch(ws, live, j, d);
      ReadFromLength(ws, live, j + 1, false, n - Take(odd, n), f.1, f.0);
    }
  }

  /** Before initialisation every read fails with ERR_NOT_INIT and leaves
      the word as it was, so the loop stores lanes of the source's initial
      0 only. */
  lemma {:induction false} ReadFromDead(ws: seq<bv16>, j: nat, odd: bool, n: nat, r: nat)
    requires |ws| == WORD_SPAN && Lane(j, odd) + n <= 2 * WORD_SPAN
    ensures ReadFrom(ws, false, j, odd, n, 0, r).0 == if n == 0 then r else ERR_NOT_INIT
    ensures forall i :: 0 <= i < |ReadFrom(ws, false, j, odd, n, 0, r).1| ==> ReadFrom(ws, false, j, odd, n, 0, r).1[i] == 0
    decreases n
  {
    if n > 0 {
      assert Lo(0) == 0 && Hi(0) == 0;
      ReadFromDead(ws, j + 1, false, n - Take(odd, n), ERR_NOT_INIT);
    }
  }

  /** Once initialized, every read of a range below id 127 succeeds, so the
      loop ends with result 0. */
  lemma {:induction false} ReadFromFitsCode(ws: seq<bv16>, j: nat, odd: bool, n: nat, d: bv16, r: nat)
    requires |ws| == WORD_SPAN && Lane(j, odd) + n <= 2 * MAX_SOFTEEPROM_IDS
    ensures ReadFrom(ws, true, j, odd, n, d, r).0 == if n == 0 then r else 0
    decreases n
  {
    if n > 0 {
      ReadFromFitsCode(ws, j + 1, false, n - Take(odd, n), ws[j], 0);
    }
  }

  /** A slice is its two halves. */
  lemma SliceSplit(b: seq<bv8>, i: nat, k: nat, m: nat)
    requires i <= k <= m <= |b|
    ensures b[i..m] == b[i..k] + b[k..m]
  {
  }

  /** Concatenation is associative. */
  lemma Assoc(x: seq<bv8>, y: seq<bv8>, z: seq<bv8>)
    ensures (x + y) + z == x + (y + z)
  {
  }

  /** Two adjacent slices make up the slice spanning both. */
  lemma Chain(b: seq<bv8>, x: seq<bv8>, p: seq<bv8>, q: seq<bv8>, i: nat, k: nat, m: nat)
    requires i <= k <= m <= |b| && x == p + q && p == b[i..k] && q == b[k..m]
    ensures x == b[i..m]
  {
    assert b[i..m] == b[i..k] + b[k..m];
  }

  /** The lanes of words j, j + 1, ... that a read of n bytes from
      Lane(j, odd) visits, pass by pass. */
  function Span(ws: seq<bv16>, j: nat, odd: bool, n: nat): seq<bv8>
    requires |ws| == WORD_SPAN && Lane(j, odd) + n <= 2 * WORD_SPAN
    decreases n
  {
    if n == 0 then [] else Lanes(odd, Take(odd, n), ws[j]) + Span(ws, j + 1, false, n - Take(odd, n))
  }

  /** The lanes one pass stores are the image bytes at their addresses. */
  lemma PassBytes(ws: seq<bv16>, j: nat, odd: bool, t: nat)
    requires j < |ws| == WORD_SPAN && 1 <= t <= 2 && (odd ==> t == 1)
    ensures Bytes(ws)[Lane(j, odd)..Lane(j, odd) + t] == Lanes(odd, t, ws[j])
  {
    BytesPair(ws, j);
    PassSlice(Bytes(ws), j, odd, t, ws[j]);
  }

  /** The lanes of word w one pass stores are the bytes at their addresses
      in any byte sequence holding w's lanes at 2j and 2j + 1. */
  lemma PassSlice(b: seq<bv8>, j: nat, odd: bool, t: nat, w: bv16)
    requires 2 * j + 1 < |b| && b[2 * j] == Lo(w) && b[2 * j + 1] == Hi(w)
    requires 1 <= t <= 2 && (odd ==> t == 1)
    ensures b[Lane(j, odd)..Lane(j, odd) + t] == Lanes(odd, t, w)
  {
  }

  /** One pass in front of the image bytes after it gives the image bytes
      from the pass's address. */
  lemma SpanStep(ws: seq<bv16>, j: nat, odd: bool, n: nat)
    requires |ws| == WORD_SPAN && Lane(j, odd) + n <= 2 * WORD_SPAN && n > 0 && n > Take(odd, n)
    requires Span(ws, j + 1, false, n - Take(odd, n)) == Bytes(ws)[Lane(j + 1, false)..Lane(j, odd) + n]
    ensures Span(ws, j, odd, n) == Bytes(ws)[Lane(j, odd)..Lane(j, odd) + n]
  {
    var s, t := Lane(j, odd), Take(odd, n);
    assert Lane(j + 1, false) == s + t;
    PassBytes(ws, j, odd, t);
    Chain(Bytes(ws), Span(ws, j, odd, n), Lanes(odd, t, ws[j]), Span(ws, j + 1, false, n - t), s, s + t, s + n);
  }

  /** The lanes visited are the image bytes of the range. */
  lemma {:induction false} SpanBytes(ws: seq<bv16>, j: nat, odd: bool, n: nat)
    requires |ws| == WORD_SPAN && Lane(j, odd) + n <= 2 * WORD_SPAN
    ensures Span(ws, j, odd, n) == Bytes(ws)[Lane(j, odd)..Lane(j, odd) + n]
    decreases n
  {
    var s := Lane(j, odd);
    if n == 0 {
      assert Bytes(ws)[s..s] == [];
    } else if n == Take(odd, n) {
      PassBytes(ws, j, odd, n);
      assert Lanes(odd, n, ws[j]) + [] == Lanes(odd, n, ws[j]);
    } else {
      SpanBytes(ws, j + 1, false, n - Take(odd, n));
      SpanStep(ws, j, odd, n);
    }
  }

  /** Once initialized, a range below id 127 stores the lanes it visits. */
  lemma {:induction false} ReadFromFits(ws: seq<bv16>, j: nat, odd: bool, n: nat, d: bv16, r: nat)
    requires |ws| == WORD_SPAN && Lane(j, odd) + n <= 2 * MAX_SOFTEEPROM_IDS
    ensures ReadFrom(ws, true, j, odd, n, d, r).1 == Span(ws, j, odd, n)
    decreases n
  {
    if n > 0 {
      ReadFromFits(ws, j + 1, false, n - Take(odd, n), ws[j], 0);
    }
  }

  /** The read of byte 254 alone: id 127 is refused and the word d the loop
      held supplies the byte. */
  lemma ReadFromLastOne(ws: seq<bv16>, d: bv16, r: nat)
    requires |ws| == WORD_SPAN
    ensures ReadFrom(ws, true, MAX_SOFTEEPROM_IDS, false, 1, d, r) == (ERR_ILLEGAL_ID, [Lo(d)])
  {
    assert Fetch(ws, true, MAX_SOFTEEPROM_IDS, d) == (ERR_ILLEGAL_ID, d);
    assert [Lo(d)] + [] == [Lo(d)];
  }

  /** A range of two or more bytes ending at byte 254 stores the lanes it
      visits up to byte 253, then the read of id 127 fails with
      ERR_ILLEGAL_ID and leaves the previous pass's word, word 126, whose
      low lane is stored as the last byte. */
  lemma {:induction false} ReadFromLast(ws: seq<bv16>, j: nat, odd: bool, n: nat, d: bv16, r: nat)
    requires |ws| == WORD_SPAN && Lane(j, odd) + n == 2 * MAX_SOFTEEPROM_IDS + 1 && n > 1
    ensures ReadFrom(ws, true, j, odd, n, d, r) ==
              (ERR_ILLEGAL_ID, Span(ws, j, odd, n - 1) + [Lo(ws[MAX_SOFTEEPROM_IDS - 1])])
    decreases n
  {
    var t := Take(odd, n);
    assert Take(odd, n - 1) == t;
    assert Fetch(ws, true, j, d) == (0, ws[j]);
    var p := Lanes(odd, t, ws[j]);
    assert Span(ws, j, odd, n - 1) == p + Span(ws, j + 1, false, n - 1 - t);
    if n - t == 1 {
      ReadFromLastOne(ws, ws[j], 0);
      assert Span(ws, j + 1, false, 0) == [];
      assert p + [] == p;
    } else {
      ReadFromLast(ws, j + 1, false, n - t, ws[j], 0);
      Assoc(p, Span(ws, j + 1, false, n - 1 - t), [Lo(ws[MAX_SOFTEEPROM_IDS - 1])]);
    }
  }

  /** Once initialized, the loop over a range the written check passes:
      within id 126 it succeeds with the image bytes of the range; reaching
      byte 254 it fails with ERR_ILLEGAL_ID, storing the image bytes up to
      byte 253 and, as the last byte, the low lane of the word the previous
      pass read: byte 252, or the initial 0 when byte 254 is the only one. */
  lemma ReadFromLive(ws: seq<bv16>, j: nat, odd: bool, n: nat)
    requires |ws| == WORD_SPAN && Lane(j, odd) + n <= 2 * MAX_SOFTEEPROM_IDS + 1
    ensures Lane(j, odd) + n <= 2 * MAX_SOFTEEPROM_IDS ==>
              ReadFrom(ws, true, j, odd, n, 0, 0) == (0, Bytes(ws)[Lane(j, odd)..Lane(j, odd) + n])
    ensures Lane(j, odd) + n == 2 * MAX_SOFTEEPROM_IDS + 1 && n > 0 ==>
              ReadFrom(ws, true, j, odd, n, 0, 0) ==
                (ERR_ILLEGAL_ID, Bytes(ws)[Lane(j, odd)..2 * MAX_SOFTEEPROM_IDS] +
                                 [if n == 1 then 0 else Bytes(ws)[2 * MAX_SOFTEEPROM_IDS - 2]])
  {
    if Lane(j, odd) + n <= 2 * MAX_SOFTEEPROM_IDS {
      ReadFromFitsCode(ws, j, odd, n, 0, 0);
      ReadFromFits(ws, j, odd, n, 0, 0);
      SpanBytes(ws, j, odd, n);
    } else if n == 1 {
      assert j == MAX_SOFTEEPROM_IDS && !odd;
      ReadFromLastOne(ws, 0, 0);
      assert Lo(0) == 0;
      assert Bytes(ws)[2 * MAX_SOFTEEPROM_IDS..2 * MAX_SOFTEEPROM_IDS] + [0] == [0];
    } else if n > 1 {
      ReadFromLast(ws, j, odd, n, 0, 0);
      SpanBytes(ws, j, odd, n - 1);
      BytesPair(ws, MAX_SOFTEEPROM_IDS - 1);
    }
  }

  /** SoftEEPROM_WrapperRead (softeeprom_wrapper.c:163-237): the size bytes
      from byte address addr, read one word per pass, that the source stores
      through its buffer pointer (`out`; nothing for a range it rejects).  The
      found flag is ignored, so an absent id reads as 0xFF bytes, and only the
      last read's result decides the outcome.  A read the engine rejects
      leaves the word of the previous pass (0 before the first) in place. */
  method Read(e: Engine, addr: nat, size: nat) returns (o: Outcome, out: seq<bv8>)
    requires addr < 0x1_0000 && size < 0x1_0000
    requires e.Valid()
    ensures !AdmitsAsWritten(addr, size) ==> o == PageRange && out == []
    ensures AdmitsAsWritten(addr, size) ==> |out| == size
    ensures AdmitsAsWritten(addr, size) ==> (o == Ok <==> size == 0 || (e.initialized && Fits(addr, size)))
    ensures o.Halted? ==> o == Fail(ReadOp, if e.initialized then ERR_ILLEGAL_ID else ERR_NOT_INIT)
    ensures AdmitsAsWritten(addr, size) && !e.initialized ==> forall i :: 0 <= i < size ==> out[i] == 0
    ensures e.initialized && Fits(addr, size) ==> out == Image(e)[addr..addr + size]
    ensures AdmitsAsWritten(addr, size) && e.initialized && !Fits(addr, size) && size > 0 ==>
              out == Image(e)[addr..2 * MAX_SOFTEEPROM_IDS] +
                     [if size == 1 then 0 else Image(e)[2 * MAX_SOFTEEPROM_IDS - 2]]
  {
    out := [];
    if (addr + size) / 2 > MAX_SOFTEEPROM_IDS {
      return PageRange, out;
    }
    AdmitsOneMore(addr, size);
    ghost var j, odd := addr / 2, addr % 2 == 1;
    assert addr == Lane(j, odd);
    var r: nat;
    r, out := Fill(e, Seen(e), e.initialized, addr, size);
    ReadFromLength(Seen(e), e.initialized, j, odd, size, 0, 0);
    if !e.initialized {
      ReadFromDead(Seen(e), j, odd, size, 0);
    } else {
      ReadFromLive(Seen(e), j, odd, size);
    }
    o := if r == 0 then Ok else Fail(ReadOp, r);
  }

  /** The loop of SoftEEPROM_WrapperRead over a range within the 255 bytes,
      proved to compute ReadFrom on the words of the log. */
  method Fill(e: Engine, ghost ws: seq<bv16>, ghost live: bool, addr: nat, size: nat) returns (r: nat, out: seq<bv8>)
    requires e.Valid() && ws == Seen(e) && live == e.initialized
    requires addr + size <= 2 * MAX_SOFTEEPROM_IDS + 1
    ensures (r, out) == ReadFrom(ws, live, addr / 2, addr % 2 == 1, size, 0, 0)
  {
    ghost var j: nat, odd := addr / 2, addr % 2 == 1;
    ghost var total := ReadFrom(ws, live, j, odd, size, 0, 0);
    var a: nat, n: nat, d: bv16 := addr, size, 0;
    r, out := 0, [];
    while n > 0
      invariant Lane(j, odd) + n <= 2 * WORD_SPAN
      invariant n > 0 ==> a == Lane(j, odd) && a + n <= 2 * MAX_SOFTEEPROM_IDS + 1
      invariant ReadFrom(ws, live, j, odd, n, d, r).0 == total.0
      invariant out + ReadFrom(ws, live, j, odd, n, d, r).1 == total.1
      decreases n
    {
      ghost var n0, d0, r0, out0 := n, d, r, out;
      assert a / 2 == j && (a % 2 == 1 <==> odd);
      r, d := ReadWord(e, ws, live, a / 2, d);
      if a % 2 == 1 {
        out := out + [Hi(d)];
        a, n := a + 1, n - 1;
      } else if n > 1 {
        out := out + [Lo(d), Hi(d)];
        a, n := a + 2, n - 2;
      } else {
        out := out + [Lo(d)];
        n := n - 1;
      }
      FillStep(ws, live, j, odd, n0, d0, r0, out0, n, d, r, out);
      j, odd := j + 1, false;
    }
    assert out + ReadFrom(ws, live, j, odd, n, d, r).1 == out;
  }

  /** One pass of the loop of Fill keeps its invariant: the bytes stored so
      far followed by what the rest of the loop stores are the whole result. */
  lemma FillStep(ws: seq<bv16>, live: bool, j: nat, odd: bool, n0: nat, d0: bv16, r0: nat, out0: seq<bv8>,
                 n: nat, d: bv16, r: nat, out: seq<bv8>)
    requires |ws| == WORD_SPAN && Lane(j, odd) + n0 <= 2 * WORD_SPAN && n0 > 0
    requires (r, d) == Fetch(ws, live, j, d0)
    requires n == n0 - Take(odd, n0) && out == out0 + Lanes(odd, Take(odd, n0), d)
    ensures ReadFrom(ws, live, j + 1, false, n, d, r).0 == ReadFrom(ws, live, j, odd, n0, d0, r0).0
    ensures out + ReadFrom(ws, live, j + 1, false, n, d, r).1 == out0 + ReadFrom(ws, live, j, odd, n0, d0, r0).1
  {
    Assoc(out0, Lanes(odd, Take(odd, n0), d), ReadFrom(ws, live, j + 1, false, n, d, r).1);
  }

  // ---------------------------------------------------------------- clear, init

  /** SoftEEPROM_WrapperClear (softeeprom_wrapper.c:248-252): the engine's
      clear, whose success leaves every byte erased. */
  method Clear(e: Engine) returns (r: nat)
    requires e.Valid()
    modifies e, e.flash.mem
    ensures e.Valid() && e.initialized == old(e.initialized)
    ensures r == 0 || r == ERR_NOT_INIT || r == ERR_PG_WRITE || r == ERR_PG_ERASE
    ensures r == ERR_NOT_INIT <==> !e.initialized
    ensures r == 0 ==> Ready(e) && Image(e) == Blank()
    ensures r != 0 && e.initialized ==> Image(e) == old(Image(e))
  {
    r := e.Clear();
    if r == 0 {
      ErasedImage(e.Entries());
    }
  }

  /** SoftEEPROM_WrapperInit (softeeprom_wrapper.c:254-278): the engine's
      initialisation, halting with the report on any nonzero result. */
  method Init(e: Engine, inRange: bool) returns (o: Outcome)
    requires e.Valid()
    modifies e, e.flash.mem
    ensures e.Valid()
    ensures o == Ok || (o.Halted? && o.code != 0 && o == Fail(InitOp, o.code))
    ensures o == Ok ==> e.initialized
    ensures !inRange ==> o == Fail(InitOp, ERR_RANGE)
    ensures inRange ==> e.Outcome(old(Recovery(e.View())), ResultOf(o))
    ensures o == Ok && Intact(e.flash.Page(e.active), NUM_IDS as nat) ==> Ready(e)
  {
    var r := e.Init(inRange);
    o := if r == 0 then Ok else Fail(InitOp, r);
  }

  /** A write of `data` at addr followed by a read of the same range, as the
      wrapper self-test does (softeeprom.c:1744-1820): when both return, the
      read gives back the bytes written and every other byte of the image
      keeps its value. */
  method WriteThenRead(e: Engine, addr: nat, data: seq<bv8>) returns (o1: Outcome, o2: Outcome, out: seq<bv8>)
    requires addr < 0x1_0000 && |data| < 0x1_0000
    requires Ready(e)
    modifies e, e.flash.mem
    ensures e.Valid() && e.initialized == old(e.initialized)
    ensures o1 != Ok ==> o2 == o1
    ensures o1 == Ok && o2 == Ok ==> out == data
    ensures o1 == Ok && old(e.initialized) ==>
              forall b :: 0 <= b < 2 * WORD_SPAN && !(addr <= b < addr + |data|) ==> Image(e)[b] == old(Image(e))[b]
  {
    ghost var written;
    out := [];
    o1, written := Write(e, addr, |data|, data);
    if o1 != Ok {
      return o1, o1, out;
    }
    o2, out := Read(e, addr, |data|);
    if o2 == Ok && |data| > 0 {
      assert data[..written] == data;
      assert forall i :: 0 <= i < |data| ==> out[i] == data[i];
    }
  }
}
