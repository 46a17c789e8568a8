/*
 * The console command interpreter (app/command.c): parseCmd splits a line
 * typed on UART0 into space-separated arguments, looks the first one up in
 * the command table and runs the handler it names.
 *
 * What a handler does to the outside world is recorded as a trace of
 * effects: a console printf call, an emulated-EEPROM write, a call to
 * DisplayIPAddress, or a system reset.  A reset ends the trace: nothing
 * after SysCtlReset runs.  sscanf is not modelled; the dotted-quad and MAC
 * parsers are parameters (a Scanner), None standing for a return value
 * other than 4 (resp. 6).  The lwIP stack's current addresses are a
 * parameter too (a Stack).
 */
module Command {
  import opened Options
  import opened ConsoleFormat

  const MAXARGS: nat := 6
  /** Each argument buffer holds MAXARGLEN - 1 characters and a NUL. */
  const MAXARGLEN: nat := 31

  const NUL: char := '\0'
  const QUOTE: char := '"'

  // storage_config.h: byte offsets in the emulated EEPROM
  const EEPROM_MAC_ADDR: nat := 0
  const EEPROM_IP_ADDR: nat := 6
  const EEPROM_NETMASK_ADDR: nat := 10
  const EEPROM_GATEWAY_ADDR: nat := 14

  // ---------------------------------------------------------------------------
  // Tokenizer specification (command.c:179-217)
  // ---------------------------------------------------------------------------

  /** The character the tokenizer reads at p; past the end of cmd it reads NUL. */
  function At(cmd: seq<char>, p: nat): char
  {
    if p < |cmd| then cmd[p] else NUL
  }

  /** The text of the line: everything before its first NUL. */
  function Line(cmd: seq<char>): (line: seq<char>)
    ensures NUL !in line
  {
    cmd[..Strlen(cmd)]
  }

  /** The end of the run of non-space characters starting at p: the next space, or |s|. */
  function RunEnd(s: seq<char>, p: nat): (q: nat)
    requires p <= |s|
    ensures p <= q <= |s|
    ensures forall k :: p <= k < q ==> s[k] != ' '
    ensures q < |s| ==> s[q] == ' '
    decreases |s| - p
  {
    if p == |s| || s[p] == ' ' then p else RunEnd(s, p + 1)
  }

  /** The maximal runs of non-space characters of s from p on, left to right. */
  function WordsFrom(s: seq<char>, p: nat): seq<seq<char>>
    requires p <= |s|
    decreases |s| - p
  {
    if p == |s| then []
    else if s[p] == ' ' then WordsFrom(s, p + 1)
    else [s[p..RunEnd(s, p)]] + WordsFrom(s, RunEnd(s, p))
  }

  function Words(s: seq<char>): seq<seq<char>>
  {
    WordsFrom(s, 0)
  }

  /** w without its double quotes. */
  function Unquote(w: seq<char>): seq<char>
  {
    if w == [] then []
    else (if w[0] == QUOTE then [] else [w[0]]) + Unquote(w[1..])
  }

  function UnquoteAll(ws: seq<seq<char>>): (r: seq<seq<char>>)
    ensures |r| == |ws|
  {
    if ws == [] then [] else [Unquote(ws[0])] + UnquoteAll(ws[1..])
  }

  /** The arguments parseCmd extracts from cmd, in order. */
  function Fields(cmd: seq<char>): seq<seq<char>>
  {
    UnquoteAll(Words(Line(cmd)))
  }

  /**
   * The argument buffers do not overflow: at most MAXARGS arguments, each
   * short enough to leave room for its NUL.  parseCmd does not check this.
   */
  predicate Fits(cmd: seq<char>)
  {
    |Fields(cmd)| <= MAXARGS && forall k :: 0 <= k < |Fields(cmd)| ==> |Fields(cmd)[k]| < MAXARGLEN
  }

  // ---------------------------------------------------------------------------
  // Tokenizer properties
  // ---------------------------------------------------------------------------

  lemma {:induction false} RunEndShift(x: seq<char>, y: seq<char>, p: nat)
    requires p <= |y|
    ensures RunEnd(x + y, |x| + p) == |x| + RunEnd(y, p)
    decreases |y| - p
  {
    if p < |y| {
      assert (x + y)[|x| + p] == y[p];
      if y[p] != ' ' {
        RunEndShift(x, y, p + 1);
      }
    }
  }

  lemma WordShiftStep(x: seq<char>, y: seq<char>, p: nat)
    requires p < |y| && y[p] != ' '
    ensures WordsFrom(x + y, |x| + p) == [y[p..RunEnd(y, p)]] + WordsFrom(x + y, |x| + RunEnd(y, p))
  {
    assert (x + y)[|x| + p] == y[p];
    RunEndShift(x, y, p);
    var q := RunEnd(y, p);
    assert (x + y)[|x| + p..|x| + q] == y[p..q];
  }

  /** The words after a prefix x do not depend on x. */
  lemma {:induction false} WordsShift(x: seq<char>, y: seq<char>, p: nat)
    requires p <= |y|
    ensures WordsFrom(x + y, |x| + p) == WordsFrom(y, p)
    decreases |y| - p
  {
    if p < |y| {
      assert (x + y)[|x| + p] == y[p];
      if y[p] == ' ' {
        WordsShift(x, y, p + 1);
      } else {
        WordShiftStep(x, y, p);
        WordsShift(x, y, RunEnd(y, p));
      }
    }
  }

  lemma {:induction false} RunEndThroughSpace(a: seq<char>, b: seq<char>, p: nat)
    requires p <= |a|
    ensures RunEnd(a + [' '] + b, p) == RunEnd(a, p)
    decreases |a| - p
  {
    var s := a + [' '] + b;
    if p == |a| {
      assert s[p] == ' ';
    } else {
      assert s[p] == a[p];
      if a[p] != ' ' {
        RunEndThroughSpace(a, b, p + 1);
      }
    }
  }

  lemma {:induction false} WordsSplitFrom(a: seq<char>, b: seq<char>, p: nat)
    requires p <= |a|
    ensures WordsFrom(a + [' '] + b, p) == WordsFrom(a, p) + Words(b)
    decreases |a| - p
  {
    var s := a + [' '] + b;
    if p == |a| {
      assert s[p] == ' ';
      assert s == (a + [' ']) + b;
      WordsShift(a + [' '], b, 0);
    } else {
      assert s[p] == a[p];
      if a[p] == ' ' {
        WordsSplitFrom(a, b, p + 1);
      } else {
        var q := RunEnd(a, p);
        WordSplitStep(a, b, p);
        WordsSplitFrom(a, b, q);
      }
    }
  }

  lemma WordSplitStep(a: seq<char>, b: seq<char>, p: nat)
    requires p < |a| && a[p] != ' '
    ensures WordsFrom(a + [' '] + b, p) == [a[p..RunEnd(a, p)]] + WordsFrom(a + [' '] + b, RunEnd(a, p))
    ensures WordsFrom(a, p) == [a[p..RunEnd(a, p)]] + WordsFrom(a, RunEnd(a, p))
  {
    var s := a + [' '] + b;
    assert s[p] == a[p];
    RunEndThroughSpace(a, b, p);
    var q := RunEnd(a, p);
    assert s[p..q] == a[p..q];
  }

  /** Splitting at a space: the words on either side, and no word spans it. */
  lemma WordsSplit(a: seq<char>, b: seq<char>)
    ensures Words(a + [' '] + b) == Words(a) + Words(b)
  {
    WordsSplitFrom(a, b, 0);
  }

  /** A nonempty run without spaces is a single word. */
  lemma WordsSingle(w: seq<char>)
    requires w != [] && ' ' !in w
    ensures Words(w) == [w]
  {
    assert w[0] in w;
    assert RunEnd(w, 0) == |w|;
    assert w[0..|w|] == w;
    assert WordsFrom(w, |w|) == [];
  }

  /** Words joined by single spaces, as a user would type them. */
  function Join(ws: seq<seq<char>>): seq<char>
  {
    if ws == [] then []
    else if |ws| == 1 then ws[0]
    else ws[0] + [' '] + Join(ws[1..])
  }

  /** Tokenizing words typed with single spaces between them gives the words back. */
  lemma {:induction false} WordsJoin(ws: seq<seq<char>>)
    requires forall k :: 0 <= k < |ws| ==> ws[k] != [] && ' ' !in ws[k]
    ensures Words(Join(ws)) == ws
    decreases |ws|
  {
    if ws == [] {
    } else if |ws| == 1 {
      WordsSingle(ws[0]);
    } else {
      WordsSplit(ws[0], Join(ws[1..]));
      WordsSingle(ws[0]);
      WordsJoin(ws[1..]);
    }
  }

  /** Leading spaces are skipped. */
  lemma LeadingSpace(s: seq<char>)
    ensures Words([' '] + s) == Words(s)
  {
    WordsShift([' '], s, 0);
  }

  /** Every word is a nonempty run of non-space characters taken from s. */
  lemma {:induction false} WordsShape(s: seq<char>, p: nat)
    requires p <= |s|
    ensures forall w :: w in WordsFrom(s, p) ==> w != [] && ' ' !in w && forall c :: c in w ==> c in s
    decreases |s| - p
  {
    if p < |s| {
      if s[p] == ' ' {
        WordsShape(s, p + 1);
      } else {
        var q := RunEnd(s, p);
        WordsShape(s, q);
        assert forall c :: c in s[p..q] ==> c in s;
      }
    }
  }

  lemma {:induction false} UnquoteAppend(a: seq<char>, b: seq<char>)
    ensures Unquote(a + b) == Unquote(a) + Unquote(b)
    decreases |a|
  {
    if a == [] {
      assert a + b == b;
    } else {
      assert (a + b)[0] == a[0];
      assert (a + b)[1..] == a[1..] + b;
      UnquoteAppend(a[1..], b);
    }
  }

  /** Unquote drops the double quotes and keeps every other character. */
  lemma {:induction false} UnquoteShape(w: seq<char>)
    ensures QUOTE !in Unquote(w)
    ensures forall c :: c != QUOTE ==> (c in Unquote(w) <==> c in w)
    decreases |w|
  {
    if w != [] {
      UnquoteShape(w[1..]);
      assert w == [w[0]] + w[1..];
    }
  }

  lemma {:induction false} UnquoteAllMember(ws: seq<seq<char>>, t: seq<char>)
    requires t in UnquoteAll(ws)
    ensures exists w :: w in ws && t == Unquote(w)
    decreases |ws|
  {
    if t != Unquote(ws[0]) {
      UnquoteAllMember(ws[1..], t);
    }
  }

  /** No argument holds a space, a double quote or a NUL. */
  lemma FieldsClean(cmd: seq<char>, t: seq<char>)
    requires t in Fields(cmd)
    ensures ' ' !in t && QUOTE !in t && NUL !in t
  {
    UnquoteAllMember(Words(Line(cmd)), t);
    var w :| w in Words(Line(cmd)) && t == Unquote(w);
    WordsShape(Line(cmd), 0);
    UnquoteShape(w);
  }

  /** A double quote inside an argument does not split it: `set"ip` is the argument `setip`. */
  lemma QuoteInside(a: seq<char>, b: seq<char>)
    requires a != [] && ' ' !in a && QUOTE !in a
    requires ' ' !in b && QUOTE !in b
    ensures UnquoteAll(Words(a + [QUOTE] + b)) == [a + b]
  {
    var w := a + [QUOTE] + b;
    assert ' ' !in w by {
      forall k | 0 <= k < |w|
        ensures w[k] != ' '
      {
        if k < |a| {
          assert w[k] == a[k];
        } else if k > |a| {
          assert w[k] == b[k - |a| - 1];
        }
      }
    }
    WordsSingle(w);
    QuotedUnquote(a, b);
  }

  lemma QuotedUnquote(a: seq<char>, b: seq<char>)
    requires QUOTE !in a && QUOTE !in b
    ensures Unquote(a + [QUOTE] + b) == a + b
  {
    UnquoteAppend(a + [QUOTE], b);
    UnquoteAppend(a, [QUOTE]);
    UnquotePlain(a);
    UnquotePlain(b);
    assert Unquote([QUOTE]) == [];
    assert Unquote(a + [QUOTE]) == a;
  }

  lemma {:induction false} UnquotePlain(w: seq<char>)
    requires QUOTE !in w
    ensures Unquote(w) == w
    decreases |w|
  {
    if w != [] {
      assert w[0] in w;
      assert QUOTE !in w[1..] by {
        assert forall c :: c in w[1..] ==> c in w;
      }
      UnquotePlain(w[1..]);
      assert w == [w[0]] + w[1..];
    }
  }

  // ---------------------------------------------------------------------------
  // Tokenizer (command.c:179-217)
  // ---------------------------------------------------------------------------

  /** The characters parseCmd reads from cmd are those of Line(cmd), then a NUL. */
  lemma ReadsLine(cmd: seq<char>, p: nat)
    requires p <= |Line(cmd)|
    ensures At(cmd, p) == (if p < |Line(cmd)| then Line(cmd)[p] else NUL)
  {
  }

  /**
   * Taking the argument that starts at start: what remains is the line
   * after the space that ends it, or nothing when it ends the line.
   */
  lemma TokenAt(line: seq<char>, start: nat, args: seq<seq<char>>, fields: seq<seq<char>>)
    requires start < |line| && line[start] != ' '
    requires args + UnquoteAll(WordsFrom(line, start)) == fields
    ensures |args| < |fields|
    ensures fields[|args|] == Unquote(line[start..RunEnd(line, start)])
    ensures var q := RunEnd(line, start);
      if q == |line| then args + [fields[|args|]] == fields
      else args + [fields[|args|]] + UnquoteAll(WordsFrom(line, q + 1)) == fields
  {
    var q := RunEnd(line, start);
    UnquoteAllAppend([line[start..q]], WordsFrom(line, q));
  }

  lemma UnquoteAllAppend(a: seq<seq<char>>, b: seq<seq<char>>)
    ensures UnquoteAll(a + b) == UnquoteAll(a) + UnquoteAll(b)
  {
    if a != [] {
      assert (a + b)[1..] == a[1..] + b;
      UnquoteAllAppend(a[1..], b);
    } else {
      assert a + b == b;
    }
  }

  /** Copying a prefix of an argument never yields more than copying all of it. */
  lemma UnquotePrefix(line: seq<char>, start: nat, p: nat, e: nat)
    requires start <= p <= e <= |line|
    ensures |Unquote(line[start..p])| <= |Unquote(line[start..e])|
  {
    assert line[start..e] == line[start..p] + line[p..e];
    UnquoteAppend(line[start..p], line[p..e]);
  }

  /** Copying one more character appends it, unless it is a double quote. */
  lemma CopyStep(line: seq<char>, start: nat, p: nat)
    requires start <= p < |line|
    ensures Unquote(line[start..p + 1])
         == Unquote(line[start..p]) + if line[p] == QUOTE then [] else [line[p]]
  {
    UnquoteAppend(line[start..p], [line[p]]);
    assert line[start..p + 1] == line[start..p] + [line[p]];
  }

  /** The textresume loop: skip the spaces in front of the next argument. */
  method SkipSpaces(cmd: seq<char>, p0: nat) returns (p: nat)
    requires p0 <= |Line(cmd)|
    ensures p0 <= p <= |Line(cmd)|
    ensures p < |Line(cmd)| ==> Line(cmd)[p] != ' '
    ensures WordsFrom(Line(cmd), p0) == WordsFrom(Line(cmd), p)
  {
    ghost var line := Line(cmd);
    p := p0;
    ReadsLine(cmd, p);
    while At(cmd, p) == ' '
      invariant p0 <= p <= |line|
      invariant At(cmd, p) == (if p < |line| then line[p] else NUL)
      invariant WordsFrom(line, p0) == WordsFrom(line, p)
      decreases |line| - p
    {
      p := p + 1;
      ReadsLine(cmd, p);
    }
  }

  /**
   * The text loop: copy the argument starting at start, dropping double
   * quotes, up to the space or NUL that ends it.  The argument must fit its
   * buffer together with its NUL.
   */
  method CopyArg(cmd: seq<char>, start: nat) returns (s: seq<char>, p: nat)
    requires start < |Line(cmd)| && Line(cmd)[start] != ' '
    requires |Unquote(Line(cmd)[start..RunEnd(Line(cmd), start)])| < MAXARGLEN
    ensures p == RunEnd(Line(cmd), start)
    ensures s == Unquote(Line(cmd)[start..p])
  {
    ghost var line := Line(cmd);
    ghost var e := RunEnd(line, start);
    p := start;
    s := [];
    ReadsLine(cmd, p);
    while At(cmd, p) != NUL && At(cmd, p) != ' '
      invariant start <= p <= e
      invariant At(cmd, p) == (if p < |line| then line[p] else NUL)
      invariant s == Unquote(line[start..p])
      decreases |line| - p
    {
      var c := At(cmd, p);
      CopyStep(line, start, p);
      UnquotePrefix(line, start, p + 1, e);
      if c != QUOTE {
        assert |s| + 1 < MAXARGLEN;  // *s++ = *cmd++
        s := s + [c];
      }
      p := p + 1;
      ReadsLine(cmd, p);
    }
    assert |s| < MAXARGLEN;  // *s = 0
  }

  /**
   * parseCmd's argument loop: spaces are skipped, every other character but
   * a double quote is copied into the current argument, and a space or the
   * terminating NUL closes the argument.
   */
  method Tokenize(cmd: seq<char>) returns (args: seq<seq<char>>)
    requires Fits(cmd)
    ensures args == Fields(cmd)
  {
    ghost var line := Line(cmd);
    ghost var fields := Fields(cmd);
    var p: nat := 0;
    var done := false;
    args := [];
    while !done
      invariant p <= |line|
      invariant !done ==> args + UnquoteAll(WordsFrom(line, p)) == fields
      invariant done ==> args == fields
      decreases if done then 0 else 1, |line| - p
    {
      p := SkipSpaces(cmd, p);
      ReadsLine(cmd, p);
      if At(cmd, p) == NUL {
        assert args + [] == args;
        done := true;
      } else {
        TokenAt(line, p, args, fields);
        assert |args| < MAXARGS;  // s = args[nargs]
        var s;
        s, p := CopyArg(cmd, p);
        args := args + [s];
        ReadsLine(cmd, p);
        if At(cmd, p) == NUL {
          done := true;
        } else {
          p := p + 1;
        }
      }
    }
  }

  // ---------------------------------------------------------------------------
  // Effects, parsed values and the command table (command.c:20-25, 149-157)
  // ---------------------------------------------------------------------------

  /** One thing a command does outside the interpreter. */
  datatype Effect =
    | Print(fmt: seq<char>, args: seq<Arg>)   // UARTprintf(fmt, args...)
    | Save(addr: nat, bytes: seq<bv8>)        // SoftEEPROM_WrapperWrite(addr, |bytes|, bytes)
    | Display(ipaddr: Long, kind: seq<char>) // DisplayIPAddress(ipaddr, kind)
    | Reset                                   // SysCtlReset(): the system restarts

  /** A C int. */
  type Int32 = x: int | -0x8000_0000 <= x < 0x8000_0000

  /** The four numbers sscanf assigns for "%d.%d.%d.%d". */
  datatype Quad = Quad(a: Int32, b: Int32, c: Int32, d: Int32)

  /** The six numbers sscanf assigns for the MAC format, as 32-bit unsigned ints. */
  type Hexes = h: seq<bv32> | |h| == 6 witness [0, 0, 0, 0, 0, 0]

  type Mac = m: seq<bv8> | |m| == 6 witness [0, 0, 0, 0, 0, 0]

  /** The two sscanf calls; None is any return value other than the number of conversions. */
  datatype Scanner = Scanner(quad: seq<char> -> Option<Quad>, hexes: seq<char> -> Option<Hexes>)

  /** What the network stack reports: lwIPLocalIPAddrGet and the like. */
  datatype Stack = Stack(ip: Long, mask: Long, gateway: Long, mac: Mac)

  datatype Handler = SystemReset | Help | GetIpAddr | SetIpAddr | GetMacAddr | SetMacAddr

  /** struct command */
  datatype Entry = Entry(keyword: seq<char>, handler: Handler, desc: seq<char>)

  /** cmd_tbl */
  const TABLE: seq<Entry> := [
    Entry("reset", SystemReset, "Reset the system"),
    Entry("help", Help, "Check which commands support"),
    Entry("getip", GetIpAddr, "Get the ip address,netmask and gateway"),
    Entry("setip", SetIpAddr, "Set the ip address, netmask and gateway"),
    Entry("getmac", GetMacAddr, "Get the MAC address"),
    Entry("setmac", SetMacAddr, "Set the MAC address")
  ]

  const SETIP_USAGE: seq<char> := "Usage:setip ip netmask [gateway]\n"
  const SETIP_REPORT: seq<char> := "setIpAddr:ip = 0x%08x, nm = 0x%08x, gw = 0x%08x\n"
  const SETMAC_USAGE: seq<char> := "setmac macaddr(xx-xx-xx-xx-xx-xx)\n"
  const MAC_REPORT: seq<char> := "MAC: %02x-%02x-%02x-%02x-%02x-%02x\n"
  const HELP_LINE: seq<char> := "%s: %s\n"
  const UNKNOWN: seq<char> := "Unknown command!Use help to check which commands support.\n"
  const PROMPT: seq<char> := "lwip:"

  // ---------------------------------------------------------------------------
  // setip: packing a dotted quad (command.c:35-87)
  // ---------------------------------------------------------------------------

  /** The two's-complement bit pattern of a C int. */
  function Bits(x: Int32): bv32
  {
    (if x < 0 then x + 0x1_0000_0000 else x) as bv32
  }

  /** a << 24 | b << 16 | c << 8 | d, evaluated on 32-bit words. */
  function Pack(q: Quad): bv32
  {
    (Bits(q.a) << 24) | (Bits(q.b) << 16) | (Bits(q.c) << 8) | Bits(q.d)
  }

  /** ulIp, ulNm, ulGw: the packed quad when sscanf assigned all four numbers, else 0. */
  function Address(scan: Option<Quad>): bv32
  {
    if scan.Some? then Pack(scan.value) else 0
  }

  /** The value of a 32-bit word as a printf argument. */
  function Value(x: bv32): Long
  {
    x as int
  }

  /** The bytes of an unsigned long in memory, least significant first (ARM Cortex-M is little-endian). */
  function LittleEndian(x: bv32): (r: seq<bv8>)
    ensures |r| == 4
  {
    [(x & 0xFF) as bv8, ((x >> 8) & 0xFF) as bv8, ((x >> 16) & 0xFF) as bv8, (x >> 24) as bv8]
  }

  /** Reading four bytes back, least significant first. */
  function FromLittleEndian(r: seq<bv8>): bv32
    requires |r| == 4
  {
    (r[0] as bv32) | ((r[1] as bv32) << 8) | ((r[2] as bv32) << 16) | ((r[3] as bv32) << 24)
  }

  /** The word saved to the emulated EEPROM reads back unchanged. */
  lemma LittleEndianRoundTrip(x: bv32)
    ensures FromLittleEndian(LittleEndian(x)) == x
  {
  }

  predicate IsOctet(x: Int32) { 0 <= x < 256 }

  predicate Octets(q: Quad) { IsOctet(q.a) && IsOctet(q.b) && IsOctet(q.c) && IsOctet(q.d) }

  /** An octet's bit pattern fits a byte and is zero only for 0. */
  lemma BitsOctet(x: Int32)
    requires IsOctet(x)
    ensures Bits(x) < 256 && (Bits(x) == 0 <==> x == 0)
  {
  }

  lemma PackFields(a: bv32, b: bv32, c: bv32, d: bv32)
    requires a < 256 && b < 256 && c < 256 && d < 256
    ensures var w := (a << 24) | (b << 16) | (c << 8) | d;
      w >> 24 == a && (w >> 16) & 0xFF == b && (w >> 8) & 0xFF == c && w & 0xFF == d
  {
  }

  /** For octets, the packed word holds a, b, c, d from the most significant byte down. */
  lemma PackOctets(q: Quad)
    requires Octets(q)
    ensures Pack(q) >> 24 == Bits(q.a) && (Pack(q) >> 16) & 0xFF == Bits(q.b)
    ensures (Pack(q) >> 8) & 0xFF == Bits(q.c) && Pack(q) & 0xFF == Bits(q.d)
  {
    BitsOctet(q.a);
    BitsOctet(q.b);
    BitsOctet(q.c);
    BitsOctet(q.d);
    PackFields(Bits(q.a), Bits(q.b), Bits(q.c), Bits(q.d));
  }

  /** For octets, the saved bytes are d, c, b, a: the quad in reverse. */
  lemma SavedOctets(q: Quad)
    requires Octets(q)
    ensures LittleEndian(Pack(q))
         == [Bits(q.d) as bv8, Bits(q.c) as bv8, Bits(q.b) as bv8, Bits(q.a) as bv8]
  {
    PackOctets(q);
  }

  /** An all-octet quad packs to 0, and is refused, exactly when it is 0.0.0.0. */
  lemma PackZero(q: Quad)
    requires Octets(q)
    ensures Pack(q) == 0 <==> q == Quad(0, 0, 0, 0)
  {
    PackOctets(q);
    BitsOctet(q.a);
    BitsOctet(q.b);
    BitsOctet(q.c);
    BitsOctet(q.d);
  }

  /** The numbers are not range-checked: a negative last number floods the word with ones. */
  lemma NegativeOctet()
    ensures Pack(Quad(10, 0, 0, -1)) == 0xFFFF_FFFF
  {
  }

  /** setIpAddr */
  function SetIp(args: seq<seq<char>>, scan: Scanner): (r: seq<Effect>)
    ensures Reset in r <==>
      (|args| == 3 || |args| == 4) && Address(scan.quad(args[1])) != 0 && Address(scan.quad(args[2])) != 0
    ensures Reset !in r ==> r == [Print(SETIP_USAGE, [])]
  {
    if |args| <= 2 || |args| >= 5 then [Print(SETIP_USAGE, [])]
    else
      var ip := Address(scan.quad(args[1]));
      var nm := Address(scan.quad(args[2]));
      var gw := if |args| == 4 then Address(scan.quad(args[3])) else 0;
      if ip != 0 && nm != 0 then
        [Print(SETIP_REPORT, [Word(Value(ip)), Word(Value(nm)), Word(Value(gw))]),
         Save(EEPROM_IP_ADDR, LittleEndian(ip)),
         Save(EEPROM_NETMASK_ADDR, LittleEndian(nm)),
         Save(EEPROM_GATEWAY_ADDR, LittleEndian(gw)),
         Reset]
      else [Print(SETIP_USAGE, [])]
  }

  /**
   * When setip acts, the EEPROM receives the address, the netmask and the
   * gateway (0 when absent or unparsed) at their offsets, and reads them
   * back as the packed words.
   */
  lemma SetIpSaves(args: seq<seq<char>>, scan: Scanner)
    requires Reset in SetIp(args, scan)
    ensures var r := SetIp(args, scan);
      var gw := if |args| == 4 then Address(scan.quad(args[3])) else 0;
      && r[1].Save? && r[1].addr == EEPROM_IP_ADDR && FromLittleEndian(r[1].bytes) == Address(scan.quad(args[1]))
      && r[2].Save? && r[2].addr == EEPROM_NETMASK_ADDR && FromLittleEndian(r[2].bytes) == Address(scan.quad(args[2]))
      && r[3].Save? && r[3].addr == EEPROM_GATEWAY_ADDR && FromLittleEndian(r[3].bytes) == gw
      && r[4] == Reset && |r| == 5
  {
    LittleEndianRoundTrip(Address(scan.quad(args[1])));
    LittleEndianRoundTrip(Address(scan.quad(args[2])));
    LittleEndianRoundTrip(if |args| == 4 then Address(scan.quad(args[3])) else 0);
  }

  // ---------------------------------------------------------------------------
  // setmac, getip, getmac, help (command.c:89-169)
  // ---------------------------------------------------------------------------

  /** mac[i] = pucMACArray[i]: the conversion to unsigned char keeps the low byte. */
  function Low(v: bv32): (b: bv8)
    ensures b as bv32 == v & 0xFF
  {
    (v & 0xFF) as bv8
  }

  function Truncated(h: Hexes): (m: Mac)
  {
    [Low(h[0]), Low(h[1]), Low(h[2]), Low(h[3]), Low(h[4]), Low(h[5])]
  }

  /** What setMacAddr does. */
  function SetMacTrace(args: seq<seq<char>>, scan: Scanner): (r: seq<Effect>)
  {
    if |args| != 2 || scan.hexes(args[1]).None? then [Print(SETMAC_USAGE, [])]
    else [Save(EEPROM_MAC_ADDR, Truncated(scan.hexes(args[1]).value)), Reset]
  }

  /**
   * setmac resets exactly when it has one argument that parses as six
   * numbers, after saving their low bytes, in order, at EEPROM_MAC_ADDR.
   */
  lemma SetMacSaves(args: seq<seq<char>>, scan: Scanner)
    ensures var r := SetMacTrace(args, scan);
      (Reset in r <==> |args| == 2 && scan.hexes(args[1]).Some?)
      && (Reset in r ==>
            |r| == 2 && r[0].Save? && r[0].addr == EEPROM_MAC_ADDR && |r[0].bytes| == 6
            && forall i :: 0 <= i < 6 ==> r[0].bytes[i] as bv32 == scan.hexes(args[1]).value[i] & 0xFF)
      && (Reset !in r ==> r == [Print(SETMAC_USAGE, [])])
  {
    var r := SetMacTrace(args, scan);
    if |args| == 2 && scan.hexes(args[1]).Some? {
      var h := scan.hexes(args[1]).value;
      assert forall i :: 0 <= i < 6 ==> Truncated(h)[i] == Low(h[i]);
    }
  }

  /** setMacAddr */
  method SetMac(args: seq<seq<char>>, scan: Scanner) returns (effects: seq<Effect>)
    ensures effects == SetMacTrace(args, scan)
  {
    if |args| != 2 {
      effects := [Print(SETMAC_USAGE, [])];
    } else {
      var parsed := scan.hexes(args[1]);
      if parsed.Some? {
        var mac := new bv8[6];
        for i := 0 to 6
          invariant forall k :: 0 <= k < i ==> mac[k] == Low(parsed.value[k])
        {
          mac[i] := (parsed.value[i] & 0xFF) as bv8;
        }
        assert mac[..] == Truncated(parsed.value);
        effects := [Save(EEPROM_MAC_ADDR, mac[..]), Reset];
      } else {
        effects := [Print(SETMAC_USAGE, [])];
      }
    }
  }

  /** getIpAddr */
  function GetIp(net: Stack): seq<Effect>
  {
    [Display(net.ip, "IP"), Display(net.mask, "MASK"), Display(net.gateway, "GW")]
  }

  /** getMacAddr: each byte goes to printf as an int. */
  function GetMac(net: Stack): seq<Effect>
  {
    [Print(MAC_REPORT, [Word(net.mac[0] as int), Word(net.mac[1] as int), Word(net.mac[2] as int),
                        Word(net.mac[3] as int), Word(net.mac[4] as int), Word(net.mac[5] as int)])]
  }

  function HelpLine(e: Entry): Effect
  {
    Print(HELP_LINE, [Text(e.keyword), Text(e.desc)])
  }

  /** What help prints: one line per table entry. */
  function HelpTrace(): (r: seq<Effect>)
  {
    seq(|TABLE|, i requires 0 <= i < |TABLE| => HelpLine(TABLE[i]))
  }

  /** help */
  method ListCommands() returns (effects: seq<Effect>)
    ensures |effects| == |TABLE|
    ensures forall i :: 0 <= i < |TABLE| ==> effects[i] == Print(HELP_LINE, [Text(TABLE[i].keyword), Text(TABLE[i].desc)])
  {
    effects := [];
    for i := 0 to |TABLE|
      invariant |effects| == i
      invariant forall k :: 0 <= k < i ==> effects[k] == HelpLine(TABLE[k])
    {
      effects := effects + [HelpLine(TABLE[i])];
    }
  }

  /** What the handler h does when called with the arguments args. */
  function Run(h: Handler, args: seq<seq<char>>, net: Stack, scan: Scanner): seq<Effect>
  {
    match h
    case SystemReset => [Reset]
    case Help => HelpTrace()
    case GetIpAddr => GetIp(net)
    case SetIpAddr => SetIp(args, scan)
    case GetMacAddr => GetMac(net)
    case SetMacAddr => SetMacTrace(args, scan)
  }

  /** cmd_tbl[i].func(nargs, pargs) */
  method Invoke(h: Handler, args: seq<seq<char>>, net: Stack, scan: Scanner) returns (effects: seq<Effect>)
    ensures effects == Run(h, args, net, scan)
  {
    match h
    case SystemReset => effects := [Reset];
    case Help => effects := ListCommands();
    case GetIpAddr => effects := GetIp(net);
    case SetIpAddr => effects := SetIp(args, scan);
    case GetMacAddr => effects := GetMac(net);
    case SetMacAddr => effects := SetMac(args, scan);
  }

  /** A reset can only come last: nothing runs after SysCtlReset. */
  predicate ResetLast(r: seq<Effect>)
  {
    forall k :: 0 <= k < |r| && r[k] == Reset ==> k == |r| - 1
  }

  /** No handler's message is the unknown-command message or the prompt. */
  lemma MessagesDistinct()
    ensures |UNKNOWN| == 58 && |PROMPT| == 5
    ensures |HELP_LINE| == 7 && |SETIP_USAGE| == 33 && |SETIP_REPORT| == 48
    ensures |SETMAC_USAGE| == 34 && |MAC_REPORT| == 35
    ensures UNKNOWN != PROMPT
    ensures HELP_LINE != UNKNOWN && HELP_LINE != PROMPT
    ensures SETIP_USAGE != UNKNOWN && SETIP_USAGE != PROMPT && SETIP_REPORT != UNKNOWN && SETIP_REPORT != PROMPT
    ensures SETMAC_USAGE != UNKNOWN && SETMAC_USAGE != PROMPT && MAC_REPORT != UNKNOWN && MAC_REPORT != PROMPT
  {
  }

  lemma HelpShape()
    ensures forall k :: 0 <= k < |HelpTrace()| ==> HelpTrace()[k].Print? && HelpTrace()[k].fmt == HELP_LINE
  {
  }

  /** The trace prints neither the unknown-command message nor the prompt, and resets only last. */
  predicate Quiet(r: seq<Effect>)
  {
    Print(UNKNOWN, []) !in r && Print(PROMPT, []) !in r && ResetLast(r)
  }

  lemma SetIpQuiet(args: seq<seq<char>>, scan: Scanner)
    ensures Quiet(SetIp(args, scan))
  {
    MessagesDistinct();
  }

  lemma SetMacQuiet(args: seq<seq<char>>, scan: Scanner)
    ensures Quiet(SetMacTrace(args, scan))
  {
    MessagesDistinct();
  }

  /** Every handler's trace is Quiet: the interpreter's own messages come only from parseCmd. */
  lemma RunShape(h: Handler, args: seq<seq<char>>, net: Stack, scan: Scanner)
    ensures Quiet(Run(h, args, net, scan))
  {
    match h
    case SystemReset =>
    case Help =>
      MessagesDistinct();
      HelpShape();
    case GetIpAddr =>
    case SetIpAddr =>
      SetIpQuiet(args, scan);
    case GetMacAddr =>
      MessagesDistinct();
    case SetMacAddr =>
      SetMacQuiet(args, scan);
  }

  // ---------------------------------------------------------------------------
  // Dispatch (command.c:226-241)
  // ---------------------------------------------------------------------------

  function MatchFrom(name: seq<char>, j: nat): (i: nat)
    requires j <= |TABLE|
    ensures j <= i <= |TABLE|
    ensures forall k :: j <= k < i ==> TABLE[k].keyword != name
    ensures i < |TABLE| ==> TABLE[i].keyword == name
    decreases |TABLE| - j
  {
    if j == |TABLE| then j
    else if TABLE[j].keyword == name then j
    else MatchFrom(name, j + 1)
  }

  /** The index of the first table entry whose keyword is name, or |TABLE| when there is none. */
  function Match(name: seq<char>): nat
  {
    MatchFrom(name, 0)
  }

  /** The dispatch loop: the first entry whose keyword equals name, or |TABLE|. */
  method FindCommand(name: seq<char>) returns (i: nat)
    ensures i <= |TABLE|
    ensures forall k :: 0 <= k < i ==> TABLE[k].keyword != name
    ensures i < |TABLE| ==> TABLE[i].keyword == name
  {
    i := 0;
    while i < |TABLE| && TABLE[i].keyword != name
      invariant i <= |TABLE|
      invariant forall k :: 0 <= k < i ==> TABLE[k].keyword != name
    {
      i := i + 1;
    }
  }

  /** args[0]: the first argument, or whatever the uninitialised buffer holds when the line has none. */
  function Name(args: seq<seq<char>>, stale: seq<char>): seq<char>
  {
    if args == [] then stale else args[0]
  }

  /** A trace ends the session when its last effect is a reset. */
  predicate Halts(r: seq<Effect>)
  {
    r != [] && r[|r| - 1] == Reset
  }

  /**
   * What parseCmd does once the table lookup gave i: the handler runs;
   * unless it reset the system, the unknown-command message follows when
   * nothing matched and the line was not empty, then the prompt.
   */
  function Reply(i: nat, args: seq<seq<char>>, nonEmpty: bool, net: Stack, scan: Scanner): seq<Effect>
  {
    var out := if i < |TABLE| then Run(TABLE[i].handler, args, net, scan) else [];
    if Halts(out) then out
    else out + (if i == |TABLE| && nonEmpty then [Print(UNKNOWN, [])] else []) + [Print(PROMPT, [])]
  }

  /** What parseCmd does with the line cmd, args[0] holding stale when the line has no argument. */
  function Respond(cmd: seq<char>, stale: seq<char>, net: Stack, scan: Scanner): seq<Effect>
  {
    var args := Fields(cmd);
    Reply(Match(Name(args, stale)), args, At(cmd, 0) != NUL, net, scan)
  }

  /** The end of parseCmd: call the handler found, then the messages. */
  method Answer(i: nat, args: seq<seq<char>>, nonEmpty: bool, net: Stack, scan: Scanner)
    returns (effects: seq<Effect>)
    requires i <= |TABLE|
    ensures effects == Reply(i, args, nonEmpty, net, scan)
  {
    effects := [];
    if i < |TABLE| {
      effects := Invoke(TABLE[i].handler, args, net, scan);
      if Halts(effects) {
        return;
      }
    }
    if i == |TABLE| && nonEmpty {
      effects := effects + [Print(UNKNOWN, [])];
    }
    effects := effects + [Print(PROMPT, [])];
  }

  /** parseCmd; its len argument is unused. */
  method ParseCmd(cmd: seq<char>, stale: seq<char>, net: Stack, scan: Scanner) returns (effects: seq<Effect>)
    requires Fits(cmd)
    ensures effects == Respond(cmd, stale, net, scan)
  {
    var args := Tokenize(cmd);
    var name := if |args| == 0 then stale else args[0];
    var i := FindCommand(name);
    assert i == Match(name);
    effects := Answer(i, args, At(cmd, 0) != NUL, net, scan);
  }

  // ---------------------------------------------------------------------------
  // Properties of parseCmd
  // ---------------------------------------------------------------------------

  lemma KeywordsDistinct(name: seq<char>, k: nat)
    requires k < |TABLE| && TABLE[k].keyword == name
    ensures Match(name) == k
  {
  }

  /**
   * The unknown-command message is printed exactly when no keyword matched
   * and the line was not empty.
   */
  lemma UnknownCommand(cmd: seq<char>, stale: seq<char>, net: Stack, scan: Scanner)
    ensures Print(UNKNOWN, []) in Respond(cmd, stale, net, scan)
        <==> Match(Name(Fields(cmd), stale)) == |TABLE| && Line(cmd) != []
  {
    var args := Fields(cmd);
    var i := Match(Name(args, stale));
    if i < |TABLE| {
      RunShape(TABLE[i].handler, args, net, scan);
    }
    assert At(cmd, 0) != NUL <==> Line(cmd) != [];
  }

  /**
   * A reset ends the trace and happens at most once; without one, the trace
   * ends with the prompt.
   */
  lemma ResetEnds(cmd: seq<char>, stale: seq<char>, net: Stack, scan: Scanner)
    ensures var r := Respond(cmd, stale, net, scan);
      ResetLast(r) && (Reset !in r ==> r != [] && r[|r| - 1] == Print(PROMPT, []))
  {
    var args := Fields(cmd);
    var i := Match(Name(args, stale));
    if i < |TABLE| {
      var out := Run(TABLE[i].handler, args, net, scan);
      RunShape(TABLE[i].handler, args, net, scan);
    }
  }

  /** A line whose first argument is a keyword runs that entry's handler, first. */
  lemma DispatchKeyword(cmd: seq<char>, stale: seq<char>, net: Stack, scan: Scanner, k: nat)
    requires k < |TABLE| && Fields(cmd) != [] && Fields(cmd)[0] == TABLE[k].keyword
    ensures Run(TABLE[k].handler, Fields(cmd), net, scan) <= Respond(cmd, stale, net, scan)
    ensures Print(UNKNOWN, []) !in Respond(cmd, stale, net, scan)
  {
    KeywordsDistinct(TABLE[k].keyword, k);
    UnknownCommand(cmd, stale, net, scan);
  }

  /**
   * A line without arguments runs nothing unless the stale args[0] buffer
   * happens to hold a keyword; otherwise a line of spaces draws the
   * unknown-command message and an empty line only the prompt.
   */
  lemma BlankLine(cmd: seq<char>, stale: seq<char>, net: Stack, scan: Scanner)
    requires Fields(cmd) == [] && Match(stale) == |TABLE|
    ensures Respond(cmd, stale, net, scan)
         == if Line(cmd) != [] then [Print(UNKNOWN, []), Print(PROMPT, [])] else [Print(PROMPT, [])]
  {
    assert At(cmd, 0) != NUL <==> Line(cmd) != [];
  }

  lemma {:induction false} JoinChars(ws: seq<seq<char>>, c: char)
    requires c in Join(ws)
    ensures c == ' ' || exists k :: 0 <= k < |ws| && c in ws[k]
    decreases |ws|
  {
    if |ws| > 1 {
      if c !in ws[0] && c != ' ' {
        JoinChars(ws[1..], c);
        var k :| 0 <= k < |ws| - 1 && c in ws[1..][k];
        assert c in ws[k + 1];
      }
    }
  }

  lemma {:induction false} UnquoteAllPlain(ws: seq<seq<char>>)
    requires forall k :: 0 <= k < |ws| ==> QUOTE !in ws[k]
    ensures UnquoteAll(ws) == ws
    decreases |ws|
  {
    if ws != [] {
      UnquotePlain(ws[0]);
      UnquoteAllPlain(ws[1..]);
    }
  }

  /** Arguments typed with single spaces between them, without quotes, are parsed back as typed. */
  lemma TypedLine(ws: seq<seq<char>>)
    requires forall k :: 0 <= k < |ws| ==> ws[k] != [] && ' ' !in ws[k] && QUOTE !in ws[k] && NUL !in ws[k]
    ensures Fields(Join(ws)) == ws
  {
    var s := Join(ws);
    if NUL in s {
      JoinChars(ws, NUL);
    }
    assert Strlen(s) == |s|;
    assert Line(s) == s;
    WordsJoin(ws);
    UnquoteAllPlain(ws);
  }

  predicate Plain(w: seq<char>)
  {
    w != [] && ' ' !in w && QUOTE !in w && NUL !in w
  }

  /**
   * Typing `setip ip netmask`: the address and netmask are saved and the
   * system resets exactly when both parse to nonzero words; otherwise the
   * usage message and the prompt are printed.
   */
  lemma SetIpTyped(ip: seq<char>, nm: seq<char>, stale: seq<char>, net: Stack, scan: Scanner)
    requires Plain(ip) && Plain(nm)
    ensures var r := Respond(Join(["setip", ip, nm]), stale, net, scan);
      (Reset in r <==> Address(scan.quad(ip)) != 0 && Address(scan.quad(nm)) != 0)
      && (Reset in r ==> r == SetIp(["setip", ip, nm], scan))
      && (Reset !in r ==> r == [Print(SETIP_USAGE, []), Print(PROMPT, [])])
  {
    var ws := ["setip", ip, nm];
    assert Plain(ws[0]);
    TypedLine(ws);
    KeywordsDistinct("setip", 3);
    var cmd := Join(ws);
    assert cmd[0] == 's';
    assert Respond(cmd, stale, net, scan) == Reply(3, ws, true, net, scan);
    SetIpReply(ws, net, scan);
  }

  lemma SetIpReply(ws: seq<seq<char>>, net: Stack, scan: Scanner)
    requires |ws| == 3
    ensures var r := Reply(3, ws, true, net, scan);
      (Reset in r <==> Address(scan.quad(ws[1])) != 0 && Address(scan.quad(ws[2])) != 0)
      && (Reset in r ==> r == SetIp(ws, scan))
      && (Reset !in r ==> r == [Print(SETIP_USAGE, []), Print(PROMPT, [])])
  {
    MessagesDistinct();
    assert TABLE[3].handler == SetIpAddr;
  }
}
