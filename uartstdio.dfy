/**
 * The console of the board over UART0 (uartstdio.c, unbuffered build).
 *
 * The UART is a Console object: `sent` is everything MAP_UARTCharPut has put
 * on the line so far, `pending` the characters MAP_UARTCharGet will deliver
 * next, and `lastWasCR` the static bLastWasCR of UARTgets, which survives
 * from one call to the next.  UARTwrite, UARTgets and UARTprintf are methods
 * on it; what they send is given by the functions of ConsoleFormat and by the
 * line-editing function LineEdit below.
 */
module UartStdio {
  import opened Options
  import opened ConsoleFormat

  const BACKSPACE: char := '\U{8}'
  const ESCAPE: char := '\U{1b}'
  /** What a backspace echoes: back, blank, back. */
  const RUB_OUT: seq<char> := [BACKSPACE, ' ', BACKSPACE]

  /** CR, LF and ESC end a line in UARTgets. */
  predicate EndsLine(c: char)
  {
    c == '\r' || c == '\n' || c == ESCAPE
  }

  /** A character UARTgets stores rather than acting on. */
  predicate Stored(c: char)
  {
    c != BACKSPACE && !EndsLine(c)
  }

  // ---------------------------------------------------------------------------
  // Line editing (uartstdio.c:675-798)
  // ---------------------------------------------------------------------------

  /** The outcome of one UARTgets call: the caller's buffer before the final
      NUL, the number of characters stored, what was echoed, the new value of
      bLastWasCR, and how many input characters were consumed. */
  datatype Edited = Edited(buf: seq<char>, count: nat, echo: seq<char>, lastCR: bool, used: nat)

  /**
   * UARTgets from input index i on, with buf the buffer contents so far,
   * count characters stored, at most `limit` storable (ulLen - 1) and echo
   * what has been sent back.  None when the input runs out before a line
   * ends: MAP_UARTCharGet would then wait forever.
   */
  function EditFrom(input: seq<char>, i: nat, buf: seq<char>, count: nat, limit: nat,
                    echo: seq<char>, lastCR: bool): Option<Edited>
    requires i <= |input| && count <= limit < |buf|
    decreases |input| - i
  {
    if i == |input| then None
    else
      var c := input[i];
      if c == BACKSPACE then
        if count > 0 then EditFrom(input, i + 1, buf, count - 1, limit, echo + RUB_OUT, lastCR)
        else EditFrom(input, i + 1, buf, count, limit, echo, lastCR)
      else if c == '\n' && lastCR then
        EditFrom(input, i + 1, buf, count, limit, echo, false)
      else if EndsLine(c) then
        Some(Edited(buf, count, echo, if c == '\r' then true else lastCR, i + 1))
      else if count < limit then
        EditFrom(input, i + 1, buf[count := c], count + 1, limit, echo + [c], lastCR)
      else
        EditFrom(input, i + 1, buf, count, limit, echo, lastCR)
  }

  /** One UARTgets call on a buffer of |buf| >= 1 characters. */
  function LineEdit(input: seq<char>, lastCR: bool, buf: seq<char>): (r: Option<Edited>)
    requires |buf| >= 1
    ensures r.Some? ==>
      r.value.count < |buf| && |r.value.buf| == |buf| && 0 < r.value.used <= |input| &&
      EndsLine(input[r.value.used - 1]) && forall t :: 0 <= t < r.value.count ==> Stored(r.value.buf[t])
  {
    var r := EditFrom(input, 0, buf, 0, |buf| - 1, [], lastCR);
    if r.Some? then EditBounds(input, 0, buf, 0, |buf| - 1, [], lastCR); r else r
  }

  /** What every line edit guarantees: at most ulLen - 1 characters are
      stored, none of them a backspace or a line end, the buffer keeps its
      size and the line ends at the last consumed character. */
  lemma {:induction false} EditBounds(input: seq<char>, i: nat, buf: seq<char>, count: nat, limit: nat,
                                      echo: seq<char>, lastCR: bool)
    requires i <= |input| && count <= limit < |buf|
    requires forall t :: 0 <= t < count ==> Stored(buf[t])
    requires EditFrom(input, i, buf, count, limit, echo, lastCR).Some?
    ensures var e := EditFrom(input, i, buf, count, limit, echo, lastCR).value;
      e.count <= limit && |e.buf| == |buf| && i < e.used <= |input| && EndsLine(input[e.used - 1]) &&
      forall t :: 0 <= t < e.count ==> Stored(e.buf[t])
    decreases |input| - i
  {
    var c := input[i];
    if c == BACKSPACE {
      if count > 0 {
        EditBounds(input, i + 1, buf, count - 1, limit, echo + RUB_OUT, lastCR);
      } else {
        EditBounds(input, i + 1, buf, count, limit, echo, lastCR);
      }
    } else if c == '\n' && lastCR {
      EditBounds(input, i + 1, buf, count, limit, echo, false);
    } else if EndsLine(c) {
    } else if count < limit {
      EditBounds(input, i + 1, buf[count := c], count + 1, limit, echo + [c], lastCR);
    } else {
      EditBounds(input, i + 1, buf, count, limit, echo, lastCR);
    }
  }

  /** A line typed without corrections that fits the buffer is stored and
      echoed as typed; CR sets bLastWasCR, a line ended by LF or ESC leaves it. */
  lemma {:induction false} PlainLineFrom(line: seq<char>, t: char, i: nat, buf: seq<char>, limit: nat,
                                         echo: seq<char>, lastCR: bool)
    requires forall j :: 0 <= j < |line| ==> Stored(line[j])
    requires EndsLine(t) && !(t == '\n' && lastCR)
    requires i <= |line| <= limit < |buf| && buf[..i] == line[..i]
    ensures EditFrom(line + [t], i, buf, i, limit, echo, lastCR)
         == Some(Edited(line + buf[|line|..], |line|, echo + line[i..], t == '\r' || lastCR, |line| + 1))
    decreases |line| - i
  {
    var input := line + [t];
    if i == |line| {
      assert input[i] == t;
      assert line[..i] == line;
      assert buf == buf[..i] + buf[i..];
      assert line[i..] == [];
      assert line + buf[|line|..] == buf;
      assert echo + line[i..] == echo;
      assert EditFrom(input, i, buf, i, limit, echo, lastCR) == Some(Edited(buf, i, echo, if t == '\r' then true else lastCR, i + 1));
    } else {
      var c := line[i];
      assert input[i] == c;
      assert buf[i := c][..i + 1] == line[..i + 1];
      PlainLineFrom(line, t, i + 1, buf[i := c], limit, echo + [c], lastCR);
      assert buf[i := c][|line|..] == buf[|line|..];
      assert echo + [c] + line[i + 1..] == echo + line[i..];
    }
  }

  lemma PlainLine(line: seq<char>, t: char, buf: seq<char>, lastCR: bool)
    requires forall j :: 0 <= j < |line| ==> Stored(line[j])
    requires EndsLine(t) && !(t == '\n' && lastCR)
    requires |line| < |buf|
    ensures LineEdit(line + [t], lastCR, buf)
         == Some(Edited(line + buf[|line|..], |line|, line, t == '\r' || lastCR, |line| + 1))
  {
    PlainLineFrom(line, t, 0, buf, |buf| - 1, [], lastCR);
    assert [] + line[0..] == line;
  }

  /** A backspace right after a stored character takes it back: the count is
      as before and the terminal is sent the character and RUB_OUT. */
  lemma RubOut(input: seq<char>, i: nat, buf: seq<char>, count: nat, limit: nat, echo: seq<char>, lastCR: bool)
    requires i + 1 < |input| && count < limit < |buf|
    requires Stored(input[i]) && input[i + 1] == BACKSPACE
    ensures EditFrom(input, i, buf, count, limit, echo, lastCR)
         == EditFrom(input, i + 2, buf[count := input[i]], count, limit, echo + [input[i]] + RUB_OUT, lastCR)
  {
  }

  /** The rub-out sequence has no newline, so UARTwrite sends it unchanged. */
  lemma RubOutPlain()
    ensures RUB_OUT[..3] == RUB_OUT && Expand(RUB_OUT) == RUB_OUT
  {
    ExpandPlain(RUB_OUT);
  }

  /** The line end UARTgets sends through UARTwrite goes out as CR, CR, LF. */
  lemma LineEndSent()
    ensures "\r\n"[..2] == "\r\n" && Expand("\r\n") == "\r\r\n"
  {
    assert "\r\n"[..1] == "\r";
    assert "\r"[..0] == [];
  }

  /** The outcome of an edit on input that had n more characters in front. */
  function Shifted(r: Option<Edited>, n: nat): Option<Edited>
  {
    if r.None? then None else Some(r.value.(used := r.value.used + n))
  }

  /** Editing is the same wherever the input starts. */
  lemma {:induction false} EditShift(p: seq<char>, input: seq<char>, i: nat, buf: seq<char>, count: nat,
                                     limit: nat, echo: seq<char>, lastCR: bool)
    requires i <= |input| && count <= limit < |buf|
    ensures EditFrom(p + input, |p| + i, buf, count, limit, echo, lastCR)
         == Shifted(EditFrom(input, i, buf, count, limit, echo, lastCR), |p|)
    decreases |input| - i
  {
    if i < |input| {
      var c := input[i];
      assert (p + input)[|p| + i] == c;
      if c == BACKSPACE {
        if count > 0 {
          EditShift(p, input, i + 1, buf, count - 1, limit, echo + RUB_OUT, lastCR);
        } else {
          EditShift(p, input, i + 1, buf, count, limit, echo, lastCR);
        }
      } else if c == '\n' && lastCR {
        EditShift(p, input, i + 1, buf, count, limit, echo, false);
      } else if EndsLine(c) {
      } else if count < limit {
        EditShift(p, input, i + 1, buf[count := c], count + 1, limit, echo + [c], lastCR);
      } else {
        EditShift(p, input, i + 1, buf, count, limit, echo, lastCR);
      }
    }
  }

  /** CRLF pairing: after a line ended by CR, a leading LF is swallowed, and
      the call then behaves as one without the flag on the rest of the input. */
  lemma CrLfPairing(rest: seq<char>, buf: seq<char>)
    requires |buf| >= 1
    ensures LineEdit(['\n'] + rest, true, buf) == Shifted(LineEdit(rest, false, buf), 1)
  {
    EditShift(['\n'], rest, 0, buf, 0, |buf| - 1, [], false);
  }

  /** Without the flag, LF ends a line like CR and ESC do. */
  lemma NoFlagEndsAtLf(rest: seq<char>, buf: seq<char>)
    requires |buf| >= 1
    ensures LineEdit(['\n'] + rest, false, buf) == Some(Edited(buf, 0, [], false, 1))
  {
  }

  /** bLastWasCR is cleared only by the LF it swallows, not by other input:
      after a line ended by CR, the next line "ab", LF, "cd", CR is read as
      the single line "abcd". */
  lemma StaleCarriageReturn(buf: seq<char>)
    requires |buf| == 8
    ensures var e := LineEdit("ab\ncd\r", true, buf);
      e.Some? && e.value.count == 4 && e.value.buf[..4] == "abcd" && e.value.used == 6 && e.value.lastCR
  {
    var b1 := buf[0 := 'a'];
    var b2 := b1[1 := 'b'];
    var b3 := b2[2 := 'c'];
    var b4 := b3[3 := 'd'];
    var input := "ab\ncd\r";
    assert EditFrom(input, 5, b4, 4, 7, "abcd", false) == Some(Edited(b4, 4, "abcd", true, 6));
    assert EditFrom(input, 2, b2, 2, 7, "ab", true) == EditFrom(input, 3, b2, 2, 7, "ab", false);
    assert b4[..4] == "abcd";
  }

  // ---------------------------------------------------------------------------
  // Ring buffers (uartstdio.c:197-290, compiled only for UART_BUFFERED)
  // ---------------------------------------------------------------------------

  /** GetBufferCount: write - read, or size - (read - write) when the write
      index has wrapped; unsigned arithmetic on the target. */
  function BufferCount(read: Long, write: Long, size: Long): Long
  {
    if write >= read then write - read else (size - (read - write)) % LONG_RANGE
  }

  /** IsBufferFull: the slot after the write index is the read index. */
  predicate IsBufferFull(read: Long, write: Long, size: Long)
    requires size > 0
  {
    ((write + 1) % LONG_RANGE) % size == read
  }

  /** IsBufferEmpty: the indices coincide. */
  predicate IsBufferEmpty(read: Long, write: Long)
  {
    write == read
  }

  /** x % n for x within one period either side of [0, n). */
  lemma ModNear(x: int, n: int)
    requires n > 0 && -n <= x < 2 * n
    ensures x % n == if x < 0 then x + n else if x < n then x else x - n
  {
    if x < 0 {
      var q', r' := x / n, x % n;
      assert x == q' * n + r' && 0 <= r' < n;
      MulLe(0, q', n);
      MulLe(q', -2, n);
      assert q' == -1;
    } else if x < n {
      DivUnique(x, n, 0, x);
    } else {
      DivUnique(x, n, 1, x - n);
    }
  }

  /** For indices inside a buffer of `size` slots the count is the distance
      from read to write modulo size; the buffer is empty exactly when the
      count is 0 and full exactly when it is size - 1, one slot staying free. */
  lemma RingCount(read: Long, write: Long, size: Long)
    requires read < size && write < size
    ensures BufferCount(read, write, size) == (write - read) % size
    ensures BufferCount(read, write, size) < size
    ensures IsBufferEmpty(read, write) <==> BufferCount(read, write, size) == 0
    ensures IsBufferFull(read, write, size) <==> BufferCount(read, write, size) == size - 1
  {
    ModNear(write - read, size);
    assert (write + 1) % LONG_RANGE == write + 1;
    ModNear(write + 1, size);
    if write < read {
      assert BufferCount(read, write, size) == size - read + write;
    }
  }

  // ---------------------------------------------------------------------------
  // The console
  // ---------------------------------------------------------------------------

  class Console {
    /** Every character put on the UART so far, oldest first. */
    var sent: seq<char>
    /** The characters the UART will deliver to the next reads. */
    var pending: seq<char>
    /** bLastWasCR: the last line read ended with CR. */
    var lastWasCR: bool

    constructor (input: seq<char>)
      ensures sent == [] && pending == input && !lastWasCR
    {
      sent := [];
      pending := input;
      lastWasCR := false;
    }

    /** MAP_UARTCharPut. */
    method Put(c: char)
      modifies this`sent
      ensures sent == old(sent) + [c]
    {
      sent := sent + [c];
    }

    /** MAP_UARTCharGet for input that has arrived. */
    method Get() returns (c: char)
      requires pending != []
      modifies this`pending
      ensures c == old(pending)[0] && pending == old(pending)[1..]
    {
      c := pending[0];
      pending := pending[1..];
    }

    /** UARTwrite (uartstdio.c:531-565): sends the first len characters of buf,
        each '\n' preceded by '\r', and returns len. */
    method Write(buf: seq<char>, len: nat) returns (n: nat)
      requires len <= |buf|
      modifies this`sent
      ensures n == len
      ensures sent == old(sent) + Expand(buf[..len])
    {
      n := 0;
      while n < len
        invariant n <= len
        invariant sent == old(sent) + Expand(buf[..n])
      {
        if buf[n] == '\n' {
          Put('\r');
        }
        Put(buf[n]);
        assert buf[..n + 1][..n] == buf[..n];
        n := n + 1;
      }
    }

    /** UARTgets (uartstdio.c:675-798): reads one line into buf, edits it as
        LineEdit says, NUL-terminates it, ends the line on the terminal with
        UARTwrite("\r\n") and returns the number of characters stored. */
    method Gets(buf: array<char>) returns (count: nat)
      requires buf.Length >= 1
      requires LineEdit(pending, lastWasCR, buf[..]).Some?
      modifies this, buf
      ensures var e := LineEdit(old(pending), old(lastWasCR), old(buf[..])).value;
        count == e.count && count < buf.Length && buf[..] == e.buf[count := '\0'] &&
        sent == old(sent) + e.echo + Expand("\r\n") &&
        pending == old(pending)[e.used..] && lastWasCR == e.lastCR
    {
      ghost var input := pending;
      ghost var sent0 := sent;
      ghost var buf0 := buf[..];
      var limit := buf.Length - 1;
      count := 0;
      ghost var i: nat := 0;
      ghost var echo: seq<char> := [];
      var done := false;
      while !done
        invariant i <= |input| && count <= limit
        invariant pending == input[i..]
        invariant !done ==>
          EditFrom(input, i, buf[..], count, limit, echo, lastWasCR) == LineEdit(input, old(lastWasCR), buf0)
        invariant done ==>
          LineEdit(input, old(lastWasCR), buf0) == Some(Edited(buf[..], count, echo, lastWasCR, i))
        invariant sent == sent0 + echo
        decreases |input| - i, if done then 0 else 1
      {
        var c := Get();
        if c == BACKSPACE {
          if count > 0 {
            var _ := Write(RUB_OUT, 3);
            RubOutPlain();
            echo := echo + RUB_OUT;
            count := count - 1;
          }
        } else if c == '\n' && lastWasCR {
          lastWasCR := false;
        } else if EndsLine(c) {
          if c == '\r' {
            lastWasCR := true;
          }
          done := true;
        } else if count < limit {
          buf[count] := c;
          count := count + 1;
          Put(c);
          echo := echo + [c];
        }
        i := i + 1;
      }
      buf[count] := '\0';
      LineEndSent();
      var _ := Write("\r\n", 2);
    }

    /** UARTprintf (uartstdio.c:845-1240): sends the text Format renders for
        fmt and args, through UARTwrite. */
    method Printf(fmt: seq<char>, args: seq<Arg>)
      requires Format(fmt, args).Some?
      modifies this`sent
      ensures sent == old(sent) + Expand(Format(fmt, args).value)
    {
      var i: nat := 0;
      var k: nat := 0;
      while i < |fmt| && fmt[i] != '\0'
        invariant i <= |fmt|
        invariant FormatFrom(fmt, i, args, k).Some?
        invariant old(sent) + Expand(Format(fmt, args).value) == sent + Expand(FormatFrom(fmt, i, args, k).value)
        decreases |fmt| - i
      {
        FormatPass(fmt, i, args, k);
        ghost var sent0 := sent;
        ghost var p := Pass(fmt, i, args, k).value;
        i, k := PrintfStep(fmt, i, args, k);
        Regroup(sent0, Expand(p.0), Expand(FormatFrom(fmt, i, args, k).value));
      }
      assert FormatFrom(fmt, i, args, k) == Some([]);
    }

    /** One pass of the UARTprintf loop: a literal run, then the conversion
        that ends it, if any. */
    method PrintfStep(fmt: seq<char>, i: nat, args: seq<Arg>, k: nat) returns (i': nat, k': nat)
      requires i < |fmt| && fmt[i] != '\0'
      requires Pass(fmt, i, args, k).Some?
      modifies this`sent
      ensures i' == Pass(fmt, i, args, k).value.1 && k' == Pass(fmt, i, args, k).value.2
      ensures sent == old(sent) + Expand(Pass(fmt, i, args, k).value.0)
    {
      ghost var sent0 := sent;
      var j := SendLiteral(fmt, i);
      if j < |fmt| && fmt[j] == '%' {
        ghost var sp := WidthFrom(fmt, j + 1, 0, ' ');
        ghost var out := Conversion(fmt[sp.at], sp.width, sp.fill, args, k).value;
        ExpandAppend(fmt[i..j], out.0);
        Regroup(sent0, Expand(fmt[i..j]), Expand(out.0));
        i', k' := SendConversion(fmt, j, args, k);
      } else {
        i', k' := j, k;
      }
    }

    /** The literal part of a pass: the characters up to the next '%' or NUL,
        in one UARTwrite. */
    method SendLiteral(fmt: seq<char>, i: nat) returns (j: nat)
      requires i <= |fmt|
      modifies this`sent
      ensures j == LiteralEnd(fmt, i)
      ensures sent == old(sent) + Expand(fmt[i..j])
    {
      j := ScanLiteral(fmt, i);
      var _ := Write(fmt[i..], j - i);
      assert fmt[i..][..j - i] == fmt[i..j];
    }

    /** The conversion part of a pass: the width digits after the '%' at j,
        then the conversion character. */
    method SendConversion(fmt: seq<char>, j: nat, args: seq<Arg>, k: nat) returns (i': nat, k': nat)
      requires j < |fmt|
      requires WidthFrom(fmt, j + 1, 0, ' ').at < |fmt|
      requires var sp := WidthFrom(fmt, j + 1, 0, ' ');
        Conversion(fmt[sp.at], sp.width, sp.fill, args, k).Some?
      modifies this`sent
      ensures var sp := WidthFrom(fmt, j + 1, 0, ' ');
        var out := Conversion(fmt[sp.at], sp.width, sp.fill, args, k).value;
        i' == sp.at + 1 && k' == out.1 && sent == old(sent) + Expand(out.0)
    {
      var sp := ScanWidth(fmt, j + 1);
      k' := Emit(fmt[sp.at], sp.width, sp.fill, args, k);
      i' := sp.at + 1;
    }

    /** One conversion of UARTprintf: the switch on the conversion character. */
    method Emit(c: char, w: Long, fill: char, args: seq<Arg>, k: nat) returns (k': nat)
      requires Conversion(c, w, fill, args, k).Some?
      modifies this`sent
      ensures k' == Conversion(c, w, fill, args, k).value.1
      ensures sent == old(sent) + Expand(Conversion(c, w, fill, args, k).value.0)
    {
      if c == 'c' {
        var ch := (args[k].v % 256) as char;
        var _ := Write([ch], 1);
        assert [ch][..1] == [ch];
        k' := k + 1;
      } else if c == 'd' {
        var v, neg := args[k].v, false;
        if v >= 0x8000_0000 {
          v, neg := LONG_RANGE - v, true;
        }
        EmitNumber(v, 10, neg, w, fill);
        k' := k + 1;
      } else if c == 'u' {
        EmitNumber(args[k].v, 10, false, w, fill);
        k' := k + 1;
      } else if c == 'x' || c == 'X' || c == 'p' {
        EmitNumber(args[k].v, 16, false, w, fill);
        k' := k + 1;
      } else if c == 's' {
        EmitString(args[k].s, w);
        k' := k + 1;
      } else if c == '%' {
        var _ := Write("%", 1);
        assert "%"[..1] == "%";
        ExpandPlain("%");
        k' := k;
      } else {
        var _ := Write("ERROR", 5);
        assert "ERROR"[..5] == "ERROR";
        ExpandPlain("ERROR");
        k' := k;
      }
    }

    /** %d, %u, %x, %X and %p: the digits built in pcBuf, then one UARTwrite. */
    method EmitNumber(v: Long, b: Base, neg: bool, w: Long, fill: char)
      modifies this`sent
      ensures sent == old(sent) + Expand(Number(v, b, neg, w, fill))
    {
      var piece := Convert(v, b, neg, w, fill);
      var _ := Write(piece, |piece|);
      assert piece[..|piece|] == piece;
    }

    /** %s: the string up to its NUL, then one space per column the width
        exceeds its length. */
    method EmitString(s: seq<char>, w: Long)
      modifies this`sent
      ensures var n := Strlen(s); sent == old(sent) + Expand(s[..n] + Repeat(' ', if w > n then w - n else 0))
    {
      var n := StrLen(s);
      var _ := Write(s, n);
      var pad: nat := if w > n then w - n else 0;
      SendSpaces(pad);
      ExpandAppend(s[..n], Repeat(' ', pad));
      ExpandPlain(Repeat(' ', pad));
      Regroup(old(sent), Expand(s[..n]), Repeat(' ', pad));
    }

    /** The %s padding loop: one UARTwrite(" ", 1) per missing column. */
    method SendSpaces(pad: nat)
      modifies this`sent
      ensures sent == old(sent) + Repeat(' ', pad)
    {
      var left: nat := pad;
      while left > 0
        invariant left <= pad
        invariant sent == old(sent) + Repeat(' ', pad - left)
      {
        var _ := Write(" ", 1);
        assert " "[..1] == " " && Expand(" ") == " ";
        assert Repeat(' ', pad - left) + " " == Repeat(' ', pad - left + 1);
        left := left - 1;
      }
    }
  }

  lemma Regroup(s0: seq<char>, a: seq<char>, b: seq<char>)
    ensures s0 + (a + b) == s0 + a + b
  {
  }

  /** The literal scan of UARTprintf: the first '%' or NUL at or after i. */
  method ScanLiteral(fmt: seq<char>, i: nat) returns (j: nat)
    requires i <= |fmt|
    ensures j == LiteralEnd(fmt, i)
  {
    j := i;
    while j < |fmt| && fmt[j] != '%' && fmt[j] != '\0'
      invariant i <= j <= |fmt|
      invariant LiteralEnd(fmt, j) == LiteralEnd(fmt, i)
    {
      j := j + 1;
    }
  }

  /** The `goto again` loop over width digits after a '%'. */
  method ScanWidth(fmt: seq<char>, q: nat) returns (sp: Spec)
    requires q <= |fmt|
    ensures sp == WidthFrom(fmt, q, 0, ' ')
  {
    var at := q;
    var count: Long := 0;
    var fill := ' ';
    while at < |fmt| && IsDigit(fmt[at])
      invariant q <= at <= |fmt|
      invariant WidthFrom(fmt, at, count, fill) == WidthFrom(fmt, q, 0, ' ')
      decreases |fmt| - at
    {
      if fmt[at] == '0' && count == 0 {
        fill := '0';
      }
      count := (count * 10 + (fmt[at] as int - '0' as int)) % LONG_RANGE;
      at := at + 1;
    }
    sp := Spec(at, count, fill);
  }

  /** The loop measuring a %s string. */
  method StrLen(s: seq<char>) returns (n: nat)
    ensures n == Strlen(s)
  {
    n := 0;
    while n < |s| && s[n] != '\0'
      invariant n <= Strlen(s)
    {
      n := n + 1;
    }
  }

  /**
   * The numeric conversion of UARTprintf (uartstdio.c:1126-1198): count the
   * digits with the overflow-guarded loop, decrementing ulCount per extra
   * digit and once for a sign; place a sign before zero fill, pad when the
   * residual count is in (1, 16), place a sign after other fill, then emit
   * the digits from the most significant down.
   */
  method Convert(v: Long, b: Base, neg: bool, w: Long, fill: char) returns (buf: seq<char>)
    ensures buf == Number(v, b, neg, w, fill)
  {
    var idx, count := CountDigits(v, b, w);
    if neg {
      WrapStep(w - (|Digits(v, b)| - 1));
      count := (count - 1) % LONG_RANGE;
    }
    var sign := neg;
    buf := [];
    if neg && fill == '0' {
      buf := buf + ['-'];
      sign := false;
    }
    var pad := PadOut(fill, count);
    buf := buf + pad;
    if sign {
      buf := buf + ['-'];
    }
    var digits := EmitDigits(v, b, idx);
    buf := buf + digits;
  }

  /** The digit-count loop: ulIdx ends at the largest power of the base not
      above the value, and ulCount is the width less one per extra digit. */
  method CountDigits(v: Long, b: Base, w: Long) returns (idx: Long, count: Long)
    ensures idx == Pow(b, |Digits(v, b)| - 1)
    ensures count == Residual(w, |Digits(v, b)|, false)
  {
    ghost var n := |Digits(v, b)|;
    DigitsForm(v, b);
    idx := 1;
    count := w;
    ghost var k: nat := 0;
    while Continues(idx, b, v)
      invariant k < n && idx == Pow(b, k)
      invariant count == (w - k) % LONG_RANGE
      decreases n - k
    {
      GuardStep(v, b, k);
      WrapStep(w - k);
      idx := Times(idx, b) % LONG_RANGE;
      count := (count - 1) % LONG_RANGE;
      k := k + 1;
    }
    GuardStep(v, b, k);
  }

  /** The padding loop: residual - 1 fill characters for a residual in (1, 16). */
  method PadOut(fill: char, count: Long) returns (pad: seq<char>)
    ensures pad == Padding(fill, count)
  {
    pad := [];
    if count > 1 && count < 16 {
      var left := count - 1;
      while left > 0
        invariant 0 <= left <= count - 1
        invariant pad == Repeat(fill, count - 1 - left)
      {
        pad := pad + [fill];
        left := left - 1;
      }
    }
  }

  /** The digit loop: emit HEX_DIGITS[(v / ulIdx) % base] and divide ulIdx by
      the base until it reaches 0. */
  method EmitDigits(v: Long, b: Base, idx0: Long) returns (out: seq<char>)
    requires idx0 == Pow(b, |Digits(v, b)| - 1)
    ensures out == Digits(v, b)
  {
    ghost var ds := Digits(v, b);
    ghost var k := |ds| - 1;
    var idx := idx0;
    out := [];
    ghost var j: int := k;
    while idx > 0
      invariant -1 <= j <= k
      invariant j >= 0 ==> idx == Pow(b, j)
      invariant j < 0 ==> idx == 0
      invariant out == ds[..k - j]
      decreases j + 1
    {
      ghost var p := Pow(b, j);
      var d := Rem(v / idx, b);
      assert d == Rem(v / p, b);
      DigitsAt(v, b, j);
      HexIsTable(d);
      PowQuot(b, j);
      out := out + [HEX_DIGITS[d]];
      assert ds[..k - j + 1] == ds[..k - j] + [ds[k - j]];
      idx := Quot(idx, b);
      j := j - 1;
    }
    assert ds[..k + 1] == ds;
  }
}
