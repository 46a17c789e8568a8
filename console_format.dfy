/**
 * The text the console emits (uartstdio.c, unbuffered build): the newline
 * expansion UARTwrite applies to every character it sends, and the text
 * UARTprintf renders for a format string and its arguments.
 *
 * A C string is modelled by the characters of its buffer; its terminating NUL
 * sits just past the end of the sequence, and an embedded '\0' ends it early
 * wherever the C code tests for NUL.  `unsigned long` is 32 bits wide on the
 * target, so widths and values are naturals below LONG_RANGE and every
 * unsigned operation inside UARTprintf is written with its wrap-around.
 */
module ConsoleFormat {
  import opened Options

  const LONG_RANGE: nat := 0x1_0000_0000

  /** An `unsigned long` of the target. */
  type Long = x: nat | x < 0x1_0000_0000

  /** A variadic argument: an `unsigned long` or a `char *`. */
  datatype Arg = Word(v: Long) | Text(s: seq<char>)

  // ---------------------------------------------------------------------------
  // UARTwrite: "\n" goes out as "\r\n" (uartstdio.c:543-563)
  // ---------------------------------------------------------------------------

  /** What the UART sends for one character of the caller's buffer. */
  function ExpandChar(c: char): seq<char>
  {
    if c == '\n' then "\r\n" else [c]
  }

  /** What the UART sends for a run of characters, in order. */
  function Expand(s: seq<char>): seq<char>
  {
    if s == [] then [] else Expand(s[..|s| - 1]) + ExpandChar(s[|s| - 1])
  }

  /** Sending two runs one after the other sends their concatenation. */
  lemma {:induction false} ExpandAppend(a: seq<char>, b: seq<char>)
    ensures Expand(a + b) == Expand(a) + Expand(b)
  {
    if b == [] {
      assert a + b == a;
    } else {
      var c := b[|b| - 1];
      var b' := b[..|b| - 1];
      assert b == b' + [c];
      assert (a + b)[..|a + b| - 1] == a + b';
      ExpandAppend(a, b');
    }
  }

  /** The sent text with every '\r' that precedes a '\n' removed. */
  function Collapse(r: seq<char>): seq<char>
  {
    if r == [] then []
    else if |r| >= 2 && r[|r| - 2] == '\r' && r[|r| - 1] == '\n' then Collapse(r[..|r| - 2]) + ['\n']
    else Collapse(r[..|r| - 1]) + [r[|r| - 1]]
  }

  /** Collapse undoes one CR LF pair at the end. */
  lemma CollapsePair(q: seq<char>)
    ensures Collapse(q + "\r\n") == Collapse(q) + ['\n']
  {
    var r := q + "\r\n";
    assert r[..|r| - 2] == q;
  }

  /** Collapse keeps one final character that is not a LF. */
  lemma CollapseSingle(q: seq<char>, c: char)
    requires c != '\n'
    ensures Collapse(q + [c]) == Collapse(q) + [c]
  {
    var r := q + [c];
    assert r[..|r| - 1] == q;
  }

  /** The expansion loses nothing: removing the inserted carriage returns gives
      back exactly the caller's characters. */
  lemma {:induction false} CollapseExpand(s: seq<char>)
    ensures Collapse(Expand(s)) == s
  {
    if s != [] {
      var p := s[..|s| - 1];
      var c := s[|s| - 1];
      assert s == p + [c];
      var e := Expand(p);
      assert Expand(s) == e + ExpandChar(c);
      CollapseExpand(p);
      if c == '\n' {
        CollapsePair(e);
        assert Collapse(Expand(s)) == p + [c];
      } else {
        CollapseSingle(e, c);
        assert Collapse(Expand(s)) == p + [c];
      }
    }
  }

  /** Every '\n' that goes out is directly preceded by a '\r', and the text is
      one character longer than the run for each '\n' in it. */
  lemma {:induction false} ExpandNewlines(s: seq<char>)
    ensures forall i :: 0 <= i < |Expand(s)| && Expand(s)[i] == '\n' ==> i > 0 && Expand(s)[i - 1] == '\r'
    ensures |Expand(s)| == |s| + |NewlinesIn(s)|
  {
    if s != [] {
      var p := s[..|s| - 1];
      ExpandNewlines(p);
      var r := Expand(s);
      assert r == Expand(p) + ExpandChar(s[|s| - 1]);
      forall i | 0 <= i < |r| && r[i] == '\n'
        ensures i > 0 && r[i - 1] == '\r'
      {
        if i < |Expand(p)| {
          assert Expand(p)[i] == '\n';
        }
      }
    }
  }

  /** The positions of the '\n' characters of s. */
  function NewlinesIn(s: seq<char>): seq<nat>
  {
    if s == [] then []
    else NewlinesIn(s[..|s| - 1]) + (if s[|s| - 1] == '\n' then [|s| - 1] else [])
  }

  /** A run without '\n' goes out unchanged. */
  lemma {:induction false} ExpandPlain(s: seq<char>)
    requires forall i :: 0 <= i < |s| ==> s[i] != '\n'
    ensures Expand(s) == s
  {
    if s != [] {
      ExpandPlain(s[..|s| - 1]);
      assert s == s[..|s| - 1] + [s[|s| - 1]];
    }
  }

  // ---------------------------------------------------------------------------
  // C strings
  // ---------------------------------------------------------------------------

  /** The length of the C string held in s: the index of its first NUL, or |s|. */
  function Strlen(s: seq<char>): (n: nat)
    ensures n <= |s|
    ensures forall i :: 0 <= i < n ==> s[i] != '\0'
    ensures n < |s| ==> s[n] == '\0'
  {
    if s == [] || s[0] == '\0' then 0 else 1 + Strlen(s[1..])
  }

  /** n copies of c. */
  function Repeat(c: char, n: nat): (r: seq<char>)
    ensures |r| == n && forall i :: 0 <= i < n ==> r[i] == c
  {
    seq(n, _ => c)
  }

  // ---------------------------------------------------------------------------
  // Digits (uartstdio.c:151, 1126-1132, 1188-1191)
  // ---------------------------------------------------------------------------

  /** g_pcHex: the digit alphabet, lower case for %x, %X and %p alike. */
  const HEX_DIGITS: seq<char> := "0123456789abcdef"

  /** The digit character for d; g_pcHex[d]. */
  function Hex(d: nat): char
    requires d < 16
  {
    if d < 10 then ('0' as int + d) as char else ('a' as int + d - 10) as char
  }

  /** Hex is the g_pcHex table. */
  lemma HexIsTable(d: nat)
    requires d < 16
    ensures Hex(d) == HEX_DIGITS[d]
  {
  }

  /** The value of one digit character. */
  function DigitValue(c: char): nat
  {
    if '0' <= c <= '9' then c as int - '0' as int
    else if 'a' <= c <= 'f' then c as int - 'a' as int + 10
    else 0
  }

  /** The bases UARTprintf converts in: 10 for %d and %u, 16 for %x, %X and %p. */
  type Base = b: nat | b == 10 || b == 16 witness 10

  /** v / b, v % b and x * b, written out per base so that the verifier
      reasons about each with linear arithmetic; BaseArith ties them to the
      operators. */
  function Quot(v: nat, b: Base): nat
  {
    if b == 10 then v / 10 else v / 16
  }

  function Rem(v: int, b: Base): (r: nat)
    ensures r < b
  {
    if b == 10 then v % 10 else v % 16
  }

  function Times(x: nat, b: Base): nat
  {
    if b == 10 then x * 10 else x * 16
  }

  lemma BaseArith(v: nat, b: Base)
    ensures Quot(v, b) == v / b && Rem(v, b) == v % b && Times(v, b) == v * b
    ensures v == Times(Quot(v, b), b) + Rem(v, b) && Rem(v, b) < b
  {
  }

  /** The value of a digit string in base b, most significant digit first. */
  function Value(ds: seq<char>, b: Base): nat
  {
    if ds == [] then 0 else Times(Value(ds[..|ds| - 1], b), b) + DigitValue(ds[|ds| - 1])
  }

  /** The base-b digits of v, most significant first; one digit for v < b. */
  function Digits(v: nat, b: Base): seq<char>
    decreases v
  {
    if v < b then [Hex(v)] else Digits(Quot(v, b), b) + [Hex(Rem(v, b))]
  }

  /** Reading the digits back gives the value. */
  lemma {:induction false} DigitsRoundTrip(v: nat, b: Base)
    ensures Value(Digits(v, b), b) == v
  {
    var ds := Digits(v, b);
    if v < b {
      assert ds[..0] == [];
    } else {
      assert ds[..|ds| - 1] == Digits(Quot(v, b), b);
      DigitsRoundTrip(Quot(v, b), b);
    }
  }

  /** A digit of base b in the lower-case alphabet. */
  predicate IsDigitOf(c: char, b: Base)
  {
    ('0' <= c <= '9' || 'a' <= c <= 'f') && DigitValue(c) < b
  }

  /** The digits are base-b digits of the lower-case alphabet, and only the
      value 0 is written with a leading '0'. */
  lemma {:induction false} DigitsForm(v: nat, b: Base)
    ensures |Digits(v, b)| >= 1
    ensures forall i :: 0 <= i < |Digits(v, b)| ==> IsDigitOf(Digits(v, b)[i], b)
    ensures Digits(v, b)[0] == '0' <==> v == 0
  {
    var ds := Digits(v, b);
    if v >= b {
      var q := Quot(v, b);
      DigitsForm(q, b);
      assert ds == Digits(q, b) + [Hex(Rem(v, b))];
      assert ds[0] == Digits(q, b)[0];
    }
  }

  /** b to the power k. */
  function Pow(b: Base, k: nat): (p: nat)
    ensures p >= 1
  {
    if k == 0 then 1 else Times(Pow(b, k - 1), b)
  }

  /** Larger exponents give larger powers. */
  lemma {:induction false} PowMonotone(b: Base, i: nat, j: nat)
    ensures i < j ==> Pow(b, i) < Pow(b, j)
    decreases j
  {
    if i < j && i < j - 1 {
      PowMonotone(b, i, j - 1);
    }
  }

  /** Multiplying by a non-negative factor keeps the order. */
  lemma MulLe(a: int, c: int, b: int)
    ensures a <= c && b >= 0 ==> a * b <= c * b
  {
    if a <= c && b >= 0 {
      assert c * b == a * b + (c - a) * b;
    }
  }

  /** The unique result of a Euclidean division. */
  lemma DivUnique(v: nat, d: nat, q: nat, r: nat)
    requires d > 0 && r < d && v == q * d + r
    ensures v / d == q && v % d == r
  {
    var q', r' := v / d, v % d;
    assert v == q' * d + r';
    MulLe(q' + 1, q, d);
    MulLe(q + 1, q', d);
    assert (q' + 1) * d == q' * d + d;
    assert (q + 1) * d == q * d + d;
  }

  /** Regrouping a division by b followed by a division by p. */
  lemma Nested(v: int, q1: int, r1: int, q2: int, r2: int, b: int, p: int)
    requires v == q1 * b + r1 && q1 == q2 * p + r2
    requires 0 <= r2 < p && 0 <= r1 < b
    ensures b * p > 0
    ensures v == q2 * (b * p) + (r2 * b + r1)
    ensures 0 <= r2 * b + r1 < b * p
  {
    MulLe(r2 + 1, p, b);
    MulLe(0, r2, b);
    MulLe(1, p, b);
    assert q1 * b == q2 * p * b + r2 * b;
  }

  /** Dividing by b and then by p is dividing by b * p. */
  lemma DivDiv(v: nat, b: nat, p: nat)
    requires b > 0 && p > 0
    ensures b * p > 0 && v / (b * p) == (v / b) / p
  {
    var q1, r1 := v / b, v % b;
    var q2, r2 := q1 / p, q1 % p;
    Nested(v, q1, r1, q2, r2, b, p);
    DivUnique(v, b * p, q2, r2 * b + r1);
  }

  /** The digit j places from the right is (v / b^j) % b, the digit the
      conversion loop emits for ulIdx = b^j. */
  lemma {:induction false} DigitsAt(v: nat, b: Base, j: nat)
    requires j < |Digits(v, b)|
    ensures Digits(v, b)[|Digits(v, b)| - 1 - j] == Hex(Rem(v / Pow(b, j), b))
  {
    if j > 0 {
      var q := Quot(v, b);
      var p := Pow(b, j - 1);
      assert v >= b;
      assert Digits(v, b) == Digits(q, b) + [Hex(Rem(v, b))];
      DigitsAt(q, b, j - 1);
      BaseArith(v, b);
      BaseArith(p, b);
      DivDiv(v, b, p);
      assert Pow(b, j) == b * p;
    }
  }

  /** The number of digits is one more than the exponent of the largest power
      of b not above v. */
  lemma {:induction false} DigitsLength(v: nat, b: Base)
    ensures |Digits(v, b)| >= 1
    ensures v == 0 || Pow(b, |Digits(v, b)| - 1) <= v
    ensures v < Pow(b, |Digits(v, b)|)
  {
    if v >= b {
      var q := Quot(v, b);
      var n := |Digits(q, b)|;
      DigitsLength(q, b);
      assert |Digits(v, b)| == n + 1;
      assert Pow(b, n + 1) == Times(Pow(b, n), b);
      assert n >= 1 ==> Pow(b, n) == Times(Pow(b, n - 1), b);
    }
  }

  lemma PowsAboveLong()
    ensures Pow(10, 10) > LONG_RANGE && Pow(16, 8) == LONG_RANGE
  {
  }

  /** A 32-bit value has at most 10 decimal or 8 hexadecimal digits. */
  lemma DigitsOfLong(v: Long, b: Base)
    ensures |Digits(v, b)| <= if b == 10 then 10 else 8
  {
    var n := |Digits(v, b)|;
    var m := if b == 10 then 10 else 8;
    DigitsLength(v, b);
    PowsAboveLong();
    PowMonotone(b, m, n - 1);
  }

  /** The guard of the digit-count loop of UARTprintf: ulIdx times the base,
      in 32-bit arithmetic, is at most the value and divides back to ulIdx. */
  predicate Continues(idx: Long, b: Base, v: Long)
  {
    var prod := Times(idx, b) % LONG_RANGE;
    prod <= v && Quot(prod, b) == idx
  }

  /** The guard holds exactly when the true product is at most the value, so
      the loop never steps on an overflowed product. */
  lemma GuardExact(idx: Long, b: Base, v: Long)
    ensures Continues(idx, b, v) <==> Times(idx, b) <= v
  {
    var t := Times(idx, b);
    var prod := t % LONG_RANGE;
    BaseArith(prod, b);
    if t >= LONG_RANGE {
      assert prod < t;
    }
  }

  /** The next power of the base is at most v exactly when v has digits left. */
  lemma PowBelow(v: nat, b: Base, k: nat)
    requires k < |Digits(v, b)|
    ensures Pow(b, k + 1) <= v <==> k + 1 < |Digits(v, b)|
  {
    var n := |Digits(v, b)|;
    DigitsLength(v, b);
    if k + 1 < n {
      PowMonotone(b, k + 1, n - 1);
    }
  }

  /** With ulIdx = b^k for a k below the digit count, the loop goes on exactly
      while a further digit exists, and then steps ulIdx to b^(k+1). */
  lemma GuardStep(v: Long, b: Base, k: nat)
    requires k < |Digits(v, b)|
    ensures Pow(b, k) < LONG_RANGE && (Continues(Pow(b, k), b, v) <==> k + 1 < |Digits(v, b)|)
    ensures k + 1 < |Digits(v, b)| ==> Times(Pow(b, k), b) % LONG_RANGE == Pow(b, k + 1)
  {
    var p, p1 := Pow(b, k), Pow(b, k + 1);
    assert p1 == Times(p, b);
    DigitsLength(v, b);
    PowMonotone(b, k, |Digits(v, b)| - 1);
    GuardExact(p, b, v);
    PowBelow(v, b, k);
  }

  /** ulIdx / base after ulIdx = b^j: b^(j-1), or 0 after the units digit. */
  lemma PowQuot(b: Base, j: nat)
    ensures Quot(Pow(b, j), b) == if j == 0 then 0 else Pow(b, j - 1)
  {
    if j > 0 {
      assert Pow(b, j) == Times(Pow(b, j - 1), b);
    }
  }

  // ---------------------------------------------------------------------------
  // Numbers with width and fill (uartstdio.c:1126-1198)
  // ---------------------------------------------------------------------------

  /** ulCount after the digit-count loop and the sign adjustment: the width
      less one per digit after the first, less one for a minus sign, wrapping. */
  function Residual(w: Long, digits: nat, neg: bool): Long
  {
    (w - (digits - 1) - (if neg then 1 else 0)) % LONG_RANGE
  }

  /** Decrementing an unsigned long: one less, modulo 2^32, whatever the
      number of earlier wraps. */
  lemma WrapStep(x: int)
    ensures (x % LONG_RANGE - 1) % LONG_RANGE == (x - 1) % LONG_RANGE
  {
    var r := x % LONG_RANGE;
    var q := x / LONG_RANGE;
    assert x == q * LONG_RANGE + r;
    if r >= 1 {
      assert x - 1 == q * LONG_RANGE + (r - 1);
    } else {
      assert x - 1 == (q - 1) * LONG_RANGE + (LONG_RANGE - 1);
    }
  }

  /** The leading fill: residual - 1 copies, only for a residual in (1, 16). */
  function Padding(fill: char, residual: Long): seq<char>
  {
    if 1 < residual < 16 then Repeat(fill, residual - 1) else []
  }

  /** The characters the %d/%u/%x conversion puts into pcBuf for value v (the
      magnitude for a negative %d), base b, width w and fill character. */
  function Number(v: Long, b: Base, neg: bool, w: Long, fill: char): seq<char>
  {
    var ds := Digits(v, b);
    var pad := Padding(fill, Residual(w, |ds|, neg));
    if neg && fill == '0' then "-" + pad + ds
    else pad + (if neg then "-" else "") + ds
  }

  /** A number is padded to exactly its width when the width exceeds its digits
      and sign by 1 to 14 characters, and is not padded at all otherwise. */
  lemma NumberWidth(v: Long, b: Base, neg: bool, w: Long, fill: char)
    ensures var n := |Digits(v, b)| + (if neg then 1 else 0);
      |Number(v, b, neg, w, fill)| == if n < w < n + 15 then w else n
  {
    DigitsForm(v, b);
    DigitsOfLong(v, b);
    PaddingLength(fill, w, |Digits(v, b)|, neg);
  }

  /** The fill makes up the difference between the width and the digits and
      sign n exactly when it is 1 to 14 characters, and is empty otherwise
      (a width below n wraps the residual past 16). */
  lemma PaddingLength(fill: char, w: Long, d: nat, neg: bool)
    requires 1 <= d <= 10
    ensures var n := d + (if neg then 1 else 0);
      |Padding(fill, Residual(w, d, neg))| == if n < w < n + 15 then w - n else 0
  {
    var n := d + (if neg then 1 else 0);
    var x := w - (d - 1) - (if neg then 1 else 0);
    if x < 0 {
      assert x % LONG_RANGE == x + LONG_RANGE;
    } else {
      assert x % LONG_RANGE == x;
    }
  }

  /** A number ends with the digits of its magnitude; a minus sign goes in
      front of zero fill and between space (or other) fill and the digits;
      everything else before the digits is fill. */
  lemma NumberLayout(v: Long, b: Base, neg: bool, w: Long, fill: char)
    ensures var r := Number(v, b, neg, w, fill); var ds := Digits(v, b);
      |r| >= |ds| && r[|r| - |ds|..] == ds && Value(r[|r| - |ds|..], b) == v
    ensures var r := Number(v, b, neg, w, fill); var ds := Digits(v, b);
      neg && fill == '0' ==> r[0] == '-' && forall i :: 0 < i < |r| - |ds| ==> r[i] == '0'
    ensures var r := Number(v, b, neg, w, fill); var ds := Digits(v, b);
      neg && fill != '0' ==> r[|r| - |ds| - 1] == '-' && forall i :: 0 <= i < |r| - |ds| - 1 ==> r[i] == fill
    ensures var r := Number(v, b, neg, w, fill); var ds := Digits(v, b);
      !neg ==> forall i :: 0 <= i < |r| - |ds| ==> r[i] == fill
  {
    DigitsRoundTrip(v, b);
  }

  /** The size of pcBuf in UARTprintf. */
  const PC_BUF_SIZE: nat := 16

  /** The conversion as written: pcBuf holds 16 characters, and a longer
      number is written past its end (undefined behaviour, None here). */
  function NumberAsWritten(v: Long, b: Base, neg: bool, w: Long, fill: char): (r: Option<seq<char>>)
    ensures r.Some? ==> |r.value| <= PC_BUF_SIZE
  {
    var s := Number(v, b, neg, w, fill);
    if |s| <= PC_BUF_SIZE then Some(s) else None
  }

  /** A 24-wide %u of a ten-digit value needs 24 characters, which overruns
      pcBuf; the padded width the format asks for is what the code evidently
      means, and Number renders it. */
  lemma PcBufOverrun()
    ensures NumberAsWritten(4000000000, 10, false, 24, ' ') == None
    ensures |Number(4000000000, 10, false, 24, ' ')| == 24
  {
    assert |Digits(4000000000, 10)| == 10;
    NumberWidth(4000000000, 10, false, 24, ' ');
  }

  /** Up to a width of 16 the buffer is large enough. */
  lemma NumberFitsBuffer(v: Long, b: Base, neg: bool, w: Long, fill: char)
    requires w <= PC_BUF_SIZE
    ensures NumberAsWritten(v, b, neg, w, fill) == Some(Number(v, b, neg, w, fill))
  {
    NumberWidth(v, b, neg, w, fill);
    DigitsOfLong(v, b);
  }

  // ---------------------------------------------------------------------------
  // UARTprintf (uartstdio.c:845-1240)
  // ---------------------------------------------------------------------------

  /** The first index at or after i holding '%' or NUL, or |fmt|. */
  function LiteralEnd(fmt: seq<char>, i: nat): (j: nat)
    requires i <= |fmt|
    ensures i <= j <= |fmt|
    ensures forall t :: i <= t < j ==> fmt[t] != '%' && fmt[t] != '\0'
    ensures j < |fmt| ==> fmt[j] == '%' || fmt[j] == '\0'
    decreases |fmt| - i
  {
    if i == |fmt| || fmt[i] == '%' || fmt[i] == '\0' then i else LiteralEnd(fmt, i + 1)
  }

  predicate IsDigit(c: char) { '0' <= c <= '9' }

  /** Where the conversion character is and the width and fill read on the way. */
  datatype Spec = Spec(at: nat, width: Long, fill: char)

  /** The digit run after a '%' (the `goto again` loop, uartstdio.c:916-946):
      ulCount = ulCount * 10 + digit in 32-bit arithmetic, and a '0' that
      arrives while ulCount is still 0 selects '0' as the fill character. */
  function WidthFrom(fmt: seq<char>, q: nat, w: Long, fill: char): (sp: Spec)
    requires q <= |fmt|
    ensures q <= sp.at <= |fmt|
    ensures forall t :: q <= t < sp.at ==> IsDigit(fmt[t])
    ensures sp.at < |fmt| ==> !IsDigit(fmt[sp.at])
    decreases |fmt| - q
  {
    if q < |fmt| && IsDigit(fmt[q]) then
      WidthFrom(fmt, q + 1, (w * 10 + DigitValue(fmt[q])) % LONG_RANGE,
                if fmt[q] == '0' && w == 0 then '0' else fill)
    else Spec(q, w, fill)
  }

  /** The fill that a digit run fmt[q0..i] selects: '0' when it starts with '0'. */
  function RunFill(fmt: seq<char>, q0: nat, i: nat): char
    requires q0 <= i <= |fmt|
  {
    if i > q0 && fmt[q0] == '0' then '0' else ' '
  }

  /** The decimal value of the digit run fmt[q0..i]. */
  function RunValue(fmt: seq<char>, q0: nat, i: nat): nat
    requires q0 <= i <= |fmt|
    decreases i
  {
    if i == q0 then 0 else RunValue(fmt, q0, i - 1) * 10 + DigitValue(fmt[i - 1])
  }

  /** A digit run of value 0 starts with '0', and a longer run has no smaller
      value. */
  lemma {:induction false} RunValueFacts(fmt: seq<char>, q0: nat, i: nat, at: nat)
    requires q0 <= i <= at <= |fmt|
    requires forall t :: q0 <= t < at ==> IsDigit(fmt[t])
    ensures RunValue(fmt, q0, i) <= RunValue(fmt, q0, at)
    ensures i > q0 && RunValue(fmt, q0, i) == 0 ==> fmt[q0] == '0'
    decreases at
  {
    if i < at {
      RunValueFacts(fmt, q0, i, at - 1);
    } else if i > q0 + 1 {
      RunValueFacts(fmt, q0, i - 1, i - 1);
    }
  }

  /** Reading the width from digit position i on, having read fmt[q0..i]
      already, gives the decimal value of the whole digit run and the fill its
      first digit selects, as long as that value fits in 32 bits. */
  lemma {:induction false} WidthScan(fmt: seq<char>, q0: nat, i: nat, at: nat)
    requires q0 <= i <= at <= |fmt|
    requires forall t :: q0 <= t < at ==> IsDigit(fmt[t])
    requires at < |fmt| ==> !IsDigit(fmt[at])
    requires RunValue(fmt, q0, at) < LONG_RANGE
    ensures RunValue(fmt, q0, i) < LONG_RANGE
    ensures WidthFrom(fmt, i, RunValue(fmt, q0, i), RunFill(fmt, q0, i))
         == Spec(at, RunValue(fmt, q0, at), RunFill(fmt, q0, at))
    decreases at - i
  {
    RunValueFacts(fmt, q0, i, at);
    if i < at {
      var w := RunValue(fmt, q0, i);
      RunValueFacts(fmt, q0, i + 1, at);
      var w' := RunValue(fmt, q0, i + 1);
      assert (w * 10 + DigitValue(fmt[i])) % LONG_RANGE == w';
      assert (if fmt[i] == '0' && w == 0 then '0' else RunFill(fmt, q0, i)) == RunFill(fmt, q0, i + 1);
      WidthScan(fmt, q0, i + 1, at);
    }
  }

  /** The width of a conversion is the decimal value of its digit run (when it
      fits in 32 bits), and the fill is '0' exactly when the run starts with '0'. */
  lemma WidthRun(fmt: seq<char>, q: nat)
    requires q <= |fmt|
    requires RunValue(fmt, q, WidthFrom(fmt, q, 0, ' ').at) < LONG_RANGE
    ensures var sp := WidthFrom(fmt, q, 0, ' ');
      sp.width == RunValue(fmt, q, sp.at) && (sp.fill == '0' <==> sp.at > q && fmt[q] == '0')
  {
    var sp := WidthFrom(fmt, q, 0, ' ');
    WidthScan(fmt, q, q, sp.at);
  }

  /** The value of a %d argument read as a signed long: a magnitude and a sign
      (uartstdio.c:988-1007); `-(long)ulValue` wraps, so 0x80000000 stays. */
  function Signed(v: Long): (r: (Long, bool))
    ensures r.1 <==> v >= 0x8000_0000
    ensures if r.1 then r.0 + v == LONG_RANGE else r.0 == v
  {
    if v >= 0x8000_0000 then (LONG_RANGE - v, true) else (v, false)
  }

  /** The output of one conversion character c with width w and fill, and the
      index of the next unused argument; None where C leaves the behaviour
      undefined: a missing argument or one of the wrong kind. */
  function Conversion(c: char, w: Long, fill: char, args: seq<Arg>, k: nat): Option<(seq<char>, nat)>
  {
    match c
    case 'c' =>
      if k < |args| && args[k].Word? then Some(([(args[k].v % 256) as char], k + 1)) else None
    case 'd' =>
      if k < |args| && args[k].Word? then
        var (m, neg) := Signed(args[k].v);
        Some((Number(m, 10, neg, w, fill), k + 1))
      else None
    case 's' =>
      if k < |args| && args[k].Text? then
        var n := Strlen(args[k].s);
        Some((args[k].s[..n] + Repeat(' ', if w > n then w - n else 0), k + 1))
      else None
    case 'u' =>
      if k < |args| && args[k].Word? then Some((Number(args[k].v, 10, false, w, fill), k + 1)) else None
    case 'x' => Hexadecimal(w, fill, args, k)
    case 'X' => Hexadecimal(w, fill, args, k)
    case 'p' => Hexadecimal(w, fill, args, k)
    case '%' => Some(("%", k))
    case _ => Some(("ERROR", k))
  }

  /** %x, %X and %p alike. */
  function Hexadecimal(w: Long, fill: char, args: seq<Arg>, k: nat): Option<(seq<char>, nat)>
  {
    if k < |args| && args[k].Word? then Some((Number(args[k].v, 16, false, w, fill), k + 1)) else None
  }

  /** One pass of the UARTprintf loop from a format index i that is not at
      the terminating NUL: the literal run up to the next '%' or NUL and, when
      a '%' ends it, the width digits and the conversion.  The result is the
      text handed to UARTwrite, the index after the pass and the next unused
      argument; None where the behaviour is undefined, which includes a format
      that ends inside a conversion (the switch consumes the terminating NUL
      and the scan goes on past it). */
  function Pass(fmt: seq<char>, i: nat, args: seq<Arg>, k: nat): (r: Option<(seq<char>, nat, nat)>)
    requires i < |fmt| && fmt[i] != '\0'
    ensures r.Some? ==> i < r.value.1 <= |fmt|
  {
    var j := LiteralEnd(fmt, i);
    if j == |fmt| || fmt[j] == '\0' then Some((fmt[i..j], j, k))
    else
      var sp := WidthFrom(fmt, j + 1, 0, ' ');
      if sp.at == |fmt| then None
      else match Conversion(fmt[sp.at], sp.width, sp.fill, args, k)
        case None => None
        case Some(out) => Some((fmt[i..j] + out.0, sp.at + 1, out.1))
  }

  /** What UARTprintf hands to UARTwrite from format index i on, with args[k]
      the next argument: pass after pass until the terminating NUL. */
  function FormatFrom(fmt: seq<char>, i: nat, args: seq<Arg>, k: nat): Option<seq<char>>
    requires i <= |fmt|
    decreases |fmt| - i
  {
    if i == |fmt| || fmt[i] == '\0' then Some([])
    else match Pass(fmt, i, args, k)
      case None => None
      case Some((text, i', k')) =>
        match FormatFrom(fmt, i', args, k')
        case None => None
        case Some(rest) => Some(text + rest)
  }

  /** The text UARTprintf(fmt, args...) sends, before newline expansion. */
  function Format(fmt: seq<char>, args: seq<Arg>): Option<seq<char>>
  {
    FormatFrom(fmt, 0, args, 0)
  }

  /** Literal text is copied unchanged up to the first NUL when the format
      holds no conversion. */
  lemma LiteralCopied(fmt: seq<char>, i: nat, args: seq<Arg>, k: nat)
    requires i <= |fmt|
    requires forall t :: i <= t < |fmt| ==> fmt[t] != '%'
    ensures FormatFrom(fmt, i, args, k) == Some(fmt[i..i + Strlen(fmt[i..])])
  {
    var n := Strlen(fmt[i..]);
    if i == |fmt| || fmt[i] == '\0' {
      assert fmt[i..] == [] || fmt[i..][0] == '\0';
      assert n == 0 && fmt[i..i + n] == [];
    } else {
      var j := LiteralEnd(fmt, i);
      assert j == |fmt| || fmt[j] == '\0';
      assert j - i == n;
      assert FormatFrom(fmt, j, args, k) == Some([]);
      assert fmt[i..j] + [] == fmt[i..j];
    }
  }

  /** The text from i on is the pass at i followed by the text after it, as
      UARTwrite sends it. */
  lemma FormatPass(fmt: seq<char>, i: nat, args: seq<Arg>, k: nat)
    requires i < |fmt| && fmt[i] != '\0' && FormatFrom(fmt, i, args, k).Some?
    ensures Pass(fmt, i, args, k).Some?
    ensures var p := Pass(fmt, i, args, k).value;
      FormatFrom(fmt, p.1, args, p.2).Some? &&
      Expand(FormatFrom(fmt, i, args, k).value) == Expand(p.0) + Expand(FormatFrom(fmt, p.1, args, p.2).value)
  {
    var p := Pass(fmt, i, args, k).value;
    ExpandAppend(p.0, FormatFrom(fmt, p.1, args, p.2).value);
  }

  /** What each conversion character produces, beyond the numeric ones:
      "%%" gives "%" and takes no argument, an unknown character gives "ERROR",
      %X and %p are %x with lower-case digits, %d of a value below 2^31 is %u,
      %c sends the low byte (the first byte of the little-endian long), and %s
      is the string followed by spaces up to the width. */
  lemma ConversionTable(c: char, w: Long, fill: char, args: seq<Arg>, k: nat)
    ensures c == '%' ==> Conversion(c, w, fill, args, k) == Some(("%", k))
    ensures c !in "cdsuxXp%" ==> Conversion(c, w, fill, args, k) == Some(("ERROR", k))
    ensures c in "Xp" ==> Conversion(c, w, fill, args, k) == Conversion('x', w, fill, args, k)
    ensures c == 'd' && k < |args| && args[k].Word? && args[k].v < 0x8000_0000 ==>
      Conversion(c, w, fill, args, k) == Conversion('u', w, fill, args, k)
    ensures c == 'c' && k < |args| && args[k].Word? ==>
      Conversion(c, w, fill, args, k) == Some(([(args[k].v % 256) as char], k + 1))
    ensures c == 's' && k < |args| && args[k].Text? ==>
      var s := args[k].s; var out := Conversion(c, w, fill, args, k).value;
      out.1 == k + 1 && |out.0| == (if w > Strlen(s) then w else Strlen(s)) &&
      out.0[..Strlen(s)] == s[..Strlen(s)] &&
      forall t :: Strlen(s) <= t < |out.0| ==> out.0[t] == ' '
    ensures c in "cdsuxXp" && (k >= |args| || (args[k].Text? != (c == 's'))) ==>
      Conversion(c, w, fill, args, k) == None
  {
  }

  /** A negative %d prints a minus sign and the digits of its two's-complement
      magnitude. */
  lemma NegativeDecimal(v: Long, w: Long, fill: char, args: seq<Arg>, k: nat)
    requires k < |args| && args[k] == Word(v) && v >= 0x8000_0000
    ensures var m := LONG_RANGE - v; var r := Conversion('d', w, fill, args, k).value.0;
      0 < m <= 0x8000_0000 && r == Number(m, 10, true, w, fill) &&
      '-' in r && Value(r[|r| - |Digits(m, 10)|..], 10) == m
  {
    var m := LONG_RANGE - v;
    NumberLayout(m, 10, true, w, fill);
    var r := Number(m, 10, true, w, fill);
    if fill == '0' {
      assert r[0] == '-';
    } else {
      assert r[|r| - |Digits(m, 10)| - 1] == '-';
    }
  }
}
