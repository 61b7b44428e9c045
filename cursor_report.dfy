/** The cursor position handshake of `getCursorPosition`: after a DSR request
    the terminal answers with a cursor position report, CPR, `ESC [ rows ; cols R`
    (ECMA-48, section 8.3.14). kilo reads that answer byte by byte into a
    32-byte buffer, checks the `ESC [` prefix and hands the rest to
    `sscanf(.., "%d;%d", ..)`. */
module CursorReport {
  import opened Terminal

  const R_BYTE: byte := 'R' as byte
  const PLUS: byte := '+' as byte
  const MINUS: byte := '-' as byte
  const ZERO: byte := '0' as byte

  /** `sizeof(buf)` in `getCursorPosition`; one byte is kept for the NUL. */
  const BUF_SIZE: nat := 32
  const REPLY_ROOM: nat := BUF_SIZE - 1

  /** The bytes C's `isspace` accepts in the "C" locale. */
  predicate IsSpace(b: byte) {
    b == 0x20 || 0x09 <= b <= 0x0d
  }

  predicate IsDigit(b: byte) {
    ZERO <= b <= '9' as byte
  }

  predicate AllSpaces(s: seq<byte>) {
    forall i :: 0 <= i < |s| ==> IsSpace(s[i])
  }

  predicate AllDigits(s: seq<byte>) {
    forall i :: 0 <= i < |s| ==> IsDigit(s[i])
  }

  // ---------------------------------------------------------------------------
  // Filling the buffer

  /** What the fill loop of `getCursorPosition` keeps (`bytes`, the contents of
      buf before the NUL) and how many read results it took (`used`). */
  datatype Reply = Reply(bytes: seq<byte>, used: nat)

  /** The fill loop, on the read results still to come, with `room` bytes of
      buffer left. Reading stops after an 'R' (which is not kept), at the first
      read that does not deliver one byte, or when the buffer is full; when the
      input runs out the next read would time out, which stops it as well. */
  function Collect(input: seq<ReadResult>, room: nat): (r: Reply)
    ensures |r.bytes| <= r.used <= |r.bytes| + 1
    ensures r.used <= room && r.used <= |input|
  {
    if room == 0 || input == [] then Reply([], 0)
    else match input[0]
      case Got(b) =>
        if b == R_BYTE then Reply([], 1)
        else
          var rest := Collect(input[1..], room - 1);
          Reply([b] + rest.bytes, rest.used + 1)
      case _ => Reply([], 1)
  }

  /** What the fill loop takes from the input: the bytes it keeps are the
      first read results, each a byte other than 'R'; after them it either takes
      one more read result, which is an 'R' or a read that delivered no byte, or
      takes none because the buffer is full or the input is over. So it takes
      at most `room` read results, stops right after the first 'R', and leaves
      everything after that 'R' unread. */
  lemma {:induction false} CollectStops(input: seq<ReadResult>, room: nat)
    ensures var r := Collect(input, room);
      && (forall k :: 0 <= k < |r.bytes| ==> input[k] == Got(r.bytes[k]) && r.bytes[k] != R_BYTE)
      && (r.used == |r.bytes| + 1 ==> input[|r.bytes|] == Got(R_BYTE) || !input[|r.bytes|].Got?)
      && (r.used == |r.bytes| ==> |r.bytes| == room || |r.bytes| == |input|)
  {
    if room > 0 && input != [] && input[0].Got? && input[0].b != R_BYTE {
      CollectStops(input[1..], room - 1);
    }
  }

  /** The fill loop, `i` read results in, has kept `kept`, and what it goes
      on to keep and take is what `Collect` keeps and takes from there. */
  ghost predicate FillsAs(input: seq<ReadResult>, i: nat, kept: seq<byte>) {
    && i <= |input| && i <= REPLY_ROOM
    && var rest := Collect(input[i..], REPLY_ROOM - i);
       Collect(input, REPLY_ROOM) == Reply(kept + rest.bytes, i + rest.used)
  }

  /** Keeping one more byte other than 'R'. */
  lemma FillStep(input: seq<ReadResult>, i: nat, kept: seq<byte>)
    requires FillsAs(input, i, kept) && i < |input| && i < REPLY_ROOM
    requires input[i].Got? && input[i].b != R_BYTE
    ensures FillsAs(input, i + 1, kept + [input[i].b])
  {
    assert input[i..][1..] == input[i + 1..];
    var rest := Collect(input[i + 1..], REPLY_ROOM - (i + 1));
    assert kept + ([input[i].b] + rest.bytes) == (kept + [input[i].b]) + rest.bytes;
  }

  /** Stopping: the buffer is full, the input is over, or the read result at
      `i` is an 'R' or delivers no byte, and is taken. */
  lemma FillStop(input: seq<ReadResult>, i: nat, kept: seq<byte>)
    requires FillsAs(input, i, kept)
    requires i == |input| || i == REPLY_ROOM || !input[i].Got? || input[i].b == R_BYTE
    ensures Collect(input, REPLY_ROOM)
         == Reply(kept, if i == |input| || i == REPLY_ROOM then i else i + 1)
  {
    assert kept + [] == kept;
  }

  /** The fill loop of `getCursorPosition` on the read results `stdin[start..]`:
      returns the buffer, the index `len` where the NUL went, and the position
      of the first read result left unread. */
  method ReadReply(stdin: seq<ReadResult>, start: nat) returns (buf: array<byte>, len: nat, next: nat)
    requires start <= |stdin|
    ensures buf.Length == BUF_SIZE && len < buf.Length && buf[len] == NUL
    ensures buf[..len] == Collect(stdin[start..], REPLY_ROOM).bytes
    ensures next == start + Collect(stdin[start..], REPLY_ROOM).used
  {
    buf := new byte[BUF_SIZE];
    ghost var input := stdin[start..];
    ghost var kept: seq<byte> := [];
    var i := 0;
    next := start;
    while i < buf.Length - 1
      invariant next == start + i <= |stdin|
      invariant FillsAs(input, i, kept) && buf[..i] == kept
    {
      if next == |stdin| {
        // the VTIME timeout expires: read returns 0
        break;
      }
      var r := stdin[next];
      assert r == input[i];
      next := next + 1;
      if !r.Got? {
        break;
      }
      buf[i] := r.b;
      if r.b == R_BYTE {
        assert buf[..i] == kept;
        break;
      }
      FillStep(input, i, kept);
      kept := kept + [r.b];
      assert buf[..i + 1] == kept;
      i := i + 1;
    }
    FillStop(input, i, kept);
    buf[i] := NUL;
    assert buf[..i] == kept;
    len := i;
  }

  /** Read results that deliver the bytes of `s` one by one. */
  function Delivered(s: seq<byte>): (rs: seq<ReadResult>)
    ensures |rs| == |s| && forall k :: 0 <= k < |s| ==> rs[k] == Got(s[k])
  {
    seq(|s|, k requires 0 <= k < |s| => Got(s[k]))
  }

  lemma ConsAppend<T>(s: seq<T>, x: seq<T>)
    requires s != []
    ensures s + x == [s[0]] + (s[1..] + x)
  {
    assert s == [s[0]] + s[1..];
  }

  /** Bytes without an 'R' that fit the buffer are all kept; the read result
      after them decides whether one more read is taken. */
  lemma {:induction false} CollectDelivered(s: seq<byte>, after: seq<ReadResult>, room: nat)
    requires R_BYTE !in s && |s| <= room
    ensures var c := Collect(after, room - |s|);
      Collect(Delivered(s) + after, room) == Reply(s + c.bytes, |s| + c.used)
  {
    var input := Delivered(s) + after;
    var c := Collect(after, room - |s|);
    if s == [] {
      assert input == after;
      assert s + c.bytes == c.bytes;
    } else {
      assert input[0] == Got(s[0]) && s[0] != R_BYTE;
      assert input[1..] == Delivered(s[1..]) + after;
      CollectDelivered(s[1..], after, room - 1);
      assert Collect(input[1..], room - 1) == Reply(s[1..] + c.bytes, |s| - 1 + c.used);
      ConsAppend(s, c.bytes);
    }
  }

  // ---------------------------------------------------------------------------
  // Parsing "%d;%d"

  /** The string `sscanf` sees when handed a buffer: everything up to the first NUL. */
  function CString(s: seq<byte>): (c: seq<byte>)
    ensures NUL !in c && |c| <= |s| && c == s[..|c|]
    ensures |c| < |s| ==> s[|c|] == NUL
  {
    if s == [] || s[0] == NUL then [] else [s[0]] + CString(s[1..])
  }

  /** Bytes without a NUL in front of a C string do not shorten it. */
  lemma {:induction false} CStringAppend(a: seq<byte>, b: seq<byte>)
    requires NUL !in a
    ensures CString(a + b) == a + CString(b)
  {
    if a != [] {
      assert (a + b)[1..] == a[1..] + b;
      CStringAppend(a[1..], b);
      assert a == [a[0]] + a[1..];
    } else {
      assert a + b == b;
    }
  }

  /** Where the run of bytes `isspace` accepts that starts at index `i` ends. */
  function SpaceEnd(s: seq<byte>, i: nat): (j: nat)
    requires i <= |s|
    ensures i <= j <= |s|
    decreases |s| - i
  {
    if i < |s| && IsSpace(s[i]) then SpaceEnd(s, i + 1) else i
  }

  /** The run is maximal: all of it is white space, and the byte after it is not. */
  lemma {:induction false} SpaceEndSpec(s: seq<byte>, i: nat)
    requires i <= |s|
    ensures AllSpaces(s[i..SpaceEnd(s, i)])
    ensures SpaceEnd(s, i) < |s| ==> !IsSpace(s[SpaceEnd(s, i)])
    decreases |s| - i
  {
    if i < |s| && IsSpace(s[i]) {
      SpaceEndSpec(s, i + 1);
      assert s[i..SpaceEnd(s, i)] == [s[i]] + s[i + 1..SpaceEnd(s, i + 1)];
    }
  }

  /** A maximal run of white space is found in full. */
  lemma {:induction false} SpaceEndOf(s: seq<byte>, i: nat, j: nat)
    requires i <= j <= |s| && AllSpaces(s[i..j]) && (j == |s| || !IsSpace(s[j]))
    ensures SpaceEnd(s, i) == j
    decreases j - i
  {
    if i < j {
      assert s[i..j][0] == s[i] && s[i + 1..j] == s[i..j][1..];
      SpaceEndOf(s, i + 1, j);
    }
  }

  /** Where the run of decimal digits that starts at index `i` ends. */
  function DigitEnd(s: seq<byte>, i: nat): (j: nat)
    requires i <= |s|
    ensures i <= j <= |s|
    decreases |s| - i
  {
    if i < |s| && IsDigit(s[i]) then DigitEnd(s, i + 1) else i
  }

  /** The run is maximal: all of it is digits, and the byte after it is not one. */
  lemma {:induction false} DigitEndSpec(s: seq<byte>, i: nat)
    requires i <= |s|
    ensures AllDigits(s[i..DigitEnd(s, i)])
    ensures DigitEnd(s, i) < |s| ==> !IsDigit(s[DigitEnd(s, i)])
    decreases |s| - i
  {
    if i < |s| && IsDigit(s[i]) {
      DigitEndSpec(s, i + 1);
      assert s[i..DigitEnd(s, i)] == [s[i]] + s[i + 1..DigitEnd(s, i + 1)];
    }
  }

  /** A maximal run of digits is found in full. */
  lemma {:induction false} DigitEndOf(s: seq<byte>, i: nat, j: nat)
    requires i <= j <= |s| && AllDigits(s[i..j]) && (j == |s| || !IsDigit(s[j]))
    ensures DigitEnd(s, i) == j
    decreases j - i
  {
    if i < j {
      assert s[i..j][0] == s[i] && s[i + 1..j] == s[i..j][1..];
      DigitEndOf(s, i + 1, j);
    }
  }

  /** The value of a string of decimal digits, most significant first. */
  function DigitsValue(ds: seq<byte>): int {
    if ds == [] then 0
    else DigitsValue(ds[..|ds| - 1]) * 10 + (ds[|ds| - 1] as int - ZERO as int)
  }

  datatype Sign = Unsigned | Plus | Minus

  /** The text one `%d` conversion consumes: white space, an optional sign and
      at least one digit. */
  datatype Field = Field(spaces: seq<byte>, sign: Sign, digits: seq<byte>)

  predicate ValidField(f: Field) {
    AllSpaces(f.spaces) && |f.digits| > 0 && AllDigits(f.digits)
  }

  function SignText(sign: Sign): seq<byte> {
    match sign
    case Unsigned => []
    case Plus => [PLUS]
    case Minus => [MINUS]
  }

  function FieldText(f: Field): seq<byte> {
    f.spaces + SignText(f.sign) + f.digits
  }

  function FieldValue(f: Field): int {
    if f.sign == Minus then -DigitsValue(f.digits) else DigitsValue(f.digits)
  }

  /** One match of `%d` at the start of the string, and the number of bytes it consumed. */
  datatype Scanned = Scanned(field: Field, len: nat)

  /** The sign `%d` takes at index `w`, if there is one. */
  function SignAt(s: seq<byte>, w: nat): Sign {
    if w < |s| && s[w] == PLUS then Plus
    else if w < |s| && s[w] == MINUS then Minus
    else Unsigned
  }

  /** One `%d` conversion of `sscanf`: skip white space, take an optional sign,
      then the longest run of digits, of which there must be at least one. */
  function ScanInt(s: seq<byte>): (r: Option<Scanned>)
    ensures r.Some? ==> 0 < r.value.len == |FieldText(r.value.field)| <= |s|
  {
    var w := SpaceEnd(s, 0);
    var sign := SignAt(s, w);
    var k := w + |SignText(sign)|;
    var e := DigitEnd(s, k);
    if e == k then None
    else Some(Scanned(Field(s[..w], sign, s[k..e]), e))
  }

  /** Soundness of one conversion: a successful scan consumed exactly the text
      of a valid field and stopped before a byte that is not a digit. */
  lemma ScanIntSound(s: seq<byte>)
    ensures var r := ScanInt(s);
      r.Some? ==> && ValidField(r.value.field) && r.value.len <= |s|
                  && s[..r.value.len] == FieldText(r.value.field)
                  && (r.value.len == |s| || !IsDigit(s[r.value.len]))
  {
    var w := SpaceEnd(s, 0);
    var sign := SignAt(s, w);
    var k := w + |SignText(sign)|;
    var e := DigitEnd(s, k);
    SpaceEndSpec(s, 0);
    DigitEndSpec(s, k);
    if e > k {
      assert s[0..w] == s[..w];
      assert s[w..k] == SignText(sign);
      assert s[..e] == s[..w] + s[w..k] + s[k..e];
    }
  }

  /** `sscanf(s, "%d;%d", &rows, &cols) == 2`: a field, a ';' right after it
      (the literal in the format skips no white space), and a second field. */
  function ScanPair(s: seq<byte>): (r: Option<(int, int)>)
    ensures r.Some? ==> SEMI in s && |s| >= 3
  {
    var a := ScanInt(s);
    if a.None? || a.value.len >= |s| || s[a.value.len] != SEMI then None
    else
      var b := ScanInt(s[a.value.len + 1..]);
      if b.None? then None else Some((FieldValue(a.value.field), FieldValue(b.value.field)))
  }

  /** The checks `getCursorPosition` makes on the bytes it kept: `buf[0]` must be
      ESC and `buf[1]` '[' (a byte past the end of what was kept is the NUL),
      then `"%d;%d"` must match what follows, up to the first NUL. */
  function ParseCpr(buf: seq<byte>): (r: Option<(int, int)>)
    ensures r.Some? ==> |buf| >= 2 && buf[0] == ESC && buf[1] == LBRACKET
    ensures r.Some? ==> SEMI in CString(buf[2..])
  {
    if |buf| < 2 || buf[0] != ESC || buf[1] != LBRACKET then None
    else
      var s := CString(buf[2..]);
      var p := ScanPair(s);
      assert p.Some? ==> s[ScanInt(s).value.len] == SEMI;
      p
  }

  /** A NUL at index `m` ends the C string there. */
  lemma {:induction false} CStringCut(s: seq<byte>, m: int)
    requires 0 <= m < |s| && s[m] == NUL
    ensures CString(s) == CString(s[..m])
  {
    if m > 0 && s[0] != NUL {
      CStringCut(s[1..], m - 1);
      assert s[..m][1..] == s[1..][..m - 1];
    }
  }

  /** The checks `getCursorPosition` makes on its NUL-terminated buffer, which
      look at `buf[0]` and `buf[1]` even when fewer bytes were kept, amount to
      parsing what was kept. */
  lemma ParseCprOfBuffer(buf: seq<byte>, len: nat)
    requires len < |buf| && |buf| >= 2 && buf[len] == NUL
    ensures ParseCpr(buf[..len])
         == if buf[0] != ESC || buf[1] != LBRACKET then None else ScanPair(CString(buf[2..]))
  {
    if len >= 2 && buf[0] == ESC && buf[1] == LBRACKET {
      CStringCut(buf[2..], len - 2);
      assert buf[2..][..len - 2] == buf[..len][2..];
      assert CString(buf[..len][2..]) == CString(buf[2..]);
    } else if len < 2 {
      // the NUL sits at index 0 or 1
      assert buf[0] != ESC || buf[1] != LBRACKET;
    }
  }

  /** What `getCursorPosition` obtains from the read results that follow its
      DSR request: the position the reply states, if it parses, and the number
      of read results it took. */
  datatype Query = Query(size: Option<(int, int)>, used: nat)

  /** The fill loop followed by the parse, read result by read result: `kept`
      is what the buffer holds so far and `room` the bytes it has left. It is
      the same outcome as parsing what `Collect` keeps (`HandshakeCollect`),
      written as one pass so that a method contract stated with it unfolds one
      read result at a time rather than the whole parse. */
  function Handshake(input: seq<ReadResult>, room: nat, kept: seq<byte>): (q: Query)
    ensures q.used <= room && q.used <= |input|
  {
    if room == 0 || input == [] then Query(ParseCpr(kept), 0)
    else match input[0]
      case Got(b) =>
        if b == R_BYTE then Query(ParseCpr(kept), 1)
        else
          var q := Handshake(input[1..], room - 1, kept + [b]);
          Query(q.size, q.used + 1)
      case _ => Query(ParseCpr(kept), 1)
  }

  function CursorQuery(input: seq<ReadResult>): (q: Query)
    ensures q.used <= REPLY_ROOM && q.used <= |input|
  {
    Handshake(input, REPLY_ROOM, [])
  }

  /** The handshake parses what the fill loop keeps and takes what it takes. */
  lemma {:induction false} HandshakeCollect(input: seq<ReadResult>, room: nat, kept: seq<byte>)
    ensures var c := Collect(input, room);
      Handshake(input, room, kept) == Query(ParseCpr(kept + c.bytes), c.used)
  {
    var c := Collect(input, room);
    if room == 0 || input == [] || !input[0].Got? || input[0].b == R_BYTE {
      assert kept + c.bytes == kept;
    } else {
      var b := input[0].b;
      HandshakeCollect(input[1..], room - 1, kept + [b]);
      var rest := Collect(input[1..], room - 1);
      assert kept + [b] + rest.bytes == kept + ([b] + rest.bytes);
    }
  }

  lemma CursorQueryCollect(input: seq<ReadResult>)
    ensures var c := Collect(input, REPLY_ROOM);
      CursorQuery(input) == Query(ParseCpr(c.bytes), c.used)
  {
    HandshakeCollect(input, REPLY_ROOM, []);
    assert [] + Collect(input, REPLY_ROOM).bytes == Collect(input, REPLY_ROOM).bytes;
  }

  // ---------------------------------------------------------------------------
  // What the terminal sends, and the round trip

  /** Decimal digits of `n`, most significant first, without leading zeros. */
  function Digits(n: nat): (ds: seq<byte>)
    ensures |ds| > 0 && AllDigits(ds)
  {
    if n < 10 then [ZERO + n as byte]
    else Digits(n / 10) + [ZERO + (n % 10) as byte]
  }

  /** `n` as a terminal writes it in a report: a '-' for a negative number,
      then its digits. */
  function Decimal(n: int): (f: Field)
    ensures ValidField(f)
  {
    if n < 0 then Field([], Minus, Digits(-n)) else Field([], Unsigned, Digits(n))
  }

  /** The cursor position report `ESC [ rows ; cols R`. */
  function CprText(rows: int, cols: int): seq<byte> {
    [ESC, LBRACKET] + FieldText(Decimal(rows)) + [SEMI] + FieldText(Decimal(cols)) + [R_BYTE]
  }

  lemma {:induction false} DigitsValueOfDigits(n: nat)
    ensures DigitsValue(Digits(n)) == n
  {
    if n >= 10 {
      var ds := Digits(n);
      assert ds[..|ds| - 1] == Digits(n / 10);
      DigitsValueOfDigits(n / 10);
    }
  }

  lemma DecimalValue(n: int)
    ensures FieldValue(Decimal(n)) == n
  {
    DigitsValueOfDigits(if n < 0 then -n else n);
  }

  /** Where the pieces of a field's text, followed by `t`, lie. */
  lemma FieldTextSplit(f: Field, t: seq<byte>)
    ensures var s := FieldText(f) + t;
      var w := |f.spaces|; var k := w + |SignText(f.sign)|; var e := k + |f.digits|;
      && e <= |s| && s[..w] == s[0..w] == f.spaces && s[w..k] == SignText(f.sign)
      && s[k..e] == f.digits && s[e..] == t
  {
    var s := FieldText(f) + t;
    assert s == f.spaces + SignText(f.sign) + f.digits + t;
  }

  /** The byte that follows a field's white space: its sign, or else its first digit. */
  lemma FieldTextAfterSpaces(f: Field, t: seq<byte>)
    requires ValidField(f)
    ensures var s := FieldText(f) + t; var w := |f.spaces|;
      w < |s| && s[w] == if f.sign == Unsigned then f.digits[0] else SignText(f.sign)[0]
  {
    var s := FieldText(f) + t;
    var w := |f.spaces|;
    FieldTextSplit(f, t);
    var k := w + |SignText(f.sign)|;
    if f.sign == Unsigned {
      assert s[w] == s[k..k + |f.digits|][0];
    } else {
      assert s[w] == s[w..k][0];
    }
  }

  /** `%d` reads back every field it accepts: scanning the text of a valid
      field, followed by anything that does not continue its digits, gives that
      field and consumes exactly its text. */
  lemma ScanFieldText(f: Field, t: seq<byte>)
    requires ValidField(f) && (t == [] || !IsDigit(t[0]))
    ensures ScanInt(FieldText(f) + t) == Some(Scanned(f, |FieldText(f)|))
  {
    var s := FieldText(f) + t;
    var w := |f.spaces|;
    var k := w + |SignText(f.sign)|;
    var e := k + |f.digits|;
    FieldTextSplit(f, t);
    FieldTextAfterSpaces(f, t);
    SpaceEndOf(s, 0, w);
    assert SignAt(s, w) == f.sign;
    assert e < |s| ==> s[e] == t[0];
    DigitEndOf(s, k, e);
    assert Field(s[..w], f.sign, s[k..e]) == f;
  }

  lemma ScanPairSplit(p: seq<byte>, q: seq<byte>, a: Scanned, b: Scanned)
    requires ScanInt(p + [SEMI] + q) == Some(a) && a.len == |p|
    requires ScanInt(q) == Some(b)
    ensures ScanPair(p + [SEMI] + q) == Some((FieldValue(a.field), FieldValue(b.field)))
  {
    assert (p + [SEMI] + q)[|p| + 1..] == q;
  }

  /** `"%d;%d"` reads back two fields written around a ';'. */
  lemma ScanPairOfFields(f1: Field, f2: Field, t: seq<byte>)
    requires ValidField(f1) && ValidField(f2) && (t == [] || !IsDigit(t[0]))
    ensures ScanPair(FieldText(f1) + [SEMI] + FieldText(f2) + t) == Some((FieldValue(f1), FieldValue(f2)))
  {
    var p, q := FieldText(f1), FieldText(f2) + t;
    assert p + [SEMI] + FieldText(f2) + t == p + [SEMI] + q;
    assert p + [SEMI] + q == p + ([SEMI] + q);
    ScanFieldText(f1, [SEMI] + q);
    ScanFieldText(f2, t);
    ScanPairSplit(p, q, Scanned(f1, |p|), Scanned(f2, |FieldText(f2)|));
  }

  lemma FieldHasNoNul(f: Field)
    requires ValidField(f)
    ensures NUL !in FieldText(f)
  {
  }

  /** Past the `ESC [` prefix, `sscanf` sees the bytes up to the first NUL. */
  lemma ParseCprOfBody(body: seq<byte>, t: seq<byte>)
    requires NUL !in body
    ensures ParseCpr([ESC, LBRACKET] + body + t) == ScanPair(body + CString(t))
  {
    var buf := [ESC, LBRACKET] + body + t;
    assert buf[2..] == body + t;
    CStringAppend(body, t);
  }

  /** Completeness of the check: after `ESC [`, any two `%d` fields around a
      ';' are accepted with their values, whatever follows the second field
      (a NUL, an 'R', other bytes or nothing) as long as it does not continue
      its digits. */
  lemma ParseCprOfFields(f1: Field, f2: Field, t: seq<byte>)
    requires ValidField(f1) && ValidField(f2) && (t == [] || !IsDigit(t[0]))
    ensures ParseCpr([ESC, LBRACKET] + FieldText(f1) + [SEMI] + FieldText(f2) + t)
         == Some((FieldValue(f1), FieldValue(f2)))
  {
    var body := FieldText(f1) + [SEMI] + FieldText(f2);
    var buf := [ESC, LBRACKET] + FieldText(f1) + [SEMI] + FieldText(f2) + t;
    assert buf == [ESC, LBRACKET] + body + t;
    FieldHasNoNul(f1);
    FieldHasNoNul(f2);
    assert NUL !in body;
    ParseCprOfBody(body, t);
    var ct := CString(t);
    assert ct == [] || ct[0] == t[0];
    ScanPairOfFields(f1, f2, ct);
    assert ParseCpr(buf) == ScanPair(body + ct);
  }

  /** Soundness of `"%d;%d"`: whatever it accepts is two fields around a ';',
      followed by something that does not continue the second one's digits,
      and the values it gives are theirs. */
  lemma ScanPairSound(s: seq<byte>) returns (f1: Field, f2: Field, t: seq<byte>)
    requires ScanPair(s).Some?
    ensures ValidField(f1) && ValidField(f2) && (t == [] || !IsDigit(t[0]))
    ensures s == FieldText(f1) + [SEMI] + FieldText(f2) + t
    ensures ScanPair(s).value == (FieldValue(f1), FieldValue(f2))
  {
    var a, b := ScanPairParts(s);
    var rest := s[a.len + 1..];
    ScanIntSound(s);
    ScanIntSound(rest);
    f1, f2, t := a.field, b.field, rest[b.len..];
    assert t == [] || t[0] == rest[b.len];
    Join(s, a.len, b.len, FieldText(f1), FieldText(f2));
  }

  /** The two conversions an accepted `"%d;%d"` made, and the ';' between them. */
  lemma ScanPairParts(s: seq<byte>) returns (a: Scanned, b: Scanned)
    requires ScanPair(s).Some?
    ensures ScanInt(s) == Some(a) && a.len < |s| && s[a.len] == SEMI
    ensures ScanInt(s[a.len + 1..]) == Some(b)
    ensures ScanPair(s).value == (FieldValue(a.field), FieldValue(b.field))
  {
    a := ScanInt(s).value;
    b := ScanInt(s[a.len + 1..]).value;
  }

  /** `s` put back together from `x` before index `i`, the ';' there, `y`
      after it and what follows `y`. */
  lemma Join(s: seq<byte>, i: nat, j: nat, x: seq<byte>, y: seq<byte>)
    requires i < |s| && j <= |s| - i - 1
    requires s[..i] == x && s[i] == SEMI && s[i + 1..][..j] == y
    ensures s == x + [SEMI] + y + s[i + 1..][j..]
  {
    assert s == s[..i] + [s[i]] + s[i + 1..];
    assert s[i + 1..] == s[i + 1..][..j] + s[i + 1..][j..];
  }

  /** Soundness of the check: a reply `getCursorPosition` accepts starts with
      ESC '[', and what `sscanf` sees after that is two `%d` fields around a
      ';', followed by bytes that do not continue the second one's digits; the
      rows and columns obtained are the values of those fields. */
  lemma ParseCprSound(buf: seq<byte>) returns (f1: Field, f2: Field, t: seq<byte>)
    requires ParseCpr(buf).Some?
    ensures |buf| >= 2 && buf[0] == ESC && buf[1] == LBRACKET
    ensures ValidField(f1) && ValidField(f2) && (t == [] || !IsDigit(t[0])) && NUL !in t
    ensures CString(buf[2..]) == FieldText(f1) + [SEMI] + FieldText(f2) + t
    ensures ParseCpr(buf).value == (FieldValue(f1), FieldValue(f2))
  {
    var s := CString(buf[2..]);
    f1, f2, t := ScanPairSound(s);
    assert t == s[|s| - |t|..];
  }

  /** No byte of a report other than the last is an 'R'. */
  lemma NoTerminatorInField(f: Field)
    requires ValidField(f)
    ensures R_BYTE !in FieldText(f)
  {
  }

  /** The handshake round trip: when the terminal answers with a report that
      fits the buffer (at most 30 bytes before the 'R'), kilo reads exactly the
      report, 'R' included, leaves what follows unread, and obtains the rows and
      columns the terminal sent. Zero and negative values come back as sent. */
  lemma CprRoundTrip(rows: int, cols: int, after: seq<ReadResult>)
    requires |CprText(rows, cols)| <= REPLY_ROOM
    ensures var reply := Collect(Delivered(CprText(rows, cols)) + after, REPLY_ROOM);
      && reply.bytes == CprText(rows, cols)[..|CprText(rows, cols)| - 1]
      && reply.used == |CprText(rows, cols)|
      && ParseCpr(reply.bytes) == Some((rows, cols))
  {
    var f1, f2 := Decimal(rows), Decimal(cols);
    var body := [ESC, LBRACKET] + FieldText(f1) + [SEMI] + FieldText(f2);
    var text := CprText(rows, cols);
    assert text == body + [R_BYTE];
    NoTerminatorInField(f1);
    NoTerminatorInField(f2);
    assert R_BYTE !in body;
    assert Delivered(text) == Delivered(body) + [Got(R_BYTE)];
    assert Delivered(text) + after == Delivered(body) + ([Got(R_BYTE)] + after);
    CollectDelivered(body, [Got(R_BYTE)] + after, REPLY_ROOM);
    assert text[..|text| - 1] == body;
    ParseCprOfFields(f1, f2, []);
    assert body + [] == body;
    DecimalValue(rows);
    DecimalValue(cols);
  }

  /** The terminating 'R' is not needed: a report cut short by a read that
      delivers nothing is still accepted, after one more read result was taken. */
  lemma UnterminatedReportAccepted(rows: int, cols: int, after: seq<ReadResult>)
    requires |CprText(rows, cols)| <= REPLY_ROOM
    ensures var body := CprText(rows, cols)[..|CprText(rows, cols)| - 1];
      var reply := Collect(Delivered(body) + [Nothing] + after, REPLY_ROOM);
      && reply.bytes == body
      && reply.used == |body| + 1
      && ParseCpr(reply.bytes) == Some((rows, cols))
  {
    var f1, f2 := Decimal(rows), Decimal(cols);
    var body := [ESC, LBRACKET] + FieldText(f1) + [SEMI] + FieldText(f2);
    assert CprText(rows, cols)[..|CprText(rows, cols)| - 1] == body;
    NoTerminatorInField(f1);
    NoTerminatorInField(f2);
    assert R_BYTE !in body;
    assert Delivered(body) + [Nothing] + after == Delivered(body) + ([Nothing] + after);
    CollectDelivered(body, [Nothing] + after, REPLY_ROOM);
    ParseCprOfFields(f1, f2, []);
    assert body + [] == body;
    DecimalValue(rows);
    DecimalValue(cols);
  }

  /** The report for 40 rows and 120 columns is ESC [ 40 ; 120 R. */
  lemma Report40By120Text()
    ensures CprText(40, 120) == [ESC, LBRACKET, '4' as byte, '0' as byte, SEMI, '1' as byte, '2' as byte, '0' as byte, R_BYTE]
  {
    assert Digits(40) == ['4' as byte, '0' as byte] by {
      assert Digits(40) == Digits(4) + ['0' as byte];
    }
    assert Digits(120) == ['1' as byte, '2' as byte, '0' as byte] by {
      assert Digits(120) == Digits(12) + ['0' as byte];
      assert Digits(12) == Digits(1) + ['2' as byte];
    }
  }

  /** The report ESC [ 40 ; 120 R gives 40 rows and 120 columns. */
  lemma Report40By120()
    ensures ParseCpr(Collect(Delivered(CprText(40, 120)), REPLY_ROOM).bytes) == Some((40, 120))
  {
    Report40By120Text();
    var text := CprText(40, 120);
    CprRoundTrip(40, 120, []);
    assert Delivered(text) + [] == Delivered(text);
  }

  /** A reply that does not start with ESC '[' is refused. */
  lemma ParseCprNeedsPrefix(buf: seq<byte>)
    requires |buf| < 2 || buf[0] != ESC || buf[1] != LBRACKET
    ensures ParseCpr(buf) == None
  {
  }

  /** A reply whose first byte after ESC '[' can begin no number (not white
      space, a sign or a digit; a NUL included) is refused. */
  lemma ParseCprNeedsNumber(buf: seq<byte>)
    requires |buf| >= 3 && !IsSpace(buf[2]) && buf[2] != PLUS && buf[2] != MINUS && !IsDigit(buf[2])
    ensures ParseCpr(buf) == None
  {
  }

  /** A reply with no ';' is refused. */
  lemma ParseCprNeedsSeparator(buf: seq<byte>)
    requires SEMI !in buf
    ensures ParseCpr(buf) == None
  {
  }
}
