/** The terminal attributes of POSIX.1 Base Definitions chapter 11 (`struct
    termios`) and the raw-mode transform kilo applies to them. Flag values are
    those of Linux with the GNU C library. */
module Termios {

  /** `tcflag_t` is an unsigned 32-bit integer; `c_cc` maps an index to a `cc_t` byte. */
  datatype Attrs = Attrs(iflag: bv32, oflag: bv32, cflag: bv32, lflag: bv32, cc: map<nat, bv8>)

  // Input modes (section 11.2.2)
  const BRKINT: bv32 := 0x2
  const INPCK: bv32 := 0x10
  const ISTRIP: bv32 := 0x20
  const ICRNL: bv32 := 0x100
  const IXON: bv32 := 0x400
  // Output modes (section 11.2.3)
  const OPOST: bv32 := 0x1
  // Control modes (section 11.2.4)
  const CSIZE: bv32 := 0x30
  const CS8: bv32 := 0x30
  // Local modes (section 11.2.5)
  const ISIG: bv32 := 0x1
  const ICANON: bv32 := 0x2
  const ECHO: bv32 := 0x8
  const IEXTEN: bv32 := 0x8000
  // Indices into c_cc (section 11.2.6)
  const VTIME: nat := 5
  const VMIN: nat := 6
  /** The number of entries of `c_cc`. */
  const NCCS: nat := 32

  /** The input, output and local bits raw mode turns off. */
  const RAW_IFLAG_OFF: bv32 := BRKINT | ICRNL | INPCK | ISTRIP | IXON
  const RAW_OFLAG_OFF: bv32 := OPOST
  const RAW_LFLAG_OFF: bv32 := ECHO | ICANON | IEXTEN | ISIG

  /** The attributes kilo applies in raw mode, derived from a snapshot: no break
      signal, CR-to-NL mapping, parity check, stripping or XON/XOFF on input; no
      output processing; 8-bit characters; no echo, canonical input, extended
      processing or signals; and a non-canonical read that returns after one
      tenth of a second even when no byte came (section 11.1.7, case MIN = 0,
      TIME > 0). Every other bit and every other control character is kept. */
  function RawMode(t: Attrs): (r: Attrs)
    ensures r.cc.Keys == t.cc.Keys + {VMIN, VTIME} && r.cc[VMIN] == 0 && r.cc[VTIME] == 1
  {
    Attrs(t.iflag & !RAW_IFLAG_OFF,
          t.oflag & !RAW_OFLAG_OFF,
          t.cflag | CS8,
          t.lflag & !RAW_LFLAG_OFF,
          t.cc[VMIN := 0][VTIME := 1])
  }

  /** What raw mode does to a snapshot: the bits it turns off are off, the
      character size is 8 bits, MIN is 0 and TIME is 1, and every other bit
      and control character is the snapshot's. */
  lemma RawModeSpec(t: Attrs)
    ensures var r := RawMode(t);
      && r.iflag & RAW_IFLAG_OFF == 0 && r.iflag & !RAW_IFLAG_OFF == t.iflag & !RAW_IFLAG_OFF
      && r.oflag & RAW_OFLAG_OFF == 0 && r.oflag & !RAW_OFLAG_OFF == t.oflag & !RAW_OFLAG_OFF
      && r.cflag & CS8 == CS8 && r.cflag & !CS8 == t.cflag & !CS8
      && r.lflag & RAW_LFLAG_OFF == 0 && r.lflag & !RAW_LFLAG_OFF == t.lflag & !RAW_LFLAG_OFF
      && r.cc.Keys == t.cc.Keys + {VMIN, VTIME}
      && r.cc[VMIN] == 0 && r.cc[VTIME] == 1
      && forall i :: i in t.cc && i != VMIN && i != VTIME ==> r.cc[i] == t.cc[i]
  {
  }

  /** Raw mode is a fixed point of itself: applying the transform to attributes
      already in raw mode changes nothing. */
  lemma RawModeIdempotent(t: Attrs)
    ensures RawMode(RawMode(t)) == RawMode(t)
  {
    var r := RawMode(t);
    assert RawMode(r).cc == r.cc;
  }

  /** Each flag named in the source is in the state raw mode asks for, and the
      character size field says 8 bits whatever size the snapshot had. */
  lemma RawModeFlags(t: Attrs)
    ensures var r := RawMode(t);
      && r.iflag & BRKINT == 0 && r.iflag & ICRNL == 0 && r.iflag & INPCK == 0
      && r.iflag & ISTRIP == 0 && r.iflag & IXON == 0
      && r.oflag & OPOST == 0
      && r.cflag & CSIZE == CS8
      && r.lflag & ECHO == 0 && r.lflag & ICANON == 0 && r.lflag & IEXTEN == 0
      && r.lflag & ISIG == 0
  {
  }
}
