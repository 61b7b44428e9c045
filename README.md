# kilo, first steps: a verified model

kilo.c is the opening stage of a terminal text editor. It puts the terminal
into raw mode and finds out the screen size. It then draws a column of `~`
placeholders and reads keys until Ctrl-Q. Any failure clears the screen and
exits with status 1. Once the snapshot of the terminal attributes is taken,
every exit runs an `atexit` hook that restores it; an exit before that leaves
the attributes untouched.

This project models that program on explicit values. The operating system is
replaced as follows:

- The terminal attributes are a value (`Termios.Attrs`): four `tcflag_t`
  bit-vectors and a map for `c_cc`.
- Standard input is the sequence of results that successive one-byte `read`s
  return (`Terminal.ReadResult`): a byte, zero bytes, or -1 with an errno.
- Standard output is the trace of every byte written.
- Each OS call whose outcome the program checks gets that outcome as a
  parameter: `tcgetattr`, `tcsetattr`, `ioctl(TIOCGWINSZ)`, and the return
  value of each checked `write`.

The modules follow the program's pieces:

- `Terminal`: bytes, the escape sequences kilo sends, and read and write
  results.
- `Termios`: `struct termios` and the raw-mode transform of `enableRawMode`.
  The chapter and section numbers are those of POSIX.1 Base Definitions,
  chapter 11.
- `Keys`: `CTRL_KEY`, the retry loop of `editorReadKey`, and the key map of
  `editorProcessKeypress`.
- `Render`: the bytes `editorRefreshScreen` and `editorDrawRows` write.
- `CursorReport`: the cursor position report handshake of
  `getCursorPosition`. The reply is read into a 32-byte buffer, then the
  `ESC [` prefix is checked and `"%d;%d"` is parsed the way `sscanf` does it.
  It also proves the round trip from a report a terminal sends (ECMA-48,
  section 8.3.14) to the rows and columns kilo obtains.
- `Session`: the global editor state `E`, the exit hook, and the lifecycle,
  as a class whose methods follow kilo's functions. These are `die`,
  `disableRawMode`, `enableRawMode`, `getCursorPosition`, `getWindowSize`,
  `initEditor`, `editorDrawRows`, `editorRefreshScreen`,
  `editorProcessKeypress` and `main`. Its invariant `Valid` carries the
  restoration property: once the process has exited, the terminal has the
  attributes it started with.

The model follows the code where the report format suggests more than the
code checks:

- A cursor report with no `R` is accepted. The fill loop also stops on a read
  that delivers nothing, or when the buffer is full, and `sscanf` does not
  look for the `R`.
- Zero, negative and signed row and column counts are accepted, and so is
  white space before a number.
- `ioctl` success with `ws_row == 0` and `ws_col != 0` is taken as is.
- `editorReadKey` retries inside its own loop without redrawing the screen.
  A read error other than EAGAIN, including EINTR, is fatal.

## Model

| member | source | states |
|---|---|---|
| Keys.CtrlKey | kilo.c:11 | Ctrl with a key gives a byte below 32; for a letter of either case it is that letter's position in the alphabet |
| Keys.QuitKeyValue | kilo.c:83 | the quit key `CTRL_KEY('q')` is byte 0x11, the same as Ctrl with 'Q' |
| Keys.Dispatch | kilo.c:80-90 | a key means quit if and only if it is byte 0x11; every other byte is ignored |
| Keys.NextKey | kilo.c:71-78 | the outcome of `editorReadKey` on the read results to come; a key or a fatal error comes from one of them |
| Keys.NextKeySpec | kilo.c:71-78 | `editorReadKey` returns the first byte actually read, after nothing but zero-byte reads and EAGAIN errors; it fails only on another errno, again after nothing but retries; it never gives up on timeouts |
| Keys.ReadKey | kilo.c:71-78 | the retry loop returns what `NextKey` says and leaves the input just past the result it stopped at |
| Termios.RawMode | kilo.c:40-66 | the raw attributes derived from a snapshot; `c_cc` gets entries VMIN = 0 and VTIME = 1 beside the snapshot's |
| Termios.RawModeSpec | kilo.c:40-66 | raw mode clears BRKINT, ICRNL, INPCK, ISTRIP, IXON, OPOST, ECHO, ICANON, IEXTEN and ISIG, sets CS8, sets MIN to 0 and TIME to 1, and keeps every other bit and control character of the snapshot |
| Termios.RawModeFlags | kilo.c:40-66 | each flag the source names is in its raw state, and the character size field reads 8 bits whatever size the snapshot had |
| Termios.RawModeIdempotent | kilo.c:40-66 | applying the transform twice gives the same attributes as applying it once |
| Terminal.Written | kilo.c:98 | a write that returned n put exactly the first n bytes on the line, and nothing when it failed |
| Terminal.WriteLengthsMatch | kilo.c:22-23 | each escape sequence is as long as the byte count kilo passes to `write` with it: 4 for ED and 3 for CUP here, and also 12 for the cursor move (line 120) and 4 for the DSR request (line 98) |
| CursorReport.Collect | kilo.c:100-104 | the fill loop keeps no more bytes than read results it took, at most one fewer, and takes at most as many read results as the buffer has room for (31 in kilo) |
| CursorReport.CollectStops | kilo.c:100-104 | the bytes kept are the first read results, none of them an 'R'; the loop then takes one more result only when it is an 'R' or delivers no byte, and otherwise stops because the buffer is full or the input is over, so bytes after the 'R' stay unread |
| CursorReport.ReadReply | kilo.c:94-106 | the 32-byte buffer holds what `Collect` keeps followed by a NUL, and the input is left just past what `Collect` takes |
| CursorReport.CollectDelivered | kilo.c:100-104 | a run of bytes with no 'R' that fits the buffer is kept whole, and reading carries on after it |
| CursorReport.CString | kilo.c:109 | `sscanf` sees the buffer up to its first NUL, and that prefix holds no NUL |
| CursorReport.CStringAppend | kilo.c:109 | bytes without a NUL in front of a C string lengthen it by exactly themselves |
| CursorReport.CStringCut | kilo.c:106 | the NUL stored after the kept bytes ends the string `sscanf` reads there |
| CursorReport.SpaceEndSpec | kilo.c:109 | the white space `%d` skips is a maximal run of `isspace` bytes |
| CursorReport.SpaceEndOf | kilo.c:109 | a maximal run of white space is skipped in full |
| CursorReport.DigitEndSpec | kilo.c:109 | the digits `%d` takes are a maximal run |
| CursorReport.DigitEndOf | kilo.c:109 | a maximal run of digits is taken in full |
| CursorReport.ScanInt | kilo.c:109 | one `%d`: a match consumes at least one byte, exactly the length of the field it returns |
| CursorReport.ScanIntSound | kilo.c:109 | a successful `%d` consumed exactly the text of a valid field: white space, an optional sign and at least one digit, followed by a byte that is not a digit |
| CursorReport.ScanFieldText | kilo.c:109 | `%d` reads back every valid field, consuming exactly its text, when what follows is not a digit |
| CursorReport.ScanPair | kilo.c:109 | `"%d;%d"` with both conversions stored; text it accepts holds a ';' and at least three bytes |
| CursorReport.ScanPairSound | kilo.c:109 | whatever `"%d;%d"` accepts is two valid fields around a ';', followed by a byte that does not continue the digits, and the values it gives are theirs |
| CursorReport.ScanPairOfFields | kilo.c:109 | `"%d;%d"` reads back the values of two fields written around a ';' |
| CursorReport.ParseCpr | kilo.c:108-109 | an accepted reply starts with ESC '[' and its C string holds a ';' |
| CursorReport.ParseCprSound | kilo.c:106-111 | a reply is accepted only if it starts with ESC '[' and what `sscanf` sees after that is two `%d` fields around a ';', followed by bytes that do not continue the second field's digits; the rows and columns are those fields' values |
| CursorReport.ParseCprOfBuffer | kilo.c:106-109 | the checks on `buf[0]`, `buf[1]` and `sscanf` over the NUL-terminated buffer amount to parsing the bytes that were kept |
| CursorReport.ParseCprOfBody | kilo.c:108-109 | past the `ESC [` prefix, `sscanf` sees the bytes up to the first NUL |
| CursorReport.ParseCprOfFields | kilo.c:108-109 | after ESC '[', any two `%d` fields around a ';' are accepted with their values, whatever follows the second field as long as it does not continue its digits |
| CursorReport.Handshake | kilo.c:100-109 | the fill loop and the parse in one pass; it takes no more read results than the buffer has room for and than there are |
| CursorReport.CursorQuery | kilo.c:92-112 | what `getCursorPosition` obtains after its request: at most 31 read results taken, and the position, if the reply parses |
| CursorReport.HandshakeCollect | kilo.c:100-109 | the handshake function, read result by read result, parses exactly what the fill loop keeps and takes exactly what the fill loop takes |
| CursorReport.CursorQueryCollect | kilo.c:92-112 | the outcome of `getCursorPosition` after its request is the parse of what the fill loop keeps from the input |
| CursorReport.DigitsValueOfDigits | kilo.c:109 | the decimal digits of a number read back as that number |
| CursorReport.DecimalValue | kilo.c:109 | a number written in decimal, with a '-' when negative, reads back as itself |
| CursorReport.CprRoundTrip | kilo.c:92-112 | for a report of at most 30 bytes before the 'R', kilo takes exactly the report, 'R' included, leaves what follows unread, and obtains the rows and columns sent, zero and negative ones included |
| CursorReport.UnterminatedReportAccepted | kilo.c:100-109 | a report cut short of its 'R' by an empty read is still accepted, with its rows and columns |
| CursorReport.Report40By120Text | kilo.c:92-112 | the report for 40 rows and 120 columns is the byte string ESC [ 4 0 ; 1 2 0 R |
| CursorReport.Report40By120 | kilo.c:92-112 | that report gives 40 rows and 120 columns |
| CursorReport.ParseCprNeedsPrefix | kilo.c:108 | a reply that does not start with ESC '[' is refused |
| CursorReport.ParseCprNeedsNumber | kilo.c:109 | a reply whose first byte after ESC '[' can start no number is refused |
| CursorReport.ParseCprNeedsSeparator | kilo.c:109 | a reply with no ';' is refused |
| CursorReport.FieldHasNoNul | kilo.c:109 | a field's text holds no NUL, so it does not cut the C string short |
| CursorReport.NoTerminatorInField | kilo.c:100-104 | a field's text holds no 'R', so the fill loop does not stop inside it |
| Render.Rows | kilo.c:130-136 | `editorDrawRows` writes 3·max(n, 0) bytes, cycling through '~', CR, LF |
| Render.RowsCount | kilo.c:130-136 | it writes exactly max(n, 0) tildes, carriage returns and line feeds, one of each per row |
| Render.Refresh | kilo.c:138-152 | one refresh is 10 + 3·max(n, 0) bytes |
| Render.RefreshLayout | kilo.c:138-152 | a refresh is ED, then CUP, then the rows, then CUP last |
| Render.CountAppend | kilo.c:130-136 | counting occurrences of a byte adds up over concatenation |
| Session.Session.constructor | kilo.c:13-18 | the process starts running, with no exit hook, nothing read or written, and the zero-initialised global (all flags and all NCCS control characters 0) |
| Session.Session.DisableRawMode | kilo.c:29-34 | the terminal gets the snapshot back, and the snapshot is the attributes it started with |
| Session.Session.Exit | kilo.c:29-38 | exit runs the registered hook, so afterwards the terminal has its starting attributes, which are the snapshot when the hook is registered |
| Session.Session.Die | kilo.c:21-27 | `die` writes ED then CUP and exits with status 1 with the starting attributes restored |
| Session.Session.EnableRawMode | kilo.c:36-69 | a failed `tcgetattr` dies before any hook is registered; otherwise the snapshot is taken and the hook registered first, and then either raw mode of the snapshot is applied with nothing written, or a failed `tcsetattr` dies with the attributes unchanged |
| Session.Session.GetCursorPosition | kilo.c:92-112 | the DSR request goes out as far as the write got; a short write fails before any read; otherwise the input advances by what the handshake takes, and the status is 0 with the parsed rows and columns exactly when the reply parses |
| Session.WindowSize | kilo.c:114-127 | what `getWindowSize` obtains: a usable `ioctl` answer is taken with no input read; otherwise a size comes only after both the cursor move and the DSR request were written in full, and no more read results are taken than there are |
| Session.Session.GetWindowSize | kilo.c:114-127 | an `ioctl` with a nonzero column count gives its rows and columns and writes nothing; otherwise the cursor is moved to the far corner, a short write fails before any read, and the answer is that of `getCursorPosition`; on every path its output is `ProbeWritten` |
| Session.Session.InitEditor | kilo.c:154-156 | the process lives exactly when `getWindowSize` obtains a size (`WindowSize`), and then that size is stored; the input moves on by exactly the read results the cursor report took (none after a usable `ioctl` answer); the output is what the probe writes got out (`ProbeWritten`: nothing after a usable `ioctl` answer, else the cursor move as far as its write went and, only after a complete one, the DSR request as far as its write went), followed on a death by ED and CUP and nothing else; a death is status 1; the attributes are unchanged while it runs |
| Session.Session.DrawRows | kilo.c:130-136 | the row loop appends `Rows(screenrows)` to the output |
| Session.Session.RefreshScreen | kilo.c:138-152 | one refresh appends `Refresh(screenrows)` to the output |
| Session.Session.KeyReadAt | kilo.c:71-78 | started at a position in the input, `editorReadKey` passes over no Ctrl-Q and no fatal read, and stops at the key it returns or at the fatal read |
| Session.Session.ProcessKeypress | kilo.c:80-90 | on a read error it dies; on Ctrl-Q it writes ED and CUP and exits with status 0; on any other byte it writes nothing and goes on; when no byte can come it keeps waiting; the input advances by what `editorReadKey` takes; what it writes is what the loop of `main` writes after one key read, less what the loop writes from where it stops when it goes on |
| Session.Session.Run | kilo.c:158-170 | `main` either exits, with status 0 or 1, the screen cleared last and the starting attributes restored, or is still waiting for a key in raw mode with every read result taken; when `tcgetattr` or `tcsetattr` fails it dies having read nothing and written only ED and CUP; when `getWindowSize` obtains no size it dies having written the probe bytes that got out and then ED and CUP; otherwise the key loop starts right after the read results the cursor report took, with the size obtained, and exits at the first Ctrl-Q (status 0) or the first fatal read (status 1), having read at least one result and passed over no such result before; its output is then the probe writes of `getWindowSize` followed by a refresh before every key read and the screen clearing at the end (`LoopOutput`) |
| Session.Session.Start | kilo.c:161-167 | what `main` does once raw mode is on: it dies with status 1 exactly when `getWindowSize` obtains no size, having written the probe bytes that got out and then ED and CUP; otherwise the key loop starts right after the read results the cursor report took, with that size, and ends at the first Ctrl-Q or fatal read, or waits in raw mode, its output being the probe writes followed by `LoopOutput` |
| Session.Session.Serve | kilo.c:164-167 | the refresh and keypress loop ends at the first Ctrl-Q, with status 0, or the first fatal read, with status 1, having passed over neither and with the screen cleared last, or waits in raw mode after the last read result with none of them among what it read; what it writes is a refresh before every key read, then the clearing that ends it (`Looped`, with `LoopOutput`) |
| Session.Session.Turn | kilo.c:164-167 | one pass of the loop, from a state where the loop so far has read nothing that ends it and its output adds up to `LoopOutput`: either the loop is over as `Serve` promises, or it goes on in that state from a later read result |
| Session.Session.HandleKey | kilo.c:166 | the keypress half of a pass, after a refresh: the loop is over at a Ctrl-Q, a fatal read or the end of the input, or goes on past a key that ends nothing, with the output still adding up to `LoopOutput` |

## Left out

- The text `perror` writes to standard error, and `errno`. `die` is modelled as its screen-clearing output and exit status 1.
- The `tcgetattr`, `tcsetattr` and `ioctl` system calls themselves, and the flushing TCSAFLUSH does. Their outcomes are parameters of the methods that call them.
- The timing of VTIME and how `read` blocks. A read that times out is a zero-byte read result, and a read past the end of the given results is one too.
- Session.Session.DisableRawMode: models only a `tcsetattr` that succeeds. On failure the source calls `die` from inside the exit hook, which calls `exit` again, and that is undefined behaviour in C.
- Overflow of a `%d` conversion, which is undefined behaviour in C. Parsed values are unbounded integers.
- The endless `while (1)` of `main`. It is modelled on a finite sequence of read results, and it stops when they run out before a key arrives, where the program would go on waiting.
- `screencols`. It is stored but nothing reads it.
- The outcome of the writes whose result kilo ignores (the refresh, `die` and quit). They are modelled as complete writes.
- CursorReport.ParseCpr: when the first `%d` matches and the rest does not, `sscanf` has already stored the rows; the model returns no value, and the caller dies right after in either case.
- Flag values and `c_cc` indices. They are those of Linux with the GNU C library, since the source includes `<error.h>`.
- Keys.CtrlKey: key bytes are unsigned 0..255. A `char` above 127 is negative where `char` is signed, but `k & 0x1f` yields the same low five bits either way.
