/** The editor process of kilo.c as a state machine: the global `E`, the exit
    hook registered with `atexit`, and the terminal it drives (its attributes,
    the read results waiting on standard input and everything written to
    standard output). The operating system calls whose outcome the program
    checks (`tcgetattr`, `tcsetattr`, `ioctl`, the checked `write`s) are given
    their results as parameters. */
module Session {
  import opened Terminal
  import opened Termios
  import opened CursorReport
  import opened Keys
  import opened Render

  /** `unsigned short`, the type of the fields of `struct winsize`. */
  type ushort = x: int | 0 <= x < 0x1_0000

  /** What a successful `ioctl(fd, TIOCGWINSZ, &ws)` reports. */
  datatype Winsize = Winsize(row: ushort, col: ushort)

  /** What `getWindowSize` obtains, given the `ioctl` answer, the results of
      its two checked writes and the read results to come: the screen size,
      if it gets one, and the number of read results it takes. */
  function WindowSize(ws: Option<Winsize>, moveWritten: int, dsrWritten: int, input: seq<ReadResult>): (q: Query)
    ensures q.used <= |input|
    ensures q.size.Some? && (ws.None? || ws.value.col == 0) ==> moveWritten == 12 && dsrWritten == 4
  {
    if ws.Some? && ws.value.col != 0 then Query(Some((ws.value.row, ws.value.col)), 0)
    else if moveWritten != 12 || dsrWritten != 4 then Query(None, 0)
    else CursorQuery(input)
  }

  /** What `getWindowSize` writes, given the `ioctl` answer and the results
      of its two checked writes: nothing after a usable `ioctl` answer;
      otherwise as much of the cursor move as its write got out, and, only
      when that was all of it, as much of the DSR request as its write got
      out. */
  function ProbeWritten(ws: Option<Winsize>, moveWritten: int, dsrWritten: int): seq<byte>
    requires -1 <= moveWritten <= |CURSOR_TO_BOUND| && -1 <= dsrWritten <= |DEVICE_STATUS_REPORT|
  {
    if ws.Some? && ws.value.col != 0 then []
    else if moveWritten != 12 then Written(CURSOR_TO_BOUND, moveWritten)
    else CURSOR_TO_BOUND + Written(DEVICE_STATUS_REPORT, dsrWritten)
  }

  /** What the loop of `main` writes on the read results `input` with `n`
      screen rows: a refresh before each key read, then the screen clearing
      of `die` or of Ctrl-Q when one ends it. When no key can come any more
      the last refresh is the last output. */
  function LoopOutput(input: seq<ReadResult>, n: int): seq<byte>
    decreases |input|, 1
  {
    Refresh(n) + KeyOutput(input, n)
  }

  /** What the loop of `main` writes from a key read on `input` onwards. */
  function KeyOutput(input: seq<ReadResult>, n: int): seq<byte>
    decreases |input|, 0
  {
    var k := NextKey(input);
    if k.Starved? then []
    else if k.ReadError? || k.c == QUIT_KEY then ERASE_DISPLAY + CURSOR_HOME
    else LoopOutput(input[k.used..], n)
  }

  /** The attributes of a `struct termios` that was never filled in: the
      zero-initialised global. */
  const ZERO_ATTRS: Attrs := Attrs(0, 0, 0, 0, map i | 0 <= i < NCCS :: 0)

  class Session {
    /** Standard input: what successive one-byte `read`s return. */
    const stdin: seq<ReadResult>
    /** The number of read results taken so far. */
    var pos: nat
    /** The attributes the terminal has now. */
    var attrs: Attrs
    /** Everything written to standard output, in order. */
    var out: seq<byte>
    /** The status passed to `exit`, once the process has exited. */
    var exitStatus: Option<int>
    /** `E.orig_termios`. */
    var origTermios: Attrs
    /** `E.screenrows` and `E.screencols`. */
    var screenrows: int
    var screencols: int
    /** Whether `disableRawMode` is registered with `atexit`. */
    var hookRegistered: bool
    /** The attributes the terminal had when the process started. */
    ghost const initialAttrs: Attrs

    /** The session invariant. The exit hook is registered only once the
        snapshot holds the starting attributes; before that the attributes are
        untouched; while running they are the starting ones or raw mode of
        them; and once the process has exited they are the starting ones again. */
    ghost predicate Valid()
      reads this
    {
      && pos <= |stdin|
      && (hookRegistered ==> origTermios == initialAttrs)
      && (!hookRegistered ==> attrs == initialAttrs)
      && (exitStatus.None? ==> attrs == initialAttrs || attrs == RawMode(initialAttrs))
      && (exitStatus.Some? ==> attrs == initialAttrs)
    }

    /** None of the read results from index `lo` up to `hi` ends the key loop. */
    ghost predicate Uneventful(lo: int, hi: int)
    {
      forall j :: lo <= j < hi && 0 <= j < |stdin| ==> !EndsSession(stdin[j])
    }

    /** Where `editorReadKey`, started at read result `before`, stops: every
        read result it passes over ends nothing, and the one it stops at is
        the key it returns or the fatal read. */
    lemma KeyReadAt(before: nat)
      requires before <= |stdin|
      ensures match NextKey(stdin[before..])
        case Key(c, n) =>
          && before + n <= |stdin| && Uneventful(before, before + n - 1)
          && stdin[before + n - 1] == Got(c)
        case ReadError(n) =>
          && before + n <= |stdin| && Uneventful(before, before + n - 1)
          && Fatal(stdin[before + n - 1])
        case Starved => Uneventful(before, |stdin|)
    {
      var input := stdin[before..];
      NextKeySpec(input);
      var k := NextKey(input);
      var hi := if k.Starved? then |stdin| else before + k.used - 1;
      forall j | before <= j < hi && 0 <= j < |stdin|
        ensures !EndsSession(stdin[j])
      {
        assert stdin[j] == input[j - before];
      }
      if !k.Starved? {
        assert stdin[before + k.used - 1] == input[k.used - 1];
      }
    }

    /** Two stretches of read results that end nothing make one. */
    lemma UneventfulJoin(lo: int, mid: int, hi: int)
      requires lo <= mid <= hi && Uneventful(lo, mid) && Uneventful(mid, hi)
      ensures Uneventful(lo, hi)
    {
    }

    ghost predicate Running()
      reads this
    {
      Valid() && exitStatus.None?
    }

    /** A process about to run `main` on a terminal with attributes `terminal`
        and the read results `input` waiting on standard input. */
    constructor (terminal: Attrs, input: seq<ReadResult>)
      ensures Running() && !hookRegistered
      ensures stdin == input && pos == 0 && out == []
      ensures attrs == terminal && initialAttrs == terminal
      ensures origTermios == ZERO_ATTRS && screenrows == 0 && screencols == 0
    {
      stdin := input;
      pos := 0;
      attrs := terminal;
      initialAttrs := terminal;
      out := [];
      exitStatus := None;
      origTermios := ZERO_ATTRS;
      screenrows, screencols := 0, 0;
      hookRegistered := false;
    }

    /** `disableRawMode`: reapply the snapshot, with `tcsetattr` succeeding. */
    method DisableRawMode()
      requires Running() && hookRegistered
      modifies this`attrs
      ensures Running()
      ensures attrs == origTermios == initialAttrs
    {
      attrs := origTermios;
    }

    /** `exit(status)`: run the registered exit hook, then end the process. */
    method Exit(status: int)
      requires Running()
      modifies this`attrs, this`exitStatus
      ensures Valid() && exitStatus == Some(status)
      ensures attrs == initialAttrs
      ensures hookRegistered ==> attrs == old(origTermios)
    {
      if hookRegistered {
        DisableRawMode();
      }
      exitStatus := Some(status);
    }

    /** `die`: clear the screen, home the cursor and exit with status 1. */
    method Die()
      requires Running()
      modifies this`attrs, this`out, this`exitStatus
      ensures Valid() && exitStatus == Some(1)
      ensures out == old(out) + ERASE_DISPLAY + CURSOR_HOME
      ensures attrs == initialAttrs
    {
      out := out + ERASE_DISPLAY;
      out := out + CURSOR_HOME;
      // the diagnostic `perror` prints goes to standard error
      Exit(1);
    }

    /** `enableRawMode`: snapshot the attributes (`tcgetattr` succeeds when
        `getOk`), register the exit hook, derive raw mode from the snapshot and
        apply it (`tcsetattr` succeeds when `setOk`). */
    method EnableRawMode(getOk: bool, setOk: bool)
      requires Running() && !hookRegistered
      modifies this`origTermios, this`hookRegistered, this`attrs, this`out, this`exitStatus
      ensures Valid()
      ensures !getOk ==> && !hookRegistered && exitStatus == Some(1)
                         && out == old(out) + ERASE_DISPLAY + CURSOR_HOME
      ensures getOk ==> hookRegistered && origTermios == old(attrs)
      ensures getOk && setOk ==> exitStatus.None? && attrs == RawMode(old(attrs)) && out == old(out)
      ensures getOk && !setOk ==> && exitStatus == Some(1) && attrs == old(attrs)
                                  && out == old(out) + ERASE_DISPLAY + CURSOR_HOME
    {
      if !getOk {
        Die();
        return;
      }
      var snapshot := attrs;
      origTermios := snapshot;
      hookRegistered := true;

      var raw := snapshot;
      raw := raw.(iflag := raw.iflag & !(BRKINT | ICRNL | INPCK | ISTRIP | IXON));
      raw := raw.(oflag := raw.oflag & !OPOST);
      raw := raw.(cflag := raw.cflag | CS8);
      raw := raw.(lflag := raw.lflag & !(ECHO | ICANON | IEXTEN | ISIG));
      raw := raw.(cc := raw.cc[VMIN := 0]);
      raw := raw.(cc := raw.cc[VTIME := 1]);
      assert raw == RawMode(snapshot);

      if !setOk {
        Die();
        return;
      }
      attrs := raw;
    }

    /** `getCursorPosition`: send DSR (the write returns `dsrWritten`), read
        the report and parse it. */
    method GetCursorPosition(dsrWritten: int) returns (status: int, rows: int, cols: int)
      requires Running() && -1 <= dsrWritten <= |DEVICE_STATUS_REPORT|
      modifies this`out, this`pos
      ensures Running()
      ensures out == old(out) + Written(DEVICE_STATUS_REPORT, dsrWritten)
      ensures dsrWritten != 4 ==> status == -1 && pos == old(pos)
      ensures dsrWritten == 4 ==>
        var q := CursorQuery(stdin[old(pos)..]);
        && pos == old(pos) + q.used
        && (q.size.Some? ==> status == 0 && (rows, cols) == q.size.value)
        && (q.size.None? ==> status == -1)
    {
      out := out + Written(DEVICE_STATUS_REPORT, dsrWritten);
      if dsrWritten != 4 {
        return -1, 0, 0;
      }
      CursorQueryCollect(stdin[pos..]);
      var buf, len, next := ReadReply(stdin, pos);
      pos := next;
      ParseCprOfBuffer(buf[..], len);
      if buf[0] != ESC || buf[1] != LBRACKET {
        return -1, 0, 0;
      }
      var scanned := ScanPair(CString(buf[2..]));
      if scanned.None? {
        return -1, 0, 0;
      }
      return 0, scanned.value.0, scanned.value.1;
    }

    /** `getWindowSize`: the answer of `ioctl` when it succeeds with a nonzero
        column count (`ws`, `None` when it fails); otherwise move the cursor to
        the bottom right (the write returns `moveWritten`) and ask where it is. */
    method GetWindowSize(ws: Option<Winsize>, moveWritten: int, dsrWritten: int)
      returns (status: int, rows: int, cols: int)
      requires Running()
      requires -1 <= moveWritten <= |CURSOR_TO_BOUND| && -1 <= dsrWritten <= |DEVICE_STATUS_REPORT|
      modifies this`out, this`pos
      ensures Running()
      ensures out == old(out) + ProbeWritten(ws, moveWritten, dsrWritten)
      ensures ws.Some? && ws.value.col != 0 ==>
        && status == 0 && rows == ws.value.row && cols == ws.value.col
        && out == old(out) && pos == old(pos)
      ensures (ws.None? || ws.value.col == 0) && moveWritten != 12 ==>
        && status == -1 && pos == old(pos)
        && out == old(out) + Written(CURSOR_TO_BOUND, moveWritten)
      ensures (ws.None? || ws.value.col == 0) && moveWritten == 12 ==>
        && out == old(out) + CURSOR_TO_BOUND + Written(DEVICE_STATUS_REPORT, dsrWritten)
        && (dsrWritten != 4 ==> status == -1 && pos == old(pos))
        && (dsrWritten == 4 ==>
              var q := CursorQuery(stdin[old(pos)..]);
              && pos == old(pos) + q.used
              && (q.size.Some? ==> status == 0 && (rows, cols) == q.size.value)
              && (q.size.None? ==> status == -1))
    {
      if ws.None? || ws.value.col == 0 {
        out := out + Written(CURSOR_TO_BOUND, moveWritten);
        if moveWritten != 12 {
          return -1, 0, 0;
        }
        status, rows, cols := GetCursorPosition(dsrWritten);
      } else {
        cols := ws.value.col;
        rows := ws.value.row;
        status := 0;
      }
    }

    /** `initEditor`: fill in the screen size or die. */
    method InitEditor(ws: Option<Winsize>, moveWritten: int, dsrWritten: int)
      requires Running()
      requires -1 <= moveWritten <= |CURSOR_TO_BOUND| && -1 <= dsrWritten <= |DEVICE_STATUS_REPORT|
      modifies this`out, this`pos, this`screenrows, this`screencols, this`attrs, this`exitStatus
      ensures Valid()
      ensures exitStatus.None? || exitStatus == Some(1)
      ensures exitStatus == Some(1) ==> |out| >= 7 && out[|out| - 7..] == ERASE_DISPLAY + CURSOR_HOME
      ensures exitStatus.None? ==> attrs == old(attrs)
      ensures old(pos) <= pos
      ensures ws.Some? && ws.value.col != 0 ==>
        && exitStatus.None? && screenrows == ws.value.row && screencols == ws.value.col
        && out == old(out) && pos == old(pos)
      ensures var w := WindowSize(ws, moveWritten, dsrWritten, stdin[old(pos)..]);
        && pos == old(pos) + w.used
        && (exitStatus.None? <==> w.size.Some?)
        && (exitStatus.None? ==> (screenrows, screencols) == w.size.value)
      ensures exitStatus.None? ==> out == old(out) + ProbeWritten(ws, moveWritten, dsrWritten)
      ensures exitStatus.Some? ==>
        out == old(out) + ProbeWritten(ws, moveWritten, dsrWritten) + ERASE_DISPLAY + CURSOR_HOME
    {
      var status, rows, cols := GetWindowSize(ws, moveWritten, dsrWritten);
      if status == -1 {
        ghost var printed := out;
        Die();
        assert out == printed + (ERASE_DISPLAY + CURSOR_HOME);
        assert out[|out| - 7..] == ERASE_DISPLAY + CURSOR_HOME;
        return;
      }
      screenrows, screencols := rows, cols;
    }

    /** `editorDrawRows`: one placeholder line per screen row. */
    method DrawRows()
      requires Running()
      modifies this`out
      ensures Running()
      ensures out == old(out) + Rows(screenrows)
    {
      var y := 0;
      while y < screenrows
        invariant 0 <= y <= Max0(screenrows)
        invariant out == old(out) + Rows(y)
      {
        out := out + TILDE_ROW;
        y := y + 1;
      }
      assert Rows(y) == Rows(screenrows);
    }

    /** `editorRefreshScreen`. */
    method RefreshScreen()
      requires Running()
      modifies this`out
      ensures Running()
      ensures out == old(out) + Refresh(screenrows)
    {
      out := out + ERASE_DISPLAY;
      out := out + CURSOR_HOME;
      DrawRows();
      out := out + CURSOR_HOME;
    }

    /** `editorProcessKeypress`: read a key; Ctrl-Q clears the screen and exits
        with status 0, any other byte does nothing. `waiting` reports that the
        read results ran out before a key came, where the program would go on
        waiting. */
    method ProcessKeypress() returns (waiting: bool)
      requires Running()
      modifies this`pos, this`out, this`attrs, this`exitStatus
      ensures Valid()
      ensures match NextKey(stdin[old(pos)..])
        case Starved =>
          && waiting && exitStatus.None? && pos == |stdin| && out == old(out)
          && attrs == old(attrs)
        case ReadError(n) =>
          && !waiting && exitStatus == Some(1) && pos == old(pos) + n
          && out == old(out) + ERASE_DISPLAY + CURSOR_HOME
        case Key(c, n) =>
          && !waiting && pos == old(pos) + n && (exitStatus.None? ==> attrs == old(attrs))
          && (Dispatch(c) == Quit ==> exitStatus == Some(0) && out == old(out) + ERASE_DISPLAY + CURSOR_HOME)
          && (Dispatch(c) == Ignore ==> exitStatus.None? && out == old(out))
      ensures old(out) + KeyOutput(stdin[old(pos)..], screenrows)
        == out + (if waiting || exitStatus.Some? then [] else LoopOutput(stdin[pos..], screenrows))
    {
      ghost var before := pos;
      NextKeySpec(stdin[pos..]);
      var k, next := ReadKey(stdin, pos);
      pos := next;
      match k
      case Starved =>
        waiting := true;
        assert old(out) + [] == out;
      case ReadError(_) =>
        waiting := false;
        Die();
      case Key(c, u) =>
        waiting := false;
        if c == QUIT_KEY {
          out := out + ERASE_DISPLAY;
          out := out + CURSOR_HOME;
          Exit(0);
          assert old(out) + (ERASE_DISPLAY + CURSOR_HOME) + [] == out;
        } else {
          assert stdin[before..][u..] == stdin[pos..];
        }
    }

    /** `main` on the given read results: raw mode, screen size, then refresh
        and keypress in turn until the process exits or no key can come any
        more. Whatever way it ends, once the process has exited the terminal
        has its starting attributes back, and the screen was cleared last.
        `served` is where the key loop started reading (the end of the input
        taken, when the process died before it). The loop ends at the first
        Ctrl-Q, with status 0, or at the first fatal read, with status 1, and
        not before. */
    method Run(getOk: bool, setOk: bool, ws: Option<Winsize>, moveWritten: int, dsrWritten: int)
      returns (ghost served: nat)
      requires Running() && !hookRegistered
      requires -1 <= moveWritten <= |CURSOR_TO_BOUND| && -1 <= dsrWritten <= |DEVICE_STATUS_REPORT|
      modifies this
      ensures Valid()
      ensures exitStatus.Some? ==> attrs == initialAttrs
      ensures exitStatus.Some? ==> exitStatus == Some(0) || exitStatus == Some(1)
      ensures exitStatus.Some? ==> |out| >= 7 && out[|out| - 7..] == ERASE_DISPLAY + CURSOR_HOME
      ensures old(pos) <= served <= pos
      ensures getOk && setOk && ws.Some? && ws.value.col != 0 ==> served == old(pos)
      ensures exitStatus == Some(0) ==> served < pos && stdin[pos - 1] == Got(QUIT_KEY)
      ensures exitStatus == Some(1) && served < pos ==> Fatal(stdin[pos - 1])
      ensures Uneventful(served, pos - 1)
      ensures exitStatus.None? ==> attrs == RawMode(initialAttrs) && pos == |stdin|
      ensures exitStatus.None? ==> Uneventful(served, pos)
      ensures var w := WindowSize(ws, moveWritten, dsrWritten, stdin[old(pos)..]);
        && (getOk && setOk ==> served == old(pos) + w.used)
        && (!(getOk && setOk && w.size.Some?) ==> exitStatus == Some(1) && served == pos)
        && (getOk && setOk && w.size.Some? ==>
              && (screenrows, screencols) == w.size.value
              && (exitStatus.Some? ==> served < pos)
              && out == old(out) + ProbeWritten(ws, moveWritten, dsrWritten) + LoopOutput(stdin[served..], screenrows))
      ensures !(getOk && setOk) ==> pos == old(pos) && out == old(out) + ERASE_DISPLAY + CURSOR_HOME
      ensures getOk && setOk && WindowSize(ws, moveWritten, dsrWritten, stdin[old(pos)..]).size.None? ==>
        out == old(out) + ProbeWritten(ws, moveWritten, dsrWritten) + ERASE_DISPLAY + CURSOR_HOME
    {
      served := pos;
      EnableRawMode(getOk, setOk);
      if exitStatus.Some? {
        return;
      }
      served := Start(ws, moveWritten, dsrWritten);
    }

    /** What `main` does once raw mode is on: `initEditor`, then the loop.
        It dies exactly when `getWindowSize` obtains no size, having written
        what that wrote; otherwise the loop starts at `served`, right after
        the read results the cursor report took, with the size obtained, and
        is over as `Serve` promises. */
    method Start(ws: Option<Winsize>, moveWritten: int, dsrWritten: int) returns (ghost served: nat)
      requires Running() && hookRegistered && attrs == RawMode(initialAttrs)
      requires -1 <= moveWritten <= |CURSOR_TO_BOUND| && -1 <= dsrWritten <= |DEVICE_STATUS_REPORT|
      modifies this`pos, this`out, this`screenrows, this`screencols, this`attrs, this`exitStatus
      ensures Valid()
      ensures exitStatus.Some? ==> attrs == initialAttrs
      ensures exitStatus.Some? ==> exitStatus == Some(0) || exitStatus == Some(1)
      ensures exitStatus.Some? ==> |out| >= 7 && out[|out| - 7..] == ERASE_DISPLAY + CURSOR_HOME
      ensures old(pos) <= served <= pos
      ensures exitStatus == Some(0) ==> served < pos && stdin[pos - 1] == Got(QUIT_KEY)
      ensures exitStatus == Some(1) && served < pos ==> Fatal(stdin[pos - 1])
      ensures Uneventful(served, pos - 1)
      ensures exitStatus.None? ==> attrs == RawMode(initialAttrs) && pos == |stdin|
      ensures exitStatus.None? ==> Uneventful(served, pos)
      ensures var w := WindowSize(ws, moveWritten, dsrWritten, stdin[old(pos)..]);
        && served == old(pos) + w.used
        && (w.size.None? ==>
              && exitStatus == Some(1) && served == pos
              && out == old(out) + ProbeWritten(ws, moveWritten, dsrWritten) + ERASE_DISPLAY + CURSOR_HOME)
        && (w.size.Some? ==>
              && (screenrows, screencols) == w.size.value
              && (exitStatus.Some? ==> served < pos)
              && out == old(out) + ProbeWritten(ws, moveWritten, dsrWritten) + LoopOutput(stdin[served..], screenrows))
    {
      InitEditor(ws, moveWritten, dsrWritten);
      served := pos;
      if exitStatus.Some? {
        return;
      }
      Serve();
    }

    /** The loop of `main`, started at read result `from` with `start`
        written, is still running: in raw mode, nothing it has read has ended
        it, and what it has written and what it will write from `pos` on add
        up to `LoopOutput` from `from`. */
    ghost predicate Looping(from: nat, start: seq<byte>)
      reads this
    {
      && Running() && hookRegistered && attrs == RawMode(initialAttrs)
      && from <= pos && Uneventful(from, pos)
      && start + LoopOutput(stdin[from..], screenrows) == out + LoopOutput(stdin[pos..], screenrows)
    }

    /** The loop of `main`, started at read result `from` with `start`
        written, is over: it wrote `LoopOutput` from `from`; it stopped at the
        first Ctrl-Q, exiting with status 0, or at the first fatal read, exiting
        with status 1, with the screen cleared last; or no key can come any
        more, nothing ended it and the terminal is still in raw mode. */
    ghost predicate Looped(from: nat, start: seq<byte>)
      reads this
    {
      && Valid() && from <= pos && Uneventful(from, pos - 1)
      && out == start + LoopOutput(stdin[from..], screenrows)
      && (exitStatus.None? ==> attrs == RawMode(initialAttrs) && pos == |stdin| && Uneventful(from, pos))
      && (exitStatus.Some? ==>
            && from < pos && |out| >= 7 && out[|out| - 7..] == ERASE_DISPLAY + CURSOR_HOME
            && (exitStatus == Some(0) || exitStatus == Some(1))
            && (exitStatus == Some(0) ==> stdin[pos - 1] == Got(QUIT_KEY))
            && (exitStatus == Some(1) ==> Fatal(stdin[pos - 1])))
    }

    /** The loop is over once the key read from `before` found no key, or
        found Ctrl-Q or a fatal read and the process exited. */
    lemma LoopEnds(from: nat, start: seq<byte>, before: nat)
      requires Valid() && from <= before <= pos <= |stdin| && Uneventful(from, before)
      requires out == start + LoopOutput(stdin[from..], screenrows)
      requires match NextKey(stdin[before..])
        case Starved =>
          && exitStatus.None? && attrs == RawMode(initialAttrs)
          && pos == |stdin| && Uneventful(before, |stdin|)
        case ReadError(u) =>
          && exitStatus == Some(1) && pos == before + u && Fatal(stdin[pos - 1])
          && Uneventful(before, pos - 1) && |out| >= 7 && out[|out| - 7..] == ERASE_DISPLAY + CURSOR_HOME
        case Key(c, u) =>
          && c == QUIT_KEY && exitStatus == Some(0) && pos == before + u && stdin[pos - 1] == Got(c)
          && Uneventful(before, pos - 1) && |out| >= 7 && out[|out| - 7..] == ERASE_DISPLAY + CURSOR_HOME
      ensures Looped(from, start)
    {
      if NextKey(stdin[before..]).Starved? {
        UneventfulJoin(from, before, pos);
        assert Uneventful(from, pos - 1);
      } else {
        UneventfulJoin(from, before, pos - 1);
      }
    }

    /** The loop goes on after a key that ends nothing. */
    lemma LoopGoesOn(from: nat, start: seq<byte>, before: nat)
      requires Running() && hookRegistered && attrs == RawMode(initialAttrs)
      requires from <= before < pos <= |stdin| && Uneventful(from, before)
      requires start + LoopOutput(stdin[from..], screenrows) == out + LoopOutput(stdin[pos..], screenrows)
      requires Uneventful(before, pos - 1) && !EndsSession(stdin[pos - 1])
      ensures Looping(from, start)
    {
      UneventfulJoin(from, before, pos - 1);
      UneventfulJoin(from, pos - 1, pos);
    }

    /** The loop of `main`, started at read result `from` with `start`
        written, has just refreshed the screen: what is left to write is what
        follows a key read from `pos`. */
    ghost predicate Refreshed(from: nat, start: seq<byte>)
      reads this
    {
      && Running() && hookRegistered && attrs == RawMode(initialAttrs)
      && from <= pos && Uneventful(from, pos)
      && start + LoopOutput(stdin[from..], screenrows) == out + KeyOutput(stdin[pos..], screenrows)
    }

    /** One pass of the loop of `main`: refresh the screen, then handle one
        key. Either the loop is over, or it goes on from a later read result. */
    method Turn(ghost from: nat, ghost start: seq<byte>) returns (waiting: bool)
      requires Looping(from, start)
      modifies this`pos, this`out, this`attrs, this`exitStatus
      ensures waiting || exitStatus.Some? ==> Looped(from, start)
      ensures !waiting && exitStatus.None? ==> Looping(from, start) && old(pos) < pos
    {
      ghost var out0 := out;
      RefreshScreen();
      calc {
        start + LoopOutput(stdin[from..], screenrows);
        out0 + (Refresh(screenrows) + KeyOutput(stdin[pos..], screenrows));
        out + KeyOutput(stdin[pos..], screenrows);
      }
      waiting := HandleKey(from, start);
    }

    /** The second half of a pass of the loop of `main`: handle one key. */
    method HandleKey(ghost from: nat, ghost start: seq<byte>) returns (waiting: bool)
      requires Refreshed(from, start)
      modifies this`pos, this`out, this`attrs, this`exitStatus
      ensures waiting || exitStatus.Some? ==> Looped(from, start)
      ensures !waiting && exitStatus.None? ==> Looping(from, start) && old(pos) < pos
    {
      ghost var before, printed := pos, out;
      ghost var k := NextKey(stdin[before..]);
      KeyReadAt(before);
      waiting := ProcessKeypress();
      if k.Starved? {
        assert printed + [] == out;
        LoopEnds(from, start, before);
      } else if k.ReadError? || k.c == QUIT_KEY {
        assert printed + (ERASE_DISPLAY + CURSOR_HOME) == out;
        LoopEnds(from, start, before);
      } else {
        LoopGoesOn(from, start, before);
      }
    }

    /** The endless loop of `main`, in raw mode: refresh the screen, then
        handle one key, until the process exits or no key can come any more. */
    method Serve()
      requires Running() && hookRegistered && attrs == RawMode(initialAttrs)
      modifies this`pos, this`out, this`attrs, this`exitStatus
      ensures Looped(old(pos), old(out))
    {
      while true
        invariant Looping(old(pos), old(out))
        decreases |stdin| - pos
      {
        var waiting := Turn(old(pos), old(out));
        if waiting || exitStatus.Some? {
          return;
        }
      }
    }
  }
}
