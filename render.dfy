/** The bytes `editorRefreshScreen` writes for a given row count. */
module Render {
  import opened Terminal

  const TILDE: byte := '~' as byte
  const CR: byte := 0x0d
  const LF: byte := 0x0a
  /** The placeholder line of `editorDrawRows`: a tilde, then CR LF. */
  const TILDE_ROW: seq<byte> := [TILDE, CR, LF]

  function Max0(n: int): nat {
    if n < 0 then 0 else n
  }

  /** What `editorDrawRows` writes for `n` screen rows: one placeholder line
      per row, none when `n` is zero or negative. */
  function Rows(n: int): (r: seq<byte>)
    ensures |r| == 3 * Max0(n)
    ensures forall i :: 0 <= i < |r| ==> r[i] == TILDE_ROW[i % 3]
    decreases Max0(n)
  {
    if n <= 0 then []
    else
      var r := Rows(n - 1) + TILDE_ROW;
      assert forall i :: 3 * (n - 1) <= i < |r| ==> i % 3 == i - 3 * (n - 1);
      r
  }

  /** One refresh: erase the display, home the cursor, draw the rows, home
      the cursor. It is 10 bytes of escape sequences and 3 per row. */
  function Refresh(n: int): (r: seq<byte>)
    ensures |r| == 10 + 3 * Max0(n)
  {
    ERASE_DISPLAY + CURSOR_HOME + Rows(n) + CURSOR_HOME
  }

  /** The layout of one refresh: ED then CUP, the `n` placeholder lines, and
      CUP last, so the cursor ends at the home position. */
  lemma RefreshLayout(n: int)
    ensures Refresh(n)[..4] == ERASE_DISPLAY && Refresh(n)[4..7] == CURSOR_HOME
    ensures Refresh(n)[7..7 + 3 * Max0(n)] == Rows(n)
    ensures Refresh(n)[|Refresh(n)| - 3..] == CURSOR_HOME
  {
    Pieces(ERASE_DISPLAY, CURSOR_HOME, Rows(n), CURSOR_HOME);
  }

  lemma Pieces<T>(a: seq<T>, b: seq<T>, c: seq<T>, d: seq<T>)
    ensures var s := a + b + c + d;
      && s[..|a|] == a && s[|a|..|a| + |b|] == b
      && s[|a| + |b|..|a| + |b| + |c|] == c && s[|s| - |d|..] == d
  {
  }

  /** The number of times `b` occurs in `s`. */
  function Count(s: seq<byte>, b: byte): nat {
    if s == [] then 0 else (if s[0] == b then 1 else 0) + Count(s[1..], b)
  }

  lemma {:induction false} CountAppend(s: seq<byte>, t: seq<byte>, b: byte)
    ensures Count(s + t, b) == Count(s, b) + Count(t, b)
  {
    if s == [] {
      assert s + t == t;
    } else {
      assert (s + t)[1..] == s[1..] + t;
      CountAppend(s[1..], t, b);
    }
  }

  /** `editorDrawRows` draws exactly `n` lines: `n` tildes and `n` line feeds,
      one of each per row. */
  lemma {:induction false} RowsCount(n: int)
    ensures Count(Rows(n), TILDE) == Max0(n) && Count(Rows(n), LF) == Max0(n)
    ensures Count(Rows(n), CR) == Max0(n)
    decreases Max0(n)
  {
    if n > 0 {
      RowsCount(n - 1);
      CountAppend(Rows(n - 1), TILDE_ROW, TILDE);
      CountAppend(Rows(n - 1), TILDE_ROW, LF);
      CountAppend(Rows(n - 1), TILDE_ROW, CR);
      assert Rows(n) == Rows(n - 1) + TILDE_ROW;
      assert TILDE_ROW[1..] == [CR, LF] && TILDE_ROW[1..][1..] == [LF] && [LF][1..] == [];
      assert Count([LF], TILDE) == 0 && Count([LF], LF) == 1 && Count([LF], CR) == 0;
      assert Count(TILDE_ROW, TILDE) == 1 && Count(TILDE_ROW, LF) == 1 && Count(TILDE_ROW, CR) == 1;
    }
  }
}
