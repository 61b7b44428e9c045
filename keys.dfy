/** Reading one key (`editorReadKey`) and the key map of `editorProcessKeypress`. */
module Keys {
  import opened Terminal

  /** `CTRL_KEY(k)`: the byte a terminal sends for Ctrl together with key `k`,
      which keeps the low five bits of `k` (`k & 0x1f`, that is `k` modulo 32).
      For a letter of either case this is its position in the alphabet. */
  function CtrlKey(k: byte): (c: byte)
    ensures c < 32
    ensures 'a' as byte <= k <= 'z' as byte ==> c == k - 'a' as byte + 1
    ensures 'A' as byte <= k <= 'Z' as byte ==> c == k - 'A' as byte + 1
  {
    k % 32
  }

  /** The one key kilo acts on: Ctrl-Q. */
  const QUIT_KEY: byte := CtrlKey('q' as byte)

  lemma QuitKeyValue()
    ensures QUIT_KEY == 0x11 && QUIT_KEY == CtrlKey('Q' as byte)
  {
  }

  /** What the key map of `editorProcessKeypress` does with a byte. */
  datatype Action = Quit | Ignore

  function Dispatch(c: byte): (a: Action)
    ensures a == Quit <==> c == 0x11
  {
    if c == QUIT_KEY then Quit else Ignore
  }

  /** The outcome of `editorReadKey` on the read results still to come, with
      the number of them it took: a key, a read error that is not EAGAIN (which
      sends the editor to `die`), or, when the results run out before a byte
      came, a read that keeps timing out. */
  datatype KeyRead = Key(c: byte, used: nat) | ReadError(used: nat) | Starved

  /** A read result after which `editorReadKey` reads again: zero bytes, or -1
      with EAGAIN. */
  predicate Retryable(r: ReadResult) {
    r.Nothing? || (r.Failed? && r.errno == EAGAIN)
  }

  /** A read result on which `editorReadKey` gives up: -1 with an errno other
      than EAGAIN. */
  predicate Fatal(r: ReadResult) {
    r.Failed? && r.errno != EAGAIN
  }

  /** A read result that ends the key loop of `main`: Ctrl-Q, or a fatal read. */
  predicate EndsSession(r: ReadResult) {
    r == Got(QUIT_KEY) || Fatal(r)
  }

  /** `k` with `n` more read results taken in front of it. */
  function After(k: KeyRead, n: nat): KeyRead {
    match k
    case Key(c, m) => Key(c, m + n)
    case ReadError(m) => ReadError(m + n)
    case Starved => Starved
  }

  /** The outcome of `editorReadKey` on `input`. A key or an error comes from
      one of the read results in `input`. */
  function NextKey(input: seq<ReadResult>): (k: KeyRead)
    ensures !k.Starved? ==> 1 <= k.used <= |input|
  {
    if input == [] then Starved
    else match input[0]
      case Got(c) => Key(c, 1)
      case Failed(e) => if e != EAGAIN then ReadError(1) else After(NextKey(input[1..]), 1)
      case Nothing => After(NextKey(input[1..]), 1)
  }

  /** `editorReadKey` returns the first byte actually read: every read result
      before it was a timeout or EAGAIN. It gives up only on a read error other
      than EAGAIN, again after nothing but retries; it never stops on a timeout. */
  lemma {:induction false} NextKeySpec(input: seq<ReadResult>)
    ensures match NextKey(input)
      case Key(c, n) =>
        && 1 <= n <= |input| && input[n - 1] == Got(c)
        && forall j :: 0 <= j < n - 1 ==> Retryable(input[j])
      case ReadError(n) =>
        && 1 <= n <= |input| && input[n - 1].Failed? && input[n - 1].errno != EAGAIN
        && forall j :: 0 <= j < n - 1 ==> Retryable(input[j])
      case Starved =>
        forall j :: 0 <= j < |input| ==> Retryable(input[j])
  {
    if input != [] && Retryable(input[0]) {
      NextKeySpec(input[1..]);
      var k := NextKey(input[1..]);
      assert NextKey(input) == After(k, 1);
      if k.Starved? {
        assert forall j :: 1 <= j < |input| ==> input[j] == input[1..][j - 1];
      } else {
        assert forall j :: 1 <= j < k.used ==> input[j] == input[1..][j - 1];
      }
    }
  }

  /** `editorReadKey`'s loop on the read results `stdin[start..]`: returns the
      outcome and the position of the first read result it did not take. */
  method ReadKey(stdin: seq<ReadResult>, start: nat) returns (k: KeyRead, next: nat)
    requires start <= |stdin|
    ensures k == NextKey(stdin[start..])
    ensures next == if k.Starved? then |stdin| else start + k.used
  {
    ghost var input := stdin[start..];
    next := start;
    while true
      invariant start <= next <= |stdin|
      invariant NextKey(input) == After(NextKey(stdin[next..]), next - start)
      decreases |stdin| - next
    {
      if next == |stdin| {
        // every further read times out
        return Starved, next;
      }
      var r := stdin[next];
      assert stdin[next..][1..] == stdin[next + 1..];
      next := next + 1;
      if r.Got? {
        return Key(r.b, next - start), next;
      }
      if r.Failed? && r.errno != EAGAIN {
        return ReadError(next - start), next;
      }
    }
  }
}
