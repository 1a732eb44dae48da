/**
 * trueLineReader (main.go:12-36): a line source over a bufio.Reader with a last-in-first-out
 * stack of lines handed back by unreadLine. The bufio.Reader is modelled by the text it has not
 * delivered yet; ReadString('\n') hands out the text up to the next newline.
 */
module Reader {
  import opened Wrappers
  import opened Codec
  import opened LineSyntax

  /** The reader's state: the undelivered input and the pushed-back lines (top = last). */
  datatype ReaderState = ReaderState(rest: string, pushed: seq<string>)

  /** Decreases with every line read; unreading the line just read never raises it above its
      value before that read. */
  function Measure(st: ReaderState): nat
  {
    2 * |st.rest| + |st.pushed|
  }

  /**
   * readLine (main.go:24-33): pop the top pushed-back line if there is one; otherwise read up to
   * the next '\n' and strip it. Without a further '\n' ReadString fails with io.EOF and the
   * partial last line is lost together with the rest of the input.
   */
  function Read(st: ReaderState): (res: (Option<string>, ReaderState))
    ensures Measure(res.1) <= Measure(st)
    ensures res.0.Some? ==> Measure(res.1) < Measure(st)
    ensures res.0.Some? && st.pushed == [] ==> Measure(res.1) + 2 <= Measure(st)
    ensures res.0.None? ==> res.1 == ReaderState("", []) && st.pushed == [] && NoNewline(st.rest)
  {
    if |st.pushed| > 0 then
      (Some(st.pushed[|st.pushed| - 1]), ReaderState(st.rest, st.pushed[..|st.pushed| - 1]))
    else
      match NewlineFrom(st.rest, 0)
      case None => (None, ReaderState("", []))
      case Some(i) => (Some(st.rest[..i]), ReaderState(st.rest[i + 1..], []))
  }

  /** unreadLine (main.go:34-36): push a line on the stack. */
  function Unread(st: ReaderState, line: string): (r: ReaderState)
    ensures Measure(r) == Measure(st) + 1
  {
    ReaderState(st.rest, st.pushed + [line])
  }

  /** Pushback is last-in-first-out: the next read returns the line just unread. */
  lemma ReadUnread(st: ReaderState, line: string)
    ensures Read(Unread(st, line)) == (Some(line), st)
  {
    assert (st.pushed + [line])[..|st.pushed|] == st.pushed;
  }

  /** With nothing pushed back, a read returns the next newline-terminated line of the input. */
  lemma {:induction false} ReadFreshLine(line: string, more: string)
    requires NoNewline(line)
    ensures Read(ReaderState(line + "\n" + more, [])) == (Some(line), ReaderState(more, []))
  {
    var s := line + "\n" + more;
    NewlineAt(s, 0, |line|);
    assert s[..|line|] == line;
    assert s[|line| + 1..] == more;
  }

  /** The reader object of main.go:13-16. */
  class TrueLineReader {
    /** What the underlying bufio.Reader has not delivered yet. */
    var rest: string
    /** The pushed-back lines, top of the stack last. */
    var buffer: seq<string>

    /** newTrueLineReader (main.go:18-23) over a reader of `input`. */
    constructor (input: string)
      ensures rest == input && buffer == []
    {
      rest := input;
      buffer := [];
    }

    function State(): ReaderState
      reads this
    {
      ReaderState(rest, buffer)
    }

    /** readLine (main.go:24-33); `ok` is false where Go returns a non-nil error. */
    method ReadLine() returns (line: string, ok: bool)
      modifies this
      ensures (if ok then Some(line) else None, State()) == Read(old(State()))
      ensures !ok ==> line == ""
    {
      if |buffer| > 0 {
        var rb, e := buffer[..|buffer| - 1], buffer[|buffer| - 1];
        buffer := rb;
        return e, true;
      }
      match NewlineFrom(rest, 0)
      case None =>
        rest := "";
        return "", false;
      case Some(i) =>
        line := rest[..i];
        rest := rest[i + 1..];
        return line, true;
    }

    /** unreadLine (main.go:34-36). */
    method UnreadLine(l: string)
      modifies this
      ensures State() == Unread(old(State()), l)
    {
      buffer := buffer + [l];
    }
  }
}
