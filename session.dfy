/**
 * One connection's session: `ClientHandler.run`. It reads a line, stops on
 * end of stream or on the exact line "exit" (no reply for either), and
 * otherwise increments the shared counter and writes back one reply carrying
 * the new total, then reads again. Whatever ends the loop, the connection is
 * closed afterwards.
 */
module Session {
  import opened Wrappers
  import opened Int32
  import opened Decimal
  import opened Counter

  /** What one `readLine` call on the connection yields. */
  datatype Read =
    | Line(text: string)  // a line of text
    | EndOfStream         // `readLine` returned null: the peer closed its end
    | Failed              // `readLine` threw an IOException

  /** Why a session ended. */
  datatype StopReason = ExitRequested | PeerClosed | IoError

  const ExitCommand: string := "exit"
  const ReplyPrefix: string := "Total messages received by server: "

  /** A read after which the loop does not go on: end of stream, an I/O error, or exactly "exit". */
  predicate IsStop(r: Read) {
    !r.Line? || r.text == ExitCommand
  }

  /** Exactly three reads stop the loop: end of stream, an I/O error and the whole line "exit". */
  lemma StopCases(r: Read)
    ensures IsStop(r) <==> r in {EndOfStream, Failed, Line(ExitCommand)}
  {
  }

  /** The reply sent for a message whose increment returned `n`. */
  function Reply(n: int): string {
    ReplyPrefix + IntToString(n)
  }

  /** Reads the count back out of a reply line; `None` for any other text. */
  function ParseReply(s: string): Option<int> {
    if |ReplyPrefix| <= |s| && s[..|ReplyPrefix|] == ReplyPrefix then
      ParseInt(s[|ReplyPrefix|..])
    else
      None
  }

  /** A reply carries the counter value it was built from, and nothing is lost in the text. */
  lemma ReplyRoundTrip(n: int)
    ensures ParseReply(Reply(n)) == Some(n)
  {
    var s := Reply(n);
    assert s[..|ReplyPrefix|] == ReplyPrefix;
    assert s[|ReplyPrefix|..] == IntToString(n);
    IntToStringRoundTrip(n);
  }

  /** Different counter values give different replies. */
  lemma ReplyInjective(a: int, b: int)
    ensures Reply(a) == Reply(b) <==> a == b
  {
    ReplyRoundTrip(a);
    ReplyRoundTrip(b);
  }

  /** The replies for the increments that returned `values`, in order. */
  function Replies(values: seq<int>): (r: seq<string>)
    ensures |r| == |values|
  {
    seq(|values|, i requires 0 <= i < |values| => Reply(values[i]))
  }

  lemma RepliesSnoc(values: seq<int>, v: int)
    ensures Replies(values + [v]) == Replies(values) + [Reply(v)]
  {
  }

  /** Output after one more handled message: one reply, carrying the value of the next increment. */
  lemma IssuedReplySnoc(c0: int, k: nat, out0: seq<string>, out: seq<string>)
    requires out == out0 + Replies(Issued(c0, k))
    ensures out + [Reply(Advance(c0, k + 1))] == out0 + Replies(Issued(c0, k + 1))
  {
    assert Issued(c0, k + 1) == Issued(c0, k) + [Advance(c0, k + 1)];
    RepliesSnoc(Issued(c0, k), Advance(c0, k + 1));
  }

  /** How many reads of `s` are handled as messages before the loop stops. */
  function StopAt(s: seq<Read>): (k: nat)
    ensures k <= |s|
    ensures forall i :: 0 <= i < k ==> !IsStop(s[i])
    ensures k < |s| ==> IsStop(s[k])
  {
    if s == [] || IsStop(s[0]) then 0 else 1 + StopAt(s[1..])
  }

  /** How many elements of `s` the session consumes (a final read past the end of the data is not counted). */
  function Consumed(s: seq<Read>): nat {
    if StopAt(s) < |s| then StopAt(s) + 1 else StopAt(s)
  }

  /** Why a session that stopped on the read `r` ended. */
  function ReasonOf(r: Read): StopReason {
    match r
    case Line(_) => ExitRequested
    case EndOfStream => PeerClosed
    case Failed => IoError
  }

  /** Why the session ends on `s`; running out of data is end of stream. */
  function StopReasonOf(s: seq<Read>): StopReason {
    var k := StopAt(s);
    if k == |s| then PeerClosed else ReasonOf(s[k])
  }

  /** A handled message at position `h` means at least `h + 1` messages are handled. */
  lemma HandledPast(s: seq<Read>, h: nat)
    requires h <= StopAt(s) && h < |s| && !IsStop(s[h])
    ensures h + 1 <= StopAt(s)
  {
  }

  /**
   * The loop is at position `h` of `s` and has just read `r`; if `r` is a
   * stop, the session handled `h` messages, consumed what `Consumed` says and
   * ended for the reason `r` gives.
   */
  lemma StoppedAt(s: seq<Read>, h: nat, r: Read)
    requires h <= StopAt(s) && IsStop(r)
    requires h < |s| ==> r == s[h]
    requires h == |s| ==> r == EndOfStream
    ensures StopAt(s) == h
    ensures Consumed(s) == if h < |s| then h + 1 else h
    ensures StopReasonOf(s) == ReasonOf(r)
  {
  }

  /**
   * Once the loop has stopped, nothing sent later is read: the number of
   * handled messages and the reason for stopping do not depend on it.
   */
  lemma {:induction false} StopIgnoresLater(s: seq<Read>, later: seq<Read>)
    requires StopAt(s) < |s|
    ensures StopAt(s + later) == StopAt(s)
    ensures Consumed(s + later) == Consumed(s)
    ensures StopReasonOf(s + later) == StopReasonOf(s)
  {
    if !IsStop(s[0]) {
      assert (s + later)[1..] == s[1..] + later;
      StopIgnoresLater(s[1..], later);
    }
  }

  /**
   * The first "exit" after `k` ordinary messages ends the session: `k`
   * messages are handled, no reply is owed for "exit", and no later line is
   * read.
   */
  lemma ExitEndsSession(s: seq<Read>, later: seq<Read>)
    requires StopAt(s) == |s|
    ensures var t := s + [Line(ExitCommand)] + later;
      StopAt(t) == |s| && Consumed(t) == |s| + 1 && StopReasonOf(t) == ExitRequested
  {
    var e := s + [Line(ExitCommand)];
    assert e[|s|] == Line(ExitCommand);
    StopIgnoresLater(e, later);
    assert s + [Line(ExitCommand)] + later == e + later;
  }

  /** Without overflow, a session starting at count `c0` that handles `k` messages replies with c0+1, ..., c0+k. */
  lemma SessionRepliesConsecutive(c0: int, k: nat)
    requires InRange(c0) && c0 + k <= MaxInt32
    ensures forall i :: 0 <= i < k ==> Replies(Issued(c0, k))[i] == Reply(c0 + i + 1)
  {
    IssuedConsecutive(c0, k);
  }

  /** The handler of one accepted connection. */
  class ClientHandler {
    /** Everything the connection will deliver, in order; past its end, reads see end of stream. */
    const stream: seq<Read>
    /** How many reads have been made. */
    var pos: nat
    /** The lines written back on the connection, in order. */
    var out: seq<string>
    /** Whether the connection has been closed. */
    var closed: bool

    ghost predicate Valid()
      reads this
    {
      pos <= |stream|
    }

    constructor (stream: seq<Read>)
      ensures Valid() && this.stream == stream
      ensures pos == 0 && out == [] && !closed
    {
      this.stream := stream;
      pos, out, closed := 0, [], false;
    }

    /** `in.readLine()`. */
    method ReadLine() returns (r: Read)
      requires Valid() && !closed
      modifies this`pos
      ensures Valid()
      ensures old(pos) < |stream| ==> r == stream[old(pos)] && pos == old(pos) + 1
      ensures old(pos) == |stream| ==> r == EndOfStream && pos == old(pos)
    {
      if pos < |stream| {
        r := stream[pos];
        pos := pos + 1;
      } else {
        r := EndOfStream;
      }
    }

    /**
     * `run()`: handles every message up to the first stop, one increment and
     * one reply per message, and closes the connection on every way out.
     */
    method Run(counter: MessageCounter) returns (reason: StopReason)
      requires Valid() && !closed && counter.Valid()
      modifies this, counter
      ensures Valid() && counter.Valid() && closed
      ensures var rest := stream[old(pos)..];
        var k := StopAt(rest);
        && pos == old(pos) + Consumed(rest)
        && counter.count == Advance(old(counter.count), k)
        && out == old(out) + Replies(Issued(old(counter.count), k))
        && reason == StopReasonOf(rest)
    {
      ghost var rest := stream[pos..];
      ghost var p0, c0, out0 := pos, counter.count, out;
      ghost var handled: nat := 0;
      var message := ReadLine();
      while message.Line?
        invariant Valid() && !closed && counter.Valid()
        invariant handled <= StopAt(rest)
        invariant handled < |rest| ==> message == rest[handled] && pos == p0 + handled + 1
        invariant handled == |rest| ==> message == EndOfStream && pos == p0 + handled
        invariant counter.count == Advance(c0, handled)
        invariant out == out0 + Replies(Issued(c0, handled))
        decreases |stream| - pos, if message.Line? then 1 else 0
      {
        if message.text == ExitCommand {
          break;
        }
        HandledPast(rest, handled);
        var n := counter.IncrementAndGet();
        IssuedReplySnoc(c0, handled, out0, out);
        out := out + [Reply(n)];
        handled := handled + 1;
        message := ReadLine();
      }
      StoppedAt(rest, handled, message);
      reason := ReasonOf(message);
      closed := true;
    }
  }
}
