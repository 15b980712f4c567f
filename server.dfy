/**
 * Many connections sharing the one counter. Each accepted connection gets
 * its own handler thread, and the only thing the threads share is the
 * counter, whose increment is synchronized, so increments happen one at a
 * time. The model orders the handlers' reads as one sequence of events, in
 * the order of their increments, each one read performed by the handler of
 * some connection, processed against a single counter. A reply is recorded
 * at its increment; the write itself happens outside the lock, so replies on
 * different connections may reach their sockets in another order.
 */
module Server {
  import opened Int32
  import opened Counter
  import opened Session

  /** Identifies one accepted connection (and its handler thread). */
  type ConnId = nat

  /** The handler of connection `conn` performs one read and gets `read`. */
  datatype Event = Event(conn: ConnId, read: Read)

  /**
   * A reply written on connection `conn`: the counter value `count` it
   * reports, in the line `Text()`.
   */
  datatype Delivery = Delivery(conn: ConnId, count: int) {
    function Text(): string {
      Reply(count)
    }
  }

  /**
   * The counter, the connections already closed, and every reply made so
   * far, in the order of the increments that produced them.
   */
  datatype World = World(count: int, closed: set<ConnId>, sent: seq<Delivery>)

  /**
   * One loop iteration of one handler. A connection that is already closed
   * has no running handler, so a read attributed to it changes nothing.
   */
  function Step(w: World, e: Event): World {
    if e.conn in w.closed then w
    else if IsStop(e.read) then w.(closed := w.closed + {e.conn})
    else
      var n := Wrap(w.count + 1);
      World(n, w.closed, w.sent + [Delivery(e.conn, n)])
  }

  /** The world after the events, processed in order, starting from `w`. */
  function RunEvents(w: World, events: seq<Event>): World {
    if events == [] then w
    else Step(RunEvents(w, events[..|events| - 1]), events[|events| - 1])
  }

  /** The reads performed by the handler of `c`, in order. */
  function ReadsOf(events: seq<Event>, c: ConnId): seq<Read> {
    if events == [] then []
    else
      var last := events[|events| - 1];
      ReadsOf(events[..|events| - 1], c) + (if last.conn == c then [last.read] else [])
  }

  /** The counts reported by the replies written on `c`, in order; the lines are `Replies(SentTo(sent, c))`. */
  function SentTo(sent: seq<Delivery>, c: ConnId): seq<int> {
    if sent == [] then []
    else
      var last := sent[|sent| - 1];
      SentTo(sent[..|sent| - 1], c) + (if last.conn == c then [last.count] else [])
  }

  lemma SentToSnoc(sent: seq<Delivery>, d: Delivery, c: ConnId)
    ensures SentTo(sent + [d], c) == SentTo(sent, c) + (if d.conn == c then [d.count] else [])
  {
    assert (sent + [d])[..|sent|] == sent;
  }

  /** Extending a session's reads by one: the loop either was already over, stops now, or handles one more message. */
  lemma {:induction false} StopAtSnoc(s: seq<Read>, r: Read)
    ensures StopAt(s) < |s| ==> StopAt(s + [r]) == StopAt(s)
    ensures StopAt(s) == |s| ==> StopAt(s + [r]) == if IsStop(r) then |s| else |s| + 1
  {
    if s == [] {
      assert [] + [r] == [r];
    } else {
      assert (s + [r])[0] == s[0];
      if !IsStop(s[0]) {
        assert (s + [r])[1..] == s[1..] + [r];
        StopAtSnoc(s[1..], r);
      }
    }
  }

  /** Every event produces at most one reply. */
  lemma {:induction false} SentBound(events: seq<Event>)
    ensures |RunEvents(World(0, {}, []), events).sent| <= |events|
  {
    if events != [] {
      SentBound(events[..|events| - 1]);
    }
  }

  /** Fewer than 2^31 events never make the counter wrap. */
  lemma FewEventsNoWrap(events: seq<Event>)
    requires |events| <= MaxInt32
    ensures |RunEvents(World(0, {}, []), events).sent| <= MaxInt32
  {
    SentBound(events);
  }

  /** Replies numbered 1, 2, ... in increment order, with the counter at the last number. */
  ghost predicate Numbered(w: World) {
    w.count == |w.sent| && forall i :: 0 <= i < |w.sent| ==> w.sent[i].count == i + 1
  }

  /** One event keeps the numbering, as long as the counter does not wrap. */
  lemma NumberedStep(w: World, e: Event)
    requires Numbered(w) && |Step(w, e).sent| <= MaxInt32
    ensures Numbered(Step(w, e)) && |w.sent| <= |Step(w, e).sent|
  {
    if e.conn !in w.closed && !IsStop(e.read) {
      var d := Delivery(e.conn, Wrap(w.count + 1));
      assert Step(w, e).sent == w.sent + [d];
      assert Wrap(w.count + 1) == |w.sent| + 1;
    }
  }

  /**
   * Counting across all connections: from a fresh counter, whatever the
   * interleaving, the replies made so far carry 1, 2, ..., N in the order of
   * their increments, and the counter holds N (as long as N has not passed
   * the largest `int`).
   */
  lemma {:induction false} RepliesNumberedInOrder(events: seq<Event>)
    requires |RunEvents(World(0, {}, []), events).sent| <= MaxInt32
    ensures var w := RunEvents(World(0, {}, []), events);
      && w.count == |w.sent|
      && forall i :: 0 <= i < |w.sent| ==> w.sent[i].count == i + 1
  {
    if events != [] {
      var prefix, e := events[..|events| - 1], events[|events| - 1];
      var w := RunEvents(World(0, {}, []), prefix);
      assert RunEvents(World(0, {}, []), events) == Step(w, e);
      assert |w.sent| <= |Step(w, e).sent|;
      RepliesNumberedInOrder(prefix);
      NumberedStep(w, e);
    }
  }

  /** No two reply lines anywhere on the server carry the same text. */
  lemma RepliesDistinct(events: seq<Event>)
    requires |RunEvents(World(0, {}, []), events).sent| <= MaxInt32
    ensures var sent := RunEvents(World(0, {}, []), events).sent;
      forall i, j :: 0 <= i < j < |sent| ==> sent[i].Text() != sent[j].Text()
  {
    RepliesNumberedInOrder(events);
    var sent := RunEvents(World(0, {}, []), events).sent;
    forall i, j | 0 <= i < j < |sent|
      ensures sent[i].Text() != sent[j].Text()
    {
      ReplyInjective(i + 1, j + 1);
    }
  }

  /**
   * Each connection on its own: whatever the other connections do, the
   * connection `c` is closed exactly when its own reads contain a stop, and
   * it has received exactly one reply per message it sent before that stop.
   */
  lemma {:induction false} PerConnection(c0: int, events: seq<Event>, c: ConnId)
    ensures var w := RunEvents(World(c0, {}, []), events);
      var s := ReadsOf(events, c);
      && (c in w.closed <==> StopAt(s) < |s|)
      && |SentTo(w.sent, c)| == StopAt(s)
  {
    if events != [] {
      var prefix, e := events[..|events| - 1], events[|events| - 1];
      var w := RunEvents(World(c0, {}, []), prefix);
      PerConnection(c0, prefix, c);
      assert RunEvents(World(c0, {}, []), events) == Step(w, e);
      assert ReadsOf(events, c) == ReadsOf(prefix, c) + (if e.conn == c then [e.read] else []);
      PerConnectionStep(w, e, c, ReadsOf(prefix, c));
    }
  }

  /** One event keeps a connection's closed state and reply count in step with its own reads. */
  lemma {:induction false} PerConnectionStep(w: World, e: Event, c: ConnId, s: seq<Read>)
    requires (c in w.closed <==> StopAt(s) < |s|) && |SentTo(w.sent, c)| == StopAt(s)
    ensures var w', s' := Step(w, e), s + (if e.conn == c then [e.read] else []);
      && (c in w'.closed <==> StopAt(s') < |s'|)
      && |SentTo(w'.sent, c)| == StopAt(s')
  {
    if e.conn == c {
      OwnEventStep(w, e, s);
    } else {
      OtherEventStep(w, e, c);
      assert s + [] == s;
    }
  }

  /** An event of another connection leaves `c`'s closed state and replies alone. */
  lemma OtherEventStep(w: World, e: Event, c: ConnId)
    requires e.conn != c
    ensures c in Step(w, e).closed <==> c in w.closed
    ensures SentTo(Step(w, e).sent, c) == SentTo(w.sent, c)
  {
    if e.conn !in w.closed && !IsStop(e.read) {
      var d := Delivery(e.conn, Wrap(w.count + 1));
      assert Step(w, e).sent == w.sent + [d];
      SentToSnoc(w.sent, d, c);
    }
  }

  /** An event of connection `c` itself advances `c` exactly as one more read of its session does. */
  lemma {:induction false} OwnEventStep(w: World, e: Event, s: seq<Read>)
    requires (e.conn in w.closed <==> StopAt(s) < |s|) && |SentTo(w.sent, e.conn)| == StopAt(s)
    ensures e.conn in Step(w, e).closed <==> StopAt(s + [e.read]) < |s| + 1
    ensures |SentTo(Step(w, e).sent, e.conn)| == StopAt(s + [e.read])
  {
    StopAtSnoc(s, e.read);
    var c, w' := e.conn, Step(w, e);
    if c in w.closed {
      assert w' == w;
    } else if IsStop(e.read) {
      assert w'.sent == w.sent && c in w'.closed;
      assert StopAt(s + [e.read]) == |s|;
    } else {
      var d := Delivery(c, Wrap(w.count + 1));
      assert w'.sent == w.sent + [d] && w'.closed == w.closed;
      SentToSnoc(w.sent, d, c);
      assert |SentTo(w'.sent, c)| == |SentTo(w.sent, c)| + 1;
      assert StopAt(s + [e.read]) == |s| + 1;
    }
  }

  /**
   * Isolation: two runs in which connection `c` performs the same reads give
   * `c` the same number of replies and the same open or closed state, however
   * other connections behaved, whether they exited, failed or hung up.
   */
  lemma Isolation(c0: int, events1: seq<Event>, events2: seq<Event>, c: ConnId)
    requires ReadsOf(events1, c) == ReadsOf(events2, c)
    ensures var w1, w2 := RunEvents(World(c0, {}, []), events1), RunEvents(World(c0, {}, []), events2);
      && (c in w1.closed <==> c in w2.closed)
      && |SentTo(w1.sent, c)| == |SentTo(w2.sent, c)|
  {
    PerConnection(c0, events1, c);
    PerConnection(c0, events2, c);
  }

  /** One handled message of a connection served alone: one more increment and one more reply. */
  lemma {:induction false} SoloStep(c0: int, k: nat, w: World, e: Event)
    requires w.count == Advance(c0, k) && SentTo(w.sent, e.conn) == Issued(c0, k)
    requires e.conn !in w.closed && !IsStop(e.read)
    ensures Step(w, e).count == Advance(c0, k + 1)
    ensures Step(w, e).sent == w.sent + [Delivery(e.conn, Advance(c0, k + 1))]
    ensures SentTo(Step(w, e).sent, e.conn) == Issued(c0, k + 1)
  {
    var n := Advance(c0, k + 1);
    assert n == Wrap(w.count + 1);
    var d := Delivery(e.conn, n);
    assert Step(w, e) == World(n, w.closed, w.sent + [d]);
    SentToSnoc(w.sent, d, e.conn);
  }

  /**
   * A connection served alone gets exactly the replies and leaves the counter
   * exactly as `ClientHandler.Run` does for the same reads: `Run` writes the
   * lines `Replies(Issued(c0, k))`, and here the counts written on `c` are
   * `Issued(c0, k)`.
   */
  lemma {:induction false} SoloMatchesSession(c0: int, events: seq<Event>, c: ConnId)
    requires forall i :: 0 <= i < |events| ==> events[i].conn == c
    ensures var w := RunEvents(World(c0, {}, []), events);
      var k := StopAt(ReadsOf(events, c));
      && w.count == Advance(c0, k)
      && SentTo(w.sent, c) == Issued(c0, k)
      && forall i :: 0 <= i < |w.sent| ==> w.sent[i].conn == c
  {
    if events != [] {
      var prefix, e := events[..|events| - 1], events[|events| - 1];
      var s := ReadsOf(prefix, c);
      var w := RunEvents(World(c0, {}, []), prefix);
      SoloMatchesSession(c0, prefix, c);
      PerConnection(c0, prefix, c);
      StopAtSnoc(s, e.read);
      assert RunEvents(World(c0, {}, []), events) == Step(w, e);
      assert ReadsOf(events, c) == s + [e.read];
      if e.conn !in w.closed && !IsStop(e.read) {
        SoloStep(c0, StopAt(s), w, e);
      }
    }
  }

  /**
   * The handler threads of all connections, run in one serialised order
   * against the shared counter object.
   */
  method Dispatch(counter: MessageCounter, events: seq<Event>) returns (closed: set<ConnId>, sent: seq<Delivery>)
    requires counter.Valid()
    modifies counter
    ensures counter.Valid()
    ensures World(counter.count, closed, sent) == RunEvents(World(old(counter.count), {}, []), events)
  {
    closed, sent := {}, [];
    for i := 0 to |events|
      invariant counter.Valid()
      invariant World(counter.count, closed, sent) == RunEvents(World(old(counter.count), {}, []), events[..i])
    {
      var e := events[i];
      assert events[..i + 1][..i] == events[..i];
      if e.conn in closed {
        // that connection's handler has already finished
      } else if e.read.Line? && e.read.text != ExitCommand {
        var n := counter.IncrementAndGet();
        sent := sent + [Delivery(e.conn, n)];
      } else {
        closed := closed + {e.conn};
      }
    }
    assert events[..|events|] == events;
  }

  /**
   * Two clients: 1 sends "hello", 2 sends "hi", 1 sends "again", 1 sends
   * "exit", 2 sends "more". The replies are numbered 1 to 4 across both
   * connections, none goes to "exit", and connection 2 keeps being served
   * after connection 1 has left.
   */
  lemma TwoClientsScenario()
    ensures RunEvents(World(0, {}, []), [
        Event(1, Line("hello")), Event(2, Line("hi")), Event(1, Line("again")),
        Event(1, Line(ExitCommand)), Event(2, Line("more"))])
      == World(4, {1}, [Delivery(1, 1), Delivery(2, 2), Delivery(1, 3), Delivery(2, 4)])
  {
    var e1, e2, e3 := Event(1, Line("hello")), Event(2, Line("hi")), Event(1, Line("again"));
    var e4, e5 := Event(1, Line(ExitCommand)), Event(2, Line("more"));
    var w0 := World(0, {}, []);
    assert RunEvents(w0, [e1]) == World(1, {}, [Delivery(1, 1)]) by {
      assert [e1][..0] == [];
    }
    assert RunEvents(w0, [e1, e2]) == World(2, {}, [Delivery(1, 1), Delivery(2, 2)]) by {
      assert [e1, e2][..1] == [e1];
    }
    assert RunEvents(w0, [e1, e2, e3]) == World(3, {}, [Delivery(1, 1), Delivery(2, 2), Delivery(1, 3)]) by {
      assert [e1, e2, e3][..2] == [e1, e2];
    }
    assert RunEvents(w0, [e1, e2, e3, e4]) == World(3, {1}, [Delivery(1, 1), Delivery(2, 2), Delivery(1, 3)]) by {
      assert [e1, e2, e3, e4][..3] == [e1, e2, e3];
      assert IsStop(e4.read);
    }
    assert [e1, e2, e3, e4, e5][..4] == [e1, e2, e3, e4];
  }
}
