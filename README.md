# ChatServer counter and session model

A Dafny model of the core of a small Java TCP chat server
(`src/ChatServer.java`). Each accepted connection gets a handler thread that
reads lines. The exact line `exit` or the end of the stream ends the session.
Every other line increments a process-wide message counter and is answered
with `Total messages received by server: <n>`, where `<n>` is the new total.
When the session ends, for whatever reason, the connection is closed.

Files, one module each:

- `int32.dfy` (`Int32`): Java's 32-bit `int` and its wrap-around.
- `decimal.dfy` (`Decimal`): the decimal text Java produces when an `int` is
  concatenated to a string, with a parser that inverts it.
- `counter.dfy` (`Counter`): the static `messageCount` field and the
  synchronized `incrementAndGetCount`, as the class `MessageCounter`. The
  functions `Advance` and `Issued` describe any serialised sequence of calls.
- `session.dfy` (`Session`): `ClientHandler.run` as the class `ClientHandler`.
  The connection's input is a sequence of `Read` results: a line, end of
  stream, or an I/O error. Reads past the end of the sequence see end of
  stream. The output is the sequence of reply lines written. `Run` is the
  read/check/increment/reply loop, followed by the close.
- `server.dfy` (`Server`): several connections sharing one counter. Because
  the increment is `synchronized`, the increments of all handler threads
  happen one at a time, and the model orders the handlers' reads as one
  sequence of `(connection, read)` events in the order of their increments.
  `Step` is one loop iteration of one handler, `RunEvents` gives the result
  of such a sequence, and `Dispatch` processes one against the shared
  `MessageCounter` object. The replies are recorded in increment order;
  within one connection this is also the order in which they are written.
  Each recorded reply (`Delivery`) keeps the count it reports; its line is
  `Session.Reply` of that count (`Delivery.Text`).

The counter is a Java `int`. `messageCount++` wraps from 2147483647 to
-2147483648 without any check, and the model keeps that wrap
(`Int32.Wrap`, `Int32.IncrementAtMaxWraps`). The "values are exactly 1..N"
properties are therefore proved for N up to 2147483647, which is as far as the
code keeps them.

A failed write does not end the session: replies go through a `PrintWriter`,
which never throws, so a failed write goes unnoticed and the loop keeps
reading. The model therefore lets writes always succeed; only reads can fail.

The session's stop test is `Session.IsStop`: a read ends the loop when it is
end of stream, an I/O error, or exactly the line `exit`. The reply text is
`Session.Reply`: the fixed prefix followed by the decimal count.

## Model

| member | source | states |
|---|---|---|
| `Int32.Wrap` | src/ChatServer.java:48 | the stored value is always a legal `int`, equals the mathematical result when that fits, and otherwise differs from it by a multiple of 2^32 (two's-complement wrap) |
| `Int32.IncrementAtMaxWraps` | src/ChatServer.java:48 | incrementing 2147483647 yields -2147483648 |
| `Decimal.IntToStringShape` | src/ChatServer.java:98 | the text of an `int` (`Decimal.IntToString`) starts with `-` exactly when the value is negative, and the rest is at least one digit with no leading zero (only 0 itself is printed as `0`), as `Integer.toString` prints it |
| `Decimal.IntToStringRoundTrip` | src/ChatServer.java:98 | parsing the decimal text of any `int` gives that `int` back |
| `Decimal.IntToStringInjective` | src/ChatServer.java:98 | distinct counts are printed as distinct texts |
| `Counter.MessageCounter.constructor` | src/ChatServer.java:11 | the counter starts at 0 |
| `Counter.MessageCounter.IncrementAndGet` | src/ChatServer.java:47-50 | the counter goes up by exactly one step of `int` arithmetic (by exactly 1 below the maximum), the new value is returned, and nothing else changes |
| `Counter.AdvanceWithoutOverflow` | src/ChatServer.java:47-50 | below the maximum, k serialised calls raise the counter by exactly k |
| `Counter.IssuedConsecutive` | src/ChatServer.java:44-50 | below the maximum, the i-th of k serialised calls starting at c returns c+i+1 |
| `Counter.IssuedFromZero` | src/ChatServer.java:44-50 | from a fresh counter, N serialised calls, for N at most 2147483647, return exactly 1..N: strictly increasing, each of 1..N returned once, nothing else returned |
| `Session.ReplyRoundTrip` | src/ChatServer.java:98 | the count can be read back out of every reply line, so the reply carries exactly the value the increment returned |
| `Session.ReplyInjective` | src/ChatServer.java:98 | two replies are equal if and only if they carry the same count |
| `Session.StopCases` | src/ChatServer.java:79-81 | `Session.IsStop` holds of a read exactly when it is end of stream (`readLine` returned null), an I/O error, or a line equal to `exit` (case-sensitive, whole line); see `Session.StopAt` and `Session.ExitEndsSession` |
| `Session.StopAt` | src/ChatServer.java:79-86 | the number of messages a session handles: every read before it is an ordinary line, and the read at it (if any) is end of stream, an I/O error or exactly `exit` |
| `Session.StopIgnoresLater` | src/ChatServer.java:79-86 | once the loop has stopped, nothing sent afterwards changes how many messages were handled, how many reads were made, or why the session ended |
| `Session.ExitEndsSession` | src/ChatServer.java:81-86 | after k ordinary lines, the line `exit` ends the session with exactly k messages handled, k+1 reads made (no later line read) and reason "exit requested" |
| `Session.SessionRepliesConsecutive` | src/ChatServer.java:94-98 | below the maximum, a session that starts at count c0 and handles k messages replies with the counts c0+1, ..., c0+k in order |
| `Session.ClientHandler.constructor` | src/ChatServer.java:61-63 | a new handler has read nothing, written nothing and is open |
| `Session.ClientHandler.ReadLine` | src/ChatServer.java:79 | a read returns the connection's next result and consumes it, or returns end of stream once the data is exhausted |
| `Session.ClientHandler.Run` | src/ChatServer.java:66-117 | the session reads exactly up to and including the first stop, makes one increment per ordinary line, and appends one reply per increment carrying that increment's value, in input order; it reports why it stopped and closes the connection on every way out |
| `Server.RepliesNumberedInOrder` | src/ChatServer.java:44-50 | for at most 2147483647 replies: from a fresh counter, under any interleaving of connections, the reply made by the i-th increment on the server (in the order of the increments) reports count i+1, and the counter equals the number of replies |
| `Server.SentBound` | src/ChatServer.java:79-99 | each read produces at most one reply, so a run never has more replies than events |
| `Server.FewEventsNoWrap` | src/ChatServer.java:44-50 | a run of at most 2147483647 events cannot make the counter wrap, so the counting lemmas apply to it |
| `Server.RepliesDistinct` | src/ChatServer.java:44-50 | for at most 2147483647 replies: no two reply lines on the server have the same text (past that, the `int` wraps and counts repeat after 2^32 increments) |
| `Server.PerConnection` | src/ChatServer.java:79-99 | whatever other connections do, a connection is closed exactly when its own reads contain a stop, and it has received exactly one reply per message it sent before that stop |
| `Server.Isolation` | src/ChatServer.java:66-117 | two runs in which one connection performs the same reads give that connection the same number of replies and the same open or closed state, however the other connections behave or end |
| `Server.SoloMatchesSession` | src/ChatServer.java:79-99 | a connection served alone leaves the counter exactly as `ClientHandler.Run` does for the same reads, and receives replies reporting exactly the counts `Issued(c0, k)` whose lines `Run` writes (`Replies(Issued(c0, k))`), with k the messages handled |
| `Server.Dispatch` | src/ChatServer.java:79-99 | processing the interleaved reads against the shared counter object yields exactly the counter, closed connections and replies that `RunEvents` describes |
| `Server.TwoClientsScenario` | src/ChatServer.java:79-99 | two clients sending "hello", "hi", "again", "exit", "more" get replies reporting 1 to 4, in that order, none for "exit", and the second client is still served after the first leaves |

## Left out

- `main` (src/ChatServer.java:15-41) is not modelled: binding the `ServerSocket`, the endless `accept` loop and starting one `Thread` per connection are socket I/O and thread creation. Concurrency is modelled only as an arbitrary serialised order of the handlers' reads (`Server.RunEvents`), which `synchronized` on the increment justifies.
- Real-time order of calls is not modelled: the model shows that the replies are numbered 1..N in the order of the increments, not that this order agrees with wall-clock time.
- The order in which replies reach different sockets is not modelled. The write at src/ChatServer.java:98 happens outside the lock, after `incrementAndGetCount` returns, so a handler that incremented first can write after another handler's later reply. The model records each reply at its increment: every connection's own replies and their values are as in the code, but the global sequence `sent` is increment order, not write order.
- Console logging (all `System.out` and `System.err` lines) is left out; it has no effect on the protocol.
- Building the `BufferedReader` and the auto-flushing `PrintWriter` is abstracted into the input sequence and the output sequence. If getting the socket's streams fails, the session ends with no reply, like a first read that fails (`Failed` as the first element).
- `IOException` details are reduced to the single outcome `Failed`, which ends the session.
- Write failures are not modelled: `PrintWriter.println` never throws, so the code does not notice them.
- Closing is a single `closed` flag. In the code, if closing the reader throws, the writer and the socket are not closed; the model does not distinguish that case.
- `Server.Step`: a read attributed to a connection that is already closed changes nothing. That cannot happen in the code, where a finished handler reads no more.
- src/ChatClient.java is not part of this model: it is interactive console glue (keyboard input, connecting, a fixed two-second sleep before closing, printing), with no state beyond the wire exchange that the server model already covers.
