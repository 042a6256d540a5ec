/** The MCS client of push.go: the partial-write loop, message reading, and the receive
    loop that handles, remembers and acknowledges data messages. */
module McsClient {
  import opened Options
  import opened Bits
  import opened Octets
  import opened Varint
  import opened McsStream

  /** What the receive loop observes before its i-th read: a cancelled context, or a read
      deadline that cannot be set. */
  datatype Context = Context(cancelled: nat -> bool, noDeadline: nat -> bool)

  /** A connection: bytes the peer sent and we have not read, bytes we wrote, and whether a
      write has failed. */
  class Conn {
    const context: Context
    var input: bytes
    var output: bytes
    ghost var broken: bool

    constructor (incoming: bytes, context: Context)
      ensures input == incoming && output == [] && !broken && this.context == context
    {
      this.context := context;
      input := incoming;
      output := [];
      broken := false;
    }

    /** `net.Conn.Write`: some prefix is written, possibly with an error. */
    method Write(b: bytes) returns (n: nat, failed: bool)
      modifies this`output, this`broken
      ensures n <= |b| && output == old(output) + b[..n]
      ensures broken <==> old(broken) || failed || n == 0
    {
      n :| n <= |b|;
      failed := *;
      output := output + b[..n];
      broken := broken || failed || n == 0;
    }

    /** `io.ReadFull` of n bytes; a short stream is used up. */
    method ReadFull(n: nat) returns (r: Result<bytes, ReadError>)
      modifies this`input
      ensures n <= |old(input)| ==> r == Ok(old(input)[..n]) && input == old(input)[n..]
      ensures n > |old(input)| ==> r == Err(EndOfStream) && input == []
    {
      if n > |input| {
        input := [];
        return Err(EndOfStream);
      }
      r := Ok(input[..n]);
      input := input[n..];
    }
  }

  /** The size decoder: at most six bytes are read, whatever the input. */
  method DecodeVarint32(conn: Conn) returns (r: Result<nat, ReadError>)
    modifies conn`input
    ensures Decode(old(conn.input)).Ok? ==> r == Ok(Decode(old(conn.input)).value.0) && conn.input == Decode(old(conn.input)).value.1
    ensures Decode(old(conn.input)).Err? ==> r == Err(Decode(old(conn.input)).error)
    ensures |old(conn.input)| - |conn.input| <= 6
  {
    var result: nat := 0;
    var shift: nat := 0;
    while true
      invariant Decode(old(conn.input)) == DecodeFrom(conn.input, shift, result)
      invariant 7 * (|old(conn.input)| - |conn.input|) == shift && shift <= 35
      decreases |conn.input|
    {
      var b := conn.ReadFull(1);
      if b.Err? {
        return Err(b.error);
      }
      if shift >= 32 {
        return Err(VarintOverflow);
      }
      result := BitOr(result, Shl(Low7(b.value[0]), shift) % WORD);
      if !Continues(b.value[0]) {
        return Ok(result);
      }
      shift := shift + 7;
    }
  }

  /** The protobuf layer: the persistent id of a data message, its decrypted content if it
      decrypts, and the marshalled acknowledgement and login messages. */
  datatype Codec = Codec(
    id: bytes -> string,
    decrypt: bytes -> Option<bytes>,
    ackPayload: string -> bytes,
    loginPayload: seq<string> -> bytes)

  datatype End = NotConnected | ReadFailed(e: ReadError) | SendFailed | ClosedByServer | StreamErrored | Cancelled | DeadlineFailed

  // ---------- what processing a list of messages means ----------

  function IdOf(codec: Codec, m: Message): seq<string> {
    if m.tag == DATA_MESSAGE && codec.id(m.payload) != "" then [codec.id(m.payload)] else []
  }

  function HandledOf(codec: Codec, m: Message): seq<(bytes, string)> {
    if IdOf(codec, m) != [] && codec.decrypt(m.payload).Some?
    then [(codec.decrypt(m.payload).value, codec.id(m.payload))] else []
  }

  function RepliesTo(codec: Codec, m: Message): seq<Message> {
    if m.tag == HEARTBEAT_PING then [Message(HEARTBEAT_ACK, [])]
    else if IdOf(codec, m) != [] then [Message(IQ_STANZA, codec.ackPayload(codec.id(m.payload)))]
    else []
  }

  /** What every message causes, by its number on the wire: a data message with an id is
      remembered and acknowledged whether or not it decrypts, and handled if it does; a ping
      is answered; nothing else has any effect, and only 4 and 10 stop the loop. */
  lemma MessageEffects(codec: Codec, m: Message)
    ensures m.tag == 8 && codec.id(m.payload) != "" ==>
              var id := codec.id(m.payload);
              && IdOf(codec, m) == [id]
              && RepliesTo(codec, m) == [Message(7, codec.ackPayload(id))]
              && HandledOf(codec, m) == match codec.decrypt(m.payload) case None => [] case Some(d) => [(d, id)]
    ensures m.tag == 0 ==> RepliesTo(codec, m) == [Message(1, [])]
    ensures m.tag != 8 || codec.id(m.payload) == "" ==>
              && IdOf(codec, m) == [] && HandledOf(codec, m) == []
              && (m.tag != 0 ==> RepliesTo(codec, m) == [])
    ensures Terminal(m) <==> m.tag in {4, 10}
  {
  }

  predicate Terminal(m: Message) {
    m.tag == CLOSE || m.tag == STREAM_ERROR
  }

  /** No message asks the loop to stop. */
  predicate Quiet(ms: seq<Message>) {
    forall i :: 0 <= i < |ms| ==> !Terminal(ms[i])
  }

  /** Why processing m may stop the loop, or that it need not. */
  predicate StopsOn(codec: Codec, m: Message, stop: Option<End>) {
    match stop
    case None => !Terminal(m)
    case Some(SendFailed) => RepliesTo(codec, m) != []
    case Some(ClosedByServer) => m.tag == CLOSE
    case Some(StreamErrored) => m.tag == STREAM_ERROR
    case Some(_) => false
  }

  /** Nothing stopped the loop before its first n reads. */
  predicate Undisturbed(x: Context, n: nat) {
    forall i :: 0 <= i < n ==> !x.cancelled(i) && !x.noDeadline(i)
  }

  /** Why the loop ended, having processed ms with `rest` still unread: the last message
      stopped it, or none did and either the context or the deadline stops it before the
      next read, or that read fails. */
  predicate EndedBy(codec: Codec, x: Context, first: bool, ms: seq<Message>, rest: bytes, end: End) {
    && Undisturbed(x, |ms|)
    && match end
       case NotConnected => false
       case Cancelled => Quiet(ms) && x.cancelled(|ms|)
       case DeadlineFailed => Quiet(ms) && !x.cancelled(|ms|) && x.noDeadline(|ms|)
       case ReadFailed(e) => Quiet(ms) && Undisturbed(x, |ms| + 1) && Read(first && |ms| == 0, rest) == Err(e)
       case _ => |ms| > 0 && Quiet(ms[..|ms| - 1]) && StopsOn(codec, ms[|ms| - 1], Some(end))
  }

  /** The loop has not stopped yet, or did for a good reason. */
  predicate Ended(codec: Codec, x: Context, first: bool, ms: seq<Message>, rest: bytes, stop: Option<End>) {
    if stop.None? then Quiet(ms) && Undisturbed(x, |ms|) else EndedBy(codec, x, first, ms, rest, stop.value)
  }

  /** What is checked before each read: the context, then the deadline. */
  function Interruption(x: Context, n: nat): Option<End> {
    if x.cancelled(n) then Some(Cancelled) else if x.noDeadline(n) then Some(DeadlineFailed) else None
  }

  lemma EndedMore(codec: Codec, x: Context, first: bool, ms: seq<Message>, m: Message, rest: bytes, stop: Option<End>)
    requires Quiet(ms) && Undisturbed(x, |ms| + 1) && StopsOn(codec, m, stop)
    ensures Ended(codec, x, first, ms + [m], rest, stop)
  {
    assert (ms + [m])[..|ms|] == ms;
  }

  /** Persistent ids to remember, in order. */
  function Ids(codec: Codec, ms: seq<Message>): seq<string> {
    if |ms| == 0 then [] else Ids(codec, ms[..|ms| - 1]) + IdOf(codec, ms[|ms| - 1])
  }

  /** Handler invocations, in order. */
  function Handled(codec: Codec, ms: seq<Message>): seq<(bytes, string)> {
    if |ms| == 0 then [] else Handled(codec, ms[..|ms| - 1]) + HandledOf(codec, ms[|ms| - 1])
  }

  /** Messages to answer with, in order. */
  function Replies(codec: Codec, ms: seq<Message>): (r: seq<Message>)
    ensures Sendable(r)
  {
    if |ms| == 0 then [] else Replies(codec, ms[..|ms| - 1]) + RepliesTo(codec, ms[|ms| - 1])
  }

  /** Reading ms from s, one message after another, leaves rest. */
  ghost predicate Reads(first: bool, s: bytes, ms: seq<Message>, rest: bytes)
    decreases |ms|
  {
    if |ms| == 0 then s == rest
    else
      match Read(first, s)
      case Err(_) => false
      case Ok((m, t)) => m == ms[0] && Reads(false, t, ms[1..], rest)
  }

  lemma {:induction false} ReadsMore(first: bool, s: bytes, ms: seq<Message>, t: bytes, m: Message, rest: bytes)
    requires Reads(first, s, ms, t) && Read(first && |ms| == 0, t) == Ok((m, rest))
    ensures Reads(first, s, ms + [m], rest)
    decreases |ms|
  {
    if |ms| == 0 {
      assert ([] + [m])[1..] == [];
    } else {
      assert (ms + [m])[1..] == ms[1..] + [m];
      ReadsMore(false, Read(first, s).value.1, ms[1..], t, m, rest);
    }
  }

  lemma {:induction false} FramesSum(a: seq<Message>, b: seq<Message>)
    requires Sendable(a) && Sendable(b)
    ensures Sendable(a + b) && Frames(a + b) == Frames(a) + Frames(b)
  {
    if |a| == 0 {
      assert a + b == b;
    } else {
      assert (a + b)[1..] == a[1..] + b;
      assert Sendable(a[1..]);
      FramesSum(a[1..], b);
      assert KnownTag(a[0].tag);
      Associates(Frame(a[0]), Frames(a[1..]), Frames(b));
    }
  }

  /** What the loop changes: input left, bytes written, ids remembered, handler calls. */
  datatype Snapshot = Snapshot(input: bytes, output: bytes, ids: seq<string>, calls: seq<(bytes, string)>)

  /** Processing ms leads from a to b; its replies are all written when `complete`. */
  ghost predicate Progress(codec: Codec, first: bool, a: Snapshot, ms: seq<Message>, b: Snapshot, complete: bool) {
    && Reads(first, a.input, ms, b.input)
    && b.ids == a.ids + Ids(codec, ms) && b.calls == a.calls + Handled(codec, ms)
    && Written(a.output, b.output, Frames(Replies(codec, ms)), complete)
  }

  /** Reading and processing the one message m. */
  ghost predicate Took(codec: Codec, first: bool, b: Snapshot, m: Message, c: Snapshot, complete: bool) {
    && Read(first, b.input) == Ok((m, c.input))
    && c.ids == b.ids + IdOf(codec, m) && c.calls == b.calls + HandledOf(codec, m)
    && Written(b.output, c.output, Frames(RepliesTo(codec, m)), complete)
  }

  function Listed<T>(x: Option<T>): seq<T> {
    if x.Some? then [x.value] else []
  }

  /** What `ReceiveOne` does: a message taken, or a failing read that only uses up input. */
  ghost predicate Received(codec: Codec, first: bool, b: Snapshot, m: Option<Message>, c: Snapshot, stop: Option<End>) {
    match m
    case None => stop.Some? && stop.value.ReadFailed? && Read(first, b.input) == Err(stop.value.e) && c == b.(input := c.input)
    case Some(m) =>
      && StopsOn(codec, m, stop) && Took(codec, first, b, m, c, stop != Some(SendFailed))
      && |c.input| < |b.input|
  }

  /** The receive loop between two reads, or after its end. */
  ghost predicate Listening(codec: Codec, x: Context, first: bool, a: Snapshot, ms: seq<Message>, b: Snapshot, stop: Option<End>) {
    Ended(codec, x, first, ms, b.input, stop) && Progress(codec, first, a, ms, b, stop != Some(SendFailed))
  }

  lemma CutShort(codec: Codec, x: Context, first: bool, a: Snapshot, ms: seq<Message>, b: Snapshot)
    requires Listening(codec, x, first, a, ms, b, None)
    ensures Listening(codec, x, first, a, ms, b, Interruption(x, |ms|))
    ensures Interruption(x, |ms|).None? ==> Undisturbed(x, |ms| + 1)
  {
  }

  lemma Onward(codec: Codec, x: Context, first: bool, a: Snapshot, ms: seq<Message>, b: Snapshot, m: Option<Message>, c: Snapshot, stop: Option<End>)
    requires Listening(codec, x, first, a, ms, b, None) && Undisturbed(x, |ms| + 1)
    requires Received(codec, first && |ms| == 0, b, m, c, stop)
    ensures Listening(codec, x, first, a, ms + Listed(m), if m.Some? then c else b, stop)
    ensures stop.None? ==> m.Some?
  {
    if m.Some? {
      ProgressMore(codec, first, a, ms, b, m.value, c, stop != Some(SendFailed));
      EndedMore(codec, x, first, ms, m.value, c.input, stop);
    } else {
      assert ms + [] == ms;
    }
  }

  lemma NoProgress(codec: Codec, first: bool, a: Snapshot)
    ensures Progress(codec, first, a, [], a, true)
  {
    assert a.ids + [] == a.ids && a.calls + [] == a.calls && a.output + [] == a.output;
  }

  /** One more message adds its own contribution. */
  lemma ProgressMore(codec: Codec, first: bool, a: Snapshot, ms: seq<Message>, b: Snapshot, m: Message, c: Snapshot, complete: bool)
    requires Progress(codec, first, a, ms, b, true) && Took(codec, first && |ms| == 0, b, m, c, complete)
    ensures Progress(codec, first, a, ms + [m], c, complete)
  {
    ReadsMore(first, a.input, ms, b.input, m, c.input);
    WrittenReply(codec, ms, m, a.output, b.output, c.output, complete);
    ContributionsAdd(codec, ms, m, a, b, c);
  }

  lemma ContributionsAdd(codec: Codec, ms: seq<Message>, m: Message, a: Snapshot, b: Snapshot, c: Snapshot)
    requires b.ids == a.ids + Ids(codec, ms) && c.ids == b.ids + IdOf(codec, m)
    requires b.calls == a.calls + Handled(codec, ms) && c.calls == b.calls + HandledOf(codec, m)
    ensures c.ids == a.ids + Ids(codec, ms + [m]) && c.calls == a.calls + Handled(codec, ms + [m])
  {
    assert (ms + [m])[..|ms|] == ms;
    Associates(a.ids, Ids(codec, ms), IdOf(codec, m));
    Associates(a.calls, Handled(codec, ms), HandledOf(codec, m));
  }

  /** Its reply follows the earlier replies. */
  lemma WrittenReply(codec: Codec, ms: seq<Message>, m: Message, base: bytes, mid: bytes, output: bytes, complete: bool)
    requires Written(base, mid, Frames(Replies(codec, ms)), true)
    requires Written(mid, output, Frames(RepliesTo(codec, m)), complete)
    ensures Written(base, output, Frames(Replies(codec, ms + [m])), complete)
  {
    assert (ms + [m])[..|ms|] == ms;
    FramesSum(Replies(codec, ms), RepliesTo(codec, m));
    WrittenMore(base, mid, Frames(Replies(codec, ms)), output, Frames(RepliesTo(codec, m)), complete);
  }

  /** `output` is `base` followed by all of `due`, or by a prefix of it when incomplete. */
  ghost predicate Written(base: bytes, output: bytes, due: bytes, complete: bool) {
    base <= output <= base + due && (complete ==> output == base + due)
  }

  lemma WrittenMore(base: bytes, mid: bytes, due: bytes, output: bytes, more: bytes, complete: bool)
    requires Written(base, mid, due, true) && Written(mid, output, more, complete)
    ensures Written(base, output, due + more, complete)
  {
    assert base + (due + more) == mid + more;
  }

  lemma Associates<T>(a: seq<T>, b: seq<T>, c: seq<T>)
    ensures (a + b) + c == a + (b + c)
  {
  }

  method WriteAll(conn: Conn, data: bytes) returns (ok: bool)
    modifies conn
    ensures conn.input == old(conn.input)
    ensures Written(old(conn.output), conn.output, data, ok)
    ensures conn.broken <==> old(conn.broken) || !ok
  {
    var frame := data;
    while |frame| > 0
      invariant conn.output + frame == old(conn.output) + data
      invariant old(conn.output) <= conn.output && conn.input == old(conn.input) && conn.broken == old(conn.broken)
      decreases |frame|
    {
      ghost var before := conn.output;
      var n, failed := conn.Write(frame);
      assert before + frame == (before + frame[..n]) + frame[n..];
      if failed || n == 0 {
        return false;
      }
      frame := frame[n..];
    }
    assert conn.output + [] == conn.output;
    return true;
  }

  // ---------- the client ----------

  class MCSClient {
    const codec: Codec
    var conn: Conn?
    var firstMessage: bool
    var receivedPersistentIDs: seq<string>
    /** Calls made to the push handler. */
    var handled: seq<(bytes, string)>

    constructor (codec: Codec)
      ensures this.codec == codec && conn == null && receivedPersistentIDs == [] && handled == []
    {
      this.codec := codec;
      conn := null;
      firstMessage := false;
      receivedPersistentIDs := [];
      handled := [];
    }

    method RememberPersistentID(id: string)
      modifies this`receivedPersistentIDs
      ensures receivedPersistentIDs == old(receivedPersistentIDs) + [id]
    {
      receivedPersistentIDs := receivedPersistentIDs + [id];
    }

    method Close()
      modifies this`conn
      ensures conn == null
    {
      conn := null;
    }

    /** The bytes `sendMsg` has to get onto the wire. */
    function Wire(m: Message): bytes
      requires KnownTag(m.tag)
      reads this`firstMessage
    {
      (if firstMessage then [VERSION] else []) + Frame(m)
    }

    method BuildFrame(m: Message) returns (frame: bytes)
      requires KnownTag(m.tag)
      ensures frame == Wire(m)
    {
      if firstMessage {
        frame := [VERSION, m.tag as byte];
      } else {
        frame := [m.tag as byte];
      }
      var size := EncodeVarint32(|m.payload| % WORD);
      Associates([VERSION], [m.tag as byte], size);
      Associates([VERSION], [m.tag as byte] + size, m.payload);
      assert [VERSION, m.tag as byte] == [VERSION] + [m.tag as byte];
      frame := frame + size;
      frame := frame + m.payload;
    }

    /** Loop over partial writes: the whole frame on success, a prefix of it on failure. */
    method SendMsg(m: Message) returns (ok: bool)
      requires KnownTag(m.tag)
      modifies if conn == null then {} else {conn}
      ensures conn == null ==> !ok
      ensures conn != null ==> conn.input == old(conn.input)
      ensures conn != null ==> Written(old(conn.output), conn.output, Wire(m), ok)
      ensures conn != null ==> (conn.broken <==> old(conn.broken) || !ok)
    {
      if conn == null {
        return false;
      }
      var frame := BuildFrame(m);
      ok := WriteAll(conn, frame);
    }

    method ReadMsg() returns (r: Result<Message, ReadError>)
      requires conn != null
      modifies this`firstMessage, conn`input
      ensures !firstMessage
      ensures Read(old(firstMessage), old(conn.input)).Ok? ==>
                r == Ok(Read(old(firstMessage), old(conn.input)).value.0)
                && conn.input == Read(old(firstMessage), old(conn.input)).value.1
      ensures Read(old(firstMessage), old(conn.input)).Err? ==>
                r == Err(Read(old(firstMessage), old(conn.input)).error)
    {
      var isFirst := firstMessage;
      if isFirst {
        firstMessage := false;
      }
      var tag: byte;
      if isFirst {
        var hdr := conn.ReadFull(2);
        if hdr.Err? {
          return Err(EndOfStream);
        }
        if hdr.value[0] < VERSION && hdr.value[0] != LEGACY_VERSION {
          return Err(UnsupportedVersion);
        }
        tag := hdr.value[1];
        assert conn.input == old(conn.input)[1..][1..];
      } else {
        var b := conn.ReadFull(1);
        if b.Err? {
          return Err(EndOfStream);
        }
        tag := b.value[0];
      }
      var size := DecodeVarint32(conn);
      if size.Err? {
        return Err(size.error);
      }
      if size.value > MAX_MESSAGE_SIZE {
        return Err(Oversized);
      }
      var payload := conn.ReadFull(size.value);
      if payload.Err? {
        return Err(EndOfStream);
      }
      if !KnownTag(tag as nat) {
        return Err(UnknownTag);
      }
      return Ok(Message(tag as nat, payload.value));
    }

    /** Decrypt, run the handler, and report the id to acknowledge even when decryption fails. */
    method HandleDataMessage(m: Message) returns (persistentID: string)
      requires m.tag == DATA_MESSAGE
      modifies this`handled
      ensures persistentID == codec.id(m.payload)
      ensures handled == old(handled) + HandledOf(codec, m)
    {
      persistentID := codec.id(m.payload);
      var decrypted := codec.decrypt(m.payload);
      if decrypted.None? {
        return;
      }
      if persistentID != "" {
        handled := handled + [(decrypted.value, persistentID)];
      }
    }

    method Reply(reply: Message) returns (stop: Option<End>)
      requires conn != null && !firstMessage && KnownTag(reply.tag)
      modifies conn
      ensures conn.input == old(conn.input) && stop in {None, Some(SendFailed)}
      ensures Written(old(conn.output), conn.output, Frames([reply]), stop.None?)
      ensures conn.broken <==> old(conn.broken) || stop.Some?
    {
      OneFrame(reply);
      var sent := SendMsg(reply);
      stop := if sent then None else Some(SendFailed);
    }

    /** One received message: answer pings; handle, remember and then acknowledge data. */
    method Dispatch(m: Message) returns (stop: Option<End>)
      requires conn != null && !firstMessage
      modifies this`receivedPersistentIDs, this`handled, conn
      ensures receivedPersistentIDs == old(receivedPersistentIDs) + IdOf(codec, m)
      ensures handled == old(handled) + HandledOf(codec, m)
      ensures conn.input == old(conn.input)
      ensures Written(old(conn.output), conn.output, Frames(RepliesTo(codec, m)), stop != Some(SendFailed))
      ensures StopsOn(codec, m, stop)
      ensures conn.broken <==> old(conn.broken) || stop == Some(SendFailed)
    {
      if m.tag == HEARTBEAT_PING {
        stop := Reply(Message(HEARTBEAT_ACK, []));
        return;
      } else if m.tag == DATA_MESSAGE {
        var id := HandleDataMessage(m);
        if id != "" {
          RememberPersistentID(id);
          stop := Reply(Message(IQ_STANZA, codec.ackPayload(id)));
          return;
        }
      } else if m.tag == CLOSE {
        return Some(ClosedByServer);
      } else if m.tag == STREAM_ERROR {
        return Some(StreamErrored);
      }
      return None;
    }

    ghost function State(): Snapshot
      requires conn != null
      reads this, conn
    {
      Snapshot(conn.input, conn.output, receivedPersistentIDs, handled)
    }

    /** The body of the receive loop: read one message and process it. */
    method ReceiveOne() returns (stop: Option<End>, ghost m: Option<Message>)
      requires conn != null
      modifies this`firstMessage, this`receivedPersistentIDs, this`handled, conn
      ensures !firstMessage
      ensures conn.broken <==> old(conn.broken) || stop == Some(SendFailed)
      ensures Received(codec, old(firstMessage), old(State()), m, State(), stop)
    {
      var msg := ReadMsg();
      if msg.Err? {
        return Some(ReadFailed(msg.error)), None;
      }
      m := Some(msg.value);
      ReadShrinks(old(firstMessage), old(conn.input));
      stop := Dispatch(msg.value);
    }

    /** The loop body: stop for the context or the deadline, or take one more message after
        those (ms) that led from a to b. */
    method ReceiveNext(taken: nat, ghost first: bool, ghost a: Snapshot, ghost ms: seq<Message>, ghost b: Snapshot)
      returns (stop: Option<End>, ghost ms': seq<Message>, ghost b': Snapshot)
      requires conn != null && b == State() && taken == |ms| && firstMessage == (first && taken == 0)
      requires Listening(codec, conn.context, first, a, ms, b, None)
      modifies this`firstMessage, this`receivedPersistentIDs, this`handled, conn
      ensures Listening(codec, conn.context, first, a, ms', b', stop)
      ensures b' == State().(input := b'.input)
      ensures stop.None? ==> b' == State() && |ms'| == taken + 1 && !firstMessage && |conn.input| < |old(conn.input)|
      ensures conn.broken <==> old(conn.broken) || stop == Some(SendFailed)
    {
      CutShort(codec, conn.context, first, a, ms, b);
      stop, ms', b' := Interruption(conn.context, taken), ms, b;
      if stop.None? {
        ghost var m;
        stop, m := ReceiveOne();
        Onward(codec, conn.context, first, a, ms, b, m, State(), stop);
        ms', b' := ms + Listed(m), if m.Some? then State() else b;
      }
    }

    /** The receive loop. Whatever ends it, the messages read were processed in order, every
        id was remembered, and the replies written are a prefix of the replies due, all of
        them unless a write failed; and it ends only for the reason it returns. */
    method Listen() returns (end: End, ghost processed: seq<Message>, ghost rest: bytes)
      modifies this, conn
      ensures conn == null
      ensures old(conn) == null ==>
                && end == NotConnected && processed == []
                && receivedPersistentIDs == old(receivedPersistentIDs) && handled == old(handled)
      ensures old(conn) != null ==>
                && (old(conn).broken <==> old(conn.broken) || end.SendFailed?)
                && Listening(codec, old(conn.context), old(firstMessage), old(State()), processed,
                             Snapshot(rest, old(conn).output, receivedPersistentIDs, handled), Some(end))
    {
      processed, rest := [], [];
      if conn == null {
        end := NotConnected;
        return;
      }
      var c: Conn := conn;
      ghost var first, start := firstMessage, State();
      ghost var now := start;
      var stop: Option<End> := None;
      var taken := 0;
      NoProgress(codec, first, start);
      while stop.None?
        invariant conn == c && c == old(conn) && now == State().(input := now.input)
        invariant stop.None? ==> now == State() && taken == |processed| && firstMessage == (first && taken == 0)
        invariant c.broken <==> old(conn.broken) || stop == Some(SendFailed)
        invariant Listening(codec, c.context, first, start, processed, now, stop)
        decreases if stop.None? then |c.input| + 1 else 0
      {
        stop, processed, now := ReceiveNext(taken, first, start, processed, now);
        taken := taken + 1;
      }
      end, rest := stop.value, now.input;
      Close();
    }

    /** The login exchange of `Connect` on a fresh connection: the login lists every
        remembered id, is the only message before the first read, and carries the one
        version byte of the stream. It succeeds only on a login response. */
    method Login(c: Conn) returns (ok: bool)
      requires c.output == []
      modifies this, c
      ensures receivedPersistentIDs == old(receivedPersistentIDs) && handled == old(handled)
      ensures var login := Message(LOGIN_REQUEST, codec.loginPayload(receivedPersistentIDs));
              c.output <= [VERSION] + Frame(login)
              && (ok ==> conn == c && !firstMessage && c.output == [VERSION] + Frame(login))
      ensures ok ==> LoginAnswered(old(c.input)) && c.input == Read(true, old(c.input)).value.1
      ensures ok <==> conn != null
      // it fails only when a write failed or the answer is not a login response
      ensures !old(c.broken) ==> (ok <==> !c.broken && LoginAnswered(old(c.input)))
      ensures ok ==> c.broken == old(c.broken)
    {
      firstMessage := true;
      conn := c;
      var sent := SendMsg(Message(LOGIN_REQUEST, codec.loginPayload(receivedPersistentIDs)));
      if !sent {
        Close();
        return false;
      }
      var resp := ReadMsg();
      if resp.Err? || resp.value.tag != LOGIN_RESPONSE {
        Close();
        return false;
      }
      return true;
    }

    ghost function Remembers(): Memory
      reads this
    {
      Memory(receivedPersistentIDs, handled)
    }

    /** One round of `Run`: dial, log in, and listen until something ends it. `dial` says
        whether dialling fails or what the connection will be like. */
    method RunOnce(dial: Option<Peer>) returns (ghost session: Option<Session>)
      modifies this
      ensures RanOnce(codec, dial, old(Remembers()), session, Remembers())
    {
      ghost var m := Remembers();
      session := None;
      if dial.None? {
        return;
      }
      var c := new Conn(dial.value.input, dial.value.context);
      var ok := Login(c);
      if ok {
        var end;
        ghost var processed, rest;
        end, processed, rest := Listen();
        session := Some(Session(dial.value, c.output, c.broken, m.ids, true, processed, end));
      } else {
        assert m.ids + [] == m.ids && m.calls + [] == m.calls;
        session := Some(Session(dial.value, c.output, c.broken, m.ids, false, [], NotConnected));
      }
    }

    /** `Run` until it is cancelled, one dial per round. What one session remembers the next
        one's login names. */
    method Run(dials: seq<Option<Peer>>) returns (ghost sessions: seq<Session>)
      modifies this
      ensures Ran(codec, dials, old(Remembers()), sessions, Remembers())
    {
      sessions := [];
      ghost var start := Remembers();
      NothingRan(codec, start);
      var i := 0;
      while i < |dials|
        invariant 0 <= i <= |dials|
        invariant Ran(codec, dials[..i], start, sessions, Remembers())
      {
        ghost var now := Remembers();
        ghost var session := RunOnce(dials[i]);
        RoundMore(codec, dials, i, start, sessions, now, session, Remembers());
        sessions := sessions + Listed(session);
        i := i + 1;
      }
      assert dials[..i] == dials;
    }
  }

  // ---------- sequences of connections ----------

  /** The other end of a connection: what it sends, and what the loop observes meanwhile. */
  datatype Peer = Peer(input: bytes, context: Context)

  /** One connection of `Run`: its other end, what was written and whether a write failed,
      the ids its login named, whether the login was accepted, the messages processed, and
      why listening ended. */
  datatype Session = Session(peer: Peer, output: bytes, broken: bool, login: seq<string>, accepted: bool, processed: seq<Message>, end: End)

  predicate LoginAnswered(input: bytes) {
    Read(true, input).Ok? && Read(true, input).value.0.tag == LOGIN_RESPONSE
  }

  function LoginBytes(codec: Codec, ids: seq<string>): bytes {
    [VERSION] + Frame(Message(LOGIN_REQUEST, codec.loginPayload(ids)))
  }

  /** The login on the wire: version 41, the number of a login request, its size and its
      payload, which names these ids. */
  lemma LoginOnWire(codec: Codec, ids: seq<string>)
    ensures var p := codec.loginPayload(ids);
      LoginBytes(codec, ids) == [41, 2] + Encode(|p| % 0x1_0000_0000) + p
  {
    var p := codec.loginPayload(ids);
    var version: bytes, tag: bytes := [41], [2];
    Associates(version, tag, Encode(|p| % WORD));
    Associates(version, tag + Encode(|p| % WORD), p);
    assert version + tag == [41, 2];
  }

  /** What a session makes of its input and writes: it is accepted unless a write failed or
      the login was not answered, and ends in a failed send exactly when a write failed. */
  ghost predicate Lawful(codec: Codec, s: Session) {
    if !s.accepted
    then s.processed == [] && s.output <= LoginBytes(codec, s.login) && (s.broken || !LoginAnswered(s.peer.input))
    else
      && LoginAnswered(s.peer.input) && (s.broken <==> s.end.SendFailed?)
      && (exists rest ::
            && Reads(false, Read(true, s.peer.input).value.1, s.processed, rest)
            && EndedBy(codec, s.peer.context, false, s.processed, rest, s.end))
      && Written(LoginBytes(codec, s.login), s.output, Frames(Replies(codec, s.processed)), !s.end.SendFailed?)
  }

  ghost predicate AllLawful(codec: Codec, ss: seq<Session>) {
    forall i :: 0 <= i < |ss| ==> Lawful(codec, ss[i])
  }

  function Peers(ss: seq<Session>): seq<Peer> {
    seq(|ss|, i requires 0 <= i < |ss| => ss[i].peer)
  }

  /** The connections that could be dialled. */
  function Answered(dials: seq<Option<Peer>>): seq<Peer> {
    if |dials| == 0 then []
    else
      var last := dials[|dials| - 1];
      Answered(dials[..|dials| - 1]) + if last.Some? then [last.value] else []
  }

  function SessionIds(codec: Codec, ss: seq<Session>): seq<string> {
    if |ss| == 0 then [] else SessionIds(codec, ss[..|ss| - 1]) + Ids(codec, ss[|ss| - 1].processed)
  }

  function SessionCalls(codec: Codec, ss: seq<Session>): seq<(bytes, string)> {
    if |ss| == 0 then [] else SessionCalls(codec, ss[..|ss| - 1]) + Handled(codec, ss[|ss| - 1].processed)
  }

  /** Every login names all ids remembered by then. */
  ghost predicate LoginsNameAll(codec: Codec, ids: seq<string>, ss: seq<Session>) {
    |ss| == 0 ||
    var front := ss[..|ss| - 1];
    LoginsNameAll(codec, ids, front) && ss[|ss| - 1].login == ids + SessionIds(codec, front)
  }

  /** What outlives a connection: ids remembered and handler calls made. */
  datatype Memory = Memory(ids: seq<string>, calls: seq<(bytes, string)>)

  /** These sessions, one per successful dial, lead from m0 to m. */
  ghost predicate Ran(codec: Codec, dials: seq<Option<Peer>>, m0: Memory, ss: seq<Session>, m: Memory) {
    && AllLawful(codec, ss) && Peers(ss) == Answered(dials)
    && LoginsNameAll(codec, m0.ids, ss)
    && m.ids == m0.ids + SessionIds(codec, ss)
    && m.calls == m0.calls + SessionCalls(codec, ss)
  }

  lemma NothingRan(codec: Codec, m: Memory)
    ensures Ran(codec, [], m, [], m)
  {
    assert m.ids + [] == m.ids && m.calls + [] == m.calls;
  }

  /** One round leads from m to n, with a session unless the dial failed. */
  ghost predicate RanOnce(codec: Codec, dial: Option<Peer>, m: Memory, s: Option<Session>, n: Memory) {
    match s
    case None => dial.None? && n == m
    case Some(s) =>
      && dial == Some(s.peer) && Lawful(codec, s) && s.login == m.ids
      && n == Memory(m.ids + Ids(codec, s.processed), m.calls + Handled(codec, s.processed))
  }

  lemma RoundMore(codec: Codec, dials: seq<Option<Peer>>, i: nat, m0: Memory, ss: seq<Session>, m: Memory, s: Option<Session>, n: Memory)
    requires i < |dials| && Ran(codec, dials[..i], m0, ss, m) && RanOnce(codec, dials[i], m, s, n)
    ensures Ran(codec, dials[..i + 1], m0, ss + Listed(s), n)
  {
    assert dials[..i + 1][..i] == dials[..i];
    if s.Some? {
      SessionMore(codec, dials[..i], m0, ss, m, s.value, n);
      assert Answered(dials[..i + 1]) == Answered(dials[..i]) + [s.value.peer];
    } else {
      assert ss + [] == ss && Answered(dials[..i]) + [] == Answered(dials[..i]);
    }
  }

  lemma SessionMore(codec: Codec, dials: seq<Option<Peer>>, m0: Memory, ss: seq<Session>, m: Memory, s: Session, n: Memory)
    requires Ran(codec, dials, m0, ss, m) && RanOnce(codec, Some(s.peer), m, Some(s), n)
    ensures AllLawful(codec, ss + [s]) && Peers(ss + [s]) == Answered(dials) + [s.peer]
    ensures LoginsNameAll(codec, m0.ids, ss + [s])
    ensures n == Memory(m0.ids + SessionIds(codec, ss + [s]), m0.calls + SessionCalls(codec, ss + [s]))
  {
    assert (ss + [s])[..|ss|] == ss;
    Associates(m0.ids, SessionIds(codec, ss), Ids(codec, s.processed));
    Associates(m0.calls, SessionCalls(codec, ss), Handled(codec, s.processed));
    assert Peers(ss + [s]) == Peers(ss) + [s.peer];
  }

  lemma OneFrame(m: Message)
    requires KnownTag(m.tag)
    ensures Frames([m]) == Frame(m)
  {
    assert [m][1..] == [];
    assert Frame(m) + [] == Frame(m);
  }

  // ---------- consequences for whole runs of the loop ----------

  /** Acknowledgements among a list of messages. */
  function Acks(ms: seq<Message>): seq<bytes> {
    if |ms| == 0 then []
    else Acks(ms[..|ms| - 1]) + if ms[|ms| - 1].tag == IQ_STANZA then [ms[|ms| - 1].payload] else []
  }

  lemma AcksMore(ms: seq<Message>, m: Message)
    ensures Acks(ms + [m]) == Acks(ms) + if m.tag == IQ_STANZA then [m.payload] else []
  {
    assert (ms + [m])[..|ms|] == ms;
  }

  /** The replies due acknowledge exactly the remembered ids, once each and in order. */
  lemma {:induction false} AcksAreIds(codec: Codec, ms: seq<Message>)
    ensures |Acks(Replies(codec, ms))| == |Ids(codec, ms)|
    ensures forall i :: 0 <= i < |Ids(codec, ms)| ==> Acks(Replies(codec, ms))[i] == codec.ackPayload(Ids(codec, ms)[i])
  {
    if |ms| > 0 {
      var front, m := ms[..|ms| - 1], ms[|ms| - 1];
      AcksAreIds(codec, front);
      var replies := RepliesTo(codec, m);
      if |replies| == 1 {
        AcksMore(Replies(codec, front), replies[0]);
        assert replies == [replies[0]];
      } else {
        assert Replies(codec, front) + replies == Replies(codec, front);
      }
    }
  }

  /** Every handler call was for a remembered id, and happened at most once per message
      carrying that id. */
  lemma {:induction false} HandledAreRemembered(codec: Codec, ms: seq<Message>, id: string)
    ensures Count(HandledIds(Handled(codec, ms)), id) <= Count(Ids(codec, ms), id)
  {
    if |ms| > 0 {
      var front, m := ms[..|ms| - 1], ms[|ms| - 1];
      HandledAreRemembered(codec, front, id);
      HandledIdsSum(Handled(codec, front), HandledOf(codec, m));
      CountSum(HandledIds(Handled(codec, front)), HandledIds(HandledOf(codec, m)), id);
      CountSum(Ids(codec, front), IdOf(codec, m), id);
      HandledWithin(codec, m, id);
    }
  }

  lemma HandledWithin(codec: Codec, m: Message, id: string)
    ensures Count(HandledIds(HandledOf(codec, m)), id) <= Count(IdOf(codec, m), id)
  {
    assert HandledIds(HandledOf(codec, m)) == if HandledOf(codec, m) == [] then [] else IdOf(codec, m);
  }

  function HandledIds(calls: seq<(bytes, string)>): seq<string> {
    seq(|calls|, i requires 0 <= i < |calls| => calls[i].1)
  }

  lemma HandledIdsSum(a: seq<(bytes, string)>, b: seq<(bytes, string)>)
    ensures HandledIds(a + b) == HandledIds(a) + HandledIds(b)
  {
  }

  function Count(ids: seq<string>, id: string): nat {
    multiset(ids)[id]
  }

  lemma CountSum(a: seq<string>, b: seq<string>, id: string)
    ensures Count(a + b, id) == Count(a, id) + Count(b, id)
  {
  }
}
