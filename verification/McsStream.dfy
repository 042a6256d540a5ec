/** Framing of the MCS stream in push.go: tag, size prefix, payload, and one version byte
    in front of the stream. */
module McsStream {
  import opened Options
  import opened Octets
  import opened Arithmetic
  import opened Varint

  const VERSION: byte := 41
  const LEGACY_VERSION: byte := 38
  const MAX_MESSAGE_SIZE: nat := 0x100_0000

  /** A protobuf message as its wire tag and marshalled bytes. */
  datatype Message = Message(tag: nat, payload: bytes)

  const HEARTBEAT_PING := 0
  const HEARTBEAT_ACK := 1
  const LOGIN_REQUEST := 2
  const LOGIN_RESPONSE := 3
  const CLOSE := 4
  const IQ_STANZA := 7
  const DATA_MESSAGE := 8
  const STREAM_ERROR := 10

  predicate KnownTag(tag: nat) {
    tag <= 4 || tag == IQ_STANZA || tag == DATA_MESSAGE || tag == STREAM_ERROR
  }

  predicate Sendable(ms: seq<Message>) {
    forall i :: 0 <= i < |ms| ==> KnownTag(ms[i].tag)
  }

  predicate Readable(ms: seq<Message>) {
    forall i :: 0 <= i < |ms| ==> |ms[i].payload| <= MAX_MESSAGE_SIZE
  }

  /** What `sendMsg` puts after the optional version byte. */
  function Frame(m: Message): bytes
    requires KnownTag(m.tag)
  {
    [m.tag as byte] + Encode(|m.payload| % WORD) + m.payload
  }

  function Frames(ms: seq<Message>): bytes
    requires Sendable(ms)
  {
    if |ms| == 0 then [] else Frame(ms[0]) + Frames(ms[1..])
  }

  /** Read one frame whose tag comes first. */
  function Unframe(s: bytes): Result<(Message, bytes), ReadError> {
    if |s| == 0 then Err(EndOfStream)
    else
      match Decode(s[1..])
      case Err(e) => Err(e)
      case Ok((size, rest)) =>
        if size > MAX_MESSAGE_SIZE then Err(Oversized)
        else if |rest| < size then Err(EndOfStream)
        else if !KnownTag(s[0] as nat) then Err(UnknownTag)
        else Ok((Message(s[0] as nat, rest[..size]), rest[size..]))
  }

  predicate AcceptedVersion(v: byte) {
    v >= VERSION || v == LEGACY_VERSION
  }

  /** `readMsg`: the first message of a connection carries a version byte. */
  function Read(first: bool, s: bytes): Result<(Message, bytes), ReadError> {
    if !first then Unframe(s)
    else if |s| < 2 then Err(EndOfStream)
    else if !AcceptedVersion(s[0]) then Err(UnsupportedVersion)
    else Unframe(s[1..])
  }

  /** A successful read consumes input. */
  lemma ReadShrinks(first: bool, s: bytes)
    requires Read(first, s).Ok?
    ensures |Read(first, s).value.1| < |s|
  {
    var t := if first then s[1..] else s;
    DecodeExact(t[1..]);
  }

  /** Repeated `readMsg` until the stream is used up; None if some read fails. */
  function ReadAll(first: bool, s: bytes): Option<seq<Message>>
    decreases |s|
  {
    if |s| == 0 then Some([])
    else
      match Read(first, s)
      case Err(_) => None
      case Ok((m, rest)) =>
        ReadShrinks(first, s);
        match ReadAll(false, rest)
        case None => None
        case Some(ms) => Some([m] + ms)
  }

  /** p is a size prefix that reads as n. */
  predicate SizePrefix(p: bytes, n: nat) {
    1 <= |p| <= 5 && PrefixLength(p) == |p| && Weigh(p) % WORD == n
  }

  /** s is one frame with message m, followed by rest. */
  ghost predicate FrameOf(s: bytes, m: Message, rest: bytes) {
    m.tag in {0, 1, 2, 3, 4, 7, 8, 10} && |m.payload| <= 0x100_0000
    && exists p :: SizePrefix(p, |m.payload|) && s == [m.tag as byte] + p + m.payload + rest
  }

  /** What a frame is: reading succeeds exactly on a known tag, a size prefix, possibly
      padded, of at most 16 MiB, and a payload of that size, and leaves what follows. */
  lemma UnframeExact(s: bytes, m: Message, rest: bytes)
    ensures Unframe(s) == Ok((m, rest)) <==> FrameOf(s, m, rest)
  {
    if Unframe(s) == Ok((m, rest)) {
      FrameFound(s, m, rest);
    }
    if FrameOf(s, m, rest) {
      var p :| SizePrefix(p, |m.payload|) && s == [m.tag as byte] + p + m.payload + rest;
      FrameRead(s, m, rest, p);
    }
  }

  lemma FrameFound(s: bytes, m: Message, rest: bytes)
    requires Unframe(s) == Ok((m, rest))
    ensures FrameOf(s, m, rest)
  {
    var t := s[1..];
    var n := PrefixLength(t);
    DecodeExact(t);
    PrefixAlone(t);
    assert SizePrefix(t[..n], |m.payload|);
    assert m.payload + rest == t[n..] && m.tag as byte == s[0];
    CutInFour(s, t, n, m.payload, rest);
  }

  lemma CutInFour(s: bytes, t: bytes, n: nat, payload: bytes, rest: bytes)
    requires |s| > 0 && t == s[1..] && n <= |t| && t[n..] == payload + rest
    ensures s == [s[0]] + t[..n] + payload + rest
  {
    assert t == t[..n] + (payload + rest) && s == [s[0]] + t;
    Grouped([s[0]], t[..n], payload, rest);
  }

  lemma Grouped(a: bytes, b: bytes, c: bytes, d: bytes)
    ensures a + (b + (c + d)) == a + b + c + d
  {
  }

  lemma FrameRead(s: bytes, m: Message, rest: bytes, p: bytes)
    requires KnownTag(m.tag) && |m.payload| <= MAX_MESSAGE_SIZE
    requires SizePrefix(p, |m.payload|) && s == [m.tag as byte] + p + m.payload + rest
    ensures Unframe(s) == Ok((m, rest))
  {
    var after := m.payload + rest;
    assert s[1..] == p + after;
    PrefixExtends(p, after);
    DecodeExact(s[1..]);
    assert s[1..][..|p|] == p && s[1..][|p|..] == after;
    assert after[..|m.payload|] == m.payload && after[|m.payload|..] == rest;
    TagByte(m.tag);
  }

  lemma {:induction false} PrefixAlone(t: bytes)
    requires PrefixLength(t) <= |t|
    ensures PrefixLength(t[..PrefixLength(t)]) == PrefixLength(t)
  {
    if Continues(t[0]) {
      PrefixAlone(t[1..]);
      assert t[..PrefixLength(t)][1..] == t[1..][..PrefixLength(t[1..])];
    }
  }

  lemma {:induction false} PrefixExtends(p: bytes, tail: bytes)
    requires |p| > 0 && PrefixLength(p) == |p|
    ensures PrefixLength(p + tail) == |p|
  {
    if Continues(p[0]) {
      assert (p + tail)[1..] == p[1..] + tail;
      PrefixExtends(p[1..], tail);
    }
  }

  /** The first message of a connection: versions below 41 are refused, except 38, and
      otherwise what follows the version byte is read. */
  lemma FirstReadExact(s: bytes)
    requires |s| >= 2
    ensures Read(true, s) == Err(UnsupportedVersion) <==> s[0] as nat < 41 && s[0] as nat != 38
    ensures s[0] as nat >= 41 || s[0] as nat == 38 ==> Read(true, s) == Unframe(s[1..])
  {
    VersionNumber(s[0]);
    DecodeExact(s[1..][1..]);
  }

  /** A short message on the wire: its number, its length, and its bytes. */
  lemma ShortFrame(m: Message)
    requires KnownTag(m.tag) && |m.payload| < 128
    ensures Frame(m) == [m.tag as byte, |m.payload| as byte] + m.payload
  {
    var n := |m.payload|;
    DivModUnique(n, WORD, 0, n);
    assert Encode(n) == [n as byte];
  }

  // ---------- one frame ----------

  lemma TagByte(tag: nat)
    requires KnownTag(tag)
    ensures (tag as byte) as nat == tag && !AcceptedVersion(tag as byte)
  {
    ByteRoundTrip(tag);
    var b := tag as byte;
    SmallByte(b);
  }

  lemma FrameParts(m: Message, tail: bytes)
    requires KnownTag(m.tag)
    ensures var s := Frame(m) + tail;
      |s| >= 2 && s[0] == m.tag as byte && Decode(s[1..]) == Ok((|m.payload| % WORD, m.payload + tail))
  {
    var s, size := Frame(m) + tail, |m.payload| % WORD;
    assert s[1..] == Encode(size) + (m.payload + tail);
    VarintRoundTrip(size, m.payload + tail);
    EncodeLength(size);
  }

  /** A frame reads back as itself, and leaves what follows, exactly when its payload is
      within the reader's limit; the sender does not check that limit. */
  lemma FrameRoundTripIff(m: Message, tail: bytes)
    requires KnownTag(m.tag)
    ensures |m.payload| <= MAX_MESSAGE_SIZE ==> Unframe(Frame(m) + tail) == Ok((m, tail))
    ensures |m.payload| > MAX_MESSAGE_SIZE ==>
              Unframe(Frame(m) + tail).Err? || Unframe(Frame(m) + tail).value.0 != m
  {
    FrameParts(m, tail);
    TagByte(m.tag);
    if |m.payload| <= MAX_MESSAGE_SIZE {
      assert |m.payload| % WORD == |m.payload|;
      var rest := m.payload + tail;
      assert rest[..|m.payload|] == m.payload && rest[|m.payload|..] == tail;
    }
  }

  // ---------- whole streams ----------

  lemma {:induction false} FramesRoundTripIff(ms: seq<Message>)
    requires Sendable(ms)
    ensures ReadAll(false, Frames(ms)) == Some(ms) <==> Readable(ms)
  {
    if |ms| > 0 {
      var m, rest := ms[0], ms[1..];
      FrameParts(m, Frames(rest));
      FrameRoundTripIff(m, Frames(rest));
      FramesRoundTripIff(rest);
      assert Readable(ms) <==> |m.payload| <= MAX_MESSAGE_SIZE && Readable(rest) by {
        ReadableCons(m, rest);
        assert ms == [m] + rest;
      }
      assert forall ns: seq<Message> :: [m] + ns == ms <==> ns == rest by {
        forall ns: seq<Message> | [m] + ns == ms ensures ns == rest { assert ([m] + ns)[1..] == ns; }
        assert [m] + rest == ms;
      }
      if ReadAll(false, Frames(ms)).Some? {
        ReadAllHead(Frames(ms));
      }
    }
  }

  lemma ReadAllHead(s: bytes)
    requires |s| > 0 && ReadAll(false, s).Some?
    ensures Unframe(s).Ok? && |ReadAll(false, s).value| > 0
    ensures ReadAll(false, s).value[0] == Unframe(s).value.0
  {
  }

  lemma ReadableCons(m: Message, rest: seq<Message>)
    ensures Readable([m] + rest) <==> |m.payload| <= MAX_MESSAGE_SIZE && Readable(rest)
  {
    var ms := [m] + rest;
    assert ms[0] == m && ms[1..] == rest;
    if Readable(ms) {
      assert forall i :: 0 <= i < |rest| ==> rest[i] == ms[i + 1];
    }
  }

  // ---------- sessions of sends and reads ----------

  /** What a client does with its connection, in order. */
  datatype SessionEvent = Send(m: Message) | Receive

  /** Messages sent in a session. */
  function Sent(es: seq<SessionEvent>): seq<Message> {
    if |es| == 0 then []
    else if es[0].Send? then [es[0].m] + Sent(es[1..])
    else Sent(es[1..])
  }

  /** Bytes written in a session: the version byte precedes every frame sent while the
      first-message flag is up, and only a read takes the flag down. */
  function Output(es: seq<SessionEvent>, first: bool): bytes
    requires Sendable(Sent(es))
  {
    if |es| == 0 then []
    else if es[0].Receive? then Output(es[1..], false)
    else
      SentTail(es);
      (if first then [VERSION] else []) + Frame(es[0].m) + Output(es[1..], first)
  }

  lemma SentTail(es: seq<SessionEvent>)
    requires |es| > 0 && es[0].Send? && Sendable(Sent(es))
    ensures KnownTag(es[0].m.tag) && Sendable(Sent(es[1..]))
  {
    var ms := Sent(es);
    assert ms[0] == es[0].m && ms[1..] == Sent(es[1..]);
  }

  /** Sends before the first read. */
  function LeadingSends(es: seq<SessionEvent>): nat {
    if |es| == 0 || es[0].Receive? then 0 else 1 + LeadingSends(es[1..])
  }

  lemma {:induction false} OutputWithoutVersion(es: seq<SessionEvent>)
    requires Sendable(Sent(es))
    ensures Output(es, false) == Frames(Sent(es))
  {
    if |es| > 0 {
      if es[0].Send? {
        SentTail(es);
        assert Sent(es)[1..] == Sent(es[1..]);
      }
      OutputWithoutVersion(es[1..]);
    }
  }

  /** With no further send before the next read, the flag no longer matters. */
  lemma {:induction false} OutputAfterRead(es: seq<SessionEvent>)
    requires Sendable(Sent(es)) && LeadingSends(es) == 0
    ensures Output(es, true) == Frames(Sent(es))
  {
    if |es| > 0 {
      OutputWithoutVersion(es[1..]);
    }
  }

  /** A second version byte is read as an unknown tag. */
  lemma VersionIsNoTag(s: bytes)
    ensures Unframe([VERSION] + s).Err?
  {
    assert ([VERSION] + s)[0] == VERSION && VERSION as nat == 41;
  }

  /** A tag byte is never an accepted version, so a stream without version byte is rejected. */
  lemma FramesNeedVersion(ms: seq<Message>)
    requires Sendable(ms) && |ms| > 0
    ensures ReadAll(true, Frames(ms)) == None
  {
    FrameParts(ms[0], Frames(ms[1..]));
    TagByte(ms[0].tag);
  }

  /** Stream round trip, with its exact condition: the peer reads back exactly the messages
      a session sent, with nothing left over, if and only if exactly one of them was sent
      before the session's first read and every payload is within the limit. */
  lemma SessionRoundTripIff(es: seq<SessionEvent>)
    requires Sendable(Sent(es)) && Sent(es) != []
    ensures ReadAll(true, Output(es, true)) == Some(Sent(es)) <==> LeadingSends(es) == 1 && Readable(Sent(es))
    ensures LeadingSends(es) == 1 ==> Output(es, true) == [VERSION] + Frames(Sent(es))
  {
    var ms := Sent(es);
    if LeadingSends(es) == 0 {
      OutputAfterRead(es);
      FramesNeedVersion(ms);
    } else {
      SentTail(es);
      var m, rest := es[0].m, es[1..];
      assert ms[0] == m && ms[1..] == Sent(rest);
      if LeadingSends(es) == 1 {
        OutputAfterRead(rest);
        assert Output(es, true) == [VERSION] + Frames(ms);
        FramesRoundTripIff(ms);
        VersionThenFrames(ms);
      } else {
        SecondVersionRejected(es);
      }
    }
  }

  lemma VersionThenFrames(ms: seq<Message>)
    requires Sendable(ms) && |ms| > 0
    ensures ReadAll(true, [VERSION] + Frames(ms)) == ReadAll(false, Frames(ms))
  {
    var s := [VERSION] + Frames(ms);
    FrameParts(ms[0], Frames(ms[1..]));
    assert s[1..] == Frames(ms) && AcceptedVersion(s[0]);
  }

  lemma SecondVersionRejected(es: seq<SessionEvent>)
    requires Sendable(Sent(es)) && LeadingSends(es) >= 2
    ensures ReadAll(true, Output(es, true)) != Some(Sent(es))
  {
    SentTail(es);
    SentTail(es[1..]);
    var m, rest := es[0].m, es[1..];
    var tail := Output(rest, true);
    var after := Frame(rest[0].m) + Output(rest[1..], true);
    assert tail == [VERSION] + after;
    VersionIsNoTag(after);
    var s := Output(es, true);
    assert s == [VERSION] + (Frame(m) + tail);
    assert s[1..] == Frame(m) + tail && AcceptedVersion(s[0]);
    FrameParts(m, tail);
    FrameRoundTripIff(m, tail);
    if |m.payload| <= MAX_MESSAGE_SIZE {
      assert Read(true, s) == Ok((m, tail));
      assert ReadAll(false, tail) == None;
    } else if Read(true, s).Ok? {
      assert Sent(es)[0] == m;
    }
  }
}
