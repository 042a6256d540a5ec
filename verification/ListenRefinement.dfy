/** The client class performs steps of the push protocol: its receive loop, and whole
    sequences of logins and receive loops. */
module ListenRefinement {
  import opened Options
  import opened McsStream
  import C = McsClient
  import opened PushProtocol

  /** The id a message brings from the server, by its number on the wire. */
  function FlightOf(codec: C.Codec, m: Message): seq<Id> {
    if m.tag == 8 && codec.id(m.payload) != "" then [codec.id(m.payload)] else []
  }

  /** The ids in flight when these messages are what the server sent. */
  function InFlight(codec: C.Codec, ms: seq<Message>): seq<Id> {
    if |ms| == 0 then [] else InFlight(codec, ms[..|ms| - 1]) + FlightOf(codec, ms[|ms| - 1])
  }

  /** The client remembers exactly the ids in flight. */
  lemma {:induction false} RemembersInFlight(codec: C.Codec, ms: seq<Message>)
    ensures C.Ids(codec, ms) == InFlight(codec, ms)
  {
    if |ms| > 0 {
      RemembersInFlight(codec, ms[..|ms| - 1]);
      C.MessageEffects(codec, ms[|ms| - 1]);
    }
  }

  /** Protocol steps behind one received message whose reply was written. */
  function StepsFor(codec: C.Codec, m: Message): seq<Event> {
    if FlightOf(codec, m) == [] then []
    else [ReceiveMessage(codec.decrypt(m.payload).Some?), Remember, AckSent]
  }

  function Steps(codec: C.Codec, ms: seq<Message>): seq<Event> {
    if |ms| == 0 then [] else Steps(codec, ms[..|ms| - 1]) + StepsFor(codec, ms[|ms| - 1])
  }

  lemma OneMessage(codec: C.Codec, m: Message, s: State, more: seq<Id>)
    requires s.phase.Listening? && s.link.channel == FlightOf(codec, m) + more
    ensures var t := Exec(s, StepsFor(codec, m));
      && t.Some? && t.value.phase.Listening? && t.value.link.channel == more
      && t.value.remembered == s.remembered + C.IdOf(codec, m)
      && t.value.handled == s.handled + C.HandledIds(C.HandledOf(codec, m))
      && t.value.acked == s.acked + Elements(FlightOf(codec, m))
  {
    var es := StepsFor(codec, m);
    C.MessageEffects(codec, m);
    if FlightOf(codec, m) == [] {
      assert C.HandledOf(codec, m) == [] && C.HandledIds([]) == [];
      assert s.link.channel == more;
      assert s.remembered + [] == s.remembered && s.handled + [] == s.handled;
    } else {
      var id := codec.id(m.payload);
      assert s.link.channel[0] == id && s.link.channel[1..] == more;
      var s1 := Step(s, es[0]).value;
      var s2 := Step(s1, Remember).value;
      var s3 := Step(s2, AckSent).value;
      assert es[1..][1..] == es[2..] && es[2..][1..] == [];
      assert Exec(s3, []) == Some(s3);
      assert Exec(s2, es[2..]) == Some(s3);
      assert Exec(s1, es[1..]) == Some(s3);
      if codec.decrypt(m.payload).Some? {
        assert C.HandledIds(C.HandledOf(codec, m)) == [id];
      } else {
        assert C.HandledIds(C.HandledOf(codec, m)) == [];
      }
    }
  }

  /** When the messages read are those whose ids were in flight, the protocol can take the
      loop's steps and ends with the remembered ids and handler calls the loop's contract
      (`MCSClient.Listen`) states, and with every one of these ids acknowledged. */
  lemma {:induction false} ListenRefines(codec: C.Codec, ms: seq<Message>, s: State, more: seq<Id>)
    requires s.phase.Listening? && s.link.channel == InFlight(codec, ms) + more
    ensures var t := Exec(s, Steps(codec, ms));
      && t.Some? && t.value.phase.Listening? && t.value.link.channel == more
      && t.value.remembered == s.remembered + C.Ids(codec, ms)
      && t.value.handled == s.handled + C.HandledIds(C.Handled(codec, ms))
      && t.value.acked == s.acked + Elements(InFlight(codec, ms))
    decreases |ms|
  {
    if |ms| == 0 {
      assert s.remembered + [] == s.remembered && C.HandledIds([]) == [] && s.handled + [] == s.handled;
      assert s.link.channel == more;
    } else {
      var front, m := ms[..|ms| - 1], ms[|ms| - 1];
      assert s.link.channel == InFlight(codec, front) + (FlightOf(codec, m) + more);
      ListenRefines(codec, front, s, FlightOf(codec, m) + more);
      var mid := Exec(s, Steps(codec, front)).value;
      OneMessage(codec, m, mid, more);
      ExecSplit(s, Steps(codec, front), StepsFor(codec, m));
      C.HandledIdsSum(C.Handled(codec, front), C.HandledOf(codec, m));
      C.Associates(s.remembered, C.Ids(codec, front), C.IdOf(codec, m));
      C.Associates(s.handled, C.HandledIds(C.Handled(codec, front)), C.HandledIds(C.HandledOf(codec, m)));
      assert Elements(InFlight(codec, ms)) == Elements(InFlight(codec, front)) + Elements(FlightOf(codec, m));
    }
  }

  /** The loop's steps when the acknowledgement of the last message could not be written;
      the frame may still have got through. */
  function FailingSteps(codec: C.Codec, ms: seq<Message>, reached: bool): seq<Event>
    requires |ms| > 0
  {
    Steps(codec, ms[..|ms| - 1]) + [ReceiveMessage(codec.decrypt(ms[|ms| - 1].payload).Some?), Remember, AckFails(reached)]
  }

  /** A loop that ends in a failed acknowledgement: the last id is remembered, its handler
      call made, but it is not acknowledged, and the client is between connections. */
  lemma FailingRefines(codec: C.Codec, ms: seq<Message>, s: State, more: seq<Id>, reached: bool)
    requires |ms| > 0 && FlightOf(codec, ms[|ms| - 1]) != []
    requires s.phase.Listening? && s.link.channel == InFlight(codec, ms) + more
    ensures var t := Exec(s, FailingSteps(codec, ms, reached));
      && t.Some? && t.value.phase.Idle?
      && t.value.remembered == s.remembered + C.Ids(codec, ms)
      && t.value.handled == s.handled + C.HandledIds(C.Handled(codec, ms))
      && t.value.acked == s.acked + Elements(InFlight(codec, ms[..|ms| - 1]))
  {
    var front, m := ms[..|ms| - 1], ms[|ms| - 1];
    var last := [ReceiveMessage(codec.decrypt(m.payload).Some?), Remember, AckFails(reached)];
    assert s.link.channel == InFlight(codec, front) + (FlightOf(codec, m) + more);
    ListenRefines(codec, front, s, FlightOf(codec, m) + more);
    var mid := Exec(s, Steps(codec, front)).value;
    LastUnacked(codec, m, mid, more, reached);
    ExecSplit(s, Steps(codec, front), last);
    C.HandledIdsSum(C.Handled(codec, front), C.HandledOf(codec, m));
    C.Associates(s.remembered, C.Ids(codec, front), C.IdOf(codec, m));
    C.Associates(s.handled, C.HandledIds(C.Handled(codec, front)), C.HandledIds(C.HandledOf(codec, m)));
  }

  lemma LastUnacked(codec: C.Codec, m: Message, s: State, more: seq<Id>, reached: bool)
    requires FlightOf(codec, m) != [] && s.phase.Listening? && s.link.channel == FlightOf(codec, m) + more
    ensures var t := Exec(s, [ReceiveMessage(codec.decrypt(m.payload).Some?), Remember, AckFails(reached)]);
      && t.Some? && t.value.phase.Idle? && t.value.acked == s.acked
      && t.value.remembered == s.remembered + C.IdOf(codec, m)
      && t.value.handled == s.handled + C.HandledIds(C.HandledOf(codec, m))
  {
    var es := [ReceiveMessage(codec.decrypt(m.payload).Some?), Remember, AckFails(reached)];
    var id := codec.id(m.payload);
    C.MessageEffects(codec, m);
    assert s.link.channel[0] == id && s.link.channel[1..] == more;
    var s1 := Step(s, es[0]).value;
    var s2 := Step(s1, Remember).value;
    var s3 := Step(s2, AckFails(reached)).value;
    assert es[1..][1..] == es[2..] && es[2..][1..] == [];
    assert Exec(s3, []) == Some(s3);
    assert Exec(s2, es[2..]) == Some(s3);
    assert Exec(s1, es[1..]) == Some(s3);
    if codec.decrypt(m.payload).Some? {
      assert C.HandledIds(C.HandledOf(codec, m)) == [id];
    } else {
      assert C.HandledIds(C.HandledOf(codec, m)) == [];
      assert s.handled + [] == s.handled;
    }
  }

  // ---------- one connection ----------

  /** The server keeps to the login: it delivers no id twice on the connection and none that
      the login named. */
  ghost predicate Respected(codec: C.Codec, s: C.Session) {
    var ids := InFlight(codec, s.processed);
    Distinct(ids) && Elements(ids) !! Elements(s.login)
  }

  /** Ids whose acknowledgement was written: all, except that of a last message whose reply
      could not be. */
  function AckedOn(codec: C.Codec, s: C.Session): seq<Id> {
    if s.end.SendFailed? && |s.processed| > 0 then InFlight(codec, s.processed[..|s.processed| - 1])
    else InFlight(codec, s.processed)
  }

  function Delivery(known: set<Id>, id: Id): seq<Event> {
    if id in known then [Deliver(id)] else [Enqueue(id), Deliver(id)]
  }

  /** The server gets the ids it does not know yet and delivers all of them. */
  function Deliveries(known: set<Id>, ids: seq<Id>): seq<Event> {
    if |ids| == 0 then [] else Deliveries(known, ids[..|ids| - 1]) + Delivery(known, ids[|ids| - 1])
  }

  /** From s to t the server got ids where it did not know them, and delivered them. */
  predicate Delivered(s: State, ids: seq<Id>, t: State) {
    && t.phase == s.phase && t.remembered == s.remembered && t.handled == s.handled && t.acked == s.acked
    && t.link == s.link.(delivered := s.link.delivered + Elements(ids), channel := s.link.channel + ids)
    && t.queue == s.queue + Elements(ids) && t.enqueued == s.enqueued + Elements(ids)
  }

  lemma DeliverOne(s: State, id: Id)
    requires s.link.up && s.link.ready && id != "" && id !in s.link.delivered && (id in s.enqueued ==> id in s.queue)
    ensures var t := Exec(s, Delivery(s.enqueued, id));
      t.Some? && Delivered(s, [id], t.value)
  {
    var e := Deliver(id);
    assert [e][1..] == [] && Elements([id]) == {id};
    if id !in s.enqueued {
      var t := Step(s, Enqueue(id)).value;
      assert [Enqueue(id), e][1..] == [e];
      assert Exec(t, [e]) == Exec(Step(t, e).value, []);
    } else {
      assert Exec(s, [e]) == Exec(Step(s, e).value, []);
    }
  }

  lemma DeliveredMore(s: State, ids: seq<Id>, t: State, id: Id, u: State)
    requires Delivered(s, ids, t) && Delivered(t, [id], u)
    ensures Delivered(s, ids + [id], u)
  {
    assert Elements(ids + [id]) == Elements(ids) + Elements([id]);
    assert s.link.channel + ids + [id] == s.link.channel + (ids + [id]);
  }

  lemma {:induction false} DeliverAll(s: State, ids: seq<Id>)
    requires s.link.up && s.link.ready && s.link.delivered == {}
    requires Distinct(ids) && "" !in ids && s.enqueued * Elements(ids) <= s.queue
    ensures var t := Exec(s, Deliveries(s.enqueued, ids));
      t.Some? && Delivered(s, ids, t.value)
    decreases |ids|
  {
    if |ids| == 0 {
      assert s.link.channel + [] == s.link.channel;
    } else {
      var front, id := ids[..|ids| - 1], ids[|ids| - 1];
      assert ids == front + [id] && id in Elements(ids) && id !in Elements(front);
      assert Elements(front) <= Elements(ids);
      DeliverAll(s, front);
      var t := Exec(s, Deliveries(s.enqueued, front)).value;
      assert Delivery(t.enqueued, id) == Delivery(s.enqueued, id);
      DeliverOne(t, id);
      ExecSplit(s, Deliveries(s.enqueued, front), Delivery(s.enqueued, id));
      DeliveredMore(s, front, t, id, Exec(t, Delivery(s.enqueued, id)).value);
    }
  }

  function LoopSteps(codec: C.Codec, s: C.Session, reached: bool): seq<Event> {
    var ms := s.processed;
    if s.end.SendFailed? && |ms| > 0 && FlightOf(codec, ms[|ms| - 1]) != [] then FailingSteps(codec, ms, reached)
    else Steps(codec, ms) + [ListenEnds]
  }

  lemma LoopRefines(codec: C.Codec, s: C.Session, st: State, reached: bool)
    requires st.phase.Listening? && st.link.channel == InFlight(codec, s.processed)
    ensures var t := Exec(st, LoopSteps(codec, s, reached));
      && t.Some? && t.value.phase.Idle?
      && t.value.remembered == st.remembered + C.Ids(codec, s.processed)
      && t.value.handled == st.handled + C.HandledIds(C.Handled(codec, s.processed))
      && t.value.acked == st.acked + Elements(AckedOn(codec, s))
  {
    var ms := s.processed;
    assert st.link.channel == InFlight(codec, ms) + [];
    if s.end.SendFailed? && |ms| > 0 && FlightOf(codec, ms[|ms| - 1]) != [] {
      FailingRefines(codec, ms, st, [], reached);
    } else {
      ListenRefines(codec, ms, st, []);
      var t := Exec(st, Steps(codec, ms)).value;
      ExecSplit(st, Steps(codec, ms), [ListenEnds]);
      assert [ListenEnds][1..] == [];
      assert Exec(t, [ListenEnds]) == Exec(Step(t, ListenEnds).value, []);
      assert AckedOn(codec, s) == InFlight(codec, ms);
    }
  }

  lemma {:induction false} IdsNotEmpty(codec: C.Codec, ms: seq<Message>)
    ensures "" !in InFlight(codec, ms)
  {
    if |ms| > 0 {
      IdsNotEmpty(codec, ms[..|ms| - 1]);
    }
  }

  function SessionSteps(codec: C.Codec, s: C.Session, known: set<Id>, reached: bool): seq<Event> {
    if s.accepted then LOGGED_IN + (Deliveries(known, InFlight(codec, s.processed)) + LoopSteps(codec, s, reached))
    else [Connect, ConnectFails]
  }

  /** Login and receive loop on one connection, from any reachable protocol state between
      connections whose remembered ids the login names: if the server respects that login,
      they are protocol steps with the same effect, however the loop ends. */
  lemma SessionRefines(codec: C.Codec, s: C.Session, st: State, reached: bool)
    requires Inv(st) && st.phase.Idle? && st.remembered == s.login
    requires Respected(codec, s) && Plain(s)
    ensures var t := Exec(st, SessionSteps(codec, s, st.enqueued, reached));
      && t.Some? && t.value.phase.Idle?
      && t.value.remembered == st.remembered + C.Ids(codec, s.processed)
      && t.value.handled == st.handled + C.HandledIds(C.Handled(codec, s.processed))
      && t.value.acked == st.acked + Elements(AckedOn(codec, s))
  {
    var ids := InFlight(codec, s.processed);
    if s.accepted {
      LoggedIn(st);
      var s1 := Exec(st, LOGGED_IN).value;
      IdsNotEmpty(codec, s.processed);
      assert st.enqueued * Elements(ids) <= s1.queue;
      DeliverAll(s1, ids);
      var s2 := Exec(s1, Deliveries(st.enqueued, ids)).value;
      LoopRefines(codec, s, s2, reached);
      ExecSplit(s1, Deliveries(st.enqueued, ids), LoopSteps(codec, s, reached));
      ExecSplit(st, LOGGED_IN, Deliveries(st.enqueued, ids) + LoopSteps(codec, s, reached));
    } else {
      LoginRefused(st);
      assert C.HandledIds([]) == [] && st.remembered + [] == st.remembered && st.handled + [] == st.handled;
    }
  }

  lemma LoginRefused(s: State)
    requires s.phase.Idle?
    ensures var t := Exec(s, [Connect, ConnectFails]);
      && t.Some? && t.value.phase.Idle?
      && t.value.remembered == s.remembered && t.value.handled == s.handled && t.value.acked == s.acked
  {
    var s1 := Step(s, Connect).value;
    var es := [Connect, ConnectFails];
    assert es[1..] == [ConnectFails] && es[1..][1..] == [];
    assert Exec(s1, es[1..]) == Exec(Step(s1, ConnectFails).value, []);
  }

  // ---------- whole runs of the client ----------

  function AckedIn(codec: C.Codec, ss: seq<C.Session>): seq<Id> {
    if |ss| == 0 then [] else AckedIn(codec, ss[..|ss| - 1]) + AckedOn(codec, ss[|ss| - 1])
  }

  /** A run of the protocol from its initial state that ends with the client's remembered
      ids, handler calls and acknowledgements. */
  ghost predicate Explains(codec: C.Codec, ss: seq<C.Session>, es: seq<Event>) {
    var t := Exec(INIT, es);
    && t.Some? && t.value.phase.Idle?
    && t.value.remembered == C.SessionIds(codec, ss)
    && t.value.handled == C.HandledIds(C.SessionCalls(codec, ss))
    && t.value.acked == Elements(AckedIn(codec, ss))
  }

  /** A refused login is followed by no messages. */
  predicate Plain(s: C.Session) {
    !s.accepted ==> s.processed == []
  }

  ghost predicate AllPlain(ss: seq<C.Session>) {
    forall i :: 0 <= i < |ss| ==> Plain(ss[i])
  }

  ghost predicate AllRespected(codec: C.Codec, ss: seq<C.Session>) {
    forall i :: 0 <= i < |ss| ==> Respected(codec, ss[i])
  }

  lemma SessionSums(codec: C.Codec, front: seq<C.Session>, s: C.Session)
    ensures C.SessionIds(codec, front + [s]) == C.SessionIds(codec, front) + C.Ids(codec, s.processed)
    ensures C.HandledIds(C.SessionCalls(codec, front + [s]))
            == C.HandledIds(C.SessionCalls(codec, front)) + C.HandledIds(C.Handled(codec, s.processed))
    ensures Elements(AckedIn(codec, front + [s])) == Elements(AckedIn(codec, front)) + Elements(AckedOn(codec, s))
  {
    assert (front + [s])[..|front|] == front;
    C.HandledIdsSum(C.SessionCalls(codec, front), C.Handled(codec, s.processed));
    assert AckedIn(codec, front + [s]) == AckedIn(codec, front) + AckedOn(codec, s);
  }

  lemma OneSessionMore(codec: C.Codec, front: seq<C.Session>, s: C.Session, es: seq<Event>)
    requires Explains(codec, front, es) && s.login == C.SessionIds(codec, front)
    requires Respected(codec, s) && Plain(s)
    ensures exists more :: Explains(codec, front + [s], more)
  {
    var st := Exec(INIT, es).value;
    ExecInv(INIT, es);
    SessionRefines(codec, s, st, true);
    var last := SessionSteps(codec, s, st.enqueued, true);
    ExecSplit(INIT, es, last);
    SessionSums(codec, front, s);
    assert Explains(codec, front + [s], es + last);
  }

  lemma FrontSessions(codec: C.Codec, ss: seq<C.Session>)
    requires |ss| > 0
    ensures AllRespected(codec, ss) <==> AllRespected(codec, ss[..|ss| - 1]) && Respected(codec, ss[|ss| - 1])
    ensures AllPlain(ss) ==> AllPlain(ss[..|ss| - 1]) && Plain(ss[|ss| - 1])
  {
    var front := ss[..|ss| - 1];
    assert forall i :: 0 <= i < |front| ==> ss[i] == front[i];
  }

  lemma {:induction false} SessionsRefine(codec: C.Codec, ss: seq<C.Session>)
    requires C.LoginsNameAll(codec, [], ss) && AllPlain(ss) && AllRespected(codec, ss)
    ensures exists es :: Explains(codec, ss, es)
  {
    if |ss| == 0 {
      assert C.HandledIds([]) == [] && Elements([]) == {};
      assert Explains(codec, ss, []);
    } else {
      var front, s := ss[..|ss| - 1], ss[|ss| - 1];
      FrontSessions(codec, ss);
      SessionsRefine(codec, front);
      var es :| Explains(codec, front, es);
      assert s.login == [] + C.SessionIds(codec, front) && ss == front + [s];
      OneSessionMore(codec, front, s, es);
    }
  }

  /** Every run of the client (`MCSClient.Run` gives its hypothesis) against a server that
      respects its logins is a protocol run: same ids, handler calls, acknowledgements. */
  lemma RunRefines(codec: C.Codec, dials: seq<Option<C.Peer>>, ss: seq<C.Session>, m: C.Memory)
    requires C.Ran(codec, dials, C.Memory([], []), ss, m) && AllRespected(codec, ss)
    ensures exists es :: Explains(codec, ss, es)
    ensures m.ids == C.SessionIds(codec, ss) && m.calls == C.SessionCalls(codec, ss)
  {
    forall i | 0 <= i < |ss| ensures Plain(ss[i]) {
      assert C.Lawful(codec, ss[i]);
    }
    SessionsRefine(codec, ss);
    assert [] + C.SessionIds(codec, ss) == C.SessionIds(codec, ss);
    assert [] + C.SessionCalls(codec, ss) == C.SessionCalls(codec, ss);
  }

  /** So protocol safety holds of the client: its handler runs at most once per id over all
      connections, and only remembered ids are acknowledged. */
  lemma RunIsSafe(codec: C.Codec, dials: seq<Option<C.Peer>>, ss: seq<C.Session>, m: C.Memory)
    requires C.Ran(codec, dials, C.Memory([], []), ss, m) && AllRespected(codec, ss)
    ensures Distinct(C.HandledIds(m.calls))
    ensures Elements(AckedIn(codec, ss)) <= Elements(m.ids)
  {
    RunRefines(codec, dials, ss, m);
    var es :| Explains(codec, ss, es);
    RunSafety(es);
  }

  /** The client keeps its side: it remembers some id twice exactly when the server did not
      respect a login. */
  lemma {:induction false} DistinctIffRespected(codec: C.Codec, ss: seq<C.Session>)
    requires C.LoginsNameAll(codec, [], ss)
    ensures Distinct(C.SessionIds(codec, ss)) <==> AllRespected(codec, ss)
  {
    if |ss| > 0 {
      var front := ss[..|ss| - 1];
      FrontSessions(codec, ss);
      DistinctIffRespected(codec, front);
      assert ss[|ss| - 1].login == [] + C.SessionIds(codec, front);
      RemembersInFlight(codec, ss[|ss| - 1].processed);
      DistinctSum(C.SessionIds(codec, front), InFlight(codec, ss[|ss| - 1].processed));
    }
  }

  lemma DistinctSum(a: seq<Id>, b: seq<Id>)
    ensures Distinct(a + b) <==> Distinct(a) && Distinct(b) && Elements(a) !! Elements(b)
  {
    var s := a + b;
    assert forall i :: 0 <= i < |a| ==> s[i] == a[i];
    assert forall i :: 0 <= i < |b| ==> s[|a| + i] == b[i];
    assert forall i, j :: 0 <= i < |a| && 0 <= j < |b| && a[i] == b[j] ==> s[i] == s[|a| + j];
    if !Distinct(s) {
      var i, j :| 0 <= i < j < |s| && s[i] == s[j];
      assert i < |a| <= j ==> a[i] in Elements(a) && b[j - |a|] in Elements(b);
    }
  }
}
