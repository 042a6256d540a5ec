/** The receive / remember / acknowledge / reconnect protocol that `Run` drives, as a state
    machine of one client, one server and the network between them. The server delivers a
    pending id at most once per connection, only after processing that connection's login,
    and drops the ids named in logins and acknowledgements, whenever those reach it. */
module PushProtocol {
  import opened Options

  type Id = string

  /** Where the client's single goroutine is. */
  datatype Phase =
    | Idle                 // between connections, about to Connect or backing off
    | LoggingIn            // login sent, response not read
    | Listening            // about to read
    | HasHandled(id: Id)   // handleDataMessage returned id
    | Acknowledging(id: Id)  // id remembered, ack not yet sent

  /** The current connection: the login it carried, what the server did on it, and the
      messages in flight to the client. */
  datatype Link = Link(login: seq<Id>, up: bool, ready: bool, delivered: set<Id>, channel: seq<Id>)

  datatype State = State(
    enqueued: set<Id>,     // every id the server was ever given
    queue: set<Id>,        // ids the server still holds
    named: set<Id>,        // ids in logins and acks written on any connection so far
    link: Link,
    phase: Phase,
    remembered: seq<Id>,   // receivedPersistentIDs
    passed: set<Id>,       // ids that went through handleDataMessage
    handled: seq<Id>,      // handler calls
    undecryptable: set<Id>,
    acked: set<Id>)

  const DOWN := Link([], false, false, {}, [])
  const INIT := State({}, {}, {}, DOWN, Idle, [], {}, [], {}, {})

  datatype Event =
    | Enqueue(id: Id)                  // a push arrives at the server
    | Connect                          // dial, send login
    | ServerLogin                      // server processes the login of the current link
    | LoginAccepted                    // client reads the login response
    | ConnectFails
    | Deliver(id: Id)
    | ReceiveMessage(decrypts: bool)   // client reads a data message and handles it
    | Remember
    | AckSent
    | AckFails(reached: bool)          // the write failed; the frame may still have got through
    | Break                            // the network drops the link
    | ListenEnds                       // read error, cancellation, close or stream error
    | ServerDrops(id: Id)              // a login or ack of any connection takes effect

  function Elements(s: seq<Id>): set<Id> {
    set x | x in s
  }

  /** One step; None when the event cannot happen in this state. */
  function Step(s: State, e: Event): Option<State> {
    match e
    case Enqueue(id) =>
      if id == "" || id in s.enqueued then None
      else Some(s.(enqueued := s.enqueued + {id}, queue := s.queue + {id}))
    case Connect =>
      if !s.phase.Idle? then None
      else Some(s.(phase := LoggingIn, link := Link(s.remembered, true, false, {}, []),
                   named := s.named + Elements(s.remembered)))
    case ServerLogin =>
      if !s.link.up || s.link.ready then None
      else Some(s.(link := s.link.(ready := true), queue := s.queue - Elements(s.link.login)))
    case LoginAccepted =>
      if !s.phase.LoggingIn? || !s.link.ready then None else Some(s.(phase := Listening))
    case ConnectFails =>
      if !s.phase.LoggingIn? then None else Some(s.(phase := Idle, link := DOWN))
    case Deliver(id) =>
      if !s.link.up || !s.link.ready || id !in s.queue || id in s.link.delivered then None
      else Some(s.(link := s.link.(delivered := s.link.delivered + {id}, channel := s.link.channel + [id])))
    case ReceiveMessage(decrypts) =>
      if !s.phase.Listening? || s.link.channel == [] then None
      else
        var id := s.link.channel[0];
        Some(s.(link := s.link.(channel := s.link.channel[1..]),
                phase := HasHandled(id),
                passed := s.passed + {id},
                handled := if decrypts then s.handled + [id] else s.handled,
                undecryptable := if decrypts then s.undecryptable else s.undecryptable + {id}))
    case Remember =>
      if !s.phase.HasHandled? then None
      else Some(s.(phase := Acknowledging(s.phase.id), remembered := s.remembered + [s.phase.id]))
    case AckSent =>
      if !s.phase.Acknowledging? then None
      else Some(s.(phase := Listening, named := s.named + {s.phase.id}, acked := s.acked + {s.phase.id}))
    case AckFails(reached) =>
      if !s.phase.Acknowledging? then None
      else Some(s.(phase := Idle, link := DOWN,
                   named := if reached then s.named + {s.phase.id} else s.named))
    case Break => Some(s.(link := s.link.(up := false)))
    case ListenEnds =>
      if !s.phase.Listening? then None else Some(s.(phase := Idle, link := DOWN))
    case ServerDrops(id) =>
      if id !in s.named then None else Some(s.(queue := s.queue - {id}))
  }

  function Exec(s: State, es: seq<Event>): Option<State>
    decreases |es|
  {
    if |es| == 0 then Some(s)
    else
      match Step(s, es[0])
      case None => None
      case Some(t) => Exec(t, es[1..])
  }

  predicate Distinct(s: seq<Id>) {
    forall i, j :: 0 <= i < j < |s| ==> s[i] != s[j]
  }

  // ---------- the invariant ----------

  ghost predicate ClientInv(s: State) {
    && Elements(s.remembered) <= s.passed
    && s.passed <= Elements(s.remembered) + (if s.phase.HasHandled? then {s.phase.id} else {})
    && (s.phase.HasHandled? ==> s.phase.id in s.passed && s.phase.id !in s.remembered)
    && (s.phase.Acknowledging? ==> s.phase.id in s.remembered)
    && Distinct(s.remembered) && Distinct(s.handled)
    && Elements(s.handled) !! s.undecryptable
    && s.passed == Elements(s.handled) + s.undecryptable
    && s.acked <= s.named && s.named <= Elements(s.remembered)
  }

  ghost predicate ServerInv(s: State) {
    && s.queue <= s.enqueued
    && s.passed <= s.enqueued
    && s.enqueued <= s.queue + s.passed
    && "" !in s.enqueued
  }

  ghost predicate LinkInv(s: State) {
    var l := s.link;
    && (s.phase.Idle? ==> l == DOWN)
    && (!l.ready ==> l.delivered == {} && l.channel == [] && (s.phase.Idle? || s.phase.LoggingIn?))
    && (!l.ready && s.phase.LoggingIn? ==> s.passed <= Elements(l.login))
    && Elements(l.login) <= Elements(s.remembered)
    && Distinct(l.channel)
    && Elements(l.channel) <= l.delivered <= s.enqueued
    && Elements(l.channel) !! s.passed
    // whatever the server could still deliver here has not been through the client
    && (l.ready ==> s.queue * s.passed <= l.delivered)
  }

  ghost predicate Inv(s: State) {
    ClientInv(s) && ServerInv(s) && LinkInv(s)
  }

  lemma DistinctAppend(s: seq<Id>, x: Id)
    requires Distinct(s) && x !in s
    ensures Distinct(s + [x]) && Elements(s + [x]) == Elements(s) + {x}
  {
  }

  lemma DistinctTail(s: seq<Id>)
    requires |s| > 0 && Distinct(s)
    ensures Distinct(s[1..]) && Elements(s[1..]) == Elements(s) - {s[0]}
  {
    assert s == [s[0]] + s[1..];
  }

  lemma StepInv(s: State, e: Event)
    requires Inv(s) && Step(s, e).Some?
    ensures Inv(Step(s, e).value)
  {
    match e
    case ReceiveMessage(decrypts) =>
      var id := s.link.channel[0];
      DistinctTail(s.link.channel);
      assert id in Elements(s.link.channel) && id !in s.passed;
      assert id !in Elements(s.remembered) && id !in Elements(s.handled);
      DistinctAppend(s.handled, id);
    case Remember =>
      DistinctAppend(s.remembered, s.phase.id);
    case Deliver(id) =>
      assert id !in Elements(s.link.channel);
      DistinctAppend(s.link.channel, id);
    case Enqueue(_) =>
    case Connect =>
    case ServerLogin =>
    case LoginAccepted =>
    case ConnectFails =>
    case AckSent =>
    case AckFails(_) =>
    case Break =>
    case ListenEnds =>
    case ServerDrops(_) =>
  }

  lemma {:induction false} ExecInv(s: State, es: seq<Event>)
    requires Inv(s) && Exec(s, es).Some?
    ensures Inv(Exec(s, es).value)
    decreases |es|
  {
    if |es| > 0 {
      StepInv(s, es[0]);
      ExecInv(Step(s, es[0]).value, es[1..]);
    }
  }

  // ---------- what every run keeps ----------

  /** Safety of every interleaving: the handler runs at most once per id; no id leaves the
      server's queue before it went through `handleDataMessage`; acknowledged ids are
      remembered, and a reconnect names every remembered id. */
  lemma RunSafety(es: seq<Event>)
    requires Exec(INIT, es).Some?
    ensures var s := Exec(INIT, es).value;
      && Distinct(s.handled)
      && s.enqueued <= s.queue + s.passed
      && Elements(s.handled) <= s.passed <= s.enqueued
      && s.acked <= Elements(s.remembered)
      && (Step(s, Connect).Some? ==>
            && Step(s, Connect).value.link.login == s.remembered
            && s.passed <= Elements(s.remembered))
  {
    ExecInv(INIT, es);
  }

  /** Once the server's queue has drained, every id it was ever given was handled exactly
      once, except the undecryptable ones, which were never handled. */
  lemma ExactlyOnceWhenDrained(es: seq<Event>, id: Id)
    requires Exec(INIT, es).Some? && Exec(INIT, es).value.queue == {}
    requires id in Exec(INIT, es).value.enqueued
    ensures var s := Exec(INIT, es).value;
      multiset(s.handled)[id] == if id in s.undecryptable then 0 else 1
  {
    ExecInv(INIT, es);
    var s := Exec(INIT, es).value;
    DistinctCount(s.handled, id);
    assert id in Elements(s.handled) + s.undecryptable;
  }

  lemma {:induction false} DistinctCount(s: seq<Id>, x: Id)
    requires Distinct(s)
    ensures multiset(s)[x] == if x in s then 1 else 0
  {
    if |s| > 0 {
      DistinctTail(s);
      DistinctCount(s[1..], x);
      assert s == [s[0]] + s[1..];
      assert multiset(s) == multiset{s[0]} + multiset(s[1..]);
    }
  }

  // ---------- no reachable state is stuck ----------

  /** Steps by which the client gives up its current connection. */
  function Abandon(p: Phase): seq<Event> {
    match p
    case Idle => []
    case LoggingIn => [ConnectFails]
    case Listening => [ListenEnds]
    case HasHandled(_) => [Remember, AckFails(false)]
    case Acknowledging(_) => [AckFails(false)]
  }

  lemma AbandonWorks(s: State)
    requires Inv(s)
    ensures var t := Exec(s, Abandon(s.phase));
      t.Some? && t.value.phase.Idle? && t.value.passed == s.passed && t.value.queue == s.queue
  {
    var es := Abandon(s.phase);
    if s.phase.HasHandled? {
      var t := Step(s, Remember).value;
      assert es[1..] == [AckFails(false)];
      assert es[1..][1..] == [];
      assert Exec(t, [AckFails(false)]) == Exec(Step(t, AckFails(false)).value, []);
    } else if !s.phase.Idle? {
      assert es[1..] == [];
      assert Exec(Step(s, es[0]).value, []) == Step(s, es[0]);
    }
  }

  lemma {:induction false} ExecSplit(s: State, front: seq<Event>, back: seq<Event>)
    requires Exec(s, front).Some?
    ensures Exec(s, front + back) == Exec(Exec(s, front).value, back)
    decreases |front|
  {
    if |front| == 0 {
      assert front + back == back;
    } else {
      assert (front + back)[1..] == front[1..] + back;
      ExecSplit(Step(s, front[0]).value, front[1..], back);
    }
  }

  /** A fresh connection whose login is accepted. */
  const LOGGED_IN := [Connect, ServerLogin, LoginAccepted]

  lemma LoggedIn(s: State)
    requires s.phase.Idle?
    ensures var t := Exec(s, LOGGED_IN);
      && t.Some? && t.value.phase.Listening? && t.value.link == Link(s.remembered, true, true, {}, [])
      && t.value.remembered == s.remembered && t.value.handled == s.handled && t.value.acked == s.acked
      && t.value.enqueued == s.enqueued && t.value.queue == s.queue - Elements(s.remembered)
  {
    var es := LOGGED_IN;
    var s1 := Step(s, Connect).value;
    var s2 := Step(s1, ServerLogin).value;
    var s3 := Step(s2, LoginAccepted).value;
    assert es[1..][1..] == es[2..] && es[2..][1..] == [];
    assert Exec(s3, []) == Some(s3);
    assert Exec(s2, es[2..]) == Some(s3);
    assert Exec(s1, es[1..]) == Some(s3);
  }

  /** A fresh connection that delivers one pending id. */
  function Redeliver(id: Id): seq<Event> {
    LOGGED_IN + [Deliver(id), ReceiveMessage(true)]
  }

  lemma RedeliverWorks(s: State, id: Id)
    requires Inv(s) && s.phase.Idle? && id in s.queue && id !in s.passed
    ensures var t := Exec(s, Redeliver(id));
      t.Some? && id in t.value.passed
  {
    LoggedIn(s);
    assert id !in Elements(s.remembered);
    var s1 := Exec(s, LOGGED_IN).value;
    var es := [Deliver(id), ReceiveMessage(true)];
    var s2 := Step(s1, es[0]).value;
    var s3 := Step(s2, es[1]).value;
    assert s2.link.channel == [id] && id in s3.passed;
    assert es[1..] == [es[1]] && es[1..][1..] == [];
    assert Exec(s2, es[1..]) == Exec(s3, []);
    ExecSplit(s, LOGGED_IN, es);
  }

  /** From every reachable state every pending id can still reach the handler. */
  lemma NothingStuck(es: seq<Event>, id: Id)
    requires Exec(INIT, es).Some? && id in Exec(INIT, es).value.queue
    ensures exists more :: Exec(INIT, es + more).Some? && id in Exec(INIT, es + more).value.passed
  {
    var s := Exec(INIT, es).value;
    ExecInv(INIT, es);
    if id in s.passed {
      assert es + [] == es;
    } else {
      var front := Abandon(s.phase);
      AbandonWorks(s);
      ExecInv(s, front);
      RedeliverWorks(Exec(s, front).value, id);
      ExecSplit(s, front, Redeliver(id));
      ExecSplit(INIT, es, front + Redeliver(id));
    }
  }
}
