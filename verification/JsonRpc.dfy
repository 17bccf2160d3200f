/** JSON-RPC requests and responses, and how a server answers one message. */
module JsonRpcMessages {
  import opened Wrappers

  datatype Id = NullId | Id(text: string)

  /** Values stand as their JSON texts. */
  datatype Request = Request(method_: string, params: Option<seq<string>>, id: Id)

  datatype Error = Error(code: int, message: string)

  datatype Response = Response(id: Id, result: Option<string>, error: Option<Error>)

  /** What parsing the content of a message yields: nothing, the value null, or a request. */
  datatype Content = Malformed | NullContent | Parsed(request: Request)

  datatype Message = Message(correlationId: nat, replyTo: nat, content: Content)

  datatype Reply = Reply(correlationId: nat, replyTo: nat, response: Response)

  /** How a call of the delegate ends: with a value or with undefined, or by throwing an error or undefined. */
  datatype Outcome = Returned(value: Option<string>) | Threw(message: string) | ThrewUndefined

  /** The responses a handler may have to send: its answer, or the failure of producing one. */
  datatype Handled = Answer(response: Response) | Failure

  function BuildResult(id: Id, result: Option<string>): Response {
    Response(id, result, None)
  }

  function BuildError(id: Id, code: int, message: string): Response {
    Response(id, None, Some(Error(code, message)))
  }

  /** A missing parameter list makes the call itself throw; an error handler that is handed undefined throws
      in its turn. */
  function HandleRequest(methods: set<string>, req: Request, outcome: Outcome): Handled {
    if req.method_ !in methods then Answer(BuildError(req.id, -32601, "Method not found"))
    else if req.params.None? then Answer(BuildError(req.id, 0, "undefined is not iterable"))
    else match outcome
      case Returned(value) => Answer(BuildResult(req.id, value))
      case Threw(message) => Answer(BuildError(req.id, 0, message))
      case ThrewUndefined => Failure
  }

  /** The one reply to a message; `serializable` says whether the answer can be turned into a text. */
  function DoHandle(methods: set<string>, content: Content, outcome: Outcome, serializable: bool): Response {
    match content
    case Malformed => BuildError(NullId, -32700, "Parse error")
    case NullContent => BuildError(NullId, -32603, "Internal error")
    case Parsed(req) =>
      match HandleRequest(methods, req, outcome)
      case Answer(response) => if serializable then response else BuildError(req.id, -32603, "Internal error")
      case Failure => BuildError(req.id, -32603, "Internal error")
  }

  /** The server calls a method of the delegate for this content. */
  predicate IsCallOf(methods: set<string>, content: Content) {
    content.Parsed? && content.request.method_ in methods && content.request.params.Some?
  }

  /** Every reply echoes the id of its request, or null where there is none, and never carries both a result and an
      error. It carries a result exactly if the method returned one that could be serialized; and, other than the
      specification has it, neither a result nor an error exactly if the method returned undefined. */
  lemma RepliesAreWellFormed(methods: set<string>, content: Content, outcome: Outcome, serializable: bool)
    ensures var resp := DoHandle(methods, content, outcome, serializable);
            && resp.id == (if content.Parsed? then content.request.id else NullId)
            && (resp.result.None? || resp.error.None?)
            && (resp.result.Some? <==>
                  IsCallOf(methods, content) && serializable && outcome == Returned(resp.result) && resp.result != None)
            && (resp.result.None? && resp.error.None? <==>
                  IsCallOf(methods, content) && serializable && outcome == Returned(None))
  {
  }

  /** Which error a reply carries, if it carries one. */
  lemma ErrorsTellTheirCause(methods: set<string>, content: Content, outcome: Outcome, serializable: bool)
    ensures var error := DoHandle(methods, content, outcome, serializable).error;
            && (error.Some? && error.value.code == -32700 <==> content.Malformed?)
            && (error.Some? && error.value.code == -32601 <==>
                  content.Parsed? && content.request.method_ !in methods && serializable)
            && (error.Some? && error.value.code == 0 <==>
                  && content.Parsed? && content.request.method_ in methods && serializable
                  && (content.request.params.None? || outcome.Threw?))
            && (error.Some? && error.value.code == -32603 <==>
                  || content.NullContent?
                  || (content.Parsed? && !serializable)
                  || (IsCallOf(methods, content) && outcome.ThrewUndefined?))
            && (error.Some? && error.value.code == -32700 ==> error.value.message == "Parse error")
            && (error.Some? && error.value.code == -32601 ==> error.value.message == "Method not found")
            && (error.Some? && error.value.code == -32603 ==> error.value.message == "Internal error")
            && (IsCallOf(methods, content) && serializable && outcome.Threw? ==> error == Some(Error(0, outcome.message)))
  {
  }

  /** A reply with neither a result nor an error. */
  lemma UndefinedIsAnswered()
    ensures DoHandle({"stop"}, Parsed(Request("stop", Some([]), Id("7"))), Returned(None), true) == Response(Id("7"), None, None)
  {
  }

  datatype CallResult = Resolves(value: Option<string>) | Rejects(error: Error)

  /** What the client proxy makes of a response. */
  function ClientResult(resp: Response): CallResult {
    if resp.error.Some? then Rejects(resp.error.value) else Resolves(resp.result)
  }

  /** Between the proxy and the delegate nothing is lost: a call resolves with a value, undefined among them, exactly if
      the method returned that value and it could be serialized. */
  lemma ResolvesExactlyWhen(methods: set<string>, content: Content, outcome: Outcome, serializable: bool, v: Option<string>)
    ensures ClientResult(DoHandle(methods, content, outcome, serializable)) == Resolves(v) <==>
              IsCallOf(methods, content) && serializable && outcome == Returned(v)
  {
    RepliesAreWellFormed(methods, content, outcome, serializable);
  }

  /** Nor is what it throws: a call of a method that threw an error rejects with the message of that error, unless the
      error could not be serialized. */
  lemma RejectsWithWhatWasThrown(methods: set<string>, content: Content, m: string, serializable: bool)
    requires IsCallOf(methods, content)
    ensures ClientResult(DoHandle(methods, content, Threw(m), serializable)) ==
            Rejects(if serializable then Error(0, m) else Error(-32603, "Internal error"))
  {
  }
}

/** The server's side of one queue. */
module JsonRpcServers {
  import opened JsonRpcMessages
  import opened Wrappers

  class JsonRpcServer {
    const methods: set<string>
    var acknowledged: seq<nat>
    var published: seq<Reply>

    constructor (methods: set<string>)
      ensures this.methods == methods && acknowledged == [] && published == []
    {
      this.methods := methods;
      acknowledged, published := [], [];
    }

    /** Publishes the response, unless it cannot be turned into a text: then the caller has to handle the error. */
    method SendReply(resp: Response, msg: Message, serializable: bool) returns (threw: bool)
      modifies this`published
      ensures threw == !serializable
      ensures published == if threw then old(published) else old(published) + [Reply(msg.correlationId, msg.replyTo, resp)]
    {
      if !serializable {
        return true;
      }
      published := published + [Reply(msg.correlationId, msg.replyTo, resp)];
      threw := false;
    }

    /** One reply and no more, whichever attempt it takes. */
    method HandleMessage(msg: Message, outcome: Outcome, serializable: bool)
      modifies this`published
      ensures published == old(published) +
                [Reply(msg.correlationId, msg.replyTo, DoHandle(methods, msg.content, outcome, serializable))]
    {
      if msg.content.Malformed? {
        var _ := SendReply(BuildError(NullId, -32700, "Parse error"), msg, true);
        return;
      }
      var threw := true;
      if msg.content.Parsed? {
        match HandleRequest(methods, msg.content.request, outcome)
        case Answer(resp) => threw := SendReply(resp, msg, serializable);
        case Failure =>
      }
      if threw {
        var id := if msg.content.Parsed? then msg.content.request.id else NullId;
        var _ := SendReply(BuildError(id, -32603, "Internal error"), msg, true);
      }
    }

    /** The consumer: a cancelled consumption brings no message; any other is acknowledged before work on it starts. */
    method OnMessage(msg: Option<Message>, outcome: Outcome, serializable: bool)
      modifies this
      ensures msg.None? ==> acknowledged == old(acknowledged) && published == old(published)
      ensures msg.Some? ==> acknowledged == old(acknowledged) + [msg.value.correlationId]
      ensures msg.Some? ==> var resp := DoHandle(methods, msg.value.content, outcome, serializable);
                            published == old(published) + [Reply(msg.value.correlationId, msg.value.replyTo, resp)]
    {
      if msg.None? {
        return;
      }
      acknowledged := acknowledged + [msg.value.correlationId];
      HandleMessage(msg.value, outcome, serializable);
    }
  }
}

/** A channel with the clients attached to it: one reply consumer for all of them, and a listener for every
    call under way that is removed as it fires. */
module RpcClientChannels {
  import opened JsonRpcMessages
  import opened Wrappers

  class RpcClientChannel {
    var hasEmitter: bool
    var consumers: nat
    var sent: seq<(nat, Request)>
    var listeners: set<nat>
    var resolved: seq<(nat, Response)>

    ghost function SentIds(): set<nat>
      reads this
    {
      set c <- sent :: c.0
    }

    ghost function ResolvedIds(): set<nat>
      reads this
    {
      set r <- resolved :: r.0
    }

    /** Every call that was sent either waits or has been resolved, and none is resolved twice. */
    ghost predicate Valid()
      reads this
    {
      && consumers == (if hasEmitter then 1 else 0)
      && (!hasEmitter ==> sent == [])
      && SentIds() == listeners + ResolvedIds() && listeners !! ResolvedIds()
      && (forall i, j :: 0 <= i < j < |resolved| ==> resolved[i].0 != resolved[j].0)
    }

    constructor ()
      ensures Valid() && sent == [] && listeners == {} && resolved == [] && !hasEmitter
    {
      hasEmitter, consumers, sent, listeners, resolved := false, 0, [], {}, [];
    }

    /** A client for the channel; however many there are, replies are consumed once. */
    method AttachClient()
      requires Valid()
      modifies this`hasEmitter, this`consumers
      ensures Valid() && hasEmitter && consumers == 1
    {
      if !hasEmitter {
        hasEmitter := true;
        consumers := consumers + 1;
      }
    }

    /** Sends the request and waits for its reply, under a correlation id not used before. The listener is there before
        any reply can arrive, as nothing runs between sending and listening. */
    method Call(correlationId: nat, req: Request)
      requires Valid() && hasEmitter && correlationId !in SentIds()
      modifies this`sent, this`listeners
      ensures Valid() && sent == old(sent) + [(correlationId, req)] && SentIds() == old(SentIds()) + {correlationId}
      ensures correlationId in listeners && listeners - {correlationId} == old(listeners)
    {
      sent := sent + [(correlationId, req)];
      assert sent[|sent| - 1] in sent;
      assert forall c <- old(sent) :: c in sent;
      listeners := listeners + {correlationId};
    }

    /** A reply resolves the call that waits for it and is dropped if there is none; either way no second
        reply under the same id can resolve anything. */
    method OnReply(correlationId: nat, resp: Response)
      requires Valid()
      modifies this`listeners, this`resolved
      ensures Valid() && correlationId !in listeners && old(listeners) - {correlationId} <= listeners <= old(listeners)
      ensures correlationId in old(listeners) ==> resolved == old(resolved) + [(correlationId, resp)]
      ensures correlationId !in old(listeners) ==> resolved == old(resolved)
    {
      if correlationId in listeners {
        listeners := listeners - {correlationId};
        resolved := resolved + [(correlationId, resp)];
        assert resolved[|resolved| - 1] in resolved;
        assert forall r <- old(resolved) :: r in resolved;
      }
    }
  }
}

/** The ids under which the elements of a sequence stand, counted. */
module CountedIds {
  function Remove<T>(s: seq<T>, i: nat): seq<T>
    requires i < |s|
  {
    s[..i] + s[i + 1..]
  }

  lemma RemovedWereThere<T>(s: seq<T>, i: nat)
    requires i < |s|
    ensures forall x <- Remove(s, i) :: x in s
  {
  }

  function Ids<T>(id: T -> nat, s: seq<T>): multiset<nat> {
    if s == [] then multiset{} else Ids(id, s[..|s| - 1]) + multiset{id(s[|s| - 1])}
  }

  lemma IdsOfAppended<T>(id: T -> nat, s: seq<T>, x: T)
    ensures Ids(id, s + [x]) == Ids(id, s) + multiset{id(x)}
  {
    assert (s + [x])[..|s|] == s;
  }

  lemma {:induction false} IdsOfRemoved<T>(id: T -> nat, s: seq<T>, i: nat)
    requires i < |s|
    ensures Ids(id, s) == Ids(id, Remove(s, i)) + multiset{id(s[i])}
  {
    var front := s[..|s| - 1];
    if i == |s| - 1 {
      assert Remove(s, i) == front;
    } else {
      IdsOfRemoved(id, front, i);
      assert Remove(s, i)[..|s| - 2] == Remove(front, i);
      assert front[i] == s[i];
    }
  }

  lemma IdIsCounted<T>(id: T -> nat, s: seq<T>, i: nat)
    requires i < |s|
    ensures id(s[i]) in Ids(id, s)
  {
    IdsOfRemoved(id, s, i);
  }

  lemma {:induction false} CountedIdHasOwner<T>(id: T -> nat, s: seq<T>, c: nat) returns (i: nat)
    requires c in Ids(id, s)
    ensures i < |s| && id(s[i]) == c
  {
    if id(s[|s| - 1]) == c {
      i := |s| - 1;
    } else {
      i := CountedIdHasOwner(id, s[..|s| - 1], c);
    }
  }

  lemma IdCountedTwice<T>(id: T -> nat, s: seq<T>, i: nat, j: nat)
    requires i < j < |s| && id(s[i]) == id(s[j])
    ensures Ids(id, s)[id(s[i])] >= 2
  {
    IdsOfRemoved(id, s, j);
    assert Remove(s, j)[i] == s[i];
    IdIsCounted(id, Remove(s, j), i);
  }
}

/** The whole system: any number of channels with calls under way, one queue, and a server that starts on a
    message before it is done with the ones before. */
module JsonRpcSystem {
  import opened CountedIds
  import opened JsonRpcMessages
  import opened Wrappers

  /** A reply, and how the handling that led to it ended. */
  datatype Answered = Answered(reply: Reply, outcome: Outcome, serializable: bool)

  /** A reply that has reached its channel; `heard` if a call was waiting for it there. */
  datatype Delivery = Delivery(answer: Answered, heard: bool)

  /** `sent` keeps every message ever sent, by correlation id, and `calls` those ids that clients used. */
  datatype State = State(
    sent: map<nat, Message>,
    calls: set<nat>,
    listeners: set<(nat, nat)>,
    queue: seq<Message>,
    handlers: seq<Message>,
    replies: seq<Answered>,
    delivered: seq<Delivery>)

  ghost predicate Init(s: State) {
    s == State(map[], {}, {}, [], [], [], [])
  }

  /** A client call: a request under a fresh correlation id, with a listener on the client's channel. */
  ghost predicate CallStep(s: State, s': State, m: Message) {
    && m.correlationId !in s.sent && m.content.Parsed?
    && s' == s.(sent := s.sent[m.correlationId := m], calls := s.calls + {m.correlationId},
                listeners := s.listeners + {(m.replyTo, m.correlationId)}, queue := s.queue + [m])
  }

  /** Anybody else may put anything into the queue. */
  ghost predicate ForeignStep(s: State, s': State, m: Message) {
    m.correlationId !in s.sent && s' == s.(sent := s.sent[m.correlationId := m], queue := s.queue + [m])
  }

  /** The server acknowledges the next message and starts working on it. */
  ghost predicate TakeStep(s: State, s': State) {
    s.queue != [] && s' == s.(queue := s.queue[1..], handlers := s.handlers + [s.queue[0]])
  }

  function AnswerTo(methods: set<string>, m: Message, outcome: Outcome, serializable: bool): Answered {
    Answered(Reply(m.correlationId, m.replyTo, DoHandle(methods, m.content, outcome, serializable)), outcome, serializable)
  }

  /** The call that some handler waits for ends, and the handler publishes its reply. */
  ghost predicate ReplyStep(methods: set<string>, s: State, s': State, i: nat, outcome: Outcome, serializable: bool) {
    && i < |s.handlers|
    && s' == s.(handlers := Remove(s.handlers, i),
                replies := s.replies + [AnswerTo(methods, s.handlers[i], outcome, serializable)])
  }

  /** Some reply reaches its channel, in any order. */
  ghost predicate DeliverStep(s: State, s': State, i: nat) {
    && i < |s.replies|
    && var r := s.replies[i].reply;
       var key := (r.replyTo, r.correlationId);
       s' == s.(replies := Remove(s.replies, i), listeners := s.listeners - {key},
                delivered := s.delivered + [Delivery(s.replies[i], key in s.listeners)])
  }

  /** The steps that need no new message. */
  ghost predicate InnerStep(methods: set<string>, s: State, s': State) {
    || TakeStep(s, s')
    || (exists i: nat, outcome, serializable :: ReplyStep(methods, s, s', i, outcome, serializable))
    || (exists i: nat :: DeliverStep(s, s', i))
  }

  ghost predicate Next(methods: set<string>, s: State, s': State) {
    || (exists m :: CallStep(s, s', m))
    || (exists m :: ForeignStep(s, s', m))
    || InnerStep(methods, s, s')
  }

  ghost predicate IsRun(methods: set<string>, run: seq<State>) {
    && run != [] && Init(run[0])
    && forall i, j :: 0 <= i < j < |run| && j == i + 1 ==> Next(methods, run[i], run[j])
  }

  // ----- Every message is in exactly one place

  function MessageId(m: Message): nat { m.correlationId }

  function ReplyId(a: Answered): nat { a.reply.correlationId }

  function DeliveryId(d: Delivery): nat { ReplyId(d.answer) }

  ghost function Tokens(s: State): multiset<nat> {
    Ids(MessageId, s.queue) + Ids(MessageId, s.handlers) + Ids(ReplyId, s.replies) + Ids(DeliveryId, s.delivered)
  }

  /** The messages sent are, one by one, queued, being handled, answered or delivered. */
  ghost predicate Accounted(s: State) {
    Tokens(s) == multiset(s.sent.Keys)
  }

  ghost predicate Known(s: State, m: Message) {
    m.correlationId in s.sent && s.sent[m.correlationId] == m
  }

  ghost predicate Genuine(methods: set<string>, s: State, a: Answered) {
    ReplyId(a) in s.sent && a == AnswerTo(methods, s.sent[ReplyId(a)], a.outcome, a.serializable)
  }

  /** All that is under way belongs to a message that was sent. */
  ghost predicate AllGenuine(methods: set<string>, s: State) {
    && (forall c <- s.sent :: s.sent[c].correlationId == c)
    && (forall m <- s.queue :: Known(s, m))
    && (forall m <- s.handlers :: Known(s, m))
    && (forall r <- s.replies :: Genuine(methods, s, r))
    && (forall d <- s.delivered :: Genuine(methods, s, d.answer))
  }

  /** A listener waits exactly for those calls whose reply has not been delivered, and replies are heard exactly
      by the calls. */
  ghost predicate Listening(s: State) {
    && (forall c <- s.calls :: c in s.sent && s.sent[c].content.Parsed?)
    && (forall l <- s.listeners :: l.1 in s.calls && s.sent[l.1].replyTo == l.0)
    && (forall c <- s.calls :: (s.sent[c].replyTo, c) in s.listeners <==> c !in Ids(DeliveryId, s.delivered))
    && (forall d <- s.delivered :: d.heard <==> DeliveryId(d) in s.calls)
  }

  ghost predicate Consistent(methods: set<string>, s: State) {
    Accounted(s) && AllGenuine(methods, s) && Listening(s)
  }

  lemma NewKey(sent: map<nat, Message>, m: Message)
    requires m.correlationId !in sent
    ensures multiset(sent[m.correlationId := m].Keys) == multiset(sent.Keys) + multiset{m.correlationId}
  {
    assert sent[m.correlationId := m].Keys == sent.Keys + {m.correlationId};
  }

  lemma SendingAccounts(s: State, s': State, m: Message)
    requires m.correlationId !in s.sent && s'.sent == s.sent[m.correlationId := m] && s'.queue == s.queue + [m]
    requires s'.handlers == s.handlers && s'.replies == s.replies && s'.delivered == s.delivered
    requires Accounted(s)
    ensures Accounted(s')
  {
    IdsOfAppended(MessageId, s.queue, m);
    NewKey(s.sent, m);
  }

  lemma TakingMoves(queue: seq<Message>, handlers: seq<Message>)
    requires queue != []
    ensures Ids(MessageId, queue[1..]) + Ids(MessageId, handlers + [queue[0]]) == Ids(MessageId, queue) + Ids(MessageId, handlers)
  {
    IdsOfRemoved(MessageId, queue, 0);
    assert Remove(queue, 0) == queue[1..];
    IdsOfAppended(MessageId, handlers, queue[0]);
  }

  lemma TakingAccounts(s: State, s': State)
    requires TakeStep(s, s') && Accounted(s)
    ensures Accounted(s')
  {
    TakingMoves(s.queue, s.handlers);
  }

  lemma ReplyingAccounts(methods: set<string>, s: State, s': State, i: nat, outcome: Outcome, serializable: bool)
    requires ReplyStep(methods, s, s', i, outcome, serializable) && Accounted(s)
    ensures Accounted(s')
  {
    IdsOfRemoved(MessageId, s.handlers, i);
    IdsOfAppended(ReplyId, s.replies, AnswerTo(methods, s.handlers[i], outcome, serializable));
  }

  lemma DeliveringAccounts(s: State, s': State, i: nat)
    requires DeliverStep(s, s', i) && Accounted(s)
    ensures Accounted(s')
  {
    IdsOfRemoved(ReplyId, s.replies, i);
    IdsOfAppended(DeliveryId, s.delivered, s'.delivered[|s.delivered|]);
  }

  lemma NextAccounts(methods: set<string>, s: State, s': State)
    requires Next(methods, s, s') && Accounted(s)
    ensures Accounted(s')
  {
    if m :| CallStep(s, s', m) {
      SendingAccounts(s, s', m);
    } else if m :| ForeignStep(s, s', m) {
      SendingAccounts(s, s', m);
    } else if TakeStep(s, s') {
      TakingAccounts(s, s');
    } else if i: nat, outcome, serializable :| ReplyStep(methods, s, s', i, outcome, serializable) {
      ReplyingAccounts(methods, s, s', i, outcome, serializable);
    } else {
      var i: nat :| DeliverStep(s, s', i);
      DeliveringAccounts(s, s', i);
    }
  }

  lemma SendingIsGenuine(methods: set<string>, s: State, s': State, m: Message)
    requires AllGenuine(methods, s) && (CallStep(s, s', m) || ForeignStep(s, s', m))
    ensures AllGenuine(methods, s')
  {
  }

  lemma TakingIsGenuine(methods: set<string>, s: State, s': State)
    requires AllGenuine(methods, s) && TakeStep(s, s')
    ensures AllGenuine(methods, s')
  {
    RemovedWereThere(s.queue, 0);
    assert Remove(s.queue, 0) == s.queue[1..];
    assert Known(s, s.queue[0]);
  }

  lemma ReplyingIsGenuine(methods: set<string>, s: State, s': State, i: nat, outcome: Outcome, serializable: bool)
    requires AllGenuine(methods, s) && ReplyStep(methods, s, s', i, outcome, serializable)
    ensures AllGenuine(methods, s')
  {
    RemovedWereThere(s.handlers, i);
    assert Known(s, s.handlers[i]);
  }

  lemma DeliveringIsGenuine(methods: set<string>, s: State, s': State, i: nat)
    requires AllGenuine(methods, s) && DeliverStep(s, s', i)
    ensures AllGenuine(methods, s')
  {
    RemovedWereThere(s.replies, i);
    assert Genuine(methods, s, s.replies[i]);
  }

  lemma NextIsGenuine(methods: set<string>, s: State, s': State)
    requires Next(methods, s, s') && AllGenuine(methods, s)
    ensures AllGenuine(methods, s')
  {
    if m :| CallStep(s, s', m) {
      SendingIsGenuine(methods, s, s', m);
    } else if m :| ForeignStep(s, s', m) {
      SendingIsGenuine(methods, s, s', m);
    } else if TakeStep(s, s') {
      TakingIsGenuine(methods, s, s');
    } else if i: nat, outcome, serializable :| ReplyStep(methods, s, s', i, outcome, serializable) {
      ReplyingIsGenuine(methods, s, s', i, outcome, serializable);
    } else {
      var i: nat :| DeliverStep(s, s', i);
      DeliveringIsGenuine(methods, s, s', i);
    }
  }

  lemma DeliveryIsHeard(methods: set<string>, s: State, s': State, i: nat)
    requires Consistent(methods, s) && DeliverStep(s, s', i)
    ensures Listening(s')
  {
    var r := s.replies[i];
    var d := s'.delivered[|s.delivered|];
    IdsOfAppended(DeliveryId, s.delivered, d);
    IdIsCounted(ReplyId, s.replies, i);
    assert Genuine(methods, s, r);
    assert Tokens(s)[ReplyId(r)] == 1;
  }

  lemma NewIdIsUndelivered(s: State, c: nat)
    requires Accounted(s) && c !in s.sent
    ensures c !in Ids(DeliveryId, s.delivered)
  {
    assert Tokens(s)[c] == 0;
  }

  lemma CallIsHeard(methods: set<string>, s: State, s': State, m: Message)
    requires Consistent(methods, s) && CallStep(s, s', m)
    ensures Listening(s')
  {
    NewIdIsUndelivered(s, m.correlationId);
  }

  lemma ForeignMessageIsUnheard(methods: set<string>, s: State, s': State, m: Message)
    requires Consistent(methods, s) && ForeignStep(s, s', m)
    ensures Listening(s')
  {
  }

  lemma NextIsConsistent(methods: set<string>, s: State, s': State)
    requires Consistent(methods, s) && Next(methods, s, s')
    ensures Consistent(methods, s')
  {
    NextAccounts(methods, s, s');
    NextIsGenuine(methods, s, s');
    NextIsHeard(methods, s, s');
  }

  lemma NextIsHeard(methods: set<string>, s: State, s': State)
    requires Consistent(methods, s) && Next(methods, s, s')
    ensures Listening(s')
  {
    if m :| CallStep(s, s', m) {
      CallIsHeard(methods, s, s', m);
    } else if m :| ForeignStep(s, s', m) {
      ForeignMessageIsUnheard(methods, s, s', m);
    } else if i: nat :| DeliverStep(s, s', i) {
      DeliveryIsHeard(methods, s, s', i);
    }
  }

  lemma {:induction false} RunsAreConsistent(methods: set<string>, run: seq<State>, i: nat)
    requires IsRun(methods, run) && i < |run|
    ensures Consistent(methods, run[i])
  {
    if i > 0 {
      RunsAreConsistent(methods, run, i - 1);
      NextIsConsistent(methods, run[i - 1], run[i]);
    }
  }

  // ----- What that means for the calls

  /** No correlation id is delivered twice, whatever happens in whatever order; so no call resolves twice. */
  lemma CallsResolveAtMostOnce(methods: set<string>, run: seq<State>, i: nat, j: nat, k: nat)
    requires IsRun(methods, run) && i < |run|
    requires j < k < |run[i].delivered|
    ensures DeliveryId(run[i].delivered[j]) != DeliveryId(run[i].delivered[k])
  {
    RunsAreConsistent(methods, run, i);
    assert Tokens(run[i])[DeliveryId(run[i].delivered[j])] <= 1;
    if DeliveryId(run[i].delivered[j]) == DeliveryId(run[i].delivered[k]) {
      IdCountedTwice(DeliveryId, run[i].delivered, j, k);
      assert false;
    }
  }

  /** A call resolves with an answer to its own request, under the request's id, and on the channel it was made on;
      replies to messages that were not calls resolve nothing. */
  lemma CallsResolveWithTheirOwnReply(methods: set<string>, run: seq<State>, i: nat, j: nat)
    requires IsRun(methods, run) && i < |run| && j < |run[i].delivered|
    ensures var d := run[i].delivered[j];
            && (d.heard <==> DeliveryId(d) in run[i].calls)
            && DeliveryId(d) in run[i].sent
            && var m := run[i].sent[DeliveryId(d)];
               && d.answer == AnswerTo(methods, m, d.answer.outcome, d.answer.serializable)
               && (d.heard ==> m.content.Parsed? && d.answer.reply.response.id == m.content.request.id)
  {
    RunsAreConsistent(methods, run, i);
    var d := run[i].delivered[j];
    assert Genuine(methods, run[i], d.answer);
    RepliesAreWellFormed(methods, run[i].sent[DeliveryId(d)].content, d.answer.outcome, d.answer.serializable);
  }

  /** From end to end: what a client's call resolves with is the value that the server's method returned for its own
      request, and it resolves at all exactly if there is such a value and it could be serialized. */
  lemma CallsResolveWithWhatWasReturned(methods: set<string>, run: seq<State>, i: nat, j: nat, v: Option<string>)
    requires IsRun(methods, run) && i < |run| && j < |run[i].delivered| && run[i].delivered[j].heard
    ensures var answer := run[i].delivered[j].answer;
            && ReplyId(answer) in run[i].calls && ReplyId(answer) in run[i].sent
            && (ClientResult(answer.reply.response) == Resolves(v) <==>
                  && IsCallOf(methods, run[i].sent[ReplyId(answer)].content)
                  && answer.serializable && answer.outcome == Returned(v))
  {
    CallsResolveWithTheirOwnReply(methods, run, i, j);
    var answer := run[i].delivered[j].answer;
    ResolvesExactlyWhen(methods, run[i].sent[ReplyId(answer)].content, answer.outcome, answer.serializable, v);
  }

  /** And what it rejects with, if the method threw an error, carries the message of that error. */
  lemma CallsRejectWithWhatWasThrown(methods: set<string>, run: seq<State>, i: nat, j: nat, m: string)
    requires IsRun(methods, run) && i < |run| && j < |run[i].delivered| && run[i].delivered[j].heard
    requires var answer := run[i].delivered[j].answer; answer.outcome == Threw(m) && answer.serializable
    ensures var answer := run[i].delivered[j].answer;
            && ReplyId(answer) in run[i].sent
            && (IsCallOf(methods, run[i].sent[ReplyId(answer)].content) ==>
                  ClientResult(answer.reply.response) == Rejects(Error(0, m)))
  {
    CallsResolveWithTheirOwnReply(methods, run, i, j);
    var answer := run[i].delivered[j].answer;
    if IsCallOf(methods, run[i].sent[ReplyId(answer)].content) {
      RejectsWithWhatWasThrown(methods, run[i].sent[ReplyId(answer)].content, m, true);
    }
  }

  /** Once nothing is under way any more, every message taken was answered once, and no call is left waiting. */
  lemma AtRestEveryCallIsResolved(methods: set<string>, run: seq<State>, i: nat, c: nat)
    requires IsRun(methods, run) && i < |run| && c in run[i].sent
    requires run[i].queue == [] && run[i].handlers == [] && run[i].replies == []
    ensures run[i].listeners == {}
    ensures exists j | 0 <= j < |run[i].delivered| ::
              DeliveryId(run[i].delivered[j]) == c && (run[i].delivered[j].heard <==> c in run[i].calls)
  {
    var s := run[i];
    RunsAreConsistent(methods, run, i);
    assert Tokens(s) == Ids(DeliveryId, s.delivered);
    assert c in Tokens(s);
    var j := CountedIdHasOwner(DeliveryId, s.delivered, c);
    assert forall a <- s.sent :: a in Tokens(s);
  }

  /** The steps left until rest if no more messages are sent. */
  function StepsLeft(s: State): nat {
    3 * |s.queue| + 2 * |s.handlers| + |s.replies|
  }

  ghost predicate IsInnerRun(methods: set<string>, run: seq<State>) {
    forall i, j :: 0 <= i < j < |run| && j == i + 1 ==> InnerStep(methods, run[i], run[j])
  }

  lemma InnerStepTakesOne(methods: set<string>, s: State, s': State)
    requires InnerStep(methods, s, s')
    ensures StepsLeft(s) == StepsLeft(s') + 1
  {
  }

  lemma {:induction false} InnerStepsRunOut(methods: set<string>, run: seq<State>, i: nat)
    requires IsInnerRun(methods, run) && i < |run|
    ensures StepsLeft(run[0]) == i + StepsLeft(run[i])
  {
    if i > 0 {
      InnerStepsRunOut(methods, run, i - 1);
      InnerStepTakesOne(methods, run[i - 1], run[i]);
    }
  }

  /** However the call that a handler waits for ends, the handler can publish the reply for that ending. */
  lemma EveryEndingIsAnswered(methods: set<string>, s: State, i: nat, outcome: Outcome, serializable: bool)
    requires i < |s.handlers|
    ensures exists s' :: ReplyStep(methods, s, s', i, outcome, serializable)
  {
    var s' := s.(handlers := Remove(s.handlers, i), replies := s.replies + [AnswerTo(methods, s.handlers[i], outcome, serializable)]);
    assert ReplyStep(methods, s, s', i, outcome, serializable);
  }

  /** Until then some step is always possible, if the calls that handlers wait for end. */
  lemma NeverStuck(methods: set<string>, s: State)
    requires StepsLeft(s) > 0
    ensures exists s' :: InnerStep(methods, s, s')
  {
    if s.queue != [] {
      var s' := s.(queue := s.queue[1..], handlers := s.handlers + [s.queue[0]]);
      assert InnerStep(methods, s, s');
    } else if s.handlers != [] {
      EveryEndingIsAnswered(methods, s, 0, Returned(None), true);
      var s' :| ReplyStep(methods, s, s', 0, Returned(None), true);
      assert InnerStep(methods, s, s');
    } else {
      var r := s.replies[0].reply;
      var key := (r.replyTo, r.correlationId);
      var s' := s.(replies := Remove(s.replies, 0), listeners := s.listeners - {key},
                   delivered := s.delivered + [Delivery(s.replies[0], key in s.listeners)]);
      assert DeliverStep(s, s', 0);
      assert InnerStep(methods, s, s');
    }
  }

  /** What was sent and what was delivered stays as it is. */
  lemma {:induction false} HistoryStands(methods: set<string>, run: seq<State>, i: nat, j: nat)
    requires IsRun(methods, run) && i <= j < |run|
    ensures run[i].calls <= run[j].calls && run[i].delivered <= run[j].delivered
    ensures forall c <- run[i].sent :: c in run[j].sent && run[j].sent[c] == run[i].sent[c]
    decreases j - i
  {
    if i < j {
      HistoryStands(methods, run, i, j - 1);
      assert Next(methods, run[j - 1], run[j]);
    }
  }
}
