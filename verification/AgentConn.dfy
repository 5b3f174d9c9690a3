/**
 * Request/response correlation of `AgentConn`: concurrent invokes allocate ids and wait
 * in the `pending` map, the reader dispatches incoming frames, and closing drains the map.
 * Each locked section is one action; a run is any interleaving of enabled actions.
 */
module AgentConn {
  import opened Basics

  /** A result (`None` is nil), an error sent by the agent, or the connection's own `Closed`. */
  datatype Reply = Result(value: Option<string>) | AgentError(code: int, message: string) | Closed

  datatype ErrorBody = ErrorBody(code: int, message: Option<string>)

  /** An incoming frame; `id` is present only when it is an unsigned integer. */
  datatype Frame = Frame(id: Option<nat>, name: Option<string>, error: Option<ErrorBody>, result: Option<string>)

  /** Where an invoke stands. */
  datatype Invoke =
    | Checking
    | Allocating
    | Inserting(id: nat)
    | Sending(id: nat)
    | Awaiting(id: nat)
    | Returned(reply: Reply)

  /** A reply put into an invoke's one-shot channel, under the request id it was found by. */
  datatype Delivery = Delivery(id: nat, reply: Reply)

  type Mail = map<nat, seq<Delivery>>

  /**
   * `pending` maps a request id to the invoke that waits for it. `ids`, `mail` and `frames`
   * record the id each invoke got, what was delivered to it, and every frame dispatched.
   */
  datatype Conn = Conn(
    nextId: nat,
    closed: bool,
    pending: map<nat, nat>,
    invokes: map<nat, Invoke>,
    ids: map<nat, nat>,
    mail: Mail,
    frames: seq<Frame>)

  datatype Action =
    | Call(k: nat)
    | CheckClosed(k: nat)
    | AllocateId(k: nat)
    | InsertPending(k: nat)
    | Send(k: nat, ok: bool)
    | Receive(k: nat)
    | Dispatch(frame: Frame)
    | MarkClosed
    | Drain

  function Connect(): Conn {
    Conn(1, false, map[], map[], map[], map[], [])
  }

  function ReplyOf(f: Frame): Reply {
    match f.error
    case Some(e) => AgentError(e.code, if e.message.Some? then e.message.value else "agent error")
    case None => Result(f.result)
  }

  /** The frame is taken as the response to a pending request. */
  predicate IsResponse(pending: map<nat, nat>, f: Frame) {
    f.name.None? && f.id.Some? && f.id.value in pending
  }

  function MailOf(mail: Mail, k: nat): seq<Delivery> {
    if k in mail then mail[k] else []
  }

  function Deliver(mail: Mail, k: nat, d: Delivery): Mail {
    mail[k := MailOf(mail, k) + [d]]
  }

  /** Invoke `k` still waits in `pending` under its own id. */
  predicate Waits(pending: map<nat, nat>, ids: map<nat, nat>, k: nat) {
    k in ids && ids[k] in pending && pending[ids[k]] == k
  }

  /** A drain sends `Closed` to exactly the invokes that wait. */
  function Drained(pending: map<nat, nat>, ids: map<nat, nat>, mail: Mail): Mail {
    map k | k in mail :: if Waits(pending, ids, k) then mail[k] + [Delivery(ids[k], Closed)] else mail[k]
  }

  predicate Enabled(s: Conn, a: Action) {
    match a
    case Call(k) => k !in s.invokes
    case CheckClosed(k) => k in s.invokes && s.invokes[k].Checking?
    case AllocateId(k) => k in s.invokes && s.invokes[k].Allocating?
    case InsertPending(k) => k in s.invokes && s.invokes[k].Inserting?
    case Send(k, _) => k in s.invokes && s.invokes[k].Sending?
    case Receive(k) => k in s.invokes && s.invokes[k].Awaiting? && MailOf(s.mail, k) != []
    case Dispatch(_) => true
    case MarkClosed => true
    case Drain => s.closed
  }

  function Next(s: Conn, a: Action): Conn
    requires Enabled(s, a)
  {
    match a
    case Call(k) => s.(invokes := s.invokes[k := Checking], mail := s.mail[k := []])
    case CheckClosed(k) => s.(invokes := s.invokes[k := if s.closed then Returned(Closed) else Allocating])
    case AllocateId(k) =>
      s.(nextId := s.nextId + 1, invokes := s.invokes[k := Inserting(s.nextId)], ids := s.ids[k := s.nextId])
    case InsertPending(k) =>
      var id := s.invokes[k].id;
      s.(pending := s.pending[id := k], invokes := s.invokes[k := Sending(id)])
    case Send(k, ok) => s.(invokes := s.invokes[k := if ok then Awaiting(s.invokes[k].id) else Returned(Closed)])
    case Receive(k) => s.(invokes := s.invokes[k := Returned(MailOf(s.mail, k)[0].reply)])
    case Dispatch(f) =>
      var s' := s.(frames := s.frames + [f]);
      if IsResponse(s.pending, f) then
        var id := f.id.value;
        s'.(pending := s.pending - {id}, mail := Deliver(s.mail, s.pending[id], Delivery(id, ReplyOf(f))))
      else s'
    case MarkClosed => s.(closed := true)
    case Drain => s.(pending := map[], mail := Drained(s.pending, s.ids, s.mail))
  }

  ghost predicate Steps(s: Conn, s': Conn) {
    exists a :: Enabled(s, a) && s' == Next(s, a)
  }

  ghost predicate Run(trace: seq<Conn>) {
    && trace != [] && trace[0] == Connect()
    && forall i :: 0 <= i < |trace| - 1 ==> Steps(trace[i], trace[i + 1])
  }

  // ----------------------------------------------------- the shared fields

  /** What the invokes, the reader and `close` share, each method one locked section. */
  class Shared {
    var nextId: nat
    var closed: bool
    var pending: map<nat, nat>
    var mail: Mail

    /** The fields hold what state `s` of the machine says. */
    predicate Holds(s: Conn)
      reads this
    {
      nextId == s.nextId && closed == s.closed && pending == s.pending && mail == s.mail
    }

    constructor ()
      ensures Holds(Connect())
    {
      nextId, closed, pending, mail := 1, false, map[], map[];
    }

    method Allocate(ghost s: Conn, k: nat) returns (id: nat)
      requires Holds(s) && Enabled(s, AllocateId(k))
      modifies this`nextId
      ensures Holds(Next(s, AllocateId(k))) && Next(s, AllocateId(k)).ids[k] == id
    {
      id := nextId;
      nextId := nextId + 1;
    }

    method Insert(ghost s: Conn, k: nat, id: nat)
      requires Holds(s) && Enabled(s, InsertPending(k)) && s.invokes[k] == Inserting(id)
      modifies this`pending
      ensures Holds(Next(s, InsertPending(k)))
    {
      pending := pending[id := k];
    }

    method DispatchFrame(ghost s: Conn, f: Frame) returns (consumed: bool)
      requires Holds(s)
      modifies this`pending, this`mail
      ensures Holds(Next(s, Dispatch(f)))
      ensures consumed <==> IsResponse(old(pending), f)
      ensures consumed ==>
                var k, id := old(pending)[f.id.value], f.id.value;
                && pending == old(pending) - {id} && k in mail
                && exists reply :: Answers(f, id, reply) && mail[k] == MailOf(old(mail), k) + [Delivery(id, reply)]
      ensures !consumed ==> pending == old(pending) && mail == old(mail)
    {
      consumed := false;
      if f.name.None? && f.id.Some? {
        var id := f.id.value;
        if id in pending {
          var k := pending[id];
          pending := pending - {id};
          mail := Deliver(mail, k, Delivery(id, ReplyOf(f)));
          consumed := true;
          assert Answers(f, id, ReplyOf(f));
        }
      }
    }

    method Close(ghost s: Conn)
      requires Holds(s) && Inv(s)
      modifies this`closed, this`pending, this`mail
      ensures Holds(Next(Next(s, MarkClosed), Drain))
    {
      closed := true;
      DrainPending(s.ids);
    }

    method DrainPending(ghost ids: map<nat, nat>)
      requires PendingOk(pending, ids) && pending.Values <= mail.Keys
      modifies this`pending, this`mail
      ensures pending == map[] && mail == Drained(old(pending), ids, old(mail))
    {
      while pending != map[]
        invariant PendingOk(pending, ids) && pending.Values <= mail.Keys
        invariant Drained(pending, ids, mail) == Drained(old(pending), ids, old(mail))
        decreases |pending|
      {
        var id :| id in pending;
        var k := pending[id];
        DrainOne(pending, ids, mail, id);
        pending := pending - {id};
        mail := Deliver(mail, k, Delivery(id, Closed));
      }
      assert Drained(map[], ids, mail) == mail;
    }
  }

  /** Draining everything is answering one waiter and draining the rest. */
  lemma DrainOne(pending: map<nat, nat>, ids: map<nat, nat>, mail: Mail, id: nat)
    requires PendingOk(pending, ids) && pending.Values <= mail.Keys && id in pending
    ensures var rest := pending - {id};
            var mail' := Deliver(mail, pending[id], Delivery(id, Closed));
            && PendingOk(rest, ids) && rest.Values <= mail'.Keys && |rest| < |pending|
            && Drained(rest, ids, mail') == Drained(pending, ids, mail)
  {
    var rest := pending - {id};
    var mail' := Deliver(mail, pending[id], Delivery(id, Closed));
    assert pending == rest[id := pending[id]];
    forall k | k in mail ensures Drained(rest, ids, mail')[k] == Drained(pending, ids, mail)[k] {
      assert Waits(pending, ids, k) <==> Waits(rest, ids, k) || k == pending[id];
    }
  }

  // ------------------------------------------------------------ invariant

  /**
   * Frame `f` answers request `id` with `reply`: it has that id and no method; it has an error
   * with the reply's code and message, "agent error" if it names none, or no error and the
   * reply's result.
   */
  predicate Answers(f: Frame, id: nat, reply: Reply) {
    && f.id == Some(id) && f.name == None
    && match reply
       case AgentError(code, message) =>
         && f.error.Some? && f.error.value.code == code
         && (f.error.value.message == Some(message) || (f.error.value.message == None && message == "agent error"))
       case Result(value) => f.error == None && f.result == value
       case Closed => false
  }

  /** A delivery is the connection's own `Closed`, or a response frame answers its id with it. */
  ghost predicate Carried(frames: seq<Frame>, d: Delivery) {
    d.reply == Closed || exists f :: f in frames && Answers(f, d.id, d.reply)
  }

  /** What holds of one invoke `v` with id `id`, one-shot channel `box`, waiting in `pending` or not. */
  ghost predicate InvokeOk(v: Invoke, id: Option<nat>, box: seq<Delivery>, waits: bool, frames: seq<Frame>) {
    && |box| <= 1
    && (box != [] ==> id == Some(box[0].id) && Carried(frames, box[0]))
    && (v.Checking? || v.Allocating? ==> id == None)
    && (v.Inserting? || v.Sending? || v.Awaiting? ==> id == Some(v.id))
    && (v.Inserting? ==> !waits && box == [])
    && (v.Sending? || v.Awaiting? ==> (waits <==> box == []))
    && (waits ==> box == [])
    && (v.Returned? && v.reply != Closed ==> box != [] && box[0].reply == v.reply)
  }

  function IdOf(s: Conn, k: nat): Option<nat> {
    if k in s.ids then Some(s.ids[k]) else None
  }

  ghost predicate InvokeInv(s: Conn, k: nat) {
    k in s.invokes ==>
      k in s.mail && InvokeOk(s.invokes[k], IdOf(s, k), s.mail[k], Waits(s.pending, s.ids, k), s.frames)
  }

  /** Ids already given out are below `bound` and pairwise different. */
  ghost predicate IdsOk(ids: map<nat, nat>, bound: nat, invokes: set<nat>) {
    && (forall k :: k in ids ==> k in invokes && ids[k] < bound)
    && (forall k, l :: k in ids && l in ids && ids[k] == ids[l] ==> k == l)
  }

  ghost predicate PendingOk(pending: map<nat, nat>, ids: map<nat, nat>) {
    forall id :: id in pending ==> pending[id] in ids && ids[pending[id]] == id
  }

  ghost predicate IdsInv(s: Conn) {
    && IdsOk(s.ids, s.nextId, s.invokes.Keys)
    && PendingOk(s.pending, s.ids)
    && s.mail.Keys == s.invokes.Keys
  }

  ghost predicate Inv(s: Conn) {
    IdsInv(s) && forall k :: InvokeInv(s, k)
  }

  lemma CarriedGrows(frames: seq<Frame>, f: Frame, d: Delivery)
    requires Carried(frames, d)
    ensures Carried(frames + [f], d)
  {
    if d.reply != Closed {
      var g :| g in frames && Answers(g, d.id, d.reply);
      assert g in frames + [f];
    }
  }

  lemma AllocateOk(ids: map<nat, nat>, bound: nat, invokes: set<nat>, k: nat)
    requires IdsOk(ids, bound, invokes) && k in invokes && k !in ids
    ensures IdsOk(ids[k := bound], bound + 1, invokes)
  {
  }

  lemma MoreInvokesOk(ids: map<nat, nat>, bound: nat, invokes: set<nat>, more: set<nat>)
    requires IdsOk(ids, bound, invokes) && invokes <= more
    ensures IdsOk(ids, bound, more)
  {
  }

  lemma KeysStep(s: Conn, a: Action)
    requires Enabled(s, a) && s.mail.Keys == s.invokes.Keys && s.pending.Values <= s.mail.Keys
    ensures s.invokes.Keys <= Next(s, a).invokes.Keys == Next(s, a).mail.Keys
    ensures !a.Call? ==> Next(s, a).invokes.Keys == s.invokes.Keys
  {
  }

  lemma PendingStep(s: Conn, a: Action)
    requires Enabled(s, a) && PendingOk(s.pending, s.ids)
    requires a.AllocateId? ==> a.k !in s.ids
    requires a.InsertPending? ==> IdOf(s, a.k) == Some(s.invokes[a.k].id)
    ensures PendingOk(Next(s, a).pending, Next(s, a).ids)
  {
  }

  lemma IdsStep(s: Conn, a: Action)
    requires IdsInv(s) && Enabled(s, a)
    requires a.AllocateId? ==> a.k !in s.ids
    requires a.InsertPending? ==> IdOf(s, a.k) == Some(s.invokes[a.k].id)
    ensures IdsInv(Next(s, a))
  {
    assert s.pending.Values <= s.mail.Keys;
    KeysStep(s, a);
    PendingStep(s, a);
    if a.AllocateId? {
      AllocateOk(s.ids, s.nextId, s.invokes.Keys, a.k);
    } else {
      MoreInvokesOk(s.ids, s.nextId, s.invokes.Keys, Next(s, a).invokes.Keys);
    }
  }

  lemma DispatchInv(s: Conn, f: Frame, k: nat)
    requires IdsInv(s) && InvokeInv(s, k)
    ensures InvokeInv(Next(s, Dispatch(f)), k)
  {
    var s' := Next(s, Dispatch(f));
    if k in s.invokes && s.mail[k] != [] {
      CarriedGrows(s.frames, f, s.mail[k][0]);
    } else if k in s.invokes && s'.mail[k] != [] {
      assert f in s'.frames && Carried(s'.frames, s'.mail[k][0]);
    }
  }

  /** Another invoke's own step leaves invoke `j` as it was. */
  lemma OtherInv(s: Conn, a: Action, j: nat)
    requires IdsInv(s) && Enabled(s, a) && InvokeInv(s, j)
    requires !a.Dispatch? && !a.Drain? && (!a.MarkClosed? ==> a.k != j)
    requires a.InsertPending? ==> IdOf(s, a.k) == Some(s.invokes[a.k].id)
    ensures InvokeInv(Next(s, a), j)
  {
  }

  lemma StepInv(s: Conn, a: Action)
    requires Inv(s) && Enabled(s, a)
    ensures Inv(Next(s, a))
  {
    if !a.Dispatch? && !a.Drain? && !a.MarkClosed? {
      assert InvokeInv(s, a.k);
    }
    IdsStep(s, a);
    forall k ensures InvokeInv(Next(s, a), k) {
      assert InvokeInv(s, k);
      if a.Dispatch? {
        DispatchInv(s, a.frame, k);
      } else if !a.Drain? && (a.MarkClosed? || a.k != k) {
        OtherInv(s, a, k);
      }
    }
  }

  lemma StepTaken(trace: seq<Conn>, n: nat) returns (a: Action)
    requires Run(trace) && n + 1 < |trace|
    ensures Enabled(trace[n], a) && trace[n + 1] == Next(trace[n], a)
  {
    assert Steps(trace[n], trace[n + 1]);
    a :| Enabled(trace[n], a) && trace[n + 1] == Next(trace[n], a);
  }

  lemma {:induction false} RunInv(trace: seq<Conn>, n: nat)
    requires Run(trace) && n < |trace|
    ensures Inv(trace[n])
  {
    if n > 0 {
      RunInv(trace, n - 1);
      var a := StepTaken(trace, n - 1);
      StepInv(trace[n - 1], a);
    }
  }

  lemma InvokeAt(trace: seq<Conn>, n: nat, k: nat)
    requires Run(trace) && n < |trace|
    ensures InvokeInv(trace[n], k)
  {
    RunInv(trace, n);
  }

  // ------------------------------------------------------------- theorems

  /** Two invokes never get the same request id. */
  lemma IdsAreUnique(trace: seq<Conn>, n: nat, k: nat, l: nat)
    requires Run(trace) && n < |trace| && k in trace[n].ids && l in trace[n].ids && k != l
    ensures trace[n].ids[k] != trace[n].ids[l]
  {
    RunInv(trace, n);
  }

  /**
   * At most one reply reaches an invoke; it was found under the invoke's own id, and it is
   * `Closed` or the content of a response frame with that id.
   */
  lemma DeliveredOnceToIssuer(trace: seq<Conn>, n: nat, k: nat)
    requires Run(trace) && n < |trace| && k in trace[n].invokes
    ensures |MailOf(trace[n].mail, k)| <= 1
    ensures forall d :: d in MailOf(trace[n].mail, k) ==>
              k in trace[n].ids && d.id == trace[n].ids[k] && Carried(trace[n].frames, d)
  {
    InvokeAt(trace, n, k);
  }

  /** An invoke returns `Closed` or exactly the reply carried by a response frame with its id. */
  lemma ReturnsOwnReply(trace: seq<Conn>, n: nat, k: nat)
    requires Run(trace) && n < |trace| && k in trace[n].invokes && trace[n].invokes[k].Returned?
    ensures var reply := trace[n].invokes[k].reply;
            reply == Closed || (k in trace[n].ids && Carried(trace[n].frames, Delivery(trace[n].ids[k], reply)))
  {
    InvokeAt(trace, n, k);
  }

  /**
   * A pending entry disappears only by a drain or by a frame that has its id and no method:
   * an agent-initiated request with the same id never consumes it.
   */
  lemma ConsumedOnlyByResponse(s: Conn, a: Action, id: nat)
    requires Enabled(s, a) && id in s.pending
    ensures id !in Next(s, a).pending <==> a == Drain || (a.Dispatch? && a.frame.name == None && a.frame.id == Some(id))
  {
    assert a == Drain ==> Next(s, a).pending == map[];
  }

  /** From `s` to `s'` invoke `k` keeps its id and what was delivered to it. */
  predicate Keeps(s: Conn, s': Conn, k: nat) {
    k in s.invokes ==>
      && k in s'.invokes && MailOf(s.mail, k) <= MailOf(s'.mail, k)
      && (k in s.ids ==> k in s'.ids && s'.ids[k] == s.ids[k])
  }

  lemma StepOfRunKeeps(trace: seq<Conn>, n: nat, k: nat)
    requires Run(trace) && n + 1 < |trace|
    ensures Keeps(trace[n], trace[n + 1], k)
  {
    InvokeAt(trace, n, k);
    var a := StepTaken(trace, n);
  }

  lemma {:induction false} KeepsChain(trace: seq<Conn>, m: nat, n: nat, k: nat)
    requires m <= n < |trace| && forall i, j :: m <= i < n && j == i + 1 ==> Keeps(trace[i], trace[j], k)
    ensures Keeps(trace[m], trace[n], k)
    decreases n
  {
    if m < n {
      KeepsChain(trace, m, n - 1, k);
    }
  }

  /** Ids and deliveries are never taken back. */
  lemma RecordsGrow(trace: seq<Conn>, m: nat, n: nat, k: nat)
    requires Run(trace) && m <= n < |trace|
    ensures Keeps(trace[m], trace[n], k)
  {
    forall i, j | m <= i < n && j == i + 1 ensures Keeps(trace[i], trace[j], k) {
      StepOfRunKeeps(trace, i, k);
    }
    KeepsChain(trace, m, n, k);
  }

  /** The invoke has registered its one-shot channel and not returned. */
  predicate Registered(s: Conn, k: nat) {
    k in s.invokes && (s.invokes[k].Sending? || s.invokes[k].Awaiting?)
  }

  /** A registered invoke has its reply or is still found by the next drain: no reply is dropped. */
  lemma NoReplyIsDropped(trace: seq<Conn>, n: nat, k: nat)
    requires Run(trace) && n < |trace| && Registered(trace[n], k)
    ensures MailOf(trace[n].mail, k) == [] <==> Waits(trace[n].pending, trace[n].ids, k)
  {
    InvokeAt(trace, n, k);
  }

  /** Every invoke registered when the map is drained has a reply from then on. */
  lemma DrainAnswersRegistered(trace: seq<Conn>, m: nat, n: nat, k: nat)
    requires Run(trace) && m < n < |trace| && Registered(trace[m], k)
    requires Enabled(trace[m], Drain) && trace[m + 1] == Next(trace[m], Drain)
    ensures MailOf(trace[n].mail, k) != []
  {
    InvokeAt(trace, m, k);
    RecordsGrow(trace, m + 1, n, k);
  }

  /** A step that neither dispatches a frame nor drains the map. */
  ghost predicate QuietStep(s: Conn, s': Conn) {
    exists a :: Enabled(s, a) && !a.Dispatch? && !a.Drain? && s' == Next(s, a)
  }

  predicate HasReturned(s: Conn, k: nat) {
    k in s.invokes && s.invokes[k].Returned?
  }

  lemma {:induction false} QuietRun(trace: seq<Conn>, m: nat, n: nat, k: nat)
    requires m <= n < |trace| && forall j :: m <= j < n ==> QuietStep(trace[j], trace[j + 1])
    ensures k in trace[m].invokes ==> k in trace[n].invokes && MailOf(trace[n].mail, k) == MailOf(trace[m].mail, k)
    ensures k !in trace[m].invokes && k in trace[n].invokes ==> MailOf(trace[n].mail, k) == []
    ensures HasReturned(trace[m], k) ==> HasReturned(trace[n], k)
    decreases n
  {
    if m < n {
      QuietRun(trace, m, n - 1, k);
      assert QuietStep(trace[n - 1], trace[n - 1 + 1]);
    }
  }

  /**
   * The exact condition: when the reader is gone and the map is not drained again after the
   * drain at `m`, a registered invoke has its reply iff it had registered before that drain.
   */
  lemma AnsweredIffRegisteredBefore(trace: seq<Conn>, m: nat, n: nat, k: nat)
    requires Run(trace) && m < n < |trace| && Registered(trace[n], k)
    requires Enabled(trace[m], Drain) && trace[m + 1] == Next(trace[m], Drain)
    requires forall j :: m < j < n ==> QuietStep(trace[j], trace[j + 1])
    ensures MailOf(trace[n].mail, k) != [] <==> Registered(trace[m], k)
  {
    QuietRun(trace, m + 1, n, k);
    if Registered(trace[m], k) {
      DrainAnswersRegistered(trace, m, n, k);
    } else if k in trace[m].invokes {
      InvokeAt(trace, m, k);
    }
  }

  /**
   * What the code does not promise: an invoke that passed the closed check before the close
   * can insert after the drain, and then waits with nobody left to answer it.
   */
  lemma InvokeCanMissTheDrain() returns (s: Conn)
    ensures var ready := Next(Next(Next(Connect(), Call(7)), CheckClosed(7)), AllocateId(7));
            s == Next(Next(Next(Next(ready, MarkClosed), Drain), InsertPending(7)), Send(7, true))
    ensures s.closed && s.pending == map[1 := 7] && s.invokes[7] == Awaiting(1) && MailOf(s.mail, 7) == []
  {
    var s1 := Next(Next(Connect(), Call(7)), CheckClosed(7));
    var s2 := Next(Next(Next(s1, AllocateId(7)), MarkClosed), Drain);
    s := Next(Next(s2, InsertPending(7)), Send(7, true));
  }
}
