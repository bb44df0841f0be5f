/**
 What the channel adapter keeps over every run (cockpit/server/pn_chanadapter.py): threads and
 sessions stay matched one to one, and the events of the principal are put behind the worker in
 the order of the bus, each once.
 */
module ChannelDelivery {
  import opened Bytes
  import opened ChannelAdapter

  /* Threads and sessions */

  ghost predicate Matched(topics: map<Sid, Tid>, rev: map<Tid, Sid>) {
    (forall s :: s in topics ==> topics[s] in rev && rev[topics[s]] == s)
    && (forall t :: t in rev ==> rev[t] in topics && topics[rev[t]] == t)
  }

  ghost predicate Inverse(b: Binding) {
    Matched(b.topics, b.rev)
  }

  // Linking keeps the match exactly when both sides were free or already linked to each other.
  lemma LinkedExactly(b: Binding, sid: Sid, tid: Tid)
    requires Inverse(b)
    ensures Inverse(Linked(b, sid, tid)) <==> ((sid in b.topics && b.topics[sid] == tid) || (sid !in b.topics && tid !in b.rev))
  {
    var after := Linked(b, sid, tid);
    if sid in b.topics && b.topics[sid] != tid {
      assert b.topics[sid] in after.rev && after.rev[b.topics[sid]] == sid;
      assert after.topics[sid] == tid;
    } else if tid in b.rev && b.rev[tid] != sid {
      assert after.topics[b.rev[tid]] == tid;
      assert after.rev[tid] == sid;
    }
  }

  lemma ParkedKeeps(b: Binding, sid: Sid)
    requires Inverse(b) && sid in b.topics
    ensures Inverse(Parked(b, sid, b.topics[sid]))
  {
  }

  // A thread made for a session keeps the match exactly when the chat did not hand out the number
  // of a thread that is still in use.
  lemma TopicForExactly(b: Binding, c: Channel, sid: Sid, a: Answers)
    requires Inverse(b)
    ensures Inverse(TopicFor(b, c, sid, a)) <==>
      (sid in b.topics || !c.supportsTopics || a.ensured.None? || a.ensured.value !in b.rev)
  {
    hide Matched;
    if sid !in b.topics && c.supportsTopics && a.ensured.Some? {
      LinkedExactly(b, sid, a.ensured.value);
    }
  }

  // A session made for a thread keeps the match exactly when the store made a new one.
  lemma AdoptedExactly(b: Binding, sid: Sid, tid: Tid)
    requires Inverse(b) && tid !in b.rev
    ensures Inverse(Adopted(b, sid, tid)) <==> sid !in b.topics
  {
    LinkedExactly(b, sid, tid);
    assert sid in b.topics ==> b.topics[sid] != tid;
    hide Matched;
  }

  lemma SetTopicKeeps(b: Binding, chat: Chat, sid: Sid, close: bool, a: Answers)
    requires Inverse(b)
    ensures Inverse(SetTopic(b, chat, sid, close, a).binding)
  {
    hide Matched;
    if sid in b.topics {
      ParkedKeeps(b, sid);
    }
  }

  // Whether the chat and the store only hand out what is new.
  predicate NewThread(b: Binding, c: Channel, sid: Sid, a: Answers) {
    sid in b.topics || !c.supportsTopics || a.ensured.None? || a.ensured.value !in b.rev
  }

  predicate NewSession(b: Binding, m: Inbound) {
    m.session.None? || m.session.value !in b.topics
  }

  lemma HandleEventKeeps(b: Binding, c: Channel, chat: Chat, e: BusEvent, a: Answers)
    requires Inverse(b) && NewThread(b, c, e.sid, a)
    ensures Inverse(HandleEvent(b, c, chat, e, a).binding)
  {
    hide Matched, TopicFor, SetTopic;
    TopicForExactly(b, c, e.sid, a);
    SetTopicKeeps(b, chat, e.sid, true, a);
    SetTopicKeeps(b, chat, e.sid, false, a);
  }

  lemma HandleInboundKeeps(b: Binding, m: Inbound)
    requires Inverse(b) && NewSession(b, m)
    ensures Inverse(HandleInbound(b, m).binding)
  {
    hide Matched, Adopted;
    if m.thread !in b.rev && m.session.Some? {
      AdoptedExactly(b, m.session.value, m.thread);
    }
  }

  // What is written into the thread that carried a session's message is said to that session.
  lemma RepliesComeBack(b: Binding, c: Channel, chat: Chat, e: BusEvent, a: Answers, text: string, session: Option<Sid>, refusal: Option<string>)
    requires Inverse(b) && NewThread(b, c, e.sid, a) && b.chat == Some(chat)
    requires c.supportsTopics && Relayed(b, c, e) && !e.kind.Lifecycle? && (a.wanted || e.sid in b.topics)
    requires HandleEvent(b, c, chat, e, a).ok && text != ""
    ensures var o := HandleEvent(b, c, chat, e, a);
      |o.sent| == 1 && o.sent[0].thread.Some? && o.sent[0].text == TextOf(c, e)
      && (o.sent[0].thread.value != 0 ==>
        HandleInbound(o.binding, Inbound(chat, o.sent[0].thread.value, Text(text), session, refusal)).said
          == Some(Saying(e.sid, text)))
  {
    hide TextOf, Relayed;
    HandleEventKeeps(b, c, chat, e, a);
  }

  /* What is refused */

  predicate NeedsThread(b: Binding, c: Channel, e: BusEvent, a: Answers) {
    c.supportsTopics && a.wanted && e.sid !in b.topics
    && match e.kind
      case Lifecycle(event) => event.Provisioned? || event.Reprovisioned?
      case _ => Relayed(b, c, e)
  }

  // An event is refused exactly when it needs a thread that cannot be made; then nothing changes.
  lemma RefusedExactly(b: Binding, c: Channel, chat: Chat, e: BusEvent, a: Answers)
    ensures HandleEvent(b, c, chat, e, a).ok <==> !(NeedsThread(b, c, e, a) && a.ensured.None?)
    ensures !HandleEvent(b, c, chat, e, a).ok ==> HandleEvent(b, c, chat, e, a) == Outcome(b, false, [])
  {
    hide Relayed, SetTopic, TextOf;
  }

  lemma SetTopicStays(b: Binding, chat: Chat, sid: Sid, close: bool, a: Answers)
    ensures SetTopic(b, chat, sid, close, a).binding.busOff == b.busOff
    ensures SetTopic(b, chat, sid, close, a).binding.chat == b.chat
  {
  }

  lemma TopicForStays(b: Binding, c: Channel, sid: Sid, a: Answers)
    ensures TopicFor(b, c, sid, a).busOff == b.busOff && TopicFor(b, c, sid, a).chat == b.chat
  {
  }

  lemma NoOffsetInside(b: Binding, c: Channel, chat: Chat, e: BusEvent, a: Answers)
    ensures HandleEvent(b, c, chat, e, a).binding.busOff == b.busOff
    ensures HandleEvent(b, c, chat, e, a).binding.chat == b.chat
  {
    hide Relayed, TextOf, SetTopic, TopicFor;
    TopicForStays(b, c, e.sid, a);
    SetTopicStays(b, chat, e.sid, true, a);
    SetTopicStays(b, chat, e.sid, false, a);
  }

  /* The order of the bus */

  // Up to the next event of the principal there is no other.
  lemma {:induction false} NothingBefore(bus: seq<BusEvent>, off: nat, principal: string)
    requires off <= |bus|
    ensures Mine(bus[..NextIndex(bus, off, principal)], principal) == Mine(bus[..off], principal)
    decreases |bus| - off
  {
    if off < |bus| && bus[off].principal != principal {
      NothingBefore(bus, off + 1, principal);
      assert bus[..off + 1][..off] == bus[..off];
    }
  }

  lemma NextTaken(bus: seq<BusEvent>, off: nat, principal: string)
    requires off <= |bus| && NextIndex(bus, off, principal) < |bus|
    ensures var n := NextIndex(bus, off, principal);
      Mine(bus[..n + 1], principal) == Mine(bus[..off], principal) + [bus[n]]
  {
    var n := NextIndex(bus, off, principal);
    NothingBefore(bus, off, principal);
    assert bus[..n + 1][..n] == bus[..n];
  }

  // What a worker has put behind it since an earlier time.
  ghost predicate Follows(c: Channel, bus: seq<BusEvent>, w: Worker, bus': seq<BusEvent>, w': Worker) {
    w.binding.busOff <= w'.binding.busOff <= |bus'| && w.binding.busOff <= |bus|
    && w.handled <= w'.handled
    && Mine(bus'[..w'.binding.busOff], c.principal)
      == Mine(bus[..w.binding.busOff], c.principal) + w'.handled[|w.handled|..]
  }

  lemma DeliverFollows(w: Worker, c: Channel, bus: seq<BusEvent>, a: Answers)
    requires w.binding.busOff <= |bus|
    ensures Follows(c, bus, w, bus, Deliver(w, c, bus, a))
  {
    hide HandleEvent, Mine, NextIndex;
    if Pending(w, c, bus) {
      NextTaken(bus, w.binding.busOff, c.principal);
      NoOffsetInside(w.binding, c, w.binding.chat.value, bus[NextIndex(bus, w.binding.busOff, c.principal)], a);
    }
  }

  lemma FollowsChain(c: Channel, b0: seq<BusEvent>, w0: Worker, b1: seq<BusEvent>, w1: Worker, b2: seq<BusEvent>, w2: Worker)
    requires Follows(c, b0, w0, b1, w1) && Follows(c, b1, w1, b2, w2)
    ensures Follows(c, b0, w0, b2, w2)
  {
    hide Mine;
    assert w2.handled[|w0.handled|..] == w1.handled[|w0.handled|..] + w2.handled[|w1.handled|..];
  }

  /* Whole runs */

  datatype Step =
    | Publish(event: BusEvent)
    | Take(answers: Answers)
    | FromChat(message: Inbound)
    | Toggle(sid: Sid, close: bool, answers: Answers)
    | Chatty(verbose: bool)

  datatype World = World(worker: Worker, bus: seq<BusEvent>)

  function Next(c: Channel, v: World, s: Step): World {
    var w := v.worker;
    match s
    case Publish(e) => v.(bus := v.bus + [e])
    case Take(a) => v.(worker := Deliver(w, c, v.bus, a))
    case FromChat(m) =>
      var r := HandleInbound(w.binding, m);
      v.(worker := w.(binding := r.binding, sent := w.sent + r.sent))
    case Chatty(verbose) => v.(worker := w.(binding := w.binding.(verbose := verbose)))
    case Toggle(sid, close, a) =>
      if w.binding.chat.None? || !c.supportsTopics then v
      else
        var o := SetTopic(w.binding, w.binding.chat.value, sid, close, a);
        v.(worker := w.(binding := o.binding, sent := w.sent + o.sent))
  }

  function Run(c: Channel, v: World, steps: seq<Step>): World
    decreases |steps|
  {
    if steps == [] then v else Run(c, Next(c, v, steps[0]), steps[1..])
  }

  predicate NewIn(c: Channel, v: World, s: Step) {
    match s
    case Take(a) =>
      Pending(v.worker, c, v.bus) ==>
        NewThread(v.worker.binding, c, v.bus[NextIndex(v.bus, v.worker.binding.busOff, c.principal)].sid, a)
    case FromChat(m) => NewSession(v.worker.binding, m)
    case _ => true
  }

  // Nothing handed out in the run is in use at that time.
  predicate AllNew(c: Channel, v: World, steps: seq<Step>)
    decreases |steps|
  {
    steps == [] || (NewIn(c, v, steps[0]) && AllNew(c, Next(c, v, steps[0]), steps[1..]))
  }

  lemma NextKeepsMatch(c: Channel, v: World, s: Step)
    requires Inverse(v.worker.binding) && NewIn(c, v, s)
    ensures Inverse(Next(c, v, s).worker.binding)
  {
    hide HandleEvent, HandleInbound, SetTopic, Matched, NextIndex, NewThread;
    var b := v.worker.binding;
    match s
    case Take(a) =>
      if Pending(v.worker, c, v.bus) {
        HandleEventKeeps(b, c, b.chat.value, v.bus[NextIndex(v.bus, b.busOff, c.principal)], a);
      }
    case FromChat(m) => HandleInboundKeeps(b, m);
    case Toggle(sid, close, a) =>
      if b.chat.Some? {
        SetTopicKeeps(b, b.chat.value, sid, close, a);
      }
    case _ =>
  }

  // Over every run in which the chat and the store hand out only what is new, threads and
  // sessions stay each other's inverse.
  lemma {:induction false} RunKeepsMatch(c: Channel, v: World, steps: seq<Step>)
    requires Inverse(v.worker.binding) && AllNew(c, v, steps)
    ensures Inverse(Run(c, v, steps).worker.binding)
    decreases |steps|
  {
    hide Inverse, Next, NewIn;
    if steps != [] {
      NextKeepsMatch(c, v, steps[0]);
      RunKeepsMatch(c, Next(c, v, steps[0]), steps[1..]);
    }
  }

  lemma NextFollows(c: Channel, v: World, s: Step)
    requires v.worker.binding.busOff <= |v.bus|
    ensures Follows(c, v.bus, v.worker, Next(c, v, s).bus, Next(c, v, s).worker)
  {
    hide Mine, Deliver, Adopted;
    match s
    case Publish(e) => assert (v.bus + [e])[..v.worker.binding.busOff] == v.bus[..v.worker.binding.busOff];
    case Take(a) => DeliverFollows(v.worker, c, v.bus, a);
    case _ => OffsetStays(c, v, s);
  }

  lemma AdoptedStays(b: Binding, sid: Sid, tid: Tid)
    ensures Adopted(b, sid, tid).busOff == b.busOff
  {
  }

  lemma OffsetStays(c: Channel, v: World, s: Step)
    requires !s.Publish? && !s.Take?
    ensures var u := Next(c, v, s);
      u.bus == v.bus && u.worker.binding.busOff == v.worker.binding.busOff && u.worker.handled == v.worker.handled
  {
    hide SetTopic, Adopted;
    if s.FromChat? && s.message.session.Some? {
      AdoptedStays(v.worker.binding, s.message.session.value, s.message.thread);
    }
    if s.Toggle? && v.worker.binding.chat.Some? {
      SetTopicStays(v.worker.binding, v.worker.binding.chat.value, s.sid, s.close, s.answers);
    }
  }

  // Over every run, whatever else happens and however often an event is refused, the events put
  // behind the worker are exactly the principal's events between the two offsets, once and in order.
  lemma {:induction false} RunFollowsBus(c: Channel, v: World, steps: seq<Step>)
    requires v.worker.binding.busOff <= |v.bus|
    ensures Follows(c, v.bus, v.worker, Run(c, v, steps).bus, Run(c, v, steps).worker)
    decreases |steps|
  {
    hide Mine, Next;
    if steps == [] {
      assert v.worker.handled[|v.worker.handled|..] == [];
    } else {
      NextFollows(c, v, steps[0]);
      var u := Next(c, v, steps[0]);
      RunFollowsBus(c, u, steps[1..]);
      FollowsChain(c, v.bus, v.worker, u.bus, u.worker, Run(c, v, steps).bus, Run(c, v, steps).worker);
    }
  }

  /* One pass of the worker */

  function Takes(answers: seq<Answers>): seq<Step> {
    seq(|answers|, i requires 0 <= i < |answers| => Take(answers[i]))
  }

  // A pass takes events until the answers run out, no event is left, or one is refused.
  lemma {:induction false} PassStops(w: Worker, c: Channel, bus: seq<BusEvent>, answers: seq<Answers>) returns (n: nat)
    ensures n <= |answers|
    ensures World(DeliverAll(w, c, bus, answers), bus) == Run(c, World(w, bus), Takes(answers[..n]))
    ensures var after := DeliverAll(w, c, bus, answers);
      |after.handled| == |w.handled| + n
      && (n == |answers| || !Pending(after, c, bus) || !Attempt(after, c, bus, answers[n]).ok)
    decreases |answers|
  {
    hide HandleEvent, NextIndex;
    if answers == [] || !Pending(w, c, bus) {
      n := 0;
    } else if !Attempt(w, c, bus, answers[0]).ok {
      n := 0;
      RefusedExactly(w.binding, c, w.binding.chat.value, bus[NextIndex(bus, w.binding.busOff, c.principal)], answers[0]);
    } else {
      var m := PassStops(Deliver(w, c, bus, answers[0]), c, bus, answers[1..]);
      n := m + 1;
      assert Takes(answers[..n])[1..] == Takes(answers[1..][..m]);
      assert Takes(answers[..n])[0] == Take(answers[0]);
    }
  }
}
