/**
 The channel adapter (cockpit/server/pn_chanadapter.py): the events of a principal are relayed from
 the bus into a chat, one chat thread per session. What the transport, the session store and the
 naming of threads answer is an input.
 */
module ChannelAdapter {
  import opened Bytes

  type Sid = string

  type Tid = int

  type Chat = int

  datatype Channel = Channel(principal: string, name: string, supportsTopics: bool)

  datatype Binding = Binding(
    chat: Option<Chat>,
    topics: map<Sid, Tid>,
    rev: map<Tid, Sid>,
    names: map<Tid, string>,
    closed: map<Sid, bool>,
    parked: map<Sid, Tid>,
    pending: map<Tid, string>,
    verbose: bool,
    busOff: nat)

  datatype Life = Provisioned | Reprovisioned | Renamed | Evicted | Archived | Unarchived | OtherLife

  datatype Kind = Lifecycle(event: Life) | Edit | Plain

  datatype BusEvent = BusEvent(
    principal: string, sid: Sid, kind: Kind, origin: string, ambient: bool, role: string, text: string)

  // "ok", "schon", "weg" and "spaeter"
  datatype Fate = Done | Already | Gone | Later

  // What the world outside says while one event is handled.
  datatype Answers = Answers(
    wanted: bool, name: string, ensured: Option<Tid>, renamed: bool, deleted: Fate, closed: Fate, reopened: Fate)

  datatype Message = Message(chat: Chat, thread: Option<Tid>, text: string)

  datatype Outcome = Outcome(binding: Binding, ok: bool, sent: seq<Message>)

  const EVICTED := "\U{2014} Session beendet (evicted) \U{2014}"
  const RESTORED := "\U{21A9} Wiederhergestellt \U{2014} die Sitzung ist wieder aktiv."
  const SPOKEN := "\U{1F5E3} "

  function ThreadOf(b: Binding, sid: Sid): Option<Tid> {
    if sid in b.topics then Some(b.topics[sid]) else None
  }

  function Named(b: Binding, tid: Tid, name: string): Binding {
    b.(names := b.names[tid := name])
  }

  function Linked(b: Binding, sid: Sid, tid: Tid): Binding {
    b.(topics := b.topics[sid := tid], rev := b.rev[tid := sid])
  }

  function Parked(b: Binding, sid: Sid, tid: Tid): Binding {
    b.(parked := b.parked[sid := tid], topics := b.topics - {sid}, rev := b.rev - {tid})
  }

  function TopicFor(b: Binding, c: Channel, sid: Sid, a: Answers): Binding {
    if sid in b.topics then
      var tid := b.topics[sid];
      if c.supportsTopics && !(tid in b.names && b.names[tid] == a.name) && a.renamed then Named(b, tid, a.name) else b
    else if !c.supportsTopics || a.ensured.None? then b
    else Named(Linked(b, sid, a.ensured.value), a.ensured.value, a.name)
  }

  // How closing or reopening the thread came out.
  function FateOf(close: bool, a: Answers): Fate {
    if !close then a.reopened
    else match a.deleted
      case Later => a.closed
      case Done => Gone
      case other => other
  }

  lemma FateIs(close: bool, a: Answers)
    ensures FateOf(close, a) ==
      if !close then a.reopened else if a.deleted == Later then a.closed else if a.deleted == Done then Gone else a.deleted
  {
  }

  function SetTopic(b: Binding, chat: Chat, sid: Sid, close: bool, a: Answers): Outcome {
    if sid !in b.topics || b.topics[sid] == 0 then Outcome(b, false, [])
    else if !close && !(sid in b.closed && b.closed[sid]) then Outcome(b, false, [])
    else
      var tid := b.topics[sid];
      var sent := if !close && a.reopened.Done? then [Message(chat, Some(tid), RESTORED)] else [];
      match FateOf(close, a)
      case Later => Outcome(b, false, sent)
      case Gone => Outcome(Parked(b, sid, tid), true, sent)
      case _ => Outcome(b.(closed := b.closed[sid := close]), true, sent)
  }

  function HandleLifecycle(b: Binding, c: Channel, chat: Chat, e: BusEvent, a: Answers): Outcome
    requires e.kind.Lifecycle?
  {
    var live := c.supportsTopics && e.sid in b.topics && b.topics[e.sid] != 0;
    match e.kind.event
    case Provisioned | Reprovisioned =>
      var after := TopicFor(b, c, e.sid, a);
      Outcome(after, !(c.supportsTopics && e.sid !in after.topics), [])
    case Renamed => Outcome(if live && a.renamed then Named(b, b.topics[e.sid], a.name) else b, true, [])
    case Evicted => Outcome(b, true, if live then [Message(chat, Some(b.topics[e.sid]), EVICTED)] else [])
    case Archived | Unarchived =>
      if c.supportsTopics then SetTopic(b, chat, e.sid, e.kind.event.Archived?, a).(ok := true) else Outcome(b, true, [])
    case OtherLife => Outcome(b, true, [])
  }

  // Whether an event that is not about a session's life is relayed at all.
  predicate Relayed(b: Binding, c: Channel, e: BusEvent) {
    e.origin != c.name && !e.kind.Edit? && (e.ambient ==> b.verbose) && e.text != ""
  }

  function TextOf(c: Channel, e: BusEvent): string {
    (if c.supportsTopics then "" else "[" + (if |e.sid| > 8 then e.sid[..8] else e.sid) + "] ")
    + (if e.role == "user" then SPOKEN else "") + e.text
  }

  function HandleEvent(b: Binding, c: Channel, chat: Chat, e: BusEvent, a: Answers): Outcome {
    if c.supportsTopics && !a.wanted && e.sid !in b.topics then Outcome(b, true, [])
    else if e.kind.Lifecycle? then HandleLifecycle(b, c, chat, e, a)
    else if !Relayed(b, c, e) then Outcome(b, true, [])
    else
      var after := TopicFor(b, c, e.sid, a);
      if c.supportsTopics && e.sid !in after.topics then Outcome(after, false, [])
      else Outcome(after, true, [Message(chat, ThreadOf(after, e.sid), TextOf(c, e))])
  }

  /* The bus */

  // The next event of a principal at or after an offset; the end of the bus if there is none.
  function NextIndex(bus: seq<BusEvent>, off: nat, principal: string): (n: nat)
    ensures off <= |bus| ==> off <= n <= |bus|
    ensures n < |bus| ==> bus[n].principal == principal
    decreases |bus| - off
  {
    if off >= |bus| then |bus| else if bus[off].principal == principal then off else NextIndex(bus, off + 1, principal)
  }

  function Mine(bus: seq<BusEvent>, principal: string): seq<BusEvent> {
    if bus == [] then []
    else Mine(bus[..|bus| - 1], principal) + (if bus[|bus| - 1].principal == principal then [bus[|bus| - 1]] else [])
  }

  // A worker, with everything it has sent and every event it has put behind it.
  datatype Worker = Worker(binding: Binding, sent: seq<Message>, handled: seq<BusEvent>)

  predicate Pending(w: Worker, c: Channel, bus: seq<BusEvent>) {
    w.binding.chat.Some? && NextIndex(bus, w.binding.busOff, c.principal) < |bus|
  }

  // The answer to the next event.
  function Attempt(w: Worker, c: Channel, bus: seq<BusEvent>, a: Answers): Outcome
    requires Pending(w, c, bus)
  {
    HandleEvent(w.binding, c, w.binding.chat.value, bus[NextIndex(bus, w.binding.busOff, c.principal)], a)
  }

  // One round of the delivery loop.
  function Deliver(w: Worker, c: Channel, bus: seq<BusEvent>, a: Answers): Worker {
    if !Pending(w, c, bus) then w
    else
      var next := NextIndex(bus, w.binding.busOff, c.principal);
      var o := Attempt(w, c, bus, a);
      if o.ok then Worker(o.binding.(busOff := next + 1), w.sent + o.sent, w.handled + [bus[next]])
      else Worker(o.binding, w.sent + o.sent, w.handled)
  }

  // The delivery loop: it stops at the first event that is refused.
  function DeliverAll(w: Worker, c: Channel, bus: seq<BusEvent>, answers: seq<Answers>): Worker
    decreases |answers|
  {
    if answers == [] || !Pending(w, c, bus) then w
    else if !Attempt(w, c, bus, answers[0]).ok then Deliver(w, c, bus, answers[0])
    else DeliverAll(Deliver(w, c, bus, answers[0]), c, bus, answers[1..])
  }

  /* Messages from the chat */

  datatype What = Created(name: string) | Bind | Help | Text(text: string)

  // A message, the session that the store would create for it, and what the session answers when it
  // does not take the text.
  datatype Inbound = Inbound(chat: Chat, thread: Tid, what: What, session: Option<Sid>, refusal: Option<string>)

  datatype Saying = Saying(sid: Sid, text: string)

  datatype Received = Received(binding: Binding, said: Option<Saying>, sent: seq<Message>)

  const BOUND := "\U{2705} Gebunden. Deine Sessions erscheinen hier als Themen."
  const HELP := "Brainarbeit: jede Session = ein Thema. Schreib in ein Thema (auch ein neu erstelltes!), "
    + "um mit einer Session zu reden. /bind bindet diese Gruppe."
  const NO_SESSION := "\U{26A0}\U{FE0F} konnte keine Session anlegen"
  const NOT_TAKEN := "\U{26A0}\U{FE0F} konnte nicht zustellen: "

  function PendingName(b: Binding, tid: Tid): string {
    if tid in b.pending then b.pending[tid] else ""
  }

  function Adopted(b: Binding, sid: Sid, tid: Tid): Binding {
    var linked := Linked(b, sid, tid);
    (if PendingName(b, tid) != "" then Named(linked, tid, PendingName(b, tid)) else linked).(pending := b.pending - {tid})
  }

  function HandleInbound(b: Binding, m: Inbound): Received {
    if m.what.Bind? then Received(b.(chat := Some(m.chat)), None, [Message(m.chat, None, BOUND)])
    else if m.what.Help? then Received(b, None, [Message(m.chat, None, HELP)])
    else if b.chat != Some(m.chat) || m.thread == 0 then Received(b, None, [])
    else if m.what.Created? then Received(b.(pending := b.pending[m.thread := m.what.name]), None, [])
    else if m.thread !in b.rev && m.session.None? then Received(b, None, [Message(m.chat, Some(m.thread), NO_SESSION)])
    else
      var after := if m.thread in b.rev then b else Adopted(b, m.session.value, m.thread);
      if m.what.text == "" then Received(after, None, [])
      else
        Received(after, Some(Saying(after.rev[m.thread], m.what.text)),
                 if m.refusal.Some? then [Message(m.chat, Some(m.thread), NOT_TAKEN + m.refusal.value)] else [])
  }

  /* The worker itself */

  const PASS_LIMIT := 500

  class ChannelWorker {
    const channel: Channel
    var chat: Option<Chat>
    var topics: map<Sid, Tid>
    var rev: map<Tid, Sid>
    var names: map<Tid, string>
    var closed: map<Sid, bool>
    var parked: map<Sid, Tid>
    var pending: map<Tid, string>
    var verbose: bool
    var busOff: nat
    var sent: seq<Message>
    ghost var handled: seq<BusEvent>

    ghost function Held(): Binding
      reads this
    {
      Binding(chat, topics, rev, names, closed, parked, pending, verbose, busOff)
    }

    ghost function State(): Worker
      reads this
    {
      Worker(Held(), sent, handled)
    }

    constructor (c: Channel)
      ensures channel == c
      ensures State() == Worker(Binding(None, map[], map[], map[], map[], map[], map[], true, 0), [], [])
    {
      channel, chat, topics, rev, names, closed := c, None, map[], map[], map[], map[];
      parked, pending, verbose, busOff, sent, handled := map[], map[], true, 0, [], [];
    }

    method EnsureTopic(sid: Sid, a: Answers) returns (tid: Option<Tid>)
      modifies this
      ensures State() == Worker(TopicFor(old(Held()), channel, sid, a), old(sent), old(handled))
      ensures tid == ThreadOf(Held(), sid)
    {
      if sid in topics {
        var t := topics[sid];
        if channel.supportsTopics && !(t in names && names[t] == a.name) {
          if a.renamed {
            names := names[t := a.name];
          }
        }
        return Some(t);
      }
      if !channel.supportsTopics || a.ensured.None? {
        return None;
      }
      var t := a.ensured.value;
      topics := topics[sid := t];
      rev := rev[t := sid];
      names := names[t := a.name];
      return Some(t);
    }

    method CloseOrReopen(at: Chat, sid: Sid, close: bool, a: Answers) returns (ok: bool)
      modifies this
      ensures var o := SetTopic(old(Held()), at, sid, close, a);
        State() == Worker(o.binding, old(sent) + o.sent, old(handled)) && ok == o.ok
    {
      hide FateOf;
      FateIs(close, a);
      if sid !in topics || topics[sid] == 0 {
        return false;
      }
      var t := topics[sid];
      if !close && !(sid in closed && closed[sid]) {
        return false;
      }
      var fate;
      if close {
        fate := a.deleted;
        if fate == Later {
          fate := a.closed;
        } else if fate == Done {
          fate := Gone;
        }
      } else {
        fate := a.reopened;
        if fate == Done {
          sent := sent + [Message(at, Some(t), RESTORED)];
        }
      }
      if fate == Later {
        return false;
      }
      if fate == Gone {
        parked := parked[sid := t];
        topics := topics - {sid};
        rev := rev - {t};
        return true;
      }
      closed := closed[sid := close];
      return true;
    }

    method HandleLife(at: Chat, e: BusEvent, a: Answers) returns (ok: bool)
      requires e.kind.Lifecycle?
      modifies this
      ensures var o := HandleLifecycle(old(Held()), channel, at, e, a);
        State() == Worker(o.binding, old(sent) + o.sent, old(handled)) && ok == o.ok
    {
      hide TopicFor, SetTopic;
      match e.kind.event
      case Provisioned | Reprovisioned =>
        var tid := EnsureTopic(e.sid, a);
        return !(channel.supportsTopics && tid.None?);
      case Renamed =>
        if channel.supportsTopics && e.sid in topics && topics[e.sid] != 0 && a.renamed {
          names := names[topics[e.sid] := a.name];
        }
        return true;
      case Evicted =>
        if channel.supportsTopics && e.sid in topics && topics[e.sid] != 0 {
          sent := sent + [Message(at, Some(topics[e.sid]), EVICTED)];
        }
        return true;
      case Archived | Unarchived =>
        if channel.supportsTopics {
          var _ := CloseOrReopen(at, e.sid, e.kind.event.Archived?, a);
        }
        return true;
      case OtherLife =>
        return true;
    }

    method Handle(at: Chat, e: BusEvent, a: Answers) returns (ok: bool)
      modifies this
      ensures var o := HandleEvent(old(Held()), channel, at, e, a);
        State() == Worker(o.binding, old(sent) + o.sent, old(handled)) && ok == o.ok
    {
      hide TopicFor, HandleLifecycle, TextOf;
      if channel.supportsTopics && !a.wanted && e.sid !in topics {
        return true;
      }
      if e.kind.Lifecycle? {
        ok := HandleLife(at, e, a);
        return;
      }
      if e.origin == channel.name || e.kind.Edit? || (e.ambient && !verbose) || e.text == "" {
        return true;
      }
      var tid := EnsureTopic(e.sid, a);
      if channel.supportsTopics && tid.None? {
        return false;
      }
      sent := sent + [Message(at, tid, TextOf(channel, e))];
      return true;
    }

    // At most 500 events are taken in a pass; the offset is written behind each one handled.
    method DeliverPass(bus: seq<BusEvent>, answers: seq<Answers>)
      requires |answers| == PASS_LIMIT
      modifies this
      ensures State() == DeliverAll(old(State()), channel, bus, answers)
    {
      hide HandleEvent;
      if chat.None? {
        return;
      }
      var i := 0;
      while i < PASS_LIMIT
        invariant 0 <= i <= PASS_LIMIT
        invariant DeliverAll(State(), channel, bus, answers[i..]) == DeliverAll(old(State()), channel, bus, answers)
        decreases PASS_LIMIT - i
      {
        var next := NextIndex(bus, busOff, channel.principal);
        if next >= |bus| || chat.None? {
          break;
        }
        ghost var before := State();
        var ok := Handle(chat.value, bus[next], answers[i]);
        assert answers[i..][1..] == answers[i + 1..];
        i := i + 1;
        if !ok {
          return;
        }
        busOff := next + 1;
        handled := handled + [bus[next]];
        assert State() == Deliver(before, channel, bus, answers[i - 1]);
      }
    }

    // `_adopt_topic_as_session`, up to the write of the binding.
    method Adopt(sid: Sid, thread: Tid)
      modifies this
      ensures State() == Worker(Adopted(old(Held()), sid, thread), old(sent), old(handled))
    {
      topics := topics[sid := thread];
      rev := rev[thread := sid];
      if thread in pending && pending[thread] != "" {
        names := names[thread := pending[thread]];
      }
      pending := pending - {thread};
    }

    method Receive(m: Inbound) returns (said: Option<Saying>)
      modifies this
      ensures var r := HandleInbound(old(Held()), m);
        State() == Worker(r.binding, old(sent) + r.sent, old(handled)) && said == r.said
    {
      hide Adopted;
      match m.what
      case Bind =>
        chat := Some(m.chat);
        sent := sent + [Message(m.chat, None, BOUND)];
        return None;
      case Help =>
        sent := sent + [Message(m.chat, None, HELP)];
        return None;
      case Created(name) =>
        if chat == Some(m.chat) && m.thread != 0 {
          pending := pending[m.thread := name];
        }
        return None;
      case Text(text) =>
        if chat != Some(m.chat) || m.thread == 0 {
          return None;
        }
        if m.thread !in rev {
          if m.session.None? {
            sent := sent + [Message(m.chat, Some(m.thread), NO_SESSION)];
            return None;
          }
          AdoptedHas(Held(), m.session.value, m.thread);
          Adopt(m.session.value, m.thread);
        }
        if text == "" {
          return None;
        }
        if m.refusal.Some? {
          sent := sent + [Message(m.chat, Some(m.thread), NOT_TAKEN + m.refusal.value)];
        }
        return Some(Saying(rev[m.thread], text));
    }
  }

  lemma AdoptedHas(b: Binding, sid: Sid, tid: Tid)
    ensures tid in Adopted(b, sid, tid).rev
  {
  }
}
