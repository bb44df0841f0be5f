/**
 What the channel adapter does with one event and with one message from the chat, over the fields of
 events and bindings (cockpit/server/pn_chanadapter.py).
 */
module ChannelRules {
  import opened Bytes
  import opened ChannelAdapter

  // The thread of a session is known, or the chat can make one.
  predicate HasThread(b: Binding, c: Channel, sid: Sid, a: Answers) {
    sid in b.topics || (c.supportsTopics && a.ensured.Some?)
  }

  // A thread that had to be made is linked both ways and named; one that was there is renamed at most.
  ghost predicate Readied(b: Binding, c: Channel, sid: Sid, a: Answers, after: Binding) {
    if !c.supportsTopics then after == b
    else if sid in b.topics then
      after == b.(names := after.names)
      && (after.names == b.names || (a.renamed && after.names == b.names[b.topics[sid] := a.name]))
      && (a.renamed ==> b.topics[sid] in after.names && after.names[b.topics[sid]] == a.name)
    else
      match a.ensured
      case None => after == b
      case Some(tid) => after == b.(topics := b.topics[sid := tid], rev := b.rev[tid := sid], names := b.names[tid := a.name])
  }

  lemma TopicForIs(b: Binding, c: Channel, sid: Sid, a: Answers)
    ensures Readied(b, c, sid, a, TopicFor(b, c, sid, a))
    ensures c.supportsTopics ==> (sid in TopicFor(b, c, sid, a).topics <==> HasThread(b, c, sid, a))
  {
  }

  // The principal does not want the session in the chat, and it is not there yet.
  predicate Unwanted(b: Binding, c: Channel, e: BusEvent, a: Answers) {
    c.supportsTopics && !a.wanted && e.sid !in b.topics
  }

  // What was written elsewhere, is no edit, is not noise to a quiet binding, and says something.
  predicate Worth(b: Binding, c: Channel, e: BusEvent) {
    e.kind == Plain && e.origin != c.name && (!e.ambient || b.verbose) && e.text != ""
  }

  /**
   A plain event reaches the chat exactly if it is worth it and has a thread where the chat has threads.
   It is refused only for want of a thread. The text names the session where there are no threads.
   */
  lemma RelayExactly(b: Binding, c: Channel, chat: Chat, e: BusEvent, a: Answers)
    requires !e.kind.Lifecycle?
    ensures var o := HandleEvent(b, c, chat, e, a);
      var due := Worth(b, c, e) && !Unwanted(b, c, e, a);
      var thread := c.supportsTopics ==> HasThread(b, c, e.sid, a);
      (o.ok <==> !due || thread)
      && (!(due && thread) ==> o.sent == [] && o.binding == b)
      && (due && thread ==> Readied(b, c, e.sid, a, o.binding) && |o.sent| == 1 && Relays(b, c, chat, e, a, o.sent[0]))
  {
    TopicForIs(b, c, e.sid, a);
    hide Readied;
  }

  ghost predicate Relays(b: Binding, c: Channel, chat: Chat, e: BusEvent, a: Answers, m: Message) {
    m.chat == chat
    && m.thread == (if e.sid in b.topics then Some(b.topics[e.sid]) else if c.supportsTopics then a.ensured else None)
    && exists prefix, mark ::
      m.text == prefix + mark + e.text && mark == (if e.role == "user" then "\U{1F5E3} " else "")
      && if c.supportsTopics then prefix == ""
         else exists id :: prefix == "[" + id + "] " && id <= e.sid && (id == e.sid || |id| == 8) && |id| <= 8
  }

  /**
   What becomes of a thread. Nothing happens to a session without a thread, nor on reopening one that is
   not closed. A thread that was deleted, or is found to be gone, is parked; otherwise the session counts
   as closed or open; and if the chat could do neither now, nothing changes and it is tried again.
   */
  lemma ThreadFateExactly(b: Binding, chat: Chat, sid: Sid, close: bool, a: Answers)
    ensures var o := SetTopic(b, chat, sid, close, a);
      var due := sid in b.topics && b.topics[sid] != 0 && (close || (sid in b.closed && b.closed[sid]));
      var gone := if close then a.deleted in {Done, Gone} || (a.deleted == Later && a.closed == Gone) else a.reopened == Gone;
      var later := if close then a.deleted == Later && a.closed == Later else a.reopened == Later;
      (o.ok <==> due && !later)
      && (!o.ok ==> o.binding == b)
      && (o.ok && gone ==>
        o.binding == b.(parked := b.parked[sid := b.topics[sid]], topics := b.topics - {sid}, rev := b.rev - {b.topics[sid]}))
      && (o.ok && !gone ==> o.binding == b.(closed := b.closed[sid := close]))
      && o.sent == if due && !close && a.reopened == Done
        then [Message(chat, Some(b.topics[sid]), "\U{21A9} Wiederhergestellt \U{2014} die Sitzung ist wieder aktiv.")] else []
  {
  }

  /**
   The life of a session in the chat: it gets its thread when it begins, a message where it was evicted,
   a new name, and a thread closed or reopened. Only a missing thread is tried again.
   */
  lemma LifeExactly(b: Binding, c: Channel, chat: Chat, e: BusEvent, a: Answers)
    requires e.kind.Lifecycle?
    ensures var o, life := HandleEvent(b, c, chat, e, a), e.kind.event;
      var live := c.supportsTopics && e.sid in b.topics && b.topics[e.sid] != 0;
      var begins := life in {Provisioned, Reprovisioned};
      if Unwanted(b, c, e, a) then o.ok && o.binding == b && o.sent == []
      else
        (o.ok <==> (begins && c.supportsTopics ==> HasThread(b, c, e.sid, a)))
        && (begins ==> Readied(b, c, e.sid, a, o.binding) && o.sent == [])
        && (life == Renamed ==>
          o.sent == [] && o.binding == if live && a.renamed then b.(names := b.names[b.topics[e.sid] := a.name]) else b)
        && (life == Evicted ==>
          o.binding == b
          && o.sent == if live then [Message(chat, Some(b.topics[e.sid]), "\U{2014} Session beendet (evicted) \U{2014}")] else [])
        && (life in {Archived, Unarchived} && c.supportsTopics ==>
          var s := SetTopic(b, chat, e.sid, life == Archived, a);
          o.binding == s.binding && o.sent == s.sent)
        && (life == OtherLife || (life in {Archived, Unarchived} && !c.supportsTopics) ==> o.binding == b && o.sent == [])
  {
    TopicForIs(b, c, e.sid, a);
    hide Readied, SetTopic;
  }

  // A text in a thread of the bound chat.
  predicate Spoken(b: Binding, m: Inbound) {
    m.what.Text? && b.chat == Some(m.chat) && m.thread != 0
  }

  /**
   A text is said to the session of its thread, or to the one made for it then. What the session does
   not take is answered in that thread.
   */
  lemma SaidExactly(b: Binding, m: Inbound)
    ensures var r := HandleInbound(b, m);
      (r.said.Some? <==> Spoken(b, m) && m.what.text != "" && (m.thread in b.rev || m.session.Some?))
      && (r.said.Some? ==>
        r.said == Some(Saying(if m.thread in b.rev then b.rev[m.thread] else m.session.value, m.what.text))
        && if m.refusal.None? then r.sent == []
           else r.sent == [Message(m.chat, Some(m.thread), "\U{26A0}\U{FE0F} konnte nicht zustellen: " + m.refusal.value)])
  {
  }

  /**
   What a message changes: the bind command binds the chat, a thread made in it leaves its name until
   somebody writes there, and a text in a thread without a session links the one made for it.
   */
  lemma BindingExactly(b: Binding, m: Inbound)
    ensures var r := HandleInbound(b, m);
      var adopts := Spoken(b, m) && m.thread !in b.rev && m.session.Some?;
      if m.what == Bind then r.binding == b.(chat := Some(m.chat))
      else if m.what.Created? && b.chat == Some(m.chat) && m.thread != 0 then
        r.binding == b.(pending := b.pending[m.thread := m.what.name])
      else if !adopts then r.binding == b
      else
        r.binding == b.(
          topics := b.topics[m.session.value := m.thread], rev := b.rev[m.thread := m.session.value],
          pending := b.pending - {m.thread},
          names := if m.thread in b.pending && b.pending[m.thread] != "" then b.names[m.thread := b.pending[m.thread]] else b.names)
  {
  }
}
