/**
 * The run of `publish_posts` (usecases.py) as a trace of observable steps:
 * each pending row selected at the start is offered to the bot once; a
 * delivered post is marked published, stamped with the current time and
 * followed by a random pause of 2 to 10 seconds; a failed send leaves the row
 * pending and the run goes straight on. The wall clock advances only by the
 * pauses, so the time at a step is the start time plus the pauses before it.
 */
module Publishing {
  import opened Optional
  import opened Posts

  /** Bounds of `randint(2, 10)`, the pause after each delivered post, in seconds. */
  const MinPause := 2
  const MaxPause := 10

  /** What the bot is asked to send: the chat, and the post whose caption and store button it carries. */
  datatype Message = Message(chatId: int, post: Post)

  /** One observable step of a run: a send attempt and whether the bot accepted it, or a pause. */
  datatype Event = Send(message: Message, delivered: bool) | Pause(seconds: nat)

  /** A run ends after the last selected row, or stops at a row whose Post cannot be built. */
  datatype RunEnd = Finished | Crashed(id: int)

  /** The ids the SELECT returns: every pending row. */
  function PendingIds(rows: map<int, Row>): (ids: set<int>)
    ensures ids <= rows.Keys
    ensures forall id :: id in rows ==> (id in ids <==> rows[id].status == PendingPublish)
  {
    set id | id in rows && rows[id].status == PendingPublish
  }

  /** The row after a successful UPDATE: published, stamped, every other column as before. */
  function MarkPublished(row: Row, at: int): Row
  {
    row.(status := Published, updatedAt := at)
  }

  /** `after` is `before` or `before` published with some stamp: no other column differs. */
  predicate PublishedFrom(before: Row, after: Row)
  {
    after == before || after == before.(status := Published, updatedAt := after.updatedAt)
  }

  /** Total seconds paused during a trace. */
  function PauseTotal(events: seq<Event>): nat
  {
    if events == [] then 0
    else
      var last := events[|events| - 1];
      PauseTotal(events[..|events| - 1]) + (if last.Pause? then last.seconds else 0)
  }

  /** Number of pauses in a trace. */
  function PauseCount(events: seq<Event>): nat
  {
    if events == [] then 0
    else PauseCount(events[..|events| - 1]) + (if events[|events| - 1].Pause? then 1 else 0)
  }

  /** Number of send attempts in a trace. */
  function SendCount(events: seq<Event>): nat
  {
    if events == [] then 0
    else SendCount(events[..|events| - 1]) + (if events[|events| - 1].Send? then 1 else 0)
  }

  /** Number of delivered sends in a trace. */
  function DeliveredCount(events: seq<Event>): nat
  {
    if events == [] then 0
    else
      var last := events[|events| - 1];
      DeliveredCount(events[..|events| - 1]) + (if last.Send? && last.delivered then 1 else 0)
  }

  /** Ids of the posts a trace tried to send. */
  function SentIds(events: seq<Event>): set<int>
  {
    if events == [] then {}
    else
      var last := events[|events| - 1];
      SentIds(events[..|events| - 1]) + (if last.Send? then {last.message.post.id} else {})
  }

  /** Ids of the posts a trace delivered. */
  function DeliveredIds(events: seq<Event>): set<int>
  {
    if events == [] then {}
    else
      var last := events[|events| - 1];
      DeliveredIds(events[..|events| - 1]) + (if last.Send? && last.delivered then {last.message.post.id} else {})
  }

  /** No post is offered to the bot twice. */
  predicate UniqueSends(events: seq<Event>)
  {
    if events == [] then true
    else
      var last := events[|events| - 1];
      UniqueSends(events[..|events| - 1]) &&
      (last.Send? ==> last.message.post.id !in SentIds(events[..|events| - 1]))
  }

  /**
   * The pacing discipline, read from the end: a failed send stands alone, and
   * every pause comes right after a delivered send and lasts 2 to 10 seconds.
   */
  predicate WellPaced(events: seq<Event>)
  {
    if events == [] then true
    else
      var n := |events|;
      match events[n - 1]
      case Send(_, delivered) => !delivered && WellPaced(events[..n - 1])
      case Pause(seconds) =>
        && n >= 2
        && events[n - 2].Send?
        && events[n - 2].delivered
        && MinPause <= seconds <= MaxPause
        && WellPaced(events[..n - 2])
  }

  /**
   * The table after the UPDATEs of a trace that started at clock `start`: each
   * delivered post is marked published at the time of its send.
   */
  function Replay(rows: map<int, Row>, events: seq<Event>, start: int): (r: map<int, Row>)
    ensures r.Keys == rows.Keys
  {
    if events == [] then rows
    else
      var n := |events|;
      var prev := Replay(rows, events[..n - 1], start);
      var last := events[n - 1];
      if last.Send? && last.delivered && last.message.post.id in prev then
        var id := last.message.post.id;
        prev[id := MarkPublished(prev[id], start + PauseTotal(events[..n - 1]))]
      else prev
  }

  /** A send of the run offers the post built from the pending row of its id, in the run's chat, and records the bot's answer. */
  predicate FaithfulSend(rows: map<int, Row>, chatId: int, bot: Message -> bool, e: Event)
    requires e.Send?
  {
    var id := e.message.post.id;
    && id in rows
    && rows[id].status == PendingPublish
    && ToPost(rows[id]) == Some(e.message.post)
    && e.message.chatId == chatId
    && e.delivered == bot(e.message)
  }

  /** Every send of a trace is faithful to the table it was selected from. */
  predicate FaithfulSends(rows: map<int, Row>, chatId: int, bot: Message -> bool, events: seq<Event>)
  {
    if events == [] then true
    else
      var last := events[|events| - 1];
      FaithfulSends(rows, chatId, bot, events[..|events| - 1]) &&
      (last.Send? ==> FaithfulSend(rows, chatId, bot, last))
  }

  /** What a run of the publisher promises about its trace, given the table it selected from. */
  predicate ValidRun(rows: map<int, Row>, chatId: int, bot: Message -> bool, events: seq<Event>, end: RunEnd)
  {
    && WellPaced(events)
    && UniqueSends(events)
    && FaithfulSends(rows, chatId, bot, events)
    && SentIds(events) <= PendingIds(rows)
    && (end == Finished ==> SentIds(events) == PendingIds(rows))
    && (end.Crashed? ==>
          end.id in PendingIds(rows) && end.id !in SentIds(events) && ToPost(rows[end.id]).None?)
  }

  // Facts about traces

  /** Delivered ids are among the sent ids. */
  lemma {:induction false} DeliveredAreSent(events: seq<Event>)
    ensures DeliveredIds(events) <= SentIds(events)
    ensures DeliveredCount(events) <= SendCount(events)
  {
    if events != [] {
      DeliveredAreSent(events[..|events| - 1]);
    }
  }

  /** The id of a send at any position is among the sent ids. */
  lemma {:induction false} SendIsSent(events: seq<Event>, i: int)
    requires 0 <= i < |events| && events[i].Send?
    ensures events[i].message.post.id in SentIds(events)
    ensures events[i].delivered ==> events[i].message.post.id in DeliveredIds(events)
  {
    var n := |events|;
    if i < n - 1 {
      SendIsSent(events[..n - 1], i);
    }
  }

  /** With no repeated send, the run made exactly one attempt per sent id. */
  lemma {:induction false} OneAttemptPerId(events: seq<Event>)
    requires UniqueSends(events)
    ensures SendCount(events) == |SentIds(events)|
  {
    if events != [] {
      OneAttemptPerId(events[..|events| - 1]);
    }
  }

  /** Pausing never goes back in time: a prefix has paused no longer than the whole trace. */
  lemma {:induction false} PauseTotalMonotone(events: seq<Event>, i: int)
    requires 0 <= i <= |events|
    ensures PauseTotal(events[..i]) <= PauseTotal(events)
  {
    if i < |events| {
      var n := |events|;
      assert events[..n - 1][..i] == events[..i];
      PauseTotalMonotone(events[..n - 1], i);
    } else {
      assert events[..i] == events;
    }
  }

  /**
   * Pacing in numbers: one pause per delivered post, so a run of k deliveries
   * pauses between 2k and 10k seconds in all.
   */
  lemma {:induction false} PacingTotals(events: seq<Event>)
    requires WellPaced(events)
    ensures PauseCount(events) == DeliveredCount(events)
    ensures MinPause * DeliveredCount(events) <= PauseTotal(events) <= MaxPause * DeliveredCount(events)
  {
    var n := |events|;
    if n > 0 {
      if events[n - 1].Send? {
        PacingTotals(events[..n - 1]);
      } else {
        var init := events[..n - 2];
        assert events[..n - 1][..n - 2] == init;
        PacingTotals(init);
      }
    }
  }

  /**
   * Pacing position by position: a delivered send is followed at once by one
   * pause of 2 to 10 seconds; a failed send is followed by another send or by
   * nothing; every pause comes right after a delivered send.
   */
  lemma {:induction false} PacingAt(events: seq<Event>, i: int)
    requires WellPaced(events) && 0 <= i < |events|
    ensures events[i].Send? && events[i].delivered ==>
      i + 1 < |events| && events[i + 1].Pause? && MinPause <= events[i + 1].seconds <= MaxPause
    ensures events[i].Send? && !events[i].delivered ==> i + 1 == |events| || events[i + 1].Send?
    ensures events[i].Pause? ==> 0 < i && events[i - 1].Send? && events[i - 1].delivered
  {
    var n := |events|;
    if events[n - 1].Send? {
      if i < n - 1 {
        PacingAt(events[..n - 1], i);
      }
    } else if i < n - 2 {
      PacingAt(events[..n - 2], i);
    }
  }

  // Facts about the table a trace leaves

  /**
   * Replaying only ever publishes: every row keeps its id and every column
   * except status and timestamp, and a row can only move to published.
   */
  lemma {:induction false} ReplayOnlyPublishes(rows: map<int, Row>, events: seq<Event>, start: int, id: int)
    requires id in rows
    ensures PublishedFrom(rows[id], Replay(rows, events, start)[id])
  {
    if events != [] {
      ReplayOnlyPublishes(rows, events[..|events| - 1], start, id);
    }
  }

  /** A row the trace did not deliver keeps every field, its status included. */
  lemma {:induction false} ReplayUntouched(rows: map<int, Row>, events: seq<Event>, start: int, id: int)
    requires id in rows && id !in DeliveredIds(events)
    ensures Replay(rows, events, start)[id] == rows[id]
  {
    if events != [] {
      ReplayUntouched(rows, events[..|events| - 1], start, id);
    }
  }

  /**
   * A delivered post ends published, stamped with the clock at its send (the
   * start time plus the pauses before it), every other column unchanged.
   */
  lemma {:induction false} ReplayStamp(rows: map<int, Row>, events: seq<Event>, start: int, i: int)
    requires UniqueSends(events)
    requires 0 <= i < |events| && events[i].Send? && events[i].delivered
    requires events[i].message.post.id in rows
    ensures var id := events[i].message.post.id;
      Replay(rows, events, start)[id] == MarkPublished(rows[id], start + PauseTotal(events[..i]))
  {
    var n := |events|;
    var id := events[i].message.post.id;
    var init := events[..n - 1];
    if i == n - 1 {
      DeliveredAreSent(init);
      ReplayUntouched(rows, init, start, id);
    } else {
      assert init[i] == events[i];
      assert init[..i] == events[..i];
      SendIsSent(init, i);
      ReplayStamp(rows, init, start, i);
    }
  }

  /** Every stamp lies between the start of the run and its end. */
  lemma StampWithinRun(rows: map<int, Row>, events: seq<Event>, start: int, i: int)
    requires UniqueSends(events)
    requires 0 <= i < |events| && events[i].Send? && events[i].delivered
    requires events[i].message.post.id in rows
    ensures var r := Replay(rows, events, start)[events[i].message.post.id];
      r.status == Published && start <= r.updatedAt <= start + PauseTotal(events)
  {
    ReplayStamp(rows, events, start, i);
    PauseTotalMonotone(events, i);
  }

  // One step of a run

  /** Appending a failed send: the row is left alone, no pause follows, and the post counts as sent. */
  lemma AppendFailedSend(rows: map<int, Row>, chatId: int, bot: Message -> bool,
                          events: seq<Event>, start: int, m: Message)
    requires WellPaced(events) && UniqueSends(events) && m.post.id !in SentIds(events)
    requires FaithfulSends(rows, chatId, bot, events) && FaithfulSend(rows, chatId, bot, Send(m, false))
    ensures var e := events + [Send(m, false)];
      && WellPaced(e) && UniqueSends(e) && FaithfulSends(rows, chatId, bot, e)
      && SentIds(e) == SentIds(events) + {m.post.id}
      && PauseTotal(e) == PauseTotal(events)
      && Replay(rows, e, start) == Replay(rows, events, start)
  {
    var e := events + [Send(m, false)];
    assert e[..|e| - 1] == events;
  }

  /** Appending a delivered send and its pause keeps the trace well formed; the clock moves on by the pause. */
  lemma AppendDeliveredSend(rows: map<int, Row>, chatId: int, bot: Message -> bool,
                             events: seq<Event>, m: Message, pause: nat)
    requires WellPaced(events) && UniqueSends(events) && m.post.id !in SentIds(events)
    requires FaithfulSends(rows, chatId, bot, events) && FaithfulSend(rows, chatId, bot, Send(m, true))
    requires MinPause <= pause <= MaxPause
    ensures var e := events + [Send(m, true), Pause(pause)];
      && WellPaced(e) && UniqueSends(e) && FaithfulSends(rows, chatId, bot, e)
      && SentIds(e) == SentIds(events) + {m.post.id}
      && PauseTotal(e) == PauseTotal(events) + pause
  {
    var e := events + [Send(m, true), Pause(pause)];
    var sent := events + [Send(m, true)];
    assert e[..|e| - 1] == sent;
    assert e[..|e| - 2] == events;
    assert sent[..|sent| - 1] == events;
  }

  /** Replaying a delivered send and its pause publishes the post at the clock of the send. */
  lemma ReplayDeliveredSend(rows: map<int, Row>, events: seq<Event>, start: int, m: Message, pause: nat)
    requires m.post.id in rows
    ensures var prev := Replay(rows, events, start);
      Replay(rows, events + [Send(m, true), Pause(pause)], start)
        == prev[m.post.id := MarkPublished(prev[m.post.id], start + PauseTotal(events))]
  {
    var e := events + [Send(m, true), Pause(pause)];
    var sent := events + [Send(m, true)];
    var prev := Replay(rows, events, start);
    assert sent[..|sent| - 1] == events;
    assert m.post.id in prev;
    assert Replay(rows, sent, start) == prev[m.post.id := MarkPublished(prev[m.post.id], start + PauseTotal(events))];
    assert e[..|e| - 1] == sent;
    assert Replay(rows, e, start) == Replay(rows, sent, start);
  }

  // A run in progress

  /**
   * The state of a run part-way: `remaining` of the `selected` ids are still
   * to be offered, `events` is what happened so far, and `posts` is the table
   * those events left.
   */
  predicate Progress(rows: map<int, Row>, chatId: int, bot: Message -> bool, now: int,
                     selected: set<int>, remaining: set<int>, posts: map<int, Row>, events: seq<Event>)
  {
    && selected == PendingIds(rows)
    && remaining <= selected
    && Keyed(rows) && Keyed(posts)
    && posts == Replay(rows, events, now)
    && WellPaced(events) && UniqueSends(events) && FaithfulSends(rows, chatId, bot, events)
    && SentIds(events) == selected - remaining
  }

  /** A run starts with every pending id to do and nothing done. */
  lemma ProgressStart(rows: map<int, Row>, chatId: int, bot: Message -> bool, now: int)
    requires Keyed(rows)
    ensures Progress(rows, chatId, bot, now, PendingIds(rows), PendingIds(rows), rows, [])
  {
  }

  /** A failed send of a remaining id moves it to done and leaves the table alone. */
  lemma ProgressFailedSend(rows: map<int, Row>, chatId: int, bot: Message -> bool, now: int,
                           selected: set<int>, remaining: set<int>, posts: map<int, Row>, events: seq<Event>,
                           id: int, m: Message)
    requires Progress(rows, chatId, bot, now, selected, remaining, posts, events)
    requires id in remaining && ToPost(rows[id]) == Some(m.post) && m.chatId == chatId && !bot(m)
    ensures Progress(rows, chatId, bot, now, selected, remaining - {id}, posts, events + [Send(m, false)])
    ensures PauseTotal(events + [Send(m, false)]) == PauseTotal(events)
  {
    assert m.post.id == id;
    assert FaithfulSend(rows, chatId, bot, Send(m, false));
    AppendFailedSend(rows, chatId, bot, events, now, m);
  }

  /**
   * A delivered send of a remaining id marks its row published at the current
   * clock and appends the pause that follows.
   */
  lemma ProgressDeliveredSend(rows: map<int, Row>, chatId: int, bot: Message -> bool, now: int,
                              selected: set<int>, remaining: set<int>, posts: map<int, Row>, events: seq<Event>,
                              id: int, m: Message, pause: nat)
    requires Progress(rows, chatId, bot, now, selected, remaining, posts, events)
    requires id in remaining && ToPost(rows[id]) == Some(m.post) && m.chatId == chatId && bot(m)
    requires MinPause <= pause <= MaxPause
    ensures Progress(rows, chatId, bot, now, selected, remaining - {id},
                     posts[id := MarkPublished(posts[id], now + PauseTotal(events))],
                     events + [Send(m, true), Pause(pause)])
    ensures PauseTotal(events + [Send(m, true), Pause(pause)]) == PauseTotal(events) + pause
  {
    assert m.post.id == id;
    assert FaithfulSend(rows, chatId, bot, Send(m, true));
    AppendDeliveredSend(rows, chatId, bot, events, m, pause);
    ReplayDeliveredSend(rows, events, now, m, pause);
  }

  /** A run with nothing left to do finished every pending id. */
  lemma ProgressFinished(rows: map<int, Row>, chatId: int, bot: Message -> bool, now: int,
                         selected: set<int>, posts: map<int, Row>, events: seq<Event>)
    requires Progress(rows, chatId, bot, now, selected, {}, posts, events)
    ensures ValidRun(rows, chatId, bot, events, Finished)
  {
  }

  /** A run that meets a remaining row without a Post stops there. */
  lemma ProgressCrashed(rows: map<int, Row>, chatId: int, bot: Message -> bool, now: int,
                        selected: set<int>, remaining: set<int>, posts: map<int, Row>, events: seq<Event>, id: int)
    requires Progress(rows, chatId, bot, now, selected, remaining, posts, events)
    requires id in remaining && ToPost(rows[id]).None?
    ensures ValidRun(rows, chatId, bot, events, Crashed(id))
  {
  }

  // Facts about whole runs

  /** Every send at any position of a faithful trace is faithful. */
  lemma {:induction false} FaithfulAt(rows: map<int, Row>, chatId: int, bot: Message -> bool, events: seq<Event>, i: int)
    requires FaithfulSends(rows, chatId, bot, events)
    requires 0 <= i < |events| && events[i].Send?
    ensures FaithfulSend(rows, chatId, bot, events[i])
  {
    var n := |events|;
    if i < n - 1 {
      assert events[..n - 1][i] == events[i];
      FaithfulAt(rows, chatId, bot, events[..n - 1], i);
    }
  }

  /** A sent id has a send event in the trace. */
  lemma {:induction false} SendOf(events: seq<Event>, id: int) returns (i: int)
    requires id in SentIds(events)
    ensures 0 <= i < |events| && events[i].Send? && events[i].message.post.id == id
  {
    var n := |events|;
    if id in SentIds(events[..n - 1]) {
      i := SendOf(events[..n - 1], id);
    } else {
      i := n - 1;
    }
  }

  /** When the only send of a post failed, the post was not delivered. */
  lemma {:induction false} FailedSendNotDelivered(events: seq<Event>, i: int)
    requires UniqueSends(events)
    requires 0 <= i < |events| && events[i].Send? && !events[i].delivered
    ensures events[i].message.post.id !in DeliveredIds(events)
  {
    var n := |events|;
    var init := events[..n - 1];
    DeliveredAreSent(init);
    if i < n - 1 {
      assert init[i] == events[i];
      SendIsSent(init, i);
      FailedSendNotDelivered(init, i);
    }
  }

  /**
   * The fate of one row in a run: a published row is never touched; when the
   * run finishes, a pending row whose Post can be built is published and stamped
   * within the run if the bot accepts its message, and left exactly as it was,
   * still pending, if the send fails.
   */
  lemma RunOutcome(rows: map<int, Row>, chatId: int, bot: Message -> bool, events: seq<Event>,
                   end: RunEnd, start: int, id: int)
    requires ValidRun(rows, chatId, bot, events, end)
    requires id in rows
    ensures rows[id].status == Published ==> Replay(rows, events, start)[id] == rows[id]
    ensures end == Finished && rows[id].status == PendingPublish && ToPost(rows[id]).Some? ==>
      var r := Replay(rows, events, start)[id];
      if bot(Message(chatId, ToPost(rows[id]).value)) then
        r == MarkPublished(rows[id], r.updatedAt) && start <= r.updatedAt <= start + PauseTotal(events)
      else
        r == rows[id]
  {
    DeliveredAreSent(events);
    if rows[id].status == Published {
      ReplayUntouched(rows, events, start, id);
    } else if end == Finished && ToPost(rows[id]).Some? {
      var i := SendOf(events, id);
      FaithfulAt(rows, chatId, bot, events, i);
      if events[i].delivered {
        ReplayStamp(rows, events, start, i);
        PauseTotalMonotone(events, i);
      } else {
        FailedSendNotDelivered(events, i);
        ReplayUntouched(rows, events, start, id);
      }
    }
  }

  // The publishing scenario: one published row, one pending row with a 910% discount.

  function PublishScenario(now: int): map<int, Row>
  {
    map[1 := Row(1, "Store1", "Title1", Some("Desc1"), 312.0, Some(200), now - Day, Published, "storelink1"),
        2 := Row(2, "Store2", "Title2", Some("Desc2"), 1000.0, Some(910), now - 3 * Day, PendingPublish, "storelink2")]
  }

  /**
   * With a bot that accepts everything, the run finishes after exactly one
   * message (for row 2, priced -8100 after its discount); both rows end
   * published, row 1 keeps its timestamp and row 2 gets a new one.
   */
  lemma PublishScenarioOutcome(now: int, bot: Message -> bool, events: seq<Event>, end: RunEnd)
    requires forall m :: bot(m)
    requires ValidRun(PublishScenario(now), -123, bot, events, end)
    ensures end == Finished
    ensures SendCount(events) == 1
    ensures forall i :: 0 <= i < |events| && events[i].Send? ==>
      events[i].message.chatId == -123 && events[i].message.post.id == 2 &&
      events[i].message.post.discountedPrice == -8100.0
    ensures var r := Replay(PublishScenario(now), events, now);
      && r.Keys == {1, 2}
      && r[1].status == Published && r[2].status == Published
      && r[1].updatedAt == now - Day
      && r[2].updatedAt != now - 3 * Day
  {
    var rows := PublishScenario(now);
    assert rows.Keys == {1, 2};
    assert PendingIds(rows) == {2};
    assert ToPost(rows[2]).Some?;
    OneAttemptPerId(events);
    forall i | 0 <= i < |events| && events[i].Send?
      ensures events[i].message.chatId == -123 && events[i].message.post.id == 2
      ensures events[i].message.post.discountedPrice == -8100.0
    {
      FaithfulAt(rows, -123, bot, events, i);
    }
    RunOutcome(rows, -123, bot, events, end, now, 1);
    RunOutcome(rows, -123, bot, events, end, now, 2);
  }
}
