/**
 * The `posts` table as a mutable object, with the two use cases of
 * usecases.py that change it: `clean_old_posts` deletes old published rows and
 * `publish_posts` announces pending rows and marks them published. Each
 * statement commits at once, so a run that stops midway keeps what it did.
 */
module PostTable {
  import opened Posts
  import opened Cleaning
  import opened Publishing

  class PostsDb {
    /** The rows of the table, by primary key. */
    var posts: map<int, Row>

    ghost predicate Valid()
      reads this
    {
      Keyed(posts)
    }

    constructor (rows: map<int, Row>)
      requires Keyed(rows)
      ensures Valid() && posts == rows
    {
      posts := rows;
    }

    /**
     * DELETE of every published row updated at or before `cutoff` (three
     * months before now); `deleted` is the row count the store reports.
     */
    method CleanOldPosts(cutoff: int) returns (deleted: nat)
      requires Valid()
      modifies this
      ensures Valid()
      ensures posts == Survivors(old(posts), cutoff)
      ensures deleted == |ExpiredIds(old(posts), cutoff)| == |old(posts)| - |posts|
    {
      var gone := ExpiredIds(posts, cutoff);
      DeletedCount(posts, cutoff);
      posts := Survivors(posts, cutoff);
      deleted := |gone|;
    }

    /**
     * Offers every pending row, in an order the store chooses, to `bot` in
     * chat `chatId`, starting at clock `now`. A delivered post is marked
     * published at the current time and followed by a pause of 2 to 10
     * seconds; a failed send is skipped. A row with a NULL discount or
     * description stops the run. Returns the trace of sends and pauses.
     */
    method PublishPosts(chatId: int, bot: Message -> bool, now: int) returns (events: seq<Event>, end: RunEnd)
      requires Valid()
      modifies this
      ensures Valid()
      ensures posts == Replay(old(posts), events, now)
      ensures ValidRun(old(posts), chatId, bot, events, end)
    {
      var rows := posts;
      var selected := PendingIds(rows);
      var remaining := selected;
      var clock := now;
      events := [];
      end := Finished;
      ProgressStart(rows, chatId, bot, now);
      while remaining != {}
        invariant Progress(rows, chatId, bot, now, selected, remaining, posts, events)
        invariant clock == now + PauseTotal(events)
        decreases remaining
      {
        if forall k :: k !in remaining {
          assert false;  // remaining is not empty
        }
        var id :| id in remaining;
        var post := ToPost(rows[id]);
        if post.None? {
          ProgressCrashed(rows, chatId, bot, now, selected, remaining, posts, events, id);
          end := Crashed(id);
          return;
        }
        var message := Message(chatId, post.value);
        var delivered := bot(message);
        if !delivered {
          ProgressFailedSend(rows, chatId, bot, now, selected, remaining, posts, events, id, message);
          events := events + [Send(message, false)];
          remaining := remaining - {id};
          continue;
        }
        var pause :| MinPause <= pause <= MaxPause;
        ProgressDeliveredSend(rows, chatId, bot, now, selected, remaining, posts, events, id, message, pause);
        posts := posts[id := MarkPublished(posts[id], clock)];
        events := events + [Send(message, true), Pause(pause)];
        remaining := remaining - {id};
        clock := clock + pause;
      }
      ProgressFinished(rows, chatId, bot, now, selected, posts, events);
    }
  }
}
