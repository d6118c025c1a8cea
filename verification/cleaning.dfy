/**
 * The deletion rule of `clean_old_posts` (usecases.py): published posts whose
 * last update is at or before a cutoff (three months before now) are deleted;
 * nothing else is touched. The cutoff is a parameter; how the store computes
 * "three months ago" is not modelled.
 */
module Cleaning {
  import opened Posts

  /** The WHERE clause of the DELETE: published, and not updated after the cutoff. */
  predicate Expired(row: Row, cutoff: int)
  {
    row.status == Published && row.updatedAt <= cutoff
  }

  /** The ids the DELETE removes. */
  function ExpiredIds(rows: map<int, Row>, cutoff: int): (ids: set<int>)
    ensures ids <= rows.Keys
    ensures forall id :: id in rows ==> (id in ids <==> rows[id].status == Published && rows[id].updatedAt <= cutoff)
  {
    set id | id in rows && Expired(rows[id], cutoff)
  }

  /** The table the DELETE leaves behind. */
  function Survivors(rows: map<int, Row>, cutoff: int): (r: map<int, Row>)
    ensures r.Keys == rows.Keys - ExpiredIds(rows, cutoff)
    ensures forall id :: id in r ==> r[id] == rows[id]
  {
    map id | id in rows && !Expired(rows[id], cutoff) :: rows[id]
  }

  /** A pending row is never deleted, however old it is, and it keeps every field. */
  lemma PendingNeverCleaned(rows: map<int, Row>, cutoff: int, id: int)
    requires id in rows && rows[id].status == PendingPublish
    ensures id in Survivors(rows, cutoff) && Survivors(rows, cutoff)[id] == rows[id]
  {
  }

  /** A published row survives exactly when it was updated after the cutoff. */
  lemma PublishedSurvivesIffRecent(rows: map<int, Row>, cutoff: int, id: int)
    requires id in rows && rows[id].status == Published
    ensures id in Survivors(rows, cutoff) <==> rows[id].updatedAt > cutoff
  {
  }

  /** The reported row count: the table shrinks by exactly the number of expired rows. */
  lemma DeletedCount(rows: map<int, Row>, cutoff: int)
    ensures |Survivors(rows, cutoff)| + |ExpiredIds(rows, cutoff)| == |rows|
  {
  }

  /** Cleaning twice with the same cutoff deletes nothing the second time. */
  lemma CleanIdempotent(rows: map<int, Row>, cutoff: int)
    ensures Survivors(Survivors(rows, cutoff), cutoff) == Survivors(rows, cutoff)
    ensures ExpiredIds(Survivors(rows, cutoff), cutoff) == {}
  {
  }

  /** A later cutoff deletes at least as much. */
  lemma LaterCutoffDeletesMore(rows: map<int, Row>, earlier: int, later: int)
    requires earlier <= later
    ensures ExpiredIds(rows, earlier) <= ExpiredIds(rows, later)
    ensures Survivors(rows, later).Keys <= Survivors(rows, earlier).Keys
  {
  }

  // The cleaning scenario: six rows, two of them published long ago.

  function ScenarioRow(id: int, status: PostStatus, updatedAt: int): Row
  {
    Row(id, "", "", Optional.None, 0.0, Optional.None, updatedAt, status, "")
  }

  function CleanScenario(now: int): map<int, Row>
  {
    map[1 := ScenarioRow(1, Published, now - 120 * Day),
        2 := ScenarioRow(2, Published, now - 240 * Day),
        3 := ScenarioRow(3, Published, now - 10 * Day),
        4 := ScenarioRow(4, PendingPublish, now - 3 * Day),
        5 := ScenarioRow(5, PendingPublish, now - 10 * Day),
        6 := ScenarioRow(6, PendingPublish, now - 400 * Day)]
  }

  /**
   * With any cutoff between 120 and 10 days ago (three months lies there),
   * rows 1 and 2 go and rows 3 to 6 stay; row 6, pending for 400 days, stays.
   */
  lemma CleanScenarioOutcome(now: int, cutoff: int)
    requires now - 120 * Day <= cutoff < now - 10 * Day
    ensures ExpiredIds(CleanScenario(now), cutoff) == {1, 2}
    ensures Survivors(CleanScenario(now), cutoff).Keys == {3, 4, 5, 6}
  {
    var rows := CleanScenario(now);
    assert rows.Keys == {1, 2, 3, 4, 5, 6};
    assert Expired(rows[1], cutoff) && Expired(rows[2], cutoff);
    assert !Expired(rows[3], cutoff) && !Expired(rows[4], cutoff);
    assert !Expired(rows[5], cutoff) && !Expired(rows[6], cutoff);
  }
}
