/**
 * One tick of `dispatch_tasks` (main.py): read the Moscow time of day, run the
 * task of the window it falls in, then sleep 30 seconds. The three tasks are
 * opaque here; only which one runs, and with which limit, is modelled.
 */
module Dispatch {
  import opened Optional

  const MicrosPerMinute := 60 * 1000000
  const MicrosPerHour := 60 * MicrosPerMinute
  const MicrosPerDay := 24 * MicrosPerHour

  /** A time of day, in microseconds since midnight (the resolution of a clock time). */
  type TimeOfDay = t: int | 0 <= t < MicrosPerDay

  /** The time of day at `hour`:`minute`. */
  function Clock(hour: int, minute: int): (t: TimeOfDay)
    requires 0 <= hour < 24 && 0 <= minute < 60
  {
    hour * MicrosPerHour + minute * MicrosPerMinute
  }

  /** The request limit handed to discovery and the update limit handed to refresh. */
  const DiscoveryRequestLimit := 200
  const RefreshUpdateLimit := 100

  /** The pause at the end of every tick, in seconds. */
  const TickSleepSeconds := 30

  /** The task a tick runs: discovering ids, refreshing prices and discounts, or publishing a post. */
  datatype Task = FindSteamIds(requestLimit: nat) | UpdatePriceAndDiscount(updateLimit: nat) | PublishSteamPost

  /** The comparison chain of the dispatcher; the last branch is guarded too, so None stands for "no branch taken". */
  function SelectTask(now: TimeOfDay): Option<Task>
  {
    if Clock(18, 0) <= now || now < Clock(2, 0) then Some(FindSteamIds(DiscoveryRequestLimit))
    else if Clock(2, 0) <= now < Clock(8, 0) then Some(UpdatePriceAndDiscount(RefreshUpdateLimit))
    else if Clock(8, 0) <= now < Clock(18, 0) then Some(PublishSteamPost)
    else None
  }

  // The day as three windows, each opening at a time and lasting some hours.

  datatype Window = Discovery | Refresh | Publishing

  function Opens(w: Window): TimeOfDay
  {
    match w
    case Discovery => Clock(18, 0)
    case Refresh => Clock(2, 0)
    case Publishing => Clock(8, 0)
  }

  function Hours(w: Window): nat
  {
    match w
    case Discovery => 8
    case Refresh => 6
    case Publishing => 10
  }

  function TaskOf(w: Window): Task
  {
    match w
    case Discovery => FindSteamIds(DiscoveryRequestLimit)
    case Refresh => UpdatePriceAndDiscount(RefreshUpdateLimit)
    case Publishing => PublishSteamPost
  }

  /** Time since the window last opened, counting round midnight. */
  function SinceOpening(w: Window, t: TimeOfDay): (d: nat)
    ensures d < MicrosPerDay
    ensures (t + MicrosPerDay - Opens(w) - d) % MicrosPerDay == 0
  {
    if t >= Opens(w) then t - Opens(w) else t + MicrosPerDay - Opens(w)
  }

  predicate InWindow(w: Window, t: TimeOfDay)
  {
    SinceOpening(w, t) < Hours(w) * MicrosPerHour
  }

  /** The windows last 8 + 6 + 10 hours: the whole day. */
  lemma WindowsFillDay()
    ensures (Hours(Discovery) + Hours(Refresh) + Hours(Publishing)) * MicrosPerHour == MicrosPerDay
    ensures Opens(Discovery) + Hours(Discovery) * MicrosPerHour == MicrosPerDay + Opens(Refresh)
    ensures Opens(Refresh) + Hours(Refresh) * MicrosPerHour == Opens(Publishing)
    ensures Opens(Publishing) + Hours(Publishing) * MicrosPerHour == Opens(Discovery)
  {
  }

  /** The chain picks a window's task exactly when the time lies in that window. */
  lemma SelectTaskFollowsWindows(now: TimeOfDay, w: Window)
    ensures SelectTask(now) == Some(TaskOf(w)) <==> InWindow(w, now)
  {
  }

  /** Every time of day lies in exactly one window, so every tick runs exactly one task. */
  lemma WindowsPartitionDay(now: TimeOfDay)
    ensures InWindow(Discovery, now) || InWindow(Refresh, now) || InWindow(Publishing, now)
    ensures forall v, w :: InWindow(v, now) && InWindow(w, now) ==> v == w
    ensures SelectTask(now).Some?
  {
  }

  /** An opening instant belongs to the window it opens: 02:00 refreshes, 08:00 publishes, 18:00 discovers. */
  lemma OpeningBelongsToWindow(w: Window)
    ensures InWindow(w, Opens(w)) && SelectTask(Opens(w)) == Some(TaskOf(w))
  {
    SelectTaskFollowsWindows(Opens(w), w);
  }

  /** One pass of the dispatcher loop at Moscow time `now`: the task it runs and the sleep that ends it. */
  method DispatchTick(now: TimeOfDay) returns (ran: Option<Task>, sleepSeconds: nat)
    ensures ran.Some?
    ensures forall w :: InWindow(w, now) <==> ran == Some(TaskOf(w))
    ensures sleepSeconds == TickSleepSeconds
  {
    ran := SelectTask(now);
    forall w | true
      ensures InWindow(w, now) <==> ran == Some(TaskOf(w))
    {
      SelectTaskFollowsWindows(now, w);
    }
    sleepSeconds := TickSleepSeconds;
  }
}
