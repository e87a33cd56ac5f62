/**
 * `schedule_today`: draw reminder times inside the user's daily window until
 * enough distinct future ones are collected, then register one job per time,
 * earliest first. Times are local wall-clock minutes on the planning date;
 * the random draws are supplied as picks.
 */
module Schedule {
  import opened Tables
  import Store

  /** A local wall-clock minute on a calendar date. */
  datatype Stamp = Stamp(date: int, hour: int, minute: int)

  /**
   * Strictly earlier. A planned time has zero seconds, so it is later than
   * `now` exactly when its minute is later than the minute `now` falls in.
   */
  predicate Before(a: Stamp, b: Stamp)
  {
    a.date < b.date
    || (a.date == b.date && (a.hour < b.hour || (a.hour == b.hour && a.minute < b.minute)))
  }

  /** The minutes a reminder may land on. */
  const Minutes: seq<int> := [5, 15, 25, 35, 45]

  /** The last hour a reminder may land in: the hour before the window's end, but never before its start. */
  function LastHour(startH: int, endH: int): (h: int)
    ensures startH <= h
    ensures h == startH || h == endH - 1
    ensures h >= endH - 1
  {
    if endH - 1 > startH then endH - 1 else startH
  }

  /** How many reminders a day gets: the configured count clamped to 1..12. */
  function Target(count: int): (n: int)
    ensures 1 <= n <= 12
    ensures 1 <= count <= 12 ==> n == count
    ensures count < 1 ==> n == 1
    ensures count > 12 ==> n == 12
  {
    if count < 1 then 1 else if count > 12 then 12 else count
  }

  /** One random draw: the raw outcomes of the hour draw and of the minute draw. */
  datatype Draw = Draw(hourPick: nat, minutePick: nat)

  /** `pick` reduced into `[0, span)` by repeated subtraction of `span`. */
  function Wrap(pick: nat, span: nat): (r: nat)
    requires span > 0
    ensures r < span
    ensures r <= pick
    decreases pick
  {
    if pick < span then pick else Wrap(pick - span, span)
  }

  /** A uniform integer draw between the start hour and `LastHour`, both included, for a given pick. */
  function DrawHour(startH: int, endH: int, pick: nat): (h: int)
    ensures startH <= h <= LastHour(startH, endH)
  {
    startH + Wrap(pick, LastHour(startH, endH) - startH + 1)
  }

  /** A uniform draw among the allowed minutes, for a given pick. */
  function DrawMinute(pick: nat): (m: int)
    ensures m in Minutes
  {
    Minutes[pick % |Minutes|]
  }

  /** Every hour of the window and every allowed minute can be drawn. */
  lemma DrawCoversWindow(startH: int, endH: int, h: int, i: nat)
    requires startH <= h <= LastHour(startH, endH) && i < |Minutes|
    ensures DrawHour(startH, endH, h - startH) == h
    ensures DrawMinute(i) == Minutes[i]
  {
    SmallRemainder(i, |Minutes|);
  }

  /** Every valid time in the window on `now`'s date that is strictly later than `now`. */
  function FutureSlots(now: Stamp, startH: int, endH: int): set<Stamp>
  {
    set h, m | startH <= h <= LastHour(startH, endH) && 0 <= h <= 23 && m in Minutes
      && Before(now, Stamp(now.date, h, m)) :: Stamp(now.date, h, m)
  }

  /** The time on `now`'s date that one draw produces. */
  function Candidate(startH: int, endH: int, now: Stamp, d: Draw): Stamp
  {
    Stamp(now.date, DrawHour(startH, endH, d.hourPick), DrawMinute(d.minutePick))
  }

  /** None of the first `n` draws produces an hour the time constructor rejects. */
  predicate ValidHours(startH: int, endH: int, ds: seq<Draw>, n: nat)
    requires n <= |ds|
  {
    n == 0 || (ValidHours(startH, endH, ds, n - 1) && 0 <= DrawHour(startH, endH, ds[n - 1].hourPick) <= 23)
  }

  /**
   * The set the loop holds after the first `n` draws of `ds`: their candidates
   * that are later than `now`.
   */
  ghost function Kept(startH: int, endH: int, now: Stamp, ds: seq<Draw>, n: nat): set<Stamp>
    requires n <= |ds|
  {
    if n == 0 then {}
    else
      var c := Candidate(startH, endH, now, ds[n - 1]);
      Kept(startH, endH, now, ds, n - 1) + (if Before(now, c) then {c} else {})
  }

  /** Every kept time lies in the window, after `now`, when no drawn hour left the day. */
  lemma {:induction false} KeptInWindow(startH: int, endH: int, now: Stamp, ds: seq<Draw>, n: nat)
    requires n <= |ds| && ValidHours(startH, endH, ds, n)
    ensures Kept(startH, endH, now, ds, n) <= FutureSlots(now, startH, endH)
  {
    if n > 0 {
      KeptInWindow(startH, endH, now, ds, n - 1);
      var c := Candidate(startH, endH, now, ds[n - 1]);
      if Before(now, c) {
        assert c in FutureSlots(now, startH, endH);
      }
    }
  }

  /** How a run of the planning loop ends. */
  datatype Plan =
    | Planned(times: set<Stamp>)      // the loop collected its target
    | Unfinished(partial: set<Stamp>) // the supplied draws ran out; the source would keep drawing
    | InvalidHour(hour: int)          // `time(hour, minute)` raised ValueError

  /**
   * The draws reach the target exactly at the `i`-th draw: none of the first
   * `i` leaves the day, the first `i - 1` keep fewer times than the target,
   * and the first `i` keep `times`, which hold the target number.
   */
  ghost predicate FinishesAt(startH: int, endH: int, count: int, now: Stamp, draws: seq<Draw>, i: int, times: set<Stamp>)
  {
    0 < i <= |draws| && ValidHours(startH, endH, draws, i)
    && |Kept(startH, endH, now, draws, i - 1)| < Target(count)
    && times == Kept(startH, endH, now, draws, i) && |times| == Target(count)
  }

  /**
   * The `k`-th draw is the first to give an hour outside the day, and the
   * draws before it keep fewer times than the target.
   */
  ghost predicate FailsAt(startH: int, endH: int, count: int, now: Stamp, draws: seq<Draw>, k: int, hour: int)
  {
    0 <= k < |draws| && ValidHours(startH, endH, draws, k)
    && |Kept(startH, endH, now, draws, k)| < Target(count)
    && hour == DrawHour(startH, endH, draws[k].hourPick) && (hour < 0 || 23 < hour)
  }

  /**
   * The outcome is the one the draws force: the loop stops at the first draw
   * that completes the target, at the first draw with an hour outside the
   * day, or when the draws run out, whichever comes first.
   */
  ghost predicate FollowsDraws(plan: Plan, startH: int, endH: int, count: int, now: Stamp, draws: seq<Draw>)
  {
    && (plan.Planned? ==> exists i :: FinishesAt(startH, endH, count, now, draws, i, plan.times))
    && (plan.Unfinished? ==>
          && ValidHours(startH, endH, draws, |draws|)
          && plan.partial == Kept(startH, endH, now, draws, |draws|)
          && |plan.partial| < Target(count))
    && (plan.InvalidHour? ==> exists k :: FailsAt(startH, endH, count, now, draws, k, plan.hour))
  }

  /**
   * The outcome respects the window: a completed plan holds the target number
   * of future slots, so the window has at least that many; a partial one holds
   * future slots; a raised hour lies in the window; and a window inside the
   * day never raises.
   */
  ghost predicate StaysInWindow(plan: Plan, startH: int, endH: int, count: int, now: Stamp)
  {
    && (plan.Planned? ==>
          && |plan.times| == Target(count)
          && plan.times <= FutureSlots(now, startH, endH)
          && Target(count) <= |FutureSlots(now, startH, endH)|)
    && (plan.Unfinished? ==> plan.partial <= FutureSlots(now, startH, endH))
    && (plan.InvalidHour? ==> startH <= plan.hour <= LastHour(startH, endH))
    && (0 <= startH && LastHour(startH, endH) <= 23 ==> !plan.InvalidHour?)
  }

  /** What the planning loop promises about its outcome for the draws `draws`. */
  ghost predicate PlanFits(plan: Plan, startH: int, endH: int, count: int, now: Stamp, draws: seq<Draw>)
  {
    FollowsDraws(plan, startH, endH, count, now, draws) && StaysInWindow(plan, startH, endH, count, now)
  }

  /** An outcome the draws force respects the window. */
  lemma FollowsDrawsStaysInWindow(plan: Plan, startH: int, endH: int, count: int, now: Stamp, draws: seq<Draw>)
    requires FollowsDraws(plan, startH, endH, count, now, draws)
    ensures StaysInWindow(plan, startH, endH, count, now)
  {
    match plan
    case Planned(times) =>
      var i :| FinishesAt(startH, endH, count, now, draws, i, times);
      KeptInWindow(startH, endH, now, draws, i);
      SubsetSize(times, FutureSlots(now, startH, endH));
    case Unfinished(partial) =>
      KeptInWindow(startH, endH, now, draws, |draws|);
    case InvalidHour(hour) =>
      var k :| FailsAt(startH, endH, count, now, draws, k, hour);
  }

  /**
   * The planning loop as a recursive definition: the outcome of running the
   * loop from the `i`-th draw with `planned` already collected.
   */
  function Planning(startH: int, endH: int, count: int, now: Stamp, draws: seq<Draw>, i: nat, planned: set<Stamp>): (p: Plan)
    requires i <= |draws|
    ensures p.Planned? ==> planned <= p.times && |p.times| >= Target(count)
    ensures p.Unfinished? ==> planned <= p.partial && |p.partial| < Target(count)
    ensures p.InvalidHour? ==> p.hour < 0 || 23 < p.hour
    decreases |draws| - i
  {
    if |planned| >= Target(count) then Planned(planned)
    else if i == |draws| then Unfinished(planned)
    else
      var hour := DrawHour(startH, endH, draws[i].hourPick);
      if hour < 0 || 23 < hour then InvalidHour(hour)
      else
        var runAt := Stamp(now.date, hour, DrawMinute(draws[i].minutePick));
        Planning(startH, endH, count, now, draws, i + 1, if Before(now, runAt) then planned + {runAt} else planned)
  }

  /**
   * A state the loop reaches after `i` draws: none of them left the day, it
   * holds what they keep, no more than the target, and it was still short of
   * the target one draw earlier.
   */
  ghost predicate Reached(startH: int, endH: int, count: int, now: Stamp, draws: seq<Draw>, i: nat, planned: set<Stamp>)
  {
    && i <= |draws| && ValidHours(startH, endH, draws, i)
    && planned == Kept(startH, endH, now, draws, i) && |planned| <= Target(count)
    && (i > 0 ==> |Kept(startH, endH, now, draws, i - 1)| < Target(count))
  }

  /** One turn of the loop with an hour inside the day moves to the state after one more draw. */
  lemma PlanningStep(startH: int, endH: int, count: int, now: Stamp, draws: seq<Draw>, i: nat, planned: set<Stamp>, plan: Plan)
      returns (next: set<Stamp>)
    requires Reached(startH, endH, count, now, draws, i, planned)
    requires i < |draws| && |planned| < Target(count)
    requires 0 <= DrawHour(startH, endH, draws[i].hourPick) <= 23
    requires plan == Planning(startH, endH, count, now, draws, i, planned)
    ensures Reached(startH, endH, count, now, draws, i + 1, next)
    ensures plan == Planning(startH, endH, count, now, draws, i + 1, next)
  {
    next := Kept(startH, endH, now, draws, i + 1);
    AddOneSize(planned, Candidate(startH, endH, now, draws[i]));
  }

  /** A run from a reached state that completes does so exactly at some draw. */
  lemma {:induction false} PlannedFollowsDraws(startH: int, endH: int, count: int, now: Stamp, draws: seq<Draw>, i: nat, planned: set<Stamp>, plan: Plan)
    requires Reached(startH, endH, count, now, draws, i, planned)
    requires plan == Planning(startH, endH, count, now, draws, i, planned)
    ensures plan.Planned? ==> exists j :: FinishesAt(startH, endH, count, now, draws, j, plan.times)
    decreases |draws| - i
  {
    if |planned| >= Target(count) {
      assert i > 0;
      assert FinishesAt(startH, endH, count, now, draws, i, planned);
    } else if i < |draws| && 0 <= DrawHour(startH, endH, draws[i].hourPick) <= 23 {
      var next := PlanningStep(startH, endH, count, now, draws, i, planned, plan);
      PlannedFollowsDraws(startH, endH, count, now, draws, i + 1, next, plan);
    }
  }

  /** A run from a reached state that is cut short has used every draw and keeps what they keep. */
  lemma {:induction false} RanOutFollowsDraws(startH: int, endH: int, count: int, now: Stamp, draws: seq<Draw>, i: nat, planned: set<Stamp>, plan: Plan)
    requires Reached(startH, endH, count, now, draws, i, planned)
    requires plan == Planning(startH, endH, count, now, draws, i, planned)
    ensures plan.Unfinished? ==>
      && ValidHours(startH, endH, draws, |draws|)
      && plan.partial == Kept(startH, endH, now, draws, |draws|)
      && |plan.partial| < Target(count)
    decreases |draws| - i
  {
    if |planned| < Target(count) && i < |draws| && 0 <= DrawHour(startH, endH, draws[i].hourPick) <= 23 {
      var next := PlanningStep(startH, endH, count, now, draws, i, planned, plan);
      RanOutFollowsDraws(startH, endH, count, now, draws, i + 1, next, plan);
    }
  }

  /** A run from a reached state that raises does so at the first draw with an hour outside the day. */
  lemma {:induction false} FailedFollowsDraws(startH: int, endH: int, count: int, now: Stamp, draws: seq<Draw>, i: nat, planned: set<Stamp>, plan: Plan)
    requires Reached(startH, endH, count, now, draws, i, planned)
    requires plan == Planning(startH, endH, count, now, draws, i, planned)
    ensures plan.InvalidHour? ==> exists k :: FailsAt(startH, endH, count, now, draws, k, plan.hour)
    decreases |draws| - i
  {
    if |planned| < Target(count) && i < |draws| {
      if !(0 <= DrawHour(startH, endH, draws[i].hourPick) <= 23) {
        assert FailsAt(startH, endH, count, now, draws, i, plan.hour);
      } else {
        var next := PlanningStep(startH, endH, count, now, draws, i, planned, plan);
        FailedFollowsDraws(startH, endH, count, now, draws, i + 1, next, plan);
      }
    }
  }

  /** The outcome of the planning loop, run from the start, keeps every promise of `PlanFits`. */
  lemma PlanningFits(startH: int, endH: int, count: int, now: Stamp, draws: seq<Draw>)
    ensures PlanFits(Planning(startH, endH, count, now, draws, 0, {}), startH, endH, count, now, draws)
  {
    var plan := Planning(startH, endH, count, now, draws, 0, {});
    assert Reached(startH, endH, count, now, draws, 0, {});
    PlannedFollowsDraws(startH, endH, count, now, draws, 0, {}, plan);
    RanOutFollowsDraws(startH, endH, count, now, draws, 0, {}, plan);
    FailedFollowsDraws(startH, endH, count, now, draws, 0, {}, plan);
    FollowsDrawsStaysInWindow(plan, startH, endH, count, now, draws);
  }

  /**
   * The `while` loop of `schedule_today`. Each draw is turned into a time on
   * `now`'s date; it is kept when strictly later than `now`. The source loop
   * has no retry cap: when the draws run out first the outcome is `Unfinished`.
   */
  method PlanTimes(startH: int, endH: int, count: int, now: Stamp, draws: seq<Draw>) returns (plan: Plan)
    ensures plan == Planning(startH, endH, count, now, draws, 0, {})
  {
    var planned: set<Stamp> := {};
    var i := 0;
    while |planned| < Target(count)
      invariant 0 <= i <= |draws|
      invariant Planning(startH, endH, count, now, draws, i, planned) == Planning(startH, endH, count, now, draws, 0, {})
      decreases |draws| - i
    {
      if i == |draws| {
        return Unfinished(planned);
      }
      var hour := DrawHour(startH, endH, draws[i].hourPick);
      var minute := DrawMinute(draws[i].minutePick);
      if hour < 0 || 23 < hour {
        return InvalidHour(hour);
      }
      var runAt := Stamp(now.date, hour, minute);
      i := i + 1;
      if Before(now, runAt) {
        planned := planned + {runAt};
      }
    }
    return Planned(planned);
  }

  lemma AddOneSize<T>(a: set<T>, x: T)
    ensures |a + {x}| <= |a| + 1
  {
    if x in a {
      assert a + {x} == a;
    }
  }

  lemma SubsetSize<T>(a: set<T>, b: set<T>)
    requires a <= b
    ensures |a| <= |b|
  {
    assert b == a + (b - a);
  }

  /** Once the window's last slot has passed, no time is left to plan, so the loop cannot finish. */
  lemma ElapsedWindowHasNoSlots(now: Stamp, startH: int, endH: int)
    requires !Before(now, Stamp(now.date, LastHour(startH, endH), 45))
    ensures FutureSlots(now, startH, endH) == {}
  {
  }

  /** A one-hour window (`start_h >= end_h - 1`) holds at most five times, fewer than a target above five. */
  lemma OneHourWindowHasFiveSlots(now: Stamp, startH: int, endH: int)
    requires LastHour(startH, endH) == startH
    ensures |FutureSlots(now, startH, endH)| <= 5
  {
    var d := now.date;
    var five := {Stamp(d, startH, 5), Stamp(d, startH, 15), Stamp(d, startH, 25), Stamp(d, startH, 35), Stamp(d, startH, 45)};
    assert FutureSlots(now, startH, endH) <= five;
    SubsetSize(FutureSlots(now, startH, endH), five);
  }

  /** One registered `DateTrigger` job: fire `send_prompt` for the chat at `runAt`. */
  datatype Job = Job(runAt: Stamp, chatId: ChatId)

  /** The shared job store of the scheduler. */
  class Scheduler {
    var jobs: seq<Job>

    constructor ()
      ensures jobs == []
    {
      jobs := [];
    }
  }

  /** `after` is `before` followed by one job of `chat` per time of `times`, in strictly ascending order. */
  ghost predicate AddedInOrder(before: seq<Job>, after: seq<Job>, chat: ChatId, times: set<Stamp>)
  {
    && |after| == |before| + |times|
    && after[..|before|] == before
    && (forall i :: |before| <= i < |after| ==> after[i].chatId == chat && after[i].runAt in times)
    && (forall i, j :: |before| <= i < j < |after| ==> Before(after[i].runAt, after[j].runAt))
    && (forall t :: t in times ==> Job(t, chat) in after[|before|..])
  }

  /** Every non-empty set of times has an earliest one. */
  lemma HasEarliest(s: set<Stamp>) returns (m: Stamp)
    requires s != {}
    ensures m in s && forall u :: u in s ==> !Before(u, m)
  {
    var x :| x in s;
    if s == {x} {
      m := x;
    } else {
      var r := HasEarliest(s - {x});
      if Before(x, r) {
        m := x;
        forall u | u in s ensures !Before(u, m) {
          if u != x { assert !Before(u, r); }
        }
      } else {
        m := r;
      }
    }
  }

  /** Registers one job per planned time with the scheduler, in ascending time order. */
  method RegisterJobs(sched: Scheduler, chat: ChatId, times: set<Stamp>)
    modifies sched
    ensures AddedInOrder(old(sched.jobs), sched.jobs, chat, times)
  {
    ghost var before := sched.jobs;
    var rest := times;
    while rest != {}
      invariant rest <= times
      invariant |before| <= |sched.jobs|
      invariant |sched.jobs| + |rest| == |before| + |times|
      invariant sched.jobs[..|before|] == before
      invariant forall i :: |before| <= i < |sched.jobs| ==>
        sched.jobs[i].chatId == chat && sched.jobs[i].runAt in times && sched.jobs[i].runAt !in rest
      invariant forall i, j :: |before| <= i < j < |sched.jobs| ==> Before(sched.jobs[i].runAt, sched.jobs[j].runAt)
      invariant forall i, t :: |before| <= i < |sched.jobs| && t in rest ==> Before(sched.jobs[i].runAt, t)
      invariant forall t :: t in times && t !in rest ==> Job(t, chat) in sched.jobs[|before|..]
      decreases rest
    {
      ghost var m := HasEarliest(rest);
      var t :| t in rest && forall u :: u in rest ==> !Before(u, t);
      forall u | u in rest && u != t ensures Before(t, u) {
        assert !Before(u, t);
      }
      ghost var added := sched.jobs[|before|..];
      sched.jobs := sched.jobs + [Job(t, chat)];
      assert sched.jobs[|before|..] == added + [Job(t, chat)];
      rest := rest - {t};
    }
  }

  /**
   * `schedule_today`: look the user up (creating the row if needed), plan
   * with the user's window and count, and register the planned times. `now`
   * is the current local time in the user's zone.
   */
  method ScheduleToday(db: Store.Database, sched: Scheduler, chat: ChatId, now: Stamp, draws: seq<Draw>)
    returns (plan: Plan)
    requires db.Valid()
    modifies db, sched
    ensures db.Valid()
    ensures chat in db.users
    ensures db.users == if chat in old(db.users) then old(db.users) else old(db.users)[chat := DefaultUser(chat)]
    ensures db.vocab == old(db.vocab) && db.answers == old(db.answers)
    ensures db.nextVocabId == old(db.nextVocabId) && db.nextAnswerId == old(db.nextAnswerId)
    ensures var u := db.users[chat];
      && plan == Planning(u.startHour, u.endHour, u.dailyCount, now, draws, 0, {})
      && PlanFits(plan, u.startHour, u.endHour, u.dailyCount, now, draws)
    ensures plan.Planned? ==> AddedInOrder(old(sched.jobs), sched.jobs, chat, plan.times)
    ensures !plan.Planned? ==> sched.jobs == old(sched.jobs)
  {
    var u := db.GetUser(chat);
    plan := PlanTimes(u.startHour, u.endHour, u.dailyCount, now, draws);
    PlanningFits(u.startHour, u.endHour, u.dailyCount, now, draws);
    if plan.Planned? {
      RegisterJobs(sched, chat, plan.times);
    }
  }
}
