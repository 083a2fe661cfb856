/**
 * The weekday dispatch of `schedule_helper`: a number from 1 to 7 picks the
 * weekday on which a recurring job is registered with the scheduler, and any
 * other number registers nothing. The scheduler library itself is not part
 * of this model; a registration is recorded as a `Job` value.
 */
module Scheduling {

  datatype Option<T> = None | Some(value: T)

  datatype Weekday = Monday | Tuesday | Wednesday | Thursday | Friday | Saturday | Sunday

  /** A registration `every(interval).<day>.at(at).do(action)`. */
  datatype Job<A> = Job(day: Weekday, interval: int, at: string, action: A)

  /** The number that selects a weekday: 1 for Monday up to 7 for Sunday. */
  function DayNumber(d: Weekday): (n: int)
    ensures 1 <= n <= 7
  {
    match d
    case Monday => 1
    case Tuesday => 2
    case Wednesday => 3
    case Thursday => 4
    case Friday => 5
    case Saturday => 6
    case Sunday => 7
  }

  /** The weekday a number selects, if any. */
  function SelectWeekday(n: int): (r: Option<Weekday>)
    ensures r.Some? <==> 1 <= n <= 7
    ensures r.Some? ==> DayNumber(r.value) == n
  {
    if n == 1 then Some(Monday)
    else if n == 2 then Some(Tuesday)
    else if n == 3 then Some(Wednesday)
    else if n == 4 then Some(Thursday)
    else if n == 5 then Some(Friday)
    else if n == 6 then Some(Saturday)
    else if n == 7 then Some(Sunday)
    else None
  }

  /** Every weekday is selected by its own number, so no two numbers share a
      weekday. */
  lemma SelectDayNumber(d: Weekday)
    ensures SelectWeekday(DayNumber(d)) == Some(d)
  {
  }

  function When<A>(c: bool, job: Job<A>): seq<Job<A>>
  {
    if c then [job] else []
  }

  /** The jobs `schedule_helper` registers: one test per weekday, each
      independent of the others. At most one of them fires; it fires exactly
      when the number is between 1 and 7, and then the job runs on the
      selected weekday with the given interval, time and action. */
  function ScheduleHelper<A>(weekday: int, freq: int, time: string, action: A): (jobs: seq<Job<A>>)
    ensures |jobs| <= 1
    ensures jobs != [] <==> 1 <= weekday <= 7
    ensures jobs != [] ==>
      DayNumber(jobs[0].day) == weekday && jobs[0].interval == freq &&
      jobs[0].at == time && jobs[0].action == action
  {
    When(weekday == 1, Job(Monday, freq, time, action))
    + When(weekday == 2, Job(Tuesday, freq, time, action))
    + When(weekday == 3, Job(Wednesday, freq, time, action))
    + When(weekday == 4, Job(Thursday, freq, time, action))
    + When(weekday == 5, Job(Friday, freq, time, action))
    + When(weekday == 6, Job(Saturday, freq, time, action))
    + When(weekday == 7, Job(Sunday, freq, time, action))
  }

  /** The registered job is the one `SelectWeekday` names. */
  lemma ScheduleHelperSelects<A>(weekday: int, freq: int, time: string, action: A)
    ensures ScheduleHelper(weekday, freq, time, action) ==
      match SelectWeekday(weekday)
      case Some(d) => [Job(d, freq, time, action)]
      case None => []
  {
  }
}
