/**
  Due-date classification (lib/todoUtils.ts). A due date and the current
  time are integer milliseconds; `now` stands for the clock reading
  `new Date()`.
 */
module TodoUtils {

  /** Milliseconds in a day: 1000 * 3600 * 24. */
  const MsPerDay: int := 1000 * 3600 * 24

  /** A due date at most this many (started) days ahead is "due soon". */
  const DueSoonDays: int := 3

  datatype DueDateStatus = Overdue | DueSoon | Normal

  /** Integer ceiling of `a / b`, the `Math.ceil` of the original. */
  function CeilDiv(a: int, b: int): (q: int)
    requires b > 0
    ensures b * (q - 1) < a <= b * q
  {
    -((-a) / b)
  }

  /** Whole days from `now` to `due`, rounded up. */
  function DaysUntil(due: int, now: int): (d: int)
    ensures MsPerDay * (d - 1) < due - now <= MsPerDay * d
  {
    CeilDiv(due - now, MsPerDay)
  }

  /** The due date lies strictly before the current time: its rounded-up
      day count is not positive, and it is not the current time itself. */
  function IsOverdue(due: int, now: int): (b: bool)
    ensures b <==> DaysUntil(due, now) <= 0 && due != now
  {
    due < now
  }

  /** The rounded-up day count to the due date is 1, 2 or 3; that is, the
      due date lies after `now` and at most three days ahead. */
  function IsDueSoon(due: int, now: int): (b: bool)
    ensures b <==> 0 < due - now <= DueSoonDays * MsPerDay
  {
    var days := DaysUntil(due, now);
    days <= DueSoonDays && days > 0
  }

  /** No due date is both overdue and due soon. */
  lemma OverdueExcludesDueSoon(due: int, now: int)
    ensures !(IsOverdue(due, now) && IsDueSoon(due, now))
  {
  }

  /** A due date equal to the current time is neither overdue nor due soon. */
  lemma DueNowIsNeither(now: int)
    ensures !IsOverdue(now, now) && !IsDueSoon(now, now)
  {
  }

  /** Overdue first, then due soon, otherwise normal. */
  function GetDueDateStatus(due: int, now: int): (r: DueDateStatus)
    ensures r == Overdue <==> due < now
    ensures r == DueSoon <==> 0 < due - now <= DueSoonDays * MsPerDay
    ensures r == Normal <==> due == now || due - now > DueSoonDays * MsPerDay
    ensures r == Overdue <==> IsOverdue(due, now)
    ensures r == DueSoon <==> IsDueSoon(due, now) && !IsOverdue(due, now)
  {
    if IsOverdue(due, now) then Overdue
    else if IsDueSoon(due, now) then DueSoon
    else Normal
  }

  /** The style classes shown for each status. */
  function StatusClasses(status: DueDateStatus): (c: string)
    ensures status == Normal <==> c == "text-gray-500"
  {
    match status
    case Overdue => "text-red-600 font-semibold"
    case DueSoon => "text-orange-600 font-semibold"
    case Normal => "text-gray-500"
  }

  /** The style classes for a due date. */
  function GetDueDateClasses(due: int, now: int): (c: string)
    ensures c == "text-red-600 font-semibold" <==> IsOverdue(due, now)
    ensures c == "text-orange-600 font-semibold" <==> 0 < due - now <= DueSoonDays * MsPerDay
    ensures c == "text-gray-500" <==> GetDueDateStatus(due, now) == Normal
  {
    StatusClasses(GetDueDateStatus(due, now))
  }

  /** Different statuses get different classes. */
  lemma StatusClassesDistinct(s1: DueDateStatus, s2: DueDateStatus)
    ensures StatusClasses(s1) == StatusClasses(s2) <==> s1 == s2
  {
  }
}
