/**
 * The login-time notice of an upcoming appointment (Controller/AppointmentAlertUtil.java):
 * a scan of the user's appointments for the soonest one starting within 15 minutes.
 */
module AppointmentAlert {
  import opened ZonedTime
  import opened Appointments

  /** Duration.between(now, start).toMinutes(): whole minutes, truncated toward zero. */
  function MinutesUntil(now: int, start: int): int {
    var d := start - now;
    if d >= 0 then d / SecondsPerMinute else -((-d) / SecondsPerMinute)
  }

  /** The alert's test: the start is 0 to 15 whole minutes away. */
  predicate Upcoming(now: int, start: int) {
    0 <= MinutesUntil(now, start) <= 15
  }

  /**
   * Because the minutes are truncated toward zero, the test accepts any start from
   * 59 seconds in the past to 15 minutes 59 seconds ahead.
   */
  lemma {:induction false} UpcomingWindow(now: int, start: int)
    ensures Upcoming(now, start) <==> -SecondsPerMinute < start - now < 16 * SecondsPerMinute
  {
    var d := start - now;
    if d < 0 {
      assert (-d) / SecondsPerMinute == 0 <==> -d < SecondsPerMinute;
    } else {
      assert d / SecondsPerMinute <= 15 <==> d < 16 * SecondsPerMinute;
    }
  }

  /**
   * Among the first `n` appointments, the one at `i` is upcoming, starts no later
   * than any other upcoming one, and strictly earlier than every upcoming one before it.
   */
  predicate IsSoonest(now: int, appts: seq<Appointment>, i: int, n: int) {
    && 0 <= i < n <= |appts|
    && Upcoming(now, appts[i].start)
    && (forall j :: 0 <= j < n && Upcoming(now, appts[j].start) ==> appts[i].start <= appts[j].start)
    && (forall j :: 0 <= j < i && Upcoming(now, appts[j].start) ==> appts[i].start < appts[j].start)
  }

  /** At most one position is the soonest, so the scan's answer is determined. */
  lemma SoonestIsUnique(now: int, appts: seq<Appointment>, i: int, i': int)
    requires IsSoonest(now, appts, i, |appts|) && IsSoonest(now, appts, i', |appts|)
    ensures i == i'
  {
  }

  /**
   * The scan: null when no appointment is upcoming; otherwise the upcoming one with
   * the earliest start, the first of them in list order on a tie.
   */
  method FindUpcoming(now: int, appts: seq<Appointment>) returns (next: Appointment?)
    ensures next == null <==> forall k :: 0 <= k < |appts| ==> !Upcoming(now, appts[k].start)
    ensures next != null ==> exists i :: IsSoonest(now, appts, i, |appts|) && appts[i] == next
  {
    next := null;
    var soonestMinutes := 16;
    ghost var at := 0;
    for k := 0 to |appts|
      invariant next == null <==> forall j :: 0 <= j < k ==> !Upcoming(now, appts[j].start)
      invariant next != null ==> IsSoonest(now, appts, at, k) && appts[at] == next
      invariant next != null ==> soonestMinutes == MinutesUntil(now, next.start)
    {
      var start := appts[k].start;
      var minutes := MinutesUntil(now, start);
      if minutes >= 0 && minutes <= 15 {
        if next == null || start < next.start {
          next := appts[k];
          soonestMinutes := minutes;
          at := k;
        }
      }
    }
  }

  /** Starts 5, 10 and 20 minutes ahead: the 5-minute one is the answer, and the 20-minute one alone is not upcoming. */
  lemma {:induction false} FiveTenTwenty(now: int, appts: seq<Appointment>)
    requires |appts| == 3
    requires appts[0].start == now + 5 * SecondsPerMinute
    requires appts[1].start == now + 10 * SecondsPerMinute
    requires appts[2].start == now + 20 * SecondsPerMinute
    ensures IsSoonest(now, appts, 0, 3)
    ensures !Upcoming(now, appts[2].start)
  {
    UpcomingWindow(now, appts[0].start);
    UpcomingWindow(now, appts[1].start);
    UpcomingWindow(now, appts[2].start);
  }
}
