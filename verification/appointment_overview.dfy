/**
 * The appointment overview (Controller/AppointmentOverviewController.java): every
 * stored appointment sorted by start, a view of today's ISO week and one of
 * today's month, and deletion of the selected appointment.
 */
module AppointmentOverview {
  import opened ZonedTime
  import opened Appointments
  import opened AppointmentDao

  /** Non-decreasing by start. */
  predicate SortedByStart(s: seq<Appointment>) {
    forall i, j :: 0 <= i < j < |s| ==> s[i].start <= s[j].start
  }

  /** `a` placed before the first element that does not start before it. */
  function Insert(a: Appointment, s: seq<Appointment>): (r: seq<Appointment>)
    requires SortedByStart(s)
    ensures SortedByStart(r)
    ensures multiset(r) == multiset(s) + multiset{a}
  {
    if s == [] || a.start <= s[0].start then
      assert forall x :: x in s ==> a.start <= x.start by {
        forall x | x in s
          ensures a.start <= x.start
        {
          var k :| 0 <= k < |s| && s[k] == x;
          assert s[0].start <= s[k].start;
        }
      }
      PrependSorted(a, s);
      [a] + s
    else
      var rest := Insert(a, s[1..]);
      assert s == [s[0]] + s[1..];
      StartsNoEarlier(s[0], rest, s[1..], a);
      PrependSorted(s[0], rest);
      [s[0]] + rest
  }

  /** Everything in `rest`, drawn from the sorted `tail` and `a`, starts no earlier than `head`. */
  lemma StartsNoEarlier(head: Appointment, rest: seq<Appointment>, tail: seq<Appointment>, a: Appointment)
    requires multiset(rest) == multiset(tail) + multiset{a}
    requires head.start < a.start
    requires forall x :: x in tail ==> head.start <= x.start
    ensures forall x :: x in rest ==> head.start <= x.start
  {
    forall x | x in rest
      ensures head.start <= x.start
    {
      assert x in multiset(rest);
      if x != a {
        assert x in multiset(tail);
      }
    }
  }

  /** Prepending an element that starts no later than any element keeps a sorted list sorted. */
  lemma PrependSorted(head: Appointment, rest: seq<Appointment>)
    requires SortedByStart(rest)
    requires forall x :: x in rest ==> head.start <= x.start
    ensures SortedByStart([head] + rest)
  {
    forall i, j | 0 <= i < j < |rest| + 1
      ensures ([head] + rest)[i].start <= ([head] + rest)[j].start
    {
      assert ([head] + rest)[j] == rest[j - 1];
      if i > 0 {
        assert ([head] + rest)[i] == rest[i - 1];
      } else {
        assert rest[j - 1] in rest;
      }
    }
  }

  /** The list sorted by start (List.sort with a comparator on the start). */
  function SortByStart(s: seq<Appointment>): (r: seq<Appointment>)
    ensures SortedByStart(r)
    ensures multiset(r) == multiset(s)
  {
    if s == [] then []
    else
      assert s == [s[0]] + s[1..];
      Insert(s[0], SortByStart(s[1..]))
  }

  /** The elements whose start satisfies `p`, in their order (a FilteredList). */
  // What is kept is KeptExactly; that the order is kept is KeepByStartAppend.
  function KeepByStart(s: seq<Appointment>, p: int -> bool): (r: seq<Appointment>)
    ensures |r| <= |s|
  {
    if s == [] then []
    else
      var rest := KeepByStart(s[1..], p);
      if p(s[0].start) then [s[0]] + rest else rest
  }

  /**
   * KeepByStart keeps exactly the elements whose start satisfies `p`, each as often
   * as it occurs, and keeps a sorted list sorted.
   */
  lemma {:induction false} KeptExactly(s: seq<Appointment>, p: int -> bool)
    ensures forall a :: a in KeepByStart(s, p) ==> a in s && p(a.start)
    ensures forall a :: a in s && p(a.start) ==> a in KeepByStart(s, p)
    ensures forall a: Appointment :: multiset(KeepByStart(s, p))[a] == if p(a.start) then multiset(s)[a] else 0
    ensures SortedByStart(s) ==> SortedByStart(KeepByStart(s, p))
  {
    if s != [] {
      var tail := s[1..];
      var rest := KeepByStart(tail, p);
      KeptExactly(tail, p);
      assert s == [s[0]] + tail;
      assert multiset(s) == multiset{s[0]} + multiset(tail);
      assert forall a :: a in s ==> a == s[0] || a in tail;
      if p(s[0].start) && SortedByStart(s) {
        forall x | x in rest
          ensures s[0].start <= x.start
        {
          assert x in tail;
          var k :| 0 <= k < |tail| && tail[k] == x;
          assert s[k + 1] == x;
        }
        PrependSorted(s[0], rest);
      }
    }
  }

  /**
   * Filtering a concatenation filters each part and keeps them in order; with the
   * one-element case this fixes the result as the order-preserving sub-list.
   */
  lemma {:induction false} KeepByStartAppend(s: seq<Appointment>, t: seq<Appointment>, p: int -> bool)
    ensures KeepByStart(s + t, p) == KeepByStart(s, p) + KeepByStart(t, p)
    ensures forall a :: KeepByStart([a], p) == if p(a.start) then [a] else []
  {
    if s == [] {
      assert s + t == t;
    } else {
      assert (s + t)[0] == s[0] && (s + t)[1..] == s[1..] + t;
      KeepByStartAppend(s[1..], t, p);
    }
  }

  /** The start date lies from the Monday to the Sunday of `today`'s week. */
  predicate InWeekOf(today: int, start: int) {
    WeekMonday(today) <= DateOf(start) <= WeekSunday(today)
  }

  /** The start date has `today`'s month and year. */
  predicate InMonthOf(today: int, start: int) {
    var d, t := CivilFromDays(DateOf(start)), CivilFromDays(today);
    d.month == t.month && d.year == t.year
  }

  /** The two tables' filters. */
  function InWeek(today: int): int -> bool { start => InWeekOf(today, start) }
  function InMonth(today: int): int -> bool { start => InMonthOf(today, start) }

  /** The weekly table's items. */
  function WeeklyView(all: seq<Appointment>, today: int): seq<Appointment> {
    KeepByStart(all, InWeek(today))
  }

  /** The monthly table's items. */
  function MonthlyView(all: seq<Appointment>, today: int): seq<Appointment> {
    KeepByStart(all, InMonth(today))
  }

  /**
   * The weekly view holds exactly the appointments starting in `today`'s ISO week
   * (those whose start date has the same Monday), each as often as in the list,
   * and is sorted when the list is.
   */
  lemma {:induction false} WeeklyViewContents(all: seq<Appointment>, today: int)
    ensures forall a :: a in WeeklyView(all, today) ==> a in all && WeekMonday(DateOf(a.start)) == WeekMonday(today)
    ensures forall a :: a in all && WeekMonday(DateOf(a.start)) == WeekMonday(today) ==> a in WeeklyView(all, today)
    ensures forall a: Appointment :: multiset(WeeklyView(all, today))[a] ==
              if WeekMonday(DateOf(a.start)) == WeekMonday(today) then multiset(all)[a] else 0
    ensures SortedByStart(all) ==> SortedByStart(WeeklyView(all, today))
  {
    KeptExactly(all, InWeek(today));
    forall a | a in all
      ensures InWeekOf(today, a.start) <==> WeekMonday(DateOf(a.start)) == WeekMonday(today)
    {
      SameWeekIff(today, DateOf(a.start));
    }
  }

  /**
   * The monthly view holds exactly the appointments starting in `today`'s month and
   * year, each as often as in the list, and is sorted when the list is.
   */
  lemma {:induction false} MonthlyViewContents(all: seq<Appointment>, today: int)
    ensures forall a :: a in MonthlyView(all, today) ==> a in all && InMonthOf(today, a.start)
    ensures forall a :: a in all && InMonthOf(today, a.start) ==> a in MonthlyView(all, today)
    ensures forall a: Appointment :: multiset(MonthlyView(all, today))[a] == if InMonthOf(today, a.start) then multiset(all)[a] else 0
    ensures SortedByStart(all) ==> SortedByStart(MonthlyView(all, today))
  {
    KeptExactly(all, InMonth(today));
  }

  /** The position of the first occurrence of `x`. */
  function FirstIndex(s: seq<Appointment>, x: Appointment): (i: nat)
    requires x in s
    ensures i < |s| && s[i] == x && x !in s[..i]
  {
    if s[0] == x then 0
    else
      var i := FirstIndex(s[1..], x);
      assert s[..i + 1] == [s[0]] + s[1..][..i];
      i + 1
  }

  /**
   * List.remove(Object): without `x` the list is unchanged; otherwise exactly one
   * occurrence, the first, is taken out and the others keep their order.
   */
  function RemoveFirst(s: seq<Appointment>, x: Appointment): (r: seq<Appointment>)
    ensures x !in s ==> r == s
    ensures x in s ==> |r| == |s| - 1 && multiset(r) == multiset(s) - multiset{x}
    ensures x in s ==> exists i :: 0 <= i < |s| && s[i] == x && x !in s[..i] && r == s[..i] + s[i + 1..]
  {
    if x !in s then s
    else
      var i := FirstIndex(s, x);
      assert s == s[..i] + [x] + s[i + 1..];
      s[..i] + s[i + 1..]
  }

  /** The table whose selection Update and Delete act on: the weekly one on tab 0, else the monthly one. */
  function Selected(tabIndex: int, weeklySelection: Appointment?, monthlySelection: Appointment?): Appointment? {
    if tabIndex == 0 then weeklySelection else monthlySelection
  }

  /** The overview screen's state: the loaded list and the items of its two tables. */
  class AppointmentOverviewScreen {
    var allAppointments: seq<Appointment>
    var weekly: seq<Appointment>
    var monthly: seq<Appointment>

    /**
     * Load all appointments, sort them by start and derive both views for `today`.
     * `fetched` names what the reader returned.
     */
    method LoadAndShowAppointments(table: AppointmentTable, contactNames: map<int, string>, system: Zone, today: int)
      returns (ghost fetched: seq<Appointment>)
      modifies this
      ensures |fetched| == |Joined(table.rows, AnyRow(), contactNames)|
      ensures forall k :: 0 <= k < |fetched| ==>
                fresh(fetched[k]) && LoadedFrom(fetched[k], Joined(table.rows, AnyRow(), contactNames)[k], contactNames, system)
      ensures multiset(allAppointments) == multiset(fetched) && SortedByStart(allAppointments)
      ensures weekly == WeeklyView(allAppointments, today) && monthly == MonthlyView(allAppointments, today)
    {
      var list := table.GetAllAppointments(contactNames, system);
      fetched := list;
      Show(list, today);
    }

    /** Sorts `list` by start into the full list and fills both tables for `today`. */
    method Show(list: seq<Appointment>, today: int)
      modifies this
      ensures multiset(allAppointments) == multiset(list) && SortedByStart(allAppointments)
      ensures weekly == WeeklyView(allAppointments, today) && monthly == MonthlyView(allAppointments, today)
    {
      allAppointments := SortByStart(list);
      weekly := WeeklyView(allAppointments, today);
      monthly := MonthlyView(allAppointments, today);
    }

    /**
     * Delete: with no selection in the current tab nothing changes; otherwise the
     * selected appointment's row is deleted and the list is reloaded from the table
     * (`fetched` names what the reader returned), so no loaded appointment carries
     * the deleted id.
     */
    method OnDeleteAppointment(tabIndex: int, weeklySelection: Appointment?, monthlySelection: Appointment?,
                               table: AppointmentTable, contactNames: map<int, string>, system: Zone, today: int)
      returns (deleted: bool, ghost fetched: seq<Appointment>)
      requires table.Valid()
      modifies this, table`rows
      ensures table.Valid()
      ensures deleted == (Selected(tabIndex, weeklySelection, monthlySelection) != null)
      ensures !deleted ==> && table.rows == old(table.rows) && allAppointments == old(allAppointments)
                           && weekly == old(weekly) && monthly == old(monthly)
      ensures deleted ==>
                var sel := Selected(tabIndex, weeklySelection, monthlySelection);
                && table.rows == Retain(old(table.rows), WithoutId(sel.id))
                && |fetched| == |Joined(table.rows, AnyRow(), contactNames)|
                && (forall k :: 0 <= k < |fetched| ==>
                      fresh(fetched[k]) && LoadedFrom(fetched[k], Joined(table.rows, AnyRow(), contactNames)[k], contactNames, system))
                && multiset(allAppointments) == multiset(fetched) && SortedByStart(allAppointments)
                && (forall a :: a in allAppointments ==> a.id != sel.id)
                && weekly == WeeklyView(allAppointments, today) && monthly == MonthlyView(allAppointments, today)
    {
      var sel := Selected(tabIndex, weeklySelection, monthlySelection);
      if sel == null {
        return false, [];
      }
      table.DeleteAppointment(sel.id);
      allAppointments := RemoveFirst(allAppointments, sel);
      fetched := LoadAndShowAppointments(table, contactNames, system, today);
      forall a | a in allAppointments
        ensures a.id != sel.id
      {
        assert a in multiset(fetched);
        var k :| 0 <= k < |fetched| && fetched[k] == a;
        var joined := Joined(table.rows, AnyRow(), contactNames);
        assert joined[k] in joined;
        RetainContents(table.rows, JoinsContact(AnyRow(), contactNames));
        RetainContents(old(table.rows), WithoutId(sel.id));
      }
      deleted := true;
    }
  }
}
