/**
 * The appointments table and its data-access operations (DAO/AppointmentDAO.java).
 *
 * The table keeps Start and End as UTC wall-clock date-times. Writes move an
 * appointment's times from the system zone to UTC; the three per-row readers move
 * them back; the contact-schedule report hands the stored UTC values out as they are.
 * The contacts table is passed in as a map from Contact_ID to Contact_Name, and the
 * inner join drops rows whose contact is missing from it.
 */
module AppointmentDao {
  import opened ZonedTime
  import opened Appointments

  /** One row of the appointments table; `start` and `end` are UTC. */
  datatype Row = Row(id: int, title: string, description: string, location: string,
                     appointmentType: string, start: int, end: int,
                     customerId: int, userId: int, contactId: int)

  /** One line of the contact-schedule report (Model/ContactSchedule.java). */
  datatype ContactSchedule = ContactSchedule(contactName: string, appointmentId: int,
                                             title: string, appointmentType: string,
                                             description: string, start: int, end: int,
                                             customerId: int)

  /**
   * The row addAppointment and updateAppointment write for `a` under key `key`:
   * every field of the model, with start and end moved from `system` to UTC.
   */
  function StoredRow(a: Appointment, key: int, system: Zone): Row {
    Row(key, a.title, a.description, a.location, a.appointmentType,
        ToUtc(a.start, system), ToUtc(a.end, system), a.customerId, a.userId, a.contactId)
  }

  /** `a` is what a reader builds from row `r`: every column copied, start and end moved from UTC to `system`. */
  predicate LoadedFrom(a: Appointment, r: Row, contactNames: map<int, string>, system: Zone)
    reads a
  {
    && a.id == r.id && a.title == r.title && a.description == r.description
    && a.location == r.location && a.appointmentType == r.appointmentType
    && a.start == FromUtc(r.start, system) && a.end == FromUtc(r.end, system)
    && a.customerId == r.customerId && a.userId == r.userId && a.contactId == r.contactId
    && r.contactId in contactNames && a.contactName == contactNames[r.contactId]
  }

  /** `s` is the report line of row `r`: the contact's name, the row's columns, the UTC times as stored. */
  predicate ReportedFrom(s: ContactSchedule, r: Row, contactNames: map<int, string>) {
    && r.contactId in contactNames && s.contactName == contactNames[r.contactId]
    && s.appointmentId == r.id && s.title == r.title
    && s.appointmentType == r.appointmentType && s.description == r.description
    && s.start == r.start && s.end == r.end && s.customerId == r.customerId
  }

  /** Row ids strictly increase in table order, as an auto-increment key makes them. */
  predicate IdsIncreasing(rows: seq<Row>) {
    forall i, j :: 0 <= i < j < |rows| ==> rows[i].id < rows[j].id
  }

  /** The rows satisfying `keep`, in table order: a WHERE clause, or the rows a DELETE leaves. */
  // Which rows are kept, and in what order, is RetainContents and RetainAppend.
  function Retain(rows: seq<Row>, keep: Row -> bool): (r: seq<Row>)
    ensures |r| <= |rows|
  {
    if rows == [] then []
    else
      var prefix, last := rows[..|rows| - 1], rows[|rows| - 1];
      Retain(prefix, keep) + (if keep(last) then [last] else [])
  }

  /** Retain keeps exactly the rows satisfying `keep`. */
  lemma {:induction false} RetainContents(rows: seq<Row>, keep: Row -> bool)
    ensures forall x :: x in Retain(rows, keep) ==> x in rows && keep(x)
    ensures forall x :: x in rows && keep(x) ==> x in Retain(rows, keep)
  {
    if rows != [] {
      var prefix, last := rows[..|rows| - 1], rows[|rows| - 1];
      assert rows == prefix + [last];
      RetainContents(prefix, keep);
    }
  }

  /** Retain keeps the table order, so strictly increasing ids stay strictly increasing. */
  lemma {:induction false} RetainIdsIncreasing(rows: seq<Row>, keep: Row -> bool)
    requires IdsIncreasing(rows)
    ensures IdsIncreasing(Retain(rows, keep))
  {
    if rows != [] {
      var prefix, last := rows[..|rows| - 1], rows[|rows| - 1];
      var kept := Retain(prefix, keep);
      assert IdsIncreasing(prefix);
      RetainIdsIncreasing(prefix, keep);
      RetainContents(prefix, keep);
      forall x | x in kept
        ensures x.id < last.id
      {
        var i :| 0 <= i < |prefix| && prefix[i] == x;
        assert rows[i] == x;
      }
    }
  }

  /** The WHERE clauses of the queries below. */
  function AnyRow(): Row -> bool { _ => true }
  function OfCustomer(customerId: int): Row -> bool { (r: Row) => r.customerId == customerId }
  function OfUser(userId: int): Row -> bool { (r: Row) => r.userId == userId }
  function WithoutId(id: int): Row -> bool { (r: Row) => r.id != id }
  function WithoutCustomer(customerId: int): Row -> bool { (r: Row) => r.customerId != customerId }

  /** A row passes `keep` and its contact exists, so the inner join keeps it. */
  function JoinsContact(keep: Row -> bool, contactNames: map<int, string>): Row -> bool {
    (r: Row) => keep(r) && r.contactId in contactNames
  }

  /** The rows of `SELECT ... JOIN contacts WHERE keep`, in table order. */
  function Joined(rows: seq<Row>, keep: Row -> bool, contactNames: map<int, string>): seq<Row> {
    Retain(rows, JoinsContact(keep, contactNames))
  }

  /** Every row whose id is `row.id` replaced by `row`; the rest untouched. */
  function Replaced(rows: seq<Row>, row: Row): (r: seq<Row>)
    ensures |r| == |rows|
    ensures forall k :: 0 <= k < |r| ==> r[k].id == rows[k].id
    ensures forall k :: 0 <= k < |r| ==> r[k] == rows[k] || r[k] == row
    ensures forall k :: 0 <= k < |r| && rows[k].id == row.id ==> r[k] == row
  {
    seq(|rows|, k requires 0 <= k < |rows| => if rows[k].id == row.id then row else rows[k])
  }

  /** With unique ids, an update rewrites at most one row. */
  lemma ReplacedAtMostOne(rows: seq<Row>, row: Row)
    requires IdsIncreasing(rows)
    ensures forall i, j :: 0 <= i < j < |rows| ==> Replaced(rows, row)[i] == rows[i] || Replaced(rows, row)[j] == rows[j]
  {
  }

  /** Reading back what a write stored restores the local start and end wherever the offsets picked for them are in force. */
  lemma {:induction false} ReadInvertsWrite(a: Appointment, key: int, system: Zone)
    requires OffsetInForce(system, a.start) && OffsetInForce(system, a.end)
    ensures FromUtc(StoredRow(a, key, system).start, system) == a.start
    ensures FromUtc(StoredRow(a, key, system).end, system) == a.end
  {
    LocalRoundTrip(a.start, system);
    LocalRoundTrip(a.end, system);
  }

  /** In a fixed-offset system zone, reading back what a write stored always restores the local start and end. */
  lemma {:induction false} FixedZoneReadInvertsWrite(a: Appointment, key: int, system: Zone, offset: int)
    requires IsFixed(system, offset)
    ensures FromUtc(StoredRow(a, key, system).start, system) == a.start
    ensures FromUtc(StoredRow(a, key, system).end, system) == a.end
  {
    FixedOffsetInForce(system, offset, a.start);
    FixedOffsetInForce(system, offset, a.end);
    ReadInvertsWrite(a, key, system);
  }

  /** In a fixed-offset system zone, the stored UTC times keep the order of start and end and the duration between them. */
  lemma {:induction false} WriteKeepsDuration(a: Appointment, key: int, system: Zone, offset: int)
    requires IsFixed(system, offset)
    ensures StoredRow(a, key, system).end - StoredRow(a, key, system).start == a.end - a.start
    ensures StoredRow(a, key, system).start <= StoredRow(a, key, system).end <==> a.start <= a.end
  {
    assert system.offsetForLocal(a.start) == offset && system.offsetForLocal(a.end) == offset;
  }

  /** Retaining after appending a kept row appends it to what was retained. */
  lemma {:induction false} RetainAppend(rows: seq<Row>, x: Row, keep: Row -> bool)
    requires keep(x)
    ensures Retain(rows + [x], keep) == Retain(rows, keep) + [x]
  {
    assert (rows + [x])[..|rows|] == rows;
  }

  /** Retaining one more row of a prefix adds that row when it is kept, and nothing otherwise. */
  lemma {:induction false} RetainStep(rows: seq<Row>, i: int, keep: Row -> bool)
    requires 0 <= i < |rows|
    ensures Retain(rows[..i + 1], keep) == Retain(rows[..i], keep) + (if keep(rows[i]) then [rows[i]] else [])
  {
    assert rows[..i + 1][..i] == rows[..i];
  }

  /** The appointments table: its rows and the next auto-increment key. */
  class AppointmentTable {
    var rows: seq<Row>
    var nextKey: int

    /** Keys start at 1 (so 0 never names a stored row) and every key is below `nextKey`. */
    ghost predicate Valid()
      reads this
    {
      && nextKey >= 1
      && IdsIncreasing(rows)
      && forall r :: r in rows ==> 1 <= r.id < nextKey
    }

    constructor ()
      ensures Valid() && rows == [] && nextKey == 1
    {
      rows := [];
      nextKey := 1;
    }

    /**
     * Inserts `appt` with its start and end moved to UTC, and gives the model the
     * generated key; the model's id is the only field of it that changes.
     */
    method AddAppointment(appt: Appointment, system: Zone)
      requires Valid()
      modifies this, appt`id
      ensures Valid()
      ensures appt.id == old(nextKey) && nextKey == old(nextKey) + 1
      ensures rows == old(rows) + [StoredRow(appt, appt.id, system)]
      ensures appt.id >= 1 && forall r :: r in old(rows) ==> r.id != appt.id
    {
      var key := nextKey;
      rows := rows + [StoredRow(appt, key, system)];
      nextKey := nextKey + 1;
      appt.SetId(key);
    }

    /** Rewrites every column of the row keyed by `appt.id`, with the same conversion as an insert. */
    method UpdateAppointment(appt: Appointment, system: Zone)
      requires Valid()
      modifies this`rows
      ensures Valid()
      ensures rows == Replaced(old(rows), StoredRow(appt, appt.id, system))
      ensures forall i, j :: 0 <= i < j < |rows| ==> rows[i] == old(rows)[i] || rows[j] == old(rows)[j]
    {
      ReplacedAtMostOne(rows, StoredRow(appt, appt.id, system));
      rows := Replaced(rows, StoredRow(appt, appt.id, system));
    }

    /** Deletes the row with key `apptId`, and no other. */
    method DeleteAppointment(apptId: int)
      requires Valid()
      modifies this`rows
      ensures Valid()
      ensures rows == Retain(old(rows), WithoutId(apptId))
    {
      RetainContents(rows, WithoutId(apptId));
      RetainIdsIncreasing(rows, WithoutId(apptId));
      rows := Retain(rows, WithoutId(apptId));
    }

    /** Deletes every appointment of customer `customerId`. */
    method DeleteByCustomerId(customerId: int)
      requires Valid()
      modifies this`rows
      ensures Valid()
      ensures rows == Retain(old(rows), WithoutCustomer(customerId))
    {
      RetainContents(rows, WithoutCustomer(customerId));
      RetainIdsIncreasing(rows, WithoutCustomer(customerId));
      rows := Retain(rows, WithoutCustomer(customerId));
    }

    /**
     * The per-row reader shared by getAllAppointments, getAppointmentsByCustomer and
     * getAppointmentsByUser: one fresh model per joined row, in table order, with
     * start and end moved from UTC to `system`.
     */
    method ReadAppointments(keep: Row -> bool, contactNames: map<int, string>, system: Zone)
      returns (list: seq<Appointment>)
      ensures |list| == |Joined(rows, keep, contactNames)|
      ensures forall k :: 0 <= k < |list| ==>
                fresh(list[k]) && LoadedFrom(list[k], Joined(rows, keep, contactNames)[k], contactNames, system)
    {
      ghost var accept := JoinsContact(keep, contactNames);
      ghost var joined := [];
      var all := rows;
      list := [];
      var i := 0;
      while i < |all|
        invariant 0 <= i <= |all|
        invariant joined == Retain(all[..i], accept)
        invariant |list| == |joined|
        invariant forall k :: 0 <= k < |list| ==> fresh(list[k]) && LoadedFrom(list[k], joined[k], contactNames, system)
      {
        var r := all[i];
        RetainStep(all, i, accept);
        if keep(r) && r.contactId in contactNames {
          var a := new Appointment(r.id, r.title, r.description, r.location, r.appointmentType,
                                   FromUtc(r.start, system), FromUtc(r.end, system),
                                   r.customerId, r.userId, r.contactId, contactNames[r.contactId]);
          assert LoadedFrom(a, r, contactNames, system);
          ghost var before := list;
          list, joined := list + [a], joined + [r];
          forall k | 0 <= k < |list|
            ensures fresh(list[k]) && LoadedFrom(list[k], joined[k], contactNames, system)
          {
            if k < |before| {
              assert list[k] == before[k];
            }
          }
        }
        i := i + 1;
      }
      assert all[..i] == all;
    }

    /** getAllAppointments: every appointment whose contact exists. */
    method GetAllAppointments(contactNames: map<int, string>, system: Zone)
      returns (list: seq<Appointment>)
      ensures |list| == |Joined(rows, AnyRow(), contactNames)|
      ensures forall k :: 0 <= k < |list| ==>
                fresh(list[k]) && LoadedFrom(list[k], Joined(rows, AnyRow(), contactNames)[k], contactNames, system)
    {
      list := ReadAppointments(AnyRow(), contactNames, system);
    }

    /** getAppointmentsByCustomer: the appointments of customer `customerId`. */
    method GetAppointmentsByCustomer(customerId: int, contactNames: map<int, string>, system: Zone)
      returns (list: seq<Appointment>)
      ensures |list| == |Joined(rows, OfCustomer(customerId), contactNames)|
      ensures forall k :: 0 <= k < |list| ==>
                && fresh(list[k]) && list[k].customerId == customerId
                && LoadedFrom(list[k], Joined(rows, OfCustomer(customerId), contactNames)[k], contactNames, system)
    {
      list := ReadAppointments(OfCustomer(customerId), contactNames, system);
      RetainContents(rows, JoinsContact(OfCustomer(customerId), contactNames));
      forall k | 0 <= k < |list|
        ensures list[k].customerId == customerId
      {
        var joined := Joined(rows, OfCustomer(customerId), contactNames);
        assert joined[k] in joined;
      }
    }

    /** getAppointmentsByUser: the appointments of user `userId`. */
    method GetAppointmentsByUser(userId: int, contactNames: map<int, string>, system: Zone)
      returns (list: seq<Appointment>)
      ensures |list| == |Joined(rows, OfUser(userId), contactNames)|
      ensures forall k :: 0 <= k < |list| ==>
                && fresh(list[k]) && list[k].userId == userId
                && LoadedFrom(list[k], Joined(rows, OfUser(userId), contactNames)[k], contactNames, system)
    {
      list := ReadAppointments(OfUser(userId), contactNames, system);
      RetainContents(rows, JoinsContact(OfUser(userId), contactNames));
      forall k | 0 <= k < |list|
        ensures list[k].userId == userId
      {
        var joined := Joined(rows, OfUser(userId), contactNames);
        assert joined[k] in joined;
      }
    }

    /**
     * getContactSchedules: one report line per appointment whose contact exists,
     * carrying the stored UTC start and end without any conversion.
     */
    method GetContactSchedules(contactNames: map<int, string>) returns (list: seq<ContactSchedule>)
      ensures |list| == |Joined(rows, AnyRow(), contactNames)|
      ensures forall k :: 0 <= k < |list| ==> ReportedFrom(list[k], Joined(rows, AnyRow(), contactNames)[k], contactNames)
    {
      ghost var accept := JoinsContact(AnyRow(), contactNames);
      ghost var joined := [];
      list := [];
      var i := 0;
      while i < |rows|
        invariant 0 <= i <= |rows|
        invariant joined == Retain(rows[..i], accept)
        invariant |list| == |joined|
        invariant forall k :: 0 <= k < |list| ==> ReportedFrom(list[k], joined[k], contactNames)
      {
        var r := rows[i];
        RetainStep(rows, i, accept);
        if r.contactId in contactNames {
          list := list + [ContactSchedule(contactNames[r.contactId], r.id, r.title, r.appointmentType,
                                          r.description, r.start, r.end, r.customerId)];
          joined := joined + [r];
        }
        i := i + 1;
      }
      assert rows[..i] == rows;
    }
  }

  /**
   * Storing an appointment and reading the table back yields, as the last model
   * read, one with the generated id and the original local start and end.
   */
  method AddThenReload(table: AppointmentTable, appt: Appointment, contactNames: map<int, string>, system: Zone)
    returns (loaded: Appointment)
    requires table.Valid() && appt.contactId in contactNames
    requires OffsetInForce(system, appt.start) && OffsetInForce(system, appt.end)
    modifies table, appt`id
    ensures table.Valid()
    ensures appt.id == old(table.nextKey) && table.nextKey == old(table.nextKey) + 1
    ensures table.rows == old(table.rows) + [StoredRow(appt, appt.id, system)]
    ensures fresh(loaded) && loaded.id == appt.id && loaded.start == appt.start && loaded.end == appt.end
  {
    table.AddAppointment(appt, system);
    var all := table.GetAllAppointments(contactNames, system);
    var stored := StoredRow(appt, appt.id, system);
    RetainAppend(old(table.rows), stored, JoinsContact(AnyRow(), contactNames));
    ReadInvertsWrite(appt, appt.id, system);
    loaded := all[|all| - 1];
  }
}
