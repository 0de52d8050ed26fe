/**
 * The reservation model (ModeloReservasAulas): owns the room catalog, the
 * teacher catalog and the booking registry, delegates to them, and deletes
 * the bookings of a room or a teacher when the room or teacher is deleted.
 */
module Service {
  import opened Outcomes
  import opened Slots
  import opened Bookings
  import opened Sequences
  import opened Registry
  import opened Catalogs

  class ReservationService {
    const teachers: Catalog<Teacher>
    const rooms: Catalog<Room>
    const registry: BookingRegistry

    ghost predicate Valid()
      reads this, teachers, rooms, registry
    {
      && teachers.Valid() && rooms.Valid() && registry.Valid()
      && teachers as object != rooms as object
    }

    /** ModeloReservasAulas(): empty teacher, room and booking collections. */
    constructor ()
      ensures Valid() && fresh(teachers) && fresh(rooms) && fresh(registry)
      ensures teachers.items == [] && rooms.items == [] && registry.bookings == []
    {
      teachers := new Catalog<Teacher>();
      rooms := new Catalog<Room>();
      registry := new BookingRegistry();
    }

    // ------------------------------------------------------------- rooms

    /** getAulas: the room catalog's list. */
    method GetRooms() returns (r: seq<Room>)
      ensures r == rooms.items
    {
      r := rooms.GetItems();
    }

    /** getNumAulas: the room catalog's size. */
    method RoomCount() returns (n: int)
      ensures n == |rooms.items|
    {
      n := rooms.Count();
    }

    /** buscarAula: the stored room equal to the argument, or null. */
    method FindRoom(a: Option<Room>) returns (r: Option<Room>)
      ensures r.Some? <==> a.Some? && a.value in rooms.items
      ensures r.Some? ==> r.value == a.value
    {
      r := rooms.Find(a);
    }

    /** insertarAula: the room catalog's insertion; bookings and teachers are untouched. */
    method InsertRoom(a: Option<Room>) returns (r: Outcome)
      requires Valid()
      modifies rooms
      ensures Valid()
      ensures teachers.items == old(teachers.items) && registry.bookings == old(registry.bookings)
      ensures a.None? ==> r == Fail(IllegalArgument) && rooms.items == old(rooms.items)
      ensures a.Some? && a.value in old(rooms.items) ==> r == Fail(OperationNotSupported) && rooms.items == old(rooms.items)
      ensures a.Some? && a.value !in old(rooms.items) ==> r == Pass && rooms.items == old(rooms.items) + [a.value]
    {
      r := rooms.Insert(a);
    }

    /**
     * borrarAula: the room is deleted first (a null or absent room fails
     * there and nothing changes); then every booking of the room, taken from
     * a snapshot of the registry's query, is deleted. The deletions never
     * fail, and afterwards no booking is for that room while the others
     * remain in their order.
     */
    method DeleteRoom(a: Option<Room>) returns (r: Outcome)
      requires Valid()
      modifies rooms, registry
      ensures Valid()
      ensures teachers.items == old(teachers.items)
      ensures a.None? ==> r == Fail(IllegalArgument)
      ensures a.Some? && a.value !in old(rooms.items) ==> r == Fail(OperationNotSupported)
      ensures r.Fail? ==> rooms.items == old(rooms.items) && registry.bookings == old(registry.bookings)
      ensures a.Some? && a.value in old(rooms.items) ==>
                && r == Pass
                && rooms.items == RemoveAt(old(rooms.items), Position(old(rooms.items), a.value))
                && registry.bookings == Reject(old(registry.bookings), RoomIs(a.value))
                && forall x :: x in registry.bookings ==> x.room != a.value
    {
      r := rooms.Remove(a);
      if r.Fail? {
        return;
      }
      ghost var before := registry.bookings;
      var snapshot := registry.BookingsForRoom(a);
      DeleteEach(RoomIs(a.value), snapshot.value);
      RejectMembers(before, RoomIs(a.value));
    }

    // ---------------------------------------------------------- teachers

    /** getProfesores: the teacher catalog's list. */
    method GetTeachers() returns (r: seq<Teacher>)
      ensures r == teachers.items
    {
      r := teachers.GetItems();
    }

    /** getNumProfesores: the teacher catalog's size. */
    method TeacherCount() returns (n: int)
      ensures n == |teachers.items|
    {
      n := teachers.Count();
    }

    /** buscarProfesor: the stored teacher equal to the argument, or null. */
    method FindTeacher(t: Option<Teacher>) returns (r: Option<Teacher>)
      ensures r.Some? <==> t.Some? && t.value in teachers.items
      ensures r.Some? ==> r.value == t.value
    {
      r := teachers.Find(t);
    }

    /** insertarProfesor: the teacher catalog's insertion; bookings and rooms are untouched. */
    method InsertTeacher(t: Option<Teacher>) returns (r: Outcome)
      requires Valid()
      modifies teachers
      ensures Valid()
      ensures rooms.items == old(rooms.items) && registry.bookings == old(registry.bookings)
      ensures t.None? ==> r == Fail(IllegalArgument) && teachers.items == old(teachers.items)
      ensures t.Some? && t.value in old(teachers.items) ==> r == Fail(OperationNotSupported) && teachers.items == old(teachers.items)
      ensures t.Some? && t.value !in old(teachers.items) ==> r == Pass && teachers.items == old(teachers.items) + [t.value]
    {
      r := teachers.Insert(t);
    }

    /**
     * borrarProfesor: the teacher is deleted first (a null or absent
     * teacher fails there and nothing changes); then every booking made by
     * the teacher is deleted, and the other bookings remain in their order.
     */
    method DeleteTeacher(t: Option<Teacher>) returns (r: Outcome)
      requires Valid()
      modifies teachers, registry
      ensures Valid()
      ensures rooms.items == old(rooms.items)
      ensures t.None? ==> r == Fail(IllegalArgument)
      ensures t.Some? && t.value !in old(teachers.items) ==> r == Fail(OperationNotSupported)
      ensures r.Fail? ==> teachers.items == old(teachers.items) && registry.bookings == old(registry.bookings)
      ensures t.Some? && t.value in old(teachers.items) ==>
                && r == Pass
                && teachers.items == RemoveAt(old(teachers.items), Position(old(teachers.items), t.value))
                && registry.bookings == Reject(old(registry.bookings), TeacherIs(t.value))
                && forall x :: x in registry.bookings ==> x.teacher != t.value
    {
      r := teachers.Remove(t);
      if r.Fail? {
        return;
      }
      ghost var before := registry.bookings;
      var snapshot := registry.BookingsForTeacher(t);
      DeleteEach(TeacherIs(t.value), snapshot.value);
      RejectMembers(before, TeacherIs(t.value));
    }

    /**
     * The loop both cascades share: delete, one by one, the bookings of a
     * snapshot of what c selects. Each is still stored when its turn comes,
     * because no two stored bookings share a room and a slot.
     */
    method DeleteEach(c: Criterion, snapshot: seq<Booking>)
      requires Valid() && snapshot == Select(registry.bookings, c)
      modifies registry
      ensures Valid()
      ensures registry.bookings == Reject(old(registry.bookings), c)
    {
      ghost var s := registry.bookings;
      SelectKeepsUnique(s, c);
      SelectMembers(s, c);
      KeepAll(s, c, snapshot);
      var k := 0;
      while k < |snapshot|
        invariant 0 <= k <= |snapshot|
        invariant Valid()
        invariant registry.bookings == Keep(s, c, snapshot[k..])
      {
        var rest := snapshot[k..];
        UniqueNotRepeated(snapshot, k);
        assert rest[1..] == snapshot[k + 1..];
        assert rest[0] in snapshot;
        KeepStep(s, c, rest);
        var o := registry.Remove(Some(snapshot[k]));
        assert o == Pass;
        k := k + 1;
      }
      assert snapshot[k..] == [];
      KeepNone(s, c);
    }

    // ---------------------------------------------------------- bookings

    /** getReservas: the registry's list. */
    method GetBookings() returns (r: seq<Booking>)
      ensures r == registry.bookings
    {
      r := registry.GetBookings();
    }

    /** getNumReservas: the registry's size. */
    method BookingCount() returns (n: int)
      ensures n == |registry.bookings|
    {
      n := registry.Count();
    }

    /** buscarReserva: the stored booking with the argument's room and slot, or null. */
    method FindBooking(b: Option<Booking>) returns (r: Option<Booking>)
      requires Valid()
      ensures r.Some? <==> b.Some? && Contains(registry.bookings, b.value)
      ensures r.Some? ==> r.value in registry.bookings && SameBooking(r.value, b.value)
    {
      r := registry.Find(b);
    }

    /**
     * realizarReserva: the registry's insertion, outcome passed through.
     * Neither the room nor the teacher is looked up in the catalogs.
     */
    method Book(b: Option<Booking>) returns (r: Outcome)
      requires Valid()
      modifies registry
      ensures Valid()
      ensures rooms.items == old(rooms.items) && teachers.items == old(teachers.items)
      ensures b.None? ==> r == Fail(IllegalArgument) && registry.bookings == old(registry.bookings)
      ensures b.Some? && Contains(old(registry.bookings), b.value) ==>
                r == Fail(OperationNotSupported) && registry.bookings == old(registry.bookings)
      ensures b.Some? && !Contains(old(registry.bookings), b.value) ==>
                r == Pass && registry.bookings == old(registry.bookings) + [b.value]
    {
      r := registry.Insert(b);
    }

    /** anularReserva: the registry's deletion, outcome passed through. */
    method Cancel(b: Option<Booking>) returns (r: Outcome)
      requires Valid()
      modifies registry
      ensures Valid()
      ensures rooms.items == old(rooms.items) && teachers.items == old(teachers.items)
      ensures b.None? ==> r == Fail(IllegalArgument) && registry.bookings == old(registry.bookings)
      ensures b.Some? && !Contains(old(registry.bookings), b.value) ==>
                r == Fail(OperationNotSupported) && registry.bookings == old(registry.bookings)
      ensures b.Some? && Contains(old(registry.bookings), b.value) ==>
                && r == Pass
                && registry.bookings == RemoveAt(old(registry.bookings), IndexOf(old(registry.bookings), b.value))
                && Available(registry.bookings, b.value.room, b.value.slot)
    {
      r := registry.Remove(b);
    }

    /** getReservasAula: exactly the registry's answer. */
    method BookingsForRoom(a: Option<Room>) returns (r: Result<seq<Booking>>)
      ensures a.None? ==> r == Err(IllegalArgument)
      ensures a.Some? ==> r.Ok? && forall x :: x in r.value <==> x in registry.bookings && x.room == a.value
      ensures a.Some? ==> r == Ok(Select(registry.bookings, RoomIs(a.value)))
    {
      r := registry.BookingsForRoom(a);
      if a.Some? {
        SelectMembers(registry.bookings, RoomIs(a.value));
      }
    }

    /** getReservasProfesor: exactly the registry's answer. */
    method BookingsForTeacher(t: Option<Teacher>) returns (r: Result<seq<Booking>>)
      ensures t.None? ==> r == Err(IllegalArgument)
      ensures t.Some? ==> r.Ok? && forall x :: x in r.value <==> x in registry.bookings && x.teacher == t.value
      ensures t.Some? ==> r == Ok(Select(registry.bookings, TeacherIs(t.value)))
    {
      r := registry.BookingsForTeacher(t);
      if t.Some? {
        SelectMembers(registry.bookings, TeacherIs(t.value));
      }
    }

    /** getReservasPermanencia: exactly the registry's answer. */
    method BookingsForSlot(p: Option<Slot>) returns (r: Result<seq<Booking>>)
      ensures p.None? ==> r == Err(IllegalArgument)
      ensures p.Some? ==> r.Ok? && forall x :: x in r.value <==> x in registry.bookings && x.slot == p.value
      ensures p.Some? ==> r == Ok(Select(registry.bookings, SlotIs(p.value)))
    {
      r := registry.BookingsForSlot(p);
      if p.Some? {
        SelectMembers(registry.bookings, SlotIs(p.value));
      }
    }

    /** consultarDisponibilidad: exactly the registry's answer. */
    method IsAvailable(a: Option<Room>, p: Option<Slot>) returns (r: Result<bool>)
      ensures a.None? || p.None? ==> r == Err(IllegalArgument)
      ensures a.Some? && p.Some? ==> r.Ok? && (r.value <==> Available(registry.bookings, a.value, p.value))
    {
      r := registry.IsAvailable(a, p);
    }
  }

  /**
   * A client of the model: book a room, fail to book it again for another
   * teacher, see it unavailable, cancel, and see it available again.
   */
  method BookAndCancel(t1: Teacher, t2: Teacher, a: Room, p: Slot)
  {
    var m := new ReservationService();
    var r := m.InsertRoom(Some(a));
    assert r == Pass;
    r := m.InsertTeacher(Some(t1));
    assert r == Pass;
    var before := m.IsAvailable(Some(a), Some(p));
    assert before == Ok(true);
    r := m.Book(Some(Booking(t1, a, p)));
    assert r == Pass;
    assert SameBooking(m.registry.bookings[0], Booking(t2, a, p));
    r := m.Book(Some(Booking(t2, a, p)));
    assert r == Fail(OperationNotSupported);
    var during := m.IsAvailable(Some(a), Some(p));
    assert during == Ok(false);
    r := m.Cancel(Some(Booking(t2, a, p)));
    assert r == Pass;
    var after := m.IsAvailable(Some(a), Some(p));
    assert after == Ok(true);
    assert m.registry.bookings == [];
  }
}
