/**
 * Bookings (Reserva): a teacher, a room and a slot. Two bookings are the
 * same booking when they are for the same room and the same slot, whoever
 * made them; this is the rule that keeps a room from being booked twice.
 */
module Bookings {
  import opened Outcomes
  import opened Slots

  /** A room (Aula), compared by value. */
  datatype Room = Room(name: string)

  /** A teacher (Profesor), compared by value. */
  datatype Teacher = Teacher(name: string)

  datatype Booking = Booking(teacher: Teacher, room: Room, slot: Slot)

  /** Reserva.equals on two bookings: same room and same slot; the teacher is not compared. */
  predicate SameBooking(a: Booking, b: Booking) {
    a.room == b.room && a.slot == b.slot
  }

  /** Reserva.equals(Object): false for null, otherwise the room-and-slot comparison. */
  function Equals(b: Booking, o: Option<Booking>): (r: bool)
    ensures r ==> o.Some?
    ensures o.Some? ==> (r <==> b.room == o.value.room && b.slot == o.value.slot)
  {
    match o
    case None => false
    case Some(other) => SameBooking(b, other)
  }

  /** Bookings that differ only in the teacher are equal, so a second teacher cannot take a booked room and slot. */
  lemma EqualsIgnoresTeacher(b: Booking, t: Teacher)
    ensures Equals(b, Some(b.(teacher := t)))
    ensures Equals(b.(teacher := t), Some(b))
  {
  }

  /** Reserva.equals is an equivalence on bookings. */
  lemma EqualsIsEquivalence(a: Booking, b: Booking, c: Booking)
    ensures Equals(a, Some(a))
    ensures Equals(a, Some(b)) == Equals(b, Some(a))
    ensures Equals(a, Some(b)) && Equals(b, Some(c)) ==> Equals(a, Some(c))
  {
  }

  /**
   * Reserva(profesor, aula, permanencia): each of the three is refused
   * when null; the booking keeps what it was given, so its getters return
   * values equal to the arguments and its slot keeps its kind.
   */
  function NewBooking(t: Option<Teacher>, a: Option<Room>, p: Option<Slot>): (r: Result<Booking>)
    ensures r.Ok? <==> t.Some? && a.Some? && p.Some?
    ensures r.Ok? ==> r.value.teacher == t.value && r.value.room == a.value && r.value.slot == p.value
    ensures r.Ok? ==> r.value.slot.HourSlot? == p.value.HourSlot?
    ensures r.Err? ==> r.error == IllegalArgument
  {
    match (t, a, p)
    case (Some(teacher), Some(room), Some(slot)) => Ok(Booking(teacher, room, slot))
    case _ => Err(IllegalArgument)
  }

  /** Reserva(Reserva): null is refused; a copy is equal to the original, teacher included. */
  function CopyBooking(o: Option<Booking>): (r: Result<Booking>)
    ensures r.Ok? <==> o.Some?
    ensures r.Ok? ==> r.value == o.value && Equals(r.value, o)
    ensures r.Err? ==> r.error == IllegalArgument
  {
    match o
    case None => Err(IllegalArgument)
    case Some(b) => NewBooking(Some(b.teacher), Some(b.room), Some(b.slot))
  }

  /**
   * Reserva.getPuntos: the slot's points plus the room's. The points of a
   * room are not part of this model and come in as `roomPoints`.
   */
  function BookingPoints(b: Booking, roomPoints: Room -> int): (n: int)
    ensures b.slot.HourSlot? ==> n == roomPoints(b.room) + HourPoints
    ensures b.slot.RangeSlot? ==> n == roomPoints(b.room) + SegmentPoints
  {
    SlotPoints(b.slot) + roomPoints(b.room)
  }
}
