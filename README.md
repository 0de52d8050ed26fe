# Classroom reservations: domain model and in-memory repositories

This project models, in Dafny, the core of a classroom reservation system
(ReservasAulas): the booking of a room by a teacher for a time slot, the
repositories that hold rooms and bookings, and the model object that ties
them together and deletes the bookings of a room or teacher when that room
or teacher is deleted.

- `outcomes.dfy` (`Outcomes`): `Option` stands for a nullable reference,
  `Error` for the exceptions thrown (IllegalArgumentException,
  OperationNotSupportedException, DateTimeParseException), `Result` and
  `Outcome` for a method that returns a value or nothing, or throws.
- `slots.dfy` (`Slots`): a slot ("permanencia") is a day plus either an
  hour between 8 and 22 (3 points) or a half-day segment (10 points). The
  abstract base class exists twice in the source (`dominio.Permanencia`, the
  legacy one, and `dominio.permanencia.Permanencia`); both become the `day`
  field of the closed datatype `Slot = HourSlot(day, hour) | RangeSlot(day, segment)`.
  The validating setters and constructors are functions returning `Result`.
- `bookings.dfy` (`Bookings`): a booking ("reserva") of a teacher, a room
  and a slot. Two bookings are equal when room and slot are equal, whoever
  the teacher; this is what stops a room from being booked twice.
- `registry.dfy` (`Registry`): the booking registry ("Reservas") as a class
  over `seq<Booking>` whose invariant is that no two stored bookings share a
  room and a slot; specification functions for `ArrayList.indexOf`, the
  three query filters and availability; the lemmas behind the cascades.
- `catalog.dfy` (`Catalogs`): the room catalog ("Aulas") as a generic class
  over a duplicate-free `seq`; the teacher catalog ("Profesores", whose source
  is not part of this model) is the same class instantiated with teachers.
- `sequences.dfy` (`Sequences`): removal at a position, the effect of
  `ArrayList.remove`.
- `service.dfy` (`Service`): the model object ("ModeloReservasAulas") owning
  the two catalogs and the registry, and a small client of it.

Bookings are made with `realizarReserva(Reserva)` and nothing in the
model checks that the booking's room and teacher are in the catalogs (the
text user interface checks this before calling it). The registry's source
imports the legacy slot class while bookings carry the newer one; the model
has one slot type, so the queries by slot and the availability check compare
like with like.

## Model

| member | source | states |
|---|---|---|
| Slots.SetDay | src/main/java/org/iesalandalus/programacion/reservasaulas/modelo/dominio/permanencia/Permanencia.java:54-58 | a null day fails with IllegalArgument; any other day is stored unchanged, so getDia returns an equal date (same in the legacy base class) |
| Slots.SetDayText | src/main/java/org/iesalandalus/programacion/reservasaulas/modelo/dominio/permanencia/Permanencia.java:65-73 | a null day string fails with IllegalArgument; text that does not parse fails with IllegalArgument, not with a parse exception; otherwise the parsed day is stored |
| Slots.LegacySetDayText | src/main/java/org/iesalandalus/programacion/reservasaulas/modelo/dominio/Permanencia.java:63-69 | null and empty strings fail with IllegalArgument; a non-empty string that does not parse escapes as DateTimeParse; otherwise the parsed day is stored |
| Slots.LegacyDayTextAgrees | src/main/java/org/iesalandalus/programacion/reservasaulas/modelo/dominio/Permanencia.java:63-69 | on non-empty text the legacy and newer setters succeed on the same strings with the same day, and differ only in the error a parse failure raises |
| Slots.DayOf | src/main/java/org/iesalandalus/programacion/reservasaulas/modelo/dominio/permanencia/Permanencia.java:29-39 | the day constructors take a date value through the date setter and text through the text setter; errors are IllegalArgument |
| Slots.SetHourAsWritten | src/main/java/org/iesalandalus/programacion/reservasaulas/modelo/dominio/permanencia/PermanenciaPorHora.java:87-95 | as written: a time is accepted iff it is non-null, its hour is in 8..22 and its minute is 0; the whole time, seconds included, is stored |
| Slots.AsWrittenAcceptsOffTheHour | src/main/java/org/iesalandalus/programacion/reservasaulas/modelo/dominio/permanencia/PermanenciaPorHora.java:90-94 | the setter as written accepts both 09:00:00 and 09:00:30 and stores two different times for the same hour |
| Slots.SetHour | src/main/java/org/iesalandalus/programacion/reservasaulas/modelo/dominio/permanencia/PermanenciaPorHora.java:87-95 | corrected: a time is accepted iff it is non-null, its hour is in 8..22 and it is exactly on the hour; the stored hour determines the time; 8 and 22 are accepted, every rejection is IllegalArgument |
| Slots.SetHourRefinesAsWritten | src/main/java/org/iesalandalus/programacion/reservasaulas/modelo/dominio/permanencia/PermanenciaPorHora.java:87-95 | the corrected setter accepts exactly the on-the-hour times the setter as written accepts, keeps the same hour, and rejects more only for non-zero seconds or nanoseconds |
| Slots.SetHourText | src/main/java/org/iesalandalus/programacion/reservasaulas/modelo/dominio/permanencia/PermanenciaPorHora.java:101-116 | null or text that does not parse as HH:mm fails with IllegalArgument; otherwise the same range and minute checks as the time setter decide, and the parsed hour is kept |
| Slots.HourOf | src/main/java/org/iesalandalus/programacion/reservasaulas/modelo/dominio/permanencia/PermanenciaPorHora.java:29-62 | the hour constructors take a time value through the corrected time setter (Slots.SetHour, see Findings) and text through the text setter; an accepted hour lies in 8..22 |
| Slots.NewHourSlot | src/main/java/org/iesalandalus/programacion/reservasaulas/modelo/dominio/permanencia/PermanenciaPorHora.java:29-62 | an hour slot is built iff the day is accepted and the corrected time setter accepts the hour (see Findings); it is an hour slot with that day and hour in 8..22; otherwise IllegalArgument |
| Slots.NewRangeSlot | src/main/java/org/iesalandalus/programacion/reservasaulas/modelo/dominio/permanencia/PermanenciaPorTramo.java:22-35 | a segment slot is built iff the day is accepted and the segment is non-null (setTramo); it carries that day and segment; otherwise IllegalArgument |
| Slots.CopySlot | src/main/java/org/iesalandalus/programacion/reservasaulas/modelo/dominio/permanencia/PermanenciaPorHora.java:68-73 | copying null fails with IllegalArgument; the hour is checked again by the corrected time setter; the copy of a valid slot equals the original and keeps its kind (also PermanenciaPorTramo.java:41-46) |
| Slots.SlotPoints | src/main/java/org/iesalandalus/programacion/reservasaulas/modelo/dominio/permanencia/PermanenciaPorHora.java:122-124 | an hour slot costs 3 points and a segment slot 10 (PermanenciaPorTramo.java:70-72), so the points tell the kind apart |
| Slots.SlotEquality | src/main/java/org/iesalandalus/programacion/reservasaulas/modelo/dominio/permanencia/PermanenciaPorHora.java:138-145 | two slots are equal iff they are of the same kind with the same day and the same hour or segment; an hour slot never equals a segment slot (PermanenciaPorTramo.java:86-93) |
| Bookings.Equals | src/main/java/org/iesalandalus/programacion/reservasaulas/modelo/dominio/Reserva.java:155-164 | equals is false for null, and otherwise holds iff the rooms are equal and the slots are equal |
| Bookings.EqualsIgnoresTeacher | src/main/java/org/iesalandalus/programacion/reservasaulas/modelo/dominio/Reserva.java:161 | bookings that differ only in the teacher are equal, in both directions |
| Bookings.EqualsIsEquivalence | src/main/java/org/iesalandalus/programacion/reservasaulas/modelo/dominio/Reserva.java:161 | equals is reflexive, symmetric and transitive |
| Bookings.NewBooking | src/main/java/org/iesalandalus/programacion/reservasaulas/modelo/dominio/Reserva.java:35-39 | a null teacher, room or slot fails with IllegalArgument (setters at lines 65-67, 88-90, 111-113); otherwise the getters return what was given and the slot keeps its kind |
| Bookings.CopyBooking | src/main/java/org/iesalandalus/programacion/reservasaulas/modelo/dominio/Reserva.java:49-55 | copying null fails with IllegalArgument; a copy is equal to the original, teacher included |
| Bookings.BookingPoints | src/main/java/org/iesalandalus/programacion/reservasaulas/modelo/dominio/Reserva.java:137-139 | a booking costs its room's points plus 3 for an hour slot or 10 for a segment slot |
| Registry.IndexOf | src/main/java/org/iesalandalus/programacion/reservasaulas/modelo/dao/Reservas.java:100-102 | indexOf returns -1 iff no stored booking equals the argument, and otherwise the first position of an equal booking |
| Registry.SelectMembers | src/main/java/org/iesalandalus/programacion/reservasaulas/modelo/dao/Reservas.java:138-143 | a query's answer holds exactly the stored bookings the criterion selects |
| Registry.RejectMembers | src/main/java/org/iesalandalus/programacion/reservasaulas/modelo/ModeloReservasAulas.java:114-116 | what a cascade leaves holds exactly the stored bookings the criterion does not select |
| Registry.InsertKeepsUnique | src/main/java/org/iesalandalus/programacion/reservasaulas/modelo/dao/Reservas.java:87-89 | appending a booking equal to none stored keeps every (room, slot) pair unique |
| Registry.RemoveKeepsUnique | src/main/java/org/iesalandalus/programacion/reservasaulas/modelo/dao/Reservas.java:114 | removing any stored booking keeps every (room, slot) pair unique |
| Registry.RemovedIsAvailable | src/main/java/org/iesalandalus/programacion/reservasaulas/modelo/dao/Reservas.java:111-115 | under unique keys, after removing the booking equal to b, b's room is available in b's slot |
| Registry.AvailableIffAbsent | src/main/java/org/iesalandalus/programacion/reservasaulas/modelo/dao/Reservas.java:203-213 | a room is available in a slot iff no stored booking equals a booking for that room and slot, whatever its teacher |
| Registry.BookThenCancel | src/main/java/org/iesalandalus/programacion/reservasaulas/modelo/dao/Reservas.java:84-116 | booking a free (room, slot) makes it unavailable and keeps keys unique; cancelling that booking finds it at the end and gives back the original registry |
| Registry.SelectKeepsUnique | src/main/java/org/iesalandalus/programacion/reservasaulas/modelo/dao/Reservas.java:152-161 | the answer of a query on a registry with unique keys has unique keys, so no snapshot element repeats |
| Registry.KeepAll | src/main/java/org/iesalandalus/programacion/reservasaulas/modelo/ModeloReservasAulas.java:114 | before the cascade loop, the registry is the snapshot-relative view with the whole snapshot still to delete |
| Registry.KeepNone | src/main/java/org/iesalandalus/programacion/reservasaulas/modelo/ModeloReservasAulas.java:115-116 | once the whole snapshot is deleted, exactly the bookings the criterion does not select remain, in order |
| Registry.KeepStep | src/main/java/org/iesalandalus/programacion/reservasaulas/modelo/ModeloReservasAulas.java:115-116 | each snapshot element is still stored when its deletion comes, the deletion removes exactly it, and the rest of the registry is untouched |
| Registry.SelectRejectSplit | src/main/java/org/iesalandalus/programacion/reservasaulas/modelo/ModeloReservasAulas.java:111-117 | a cascade removes exactly the bookings its query returns: counts and multisets of selected plus remaining equal those of the registry |
| Registry.AvailabilityIgnoresKind | src/main/java/org/iesalandalus/programacion/reservasaulas/modelo/dao/Reservas.java:203-213 | as written: with a morning of day d booked for a room, the hour slot of d is reported available and a booking of it is accepted, leaving the room with both kinds on d; the documented check refuses that question |
| Registry.DocumentedAvailability | src/main/java/org/iesalandalus/programacion/reservasaulas/modelo/ModeloReservasAulas.java:319-326 | corrected: a null room or slot, or a slot whose kind differs from that of a booking of the room on the same day, fails with IllegalArgument (both directions); otherwise the answer is whether the room is free in that slot |
| Registry.DocumentedCheckKeepsKinds | src/main/java/org/iesalandalus/programacion/reservasaulas/modelo/ModeloReservasAulas.java:319-326 | booking a slot the documented check reports free keeps the keys unique and keeps every room to one kind of slot per day |
| Registry.BookingRegistry.constructor | src/main/java/org/iesalandalus/programacion/reservasaulas/modelo/dao/Reservas.java:27-29 | a new registry is empty |
| Registry.BookingRegistry.GetBookings | src/main/java/org/iesalandalus/programacion/reservasaulas/modelo/dao/Reservas.java:55-68 | the copy returned has the stored bookings, same length and order |
| Registry.BookingRegistry.Count | src/main/java/org/iesalandalus/programacion/reservasaulas/modelo/dao/Reservas.java:74-76 | the count is the number of stored bookings |
| Registry.BookingRegistry.Insert | src/main/java/org/iesalandalus/programacion/reservasaulas/modelo/dao/Reservas.java:84-90 | null fails with IllegalArgument and a booking equal to a stored one with OperationNotSupported, both leaving the registry unchanged; otherwise the booking is appended; unique keys are preserved |
| Registry.BookingRegistry.Find | src/main/java/org/iesalandalus/programacion/reservasaulas/modelo/dao/Reservas.java:97-103 | null or absent gives null; otherwise the stored booking with the same room and slot, the only one there is |
| Registry.BookingRegistry.Remove | src/main/java/org/iesalandalus/programacion/reservasaulas/modelo/dao/Reservas.java:111-116 | null fails with IllegalArgument and an absent booking with OperationNotSupported, leaving the registry unchanged; otherwise the equal booking is removed, the others keep their order, and its room and slot become available |
| Registry.BookingRegistry.Matching | src/main/java/org/iesalandalus/programacion/reservasaulas/modelo/dao/Reservas.java:138-143 | the query loop returns copies of exactly the stored bookings the criterion selects, in stored order |
| Registry.BookingRegistry.BookingsForTeacher | src/main/java/org/iesalandalus/programacion/reservasaulas/modelo/dao/Reservas.java:135-144 | null fails with IllegalArgument; otherwise exactly the stored bookings of that teacher, in stored order |
| Registry.BookingRegistry.BookingsForRoom | src/main/java/org/iesalandalus/programacion/reservasaulas/modelo/dao/Reservas.java:152-161 | null fails with IllegalArgument; otherwise exactly the stored bookings of that room, in stored order |
| Registry.BookingRegistry.BookingsForSlot | src/main/java/org/iesalandalus/programacion/reservasaulas/modelo/dao/Reservas.java:186-195 | null fails with IllegalArgument; otherwise exactly the stored bookings for that slot, in stored order |
| Registry.BookingRegistry.IsAvailable | src/main/java/org/iesalandalus/programacion/reservasaulas/modelo/dao/Reservas.java:203-213 | a null room or slot fails with IllegalArgument; otherwise true iff no stored booking is for that room in that slot |
| Catalogs.Position | src/main/java/org/iesalandalus/programacion/reservasaulas/modelo/dao/Aulas.java:98-100 | indexOf returns -1 iff the entity is absent, and otherwise its first position |
| Catalogs.InsertDistinct | src/main/java/org/iesalandalus/programacion/reservasaulas/modelo/dao/Aulas.java:82-88 | inserting entities distinct from each other and from those stored appends all of them, in order |
| Catalogs.InsertIntoEmpty | src/main/java/org/iesalandalus/programacion/reservasaulas/modelo/dao/Aulas.java:24-26 | after N inserts of distinct rooms into an empty catalog, the count is N and the catalog holds exactly those rooms, in order |
| Catalogs.Catalog.constructor | src/main/java/org/iesalandalus/programacion/reservasaulas/modelo/dao/Aulas.java:24-26 | a new catalog is empty |
| Catalogs.Catalog.GetItems | src/main/java/org/iesalandalus/programacion/reservasaulas/modelo/dao/Aulas.java:53-66 | the copy returned has the stored rooms, same length and order |
| Catalogs.Catalog.Count | src/main/java/org/iesalandalus/programacion/reservasaulas/modelo/dao/Aulas.java:72-74 | the count is the length of the stored list |
| Catalogs.Catalog.Insert | src/main/java/org/iesalandalus/programacion/reservasaulas/modelo/dao/Aulas.java:82-88 | null fails with IllegalArgument and a present room with OperationNotSupported, both leaving the catalog unchanged; otherwise the room is appended and the catalog stays duplicate-free |
| Catalogs.Catalog.Find | src/main/java/org/iesalandalus/programacion/reservasaulas/modelo/dao/Aulas.java:95-101 | null or absent gives null; otherwise the stored room equal to the argument |
| Catalogs.Catalog.Remove | src/main/java/org/iesalandalus/programacion/reservasaulas/modelo/dao/Aulas.java:109-114 | null fails with IllegalArgument and an absent room with OperationNotSupported; otherwise that room is removed, every other stays and keeps its order |
| Service.ReservationService.constructor | src/main/java/org/iesalandalus/programacion/reservasaulas/modelo/ModeloReservasAulas.java:40-44 | a new model has empty teacher, room and booking collections |
| Service.ReservationService.GetRooms | src/main/java/org/iesalandalus/programacion/reservasaulas/modelo/ModeloReservasAulas.java:51-53 | returns the room catalog's list |
| Service.ReservationService.RoomCount | src/main/java/org/iesalandalus/programacion/reservasaulas/modelo/ModeloReservasAulas.java:60-62 | returns the room catalog's size |
| Service.ReservationService.FindRoom | src/main/java/org/iesalandalus/programacion/reservasaulas/modelo/ModeloReservasAulas.java:82-84 | returns the catalogued room equal to the argument, or null |
| Service.ReservationService.InsertRoom | src/main/java/org/iesalandalus/programacion/reservasaulas/modelo/ModeloReservasAulas.java:96-98 | passes the room catalog's insertion outcome through; teachers and bookings are untouched |
| Service.ReservationService.DeleteRoom | src/main/java/org/iesalandalus/programacion/reservasaulas/modelo/ModeloReservasAulas.java:111-117 | a null or absent room fails before any booking is touched and nothing changes; otherwise the room is removed, no booking is left for it, and every booking for another room remains in its order |
| Service.ReservationService.GetTeachers | src/main/java/org/iesalandalus/programacion/reservasaulas/modelo/ModeloReservasAulas.java:125-127 | returns the teacher catalog's list |
| Service.ReservationService.TeacherCount | src/main/java/org/iesalandalus/programacion/reservasaulas/modelo/ModeloReservasAulas.java:135-137 | returns the teacher catalog's size |
| Service.ReservationService.FindTeacher | src/main/java/org/iesalandalus/programacion/reservasaulas/modelo/ModeloReservasAulas.java:158-160 | returns the catalogued teacher equal to the argument, or null |
| Service.ReservationService.InsertTeacher | src/main/java/org/iesalandalus/programacion/reservasaulas/modelo/ModeloReservasAulas.java:172-174 | passes the teacher catalog's insertion outcome through; rooms and bookings are untouched |
| Service.ReservationService.DeleteTeacher | src/main/java/org/iesalandalus/programacion/reservasaulas/modelo/ModeloReservasAulas.java:187-193 | a null or absent teacher fails and nothing changes; otherwise the teacher is removed, no booking of that teacher is left, and every other booking remains in its order |
| Service.ReservationService.DeleteEach | src/main/java/org/iesalandalus/programacion/reservasaulas/modelo/ModeloReservasAulas.java:114-116 | deleting the snapshot one by one never fails and leaves exactly the bookings the criterion does not select, in order |
| Service.ReservationService.GetBookings | src/main/java/org/iesalandalus/programacion/reservasaulas/modelo/ModeloReservasAulas.java:201-203 | returns the registry's list |
| Service.ReservationService.BookingCount | src/main/java/org/iesalandalus/programacion/reservasaulas/modelo/ModeloReservasAulas.java:211-213 | returns the registry's size |
| Service.ReservationService.FindBooking | src/main/java/org/iesalandalus/programacion/reservasaulas/modelo/ModeloReservasAulas.java:234-236 | returns the stored booking with the argument's room and slot, or null |
| Service.ReservationService.Book | src/main/java/org/iesalandalus/programacion/reservasaulas/modelo/ModeloReservasAulas.java:248-250 | passes the registry's insertion outcome through unchanged, without looking the room or teacher up in the catalogs |
| Service.ReservationService.Cancel | src/main/java/org/iesalandalus/programacion/reservasaulas/modelo/ModeloReservasAulas.java:263-265 | passes the registry's deletion outcome through unchanged; after a successful cancel the room is available in that slot |
| Service.ReservationService.BookingsForRoom | src/main/java/org/iesalandalus/programacion/reservasaulas/modelo/ModeloReservasAulas.java:277-279 | returns exactly the registry's answer: the stored bookings of the room, or IllegalArgument for null |
| Service.ReservationService.BookingsForTeacher | src/main/java/org/iesalandalus/programacion/reservasaulas/modelo/ModeloReservasAulas.java:291-293 | returns exactly the registry's answer: the stored bookings of the teacher, or IllegalArgument for null |
| Service.ReservationService.BookingsForSlot | src/main/java/org/iesalandalus/programacion/reservasaulas/modelo/ModeloReservasAulas.java:305-307 | returns exactly the registry's answer: the stored bookings for the slot, or IllegalArgument for null |
| Service.ReservationService.IsAvailable | src/main/java/org/iesalandalus/programacion/reservasaulas/modelo/ModeloReservasAulas.java:324-326 | returns exactly the registry's availability answer |

## Findings

| source | as written | input that shows it | evidently intended | confidence | as-written member | corrected member |
|---|---|---|---|---|---|---|
| src/main/java/org/iesalandalus/programacion/reservasaulas/modelo/dominio/permanencia/PermanenciaPorHora.java:87-95 | the time setter checks the hour range and that the minute is 0, then stores the whole LocalTime; equals compares the whole LocalTime | `new PermanenciaPorHora(day, LocalTime.of(9, 0, 30))` is accepted and is not equal to the slot for 09:00 of the same day, so the same room can be booked twice for 9 o'clock | the hour must be an exact hour (the error message says so): seconds and nanoseconds must be 0 too, so that equal hours give equal slots | medium; not executed | Slots.AsWrittenAcceptsOffTheHour (on Slots.SetHourAsWritten) | Slots.SetHour (with Slots.SetHourRefinesAsWritten); `Slot` keeps only the hour |
| src/main/java/org/iesalandalus/programacion/reservasaulas/modelo/ModeloReservasAulas.java:319-326 | consultarDisponibilidad is documented to throw IllegalArgumentException when the slot's kind differs from that of the bookings of the room on that day, but it only delegates to Reservas.java:203-213, which checks for null and compares whole slots | a registry holding (t, a, morning of day d) answers available for (a, 9 o'clock of d), and inserting (t', a, 9 o'clock of d) then succeeds, so room a has a segment and an hour booking on the same day | the query is refused with IllegalArgumentException when the kinds clash, so a free answer never leads to a mixed day | medium; not executed | Registry.AvailabilityIgnoresKind (on Registry.Available and Registry.BookingRegistry.Insert) | Registry.DocumentedAvailability (with Registry.DocumentedCheckKeepsKinds) |

## Left out

- The text user interface, the console and the entry point (menu loop, keyboard reads, printing): I/O with no domain rules.
- Date and time parsing: `LocalDate.parse` (dd/MM/uuuu) and `LocalTime.parse` (HH:mm) are library code; they are the function parameters `parse` of the text setters, and only their failure outcome is modelled.
- The no-argument slot constructors, which read the clock (a month from today): non-deterministic.
- Floating point: `Reserva.getPuntos` returns a float; points are integers here, and a room's points (not part of this model) are the parameter `roomPoints`.
- `hashCode` (including the booking's, which also hashes the teacher) and `toString`/`representar`: the lists use only `equals`, and the text forms depend on classes not part of this model.
- Object identity and defensive copies: entities are values, so a copy is the value itself; the copy constructors of the two repositories (`Reservas(Reservas)`, `Aulas(Aulas)`) are not modelled.
- `Aula`, `Profesor`, `Profesores` and `Tramo` are not part of this model: rooms and teachers are named values compared with `==`, the segment is a two-value enumeration, the teacher catalog is the room catalog's class.
- Slots.HourOf, Slots.NewHourSlot, Slots.CopySlot: they build on the corrected hour setter, so a time with non-zero seconds or nanoseconds, which the source's constructors accept, is refused here (see Findings).
- Registry.BookingRegistry.IsAvailable, Service.ReservationService.IsAvailable: they follow the code and do not raise the IllegalArgumentException documented for a slot of the other kind (see Findings); the documented check is Registry.DocumentedAvailability. No booking path of the model uses either check, because realizarReserva does not consult availability.
- Bookings.Equals: the argument is a booking or null; a non-booking argument, for which the source returns false, cannot be written in the model's types.
- Java `int` sizes: counts are unbounded integers; lists never approach 2^31 elements.
- The mismatch between the legacy slot class imported by the registry and the newer one carried by bookings: both are the one `Slot` type.
