/**
 * The booking registry (Reservas): an ordered list of bookings in which no
 * two bookings share a room and a slot. Insertion refuses a booking equal
 * to a stored one, and equality of bookings is equality of room and slot,
 * so this invariant is kept by construction.
 */
module Registry {
  import opened Outcomes
  import opened Slots
  import opened Bookings
  import opened Sequences

  /** What a query or a cascade selects bookings by. */
  datatype Criterion = RoomIs(room: Room) | TeacherIs(teacher: Teacher) | SlotIs(slot: Slot)

  predicate Selects(c: Criterion, b: Booking) {
    match c
    case RoomIs(a) => b.room == a
    case TeacherIs(t) => b.teacher == t
    case SlotIs(p) => b.slot == p
  }

  /** The registry's invariant: no two stored bookings share a room and a slot. */
  predicate UniqueKeys(s: seq<Booking>) {
    forall i, j | 0 <= i < j < |s| :: !SameBooking(s[i], s[j])
  }

  /** ArrayList.contains with Reserva.equals: some stored booking has b's room and slot. */
  predicate Contains(s: seq<Booking>, b: Booking) {
    exists k | 0 <= k < |s| :: SameBooking(s[k], b)
  }

  /** ArrayList.indexOf with Reserva.equals: the first position holding a booking equal to b, or -1. */
  function IndexOf(s: seq<Booking>, b: Booking): (i: int)
    ensures -1 <= i < |s|
    ensures i == -1 <==> !Contains(s, b)
    ensures 0 <= i ==> SameBooking(s[i], b) && forall k | 0 <= k < i :: !SameBooking(s[k], b)
  {
    if |s| == 0 then -1
    else if SameBooking(s[0], b) then 0
    else
      var j := IndexOf(s[1..], b);
      assert forall k | 1 <= k < |s| :: s[k] == s[1..][k - 1];
      if j == -1 then -1 else j + 1
  }

  /** The bookings of s that c selects, in stored order. */
  function Select(s: seq<Booking>, c: Criterion): (r: seq<Booking>)
    ensures |r| <= |s|
  {
    if s == [] then []
    else (if Selects(c, s[0]) then [s[0]] else []) + Select(s[1..], c)
  }

  /** The bookings of s that c does not select, in stored order. */
  function Reject(s: seq<Booking>, c: Criterion): (r: seq<Booking>)
    ensures |r| <= |s|
  {
    if s == [] then []
    else (if Selects(c, s[0]) then [] else [s[0]]) + Reject(s[1..], c)
  }

  /** A query's answer holds exactly the stored bookings that c selects. */
  lemma {:induction false} SelectMembers(s: seq<Booking>, c: Criterion)
    ensures forall x :: x in Select(s, c) <==> x in s && Selects(c, x)
  {
    if s != [] {
      SelectMembers(s[1..], c);
      assert s == [s[0]] + s[1..];
    }
  }

  /** What a cascade leaves holds exactly the stored bookings that c does not select. */
  lemma {:induction false} RejectMembers(s: seq<Booking>, c: Criterion)
    ensures forall x :: x in Reject(s, c) <==> x in s && !Selects(c, x)
  {
    if s != [] {
      RejectMembers(s[1..], c);
      assert s == [s[0]] + s[1..];
    }
  }

  /** consultarDisponibilidad's answer: no stored booking is for room a in slot p. */
  predicate Available(s: seq<Booking>, a: Room, p: Slot) {
    forall k | 0 <= k < |s| :: !(s[k].room == a && s[k].slot == p)
  }

  // ----------------------------------------------------- the key invariant

  /** Appending a booking that is not yet contained keeps the keys unique. */
  lemma InsertKeepsUnique(s: seq<Booking>, b: Booking)
    requires UniqueKeys(s) && !Contains(s, b)
    ensures UniqueKeys(s + [b])
  {
  }

  /** Removing any booking keeps the keys unique. */
  lemma RemoveKeepsUnique(s: seq<Booking>, i: int)
    requires UniqueKeys(s) && 0 <= i < |s|
    ensures UniqueKeys(RemoveAt(s, i))
  {
    var r := RemoveAt(s, i);
    forall p, q | 0 <= p < q < |r|
      ensures !SameBooking(r[p], r[q])
    {
      var p' := if p < i then p else p + 1;
      var q' := if q < i then q else q + 1;
      assert r[p] == s[p'] && r[q] == s[q'] && p' < q';
    }
  }

  /** Under unique keys the booking removed was the only one for its room and slot, which is then free again. */
  lemma RemovedIsAvailable(s: seq<Booking>, b: Booking)
    requires UniqueKeys(s) && Contains(s, b)
    ensures Available(RemoveAt(s, IndexOf(s, b)), b.room, b.slot)
  {
    var i := IndexOf(s, b);
    var r := RemoveAt(s, i);
    forall k | 0 <= k < |r|
      ensures !(r[k].room == b.room && r[k].slot == b.slot)
    {
      var k' := if k < i then k else k + 1;
      assert r[k] == s[k'] && k' != i;
      if k' < i {
        assert !SameBooking(s[k'], s[i]);
      } else {
        assert !SameBooking(s[i], s[k']);
      }
    }
  }

  /** Availability is the absence of an equal booking, whichever teacher one asks for. */
  lemma AvailableIffAbsent(s: seq<Booking>, t: Teacher, a: Room, p: Slot)
    ensures Available(s, a, p) <==> !Contains(s, Booking(t, a, p))
    ensures Available(s, a, p) <==> IndexOf(s, Booking(t, a, p)) == -1
  {
  }

  /** Searching past the end of s: a booking not equal to any of s is found at the appended position. */
  lemma IndexOfAppend(s: seq<Booking>, x: Booking, b: Booking)
    requires !Contains(s, b) && SameBooking(x, b)
    ensures IndexOf(s + [x], b) == |s|
  {
    var t := s + [x];
    assert t[|s|] == x;
    forall k | 0 <= k < |s|
      ensures !SameBooking(t[k], b)
    {
      assert t[k] == s[k];
    }
  }

  /** Searching a sequence that starts with a booking not equal to b. */
  lemma IndexOfCons(x: Booking, s: seq<Booking>, b: Booking)
    requires !SameBooking(x, b) && Contains(s, b)
    ensures IndexOf([x] + s, b) == IndexOf(s, b) + 1
  {
    assert ([x] + s)[1..] == s;
  }

  /** Removing the last element undoes an append. */
  lemma RemoveLast(s: seq<Booking>, b: Booking)
    ensures RemoveAt(s + [b], |s|) == s
  {
    assert (s + [b])[..|s|] == s;
  }

  /**
   * Booking then cancelling: a free (room, slot) is taken after appending
   * b, the cancellation finds b at the end, and removing it gives back the
   * original registry, where the pair is free again.
   */
  lemma BookThenCancel(s: seq<Booking>, b: Booking)
    requires UniqueKeys(s) && Available(s, b.room, b.slot)
    ensures !Available(s + [b], b.room, b.slot)
    ensures UniqueKeys(s + [b])
    ensures IndexOf(s + [b], b) == |s|
    ensures RemoveAt(s + [b], IndexOf(s + [b], b)) == s
  {
    AvailableIffAbsent(s, b.teacher, b.room, b.slot);
    InsertKeepsUnique(s, b);
    IndexOfAppend(s, b, b);
    RemoveLast(s, b);
    assert (s + [b])[|s|] == b;
  }

  /**
   * One step of a query loop: when r followed by the selection from
   * position i on is the whole selection, so is r extended by s[i] (if
   * selected) followed by the selection from position i + 1 on.
   */
  lemma SelectStep(r: seq<Booking>, s: seq<Booking>, i: int, c: Criterion)
    requires 0 <= i < |s|
    requires r + Select(s[i..], c) == Select(s, c)
    ensures (r + if Selects(c, s[i]) then [s[i]] else []) + Select(s[i + 1..], c) == Select(s, c)
  {
    assert s[i..][0] == s[i] && s[i..][1..] == s[i + 1..];
    var head := if Selects(c, s[i]) then [s[i]] else [];
    assert Select(s[i..], c) == head + Select(s[i + 1..], c);
    assert r + (head + Select(s[i + 1..], c)) == (r + head) + Select(s[i + 1..], c);
  }

  /** A selection from a registry with unique keys has unique keys. */
  lemma {:induction false} SelectKeepsUnique(s: seq<Booking>, c: Criterion)
    requires UniqueKeys(s)
    ensures UniqueKeys(Select(s, c))
  {
    if s != [] {
      assert UniqueKeys(s[1..]) by {
        forall i, j | 0 <= i < j < |s| - 1
          ensures !SameBooking(s[1..][i], s[1..][j])
        {
          assert s[1..][i] == s[i + 1] && s[1..][j] == s[j + 1];
        }
      }
      SelectKeepsUnique(s[1..], c);
      SelectMembers(s[1..], c);
      var tail := Select(s[1..], c);
      if Selects(c, s[0]) {
        forall j | 0 <= j < |tail|
          ensures !SameBooking(s[0], tail[j])
        {
          assert tail[j] in s[1..];
          var k :| 0 <= k < |s[1..]| && s[1..][k] == tail[j];
          assert s[k + 1] == tail[j];
        }
        assert Select(s, c) == [s[0]] + tail;
      } else {
        assert Select(s, c) == tail;
      }
    }
  }

  /** In a sequence with unique keys no element occurs again further on. */
  lemma UniqueNotRepeated(s: seq<Booking>, k: int)
    requires UniqueKeys(s) && 0 <= k < |s|
    ensures s[k] !in s[k + 1..]
  {
  }

  // ------------------------------------------------ the cascading deletion

  /**
   * The registry part-way through a cascade: the bookings of s that c does
   * not select, and of those it selects the ones still to be deleted.
   */
  function Keep(s: seq<Booking>, c: Criterion, rest: seq<Booking>): (r: seq<Booking>)
  {
    if s == [] then []
    else (if !Selects(c, s[0]) || s[0] in rest then [s[0]] else []) + Keep(s[1..], c, rest)
  }

  /** Before the first deletion nothing has gone. */
  lemma {:induction false} KeepAll(s: seq<Booking>, c: Criterion, rest: seq<Booking>)
    requires forall x :: x in s && Selects(c, x) ==> x in rest
    ensures Keep(s, c, rest) == s
  {
    if s != [] {
      assert forall x :: x in s[1..] ==> x in s;
      KeepAll(s[1..], c, rest);
    }
  }

  /** After the last deletion exactly the bookings that c does not select remain. */
  lemma {:induction false} KeepNone(s: seq<Booking>, c: Criterion)
    ensures Keep(s, c, []) == Reject(s, c)
  {
    if s != [] {
      KeepNone(s[1..], c);
    }
  }

  /** Forgetting a booking that is not in s changes nothing. */
  lemma {:induction false} KeepSkip(s: seq<Booking>, c: Criterion, rest: seq<Booking>)
    requires rest != [] && rest[0] !in s
    ensures Keep(s, c, rest) == Keep(s, c, rest[1..])
  {
    if s != [] {
      assert rest == [rest[0]] + rest[1..];
      assert s[0] in rest <==> s[0] in rest[1..];
      assert forall x :: x in s[1..] ==> x in s;
      KeepSkip(s[1..], c, rest);
    }
  }

  /** The tail of a sequence with unique keys has unique keys. */
  lemma UniqueTail(s: seq<Booking>)
    requires UniqueKeys(s) && s != []
    ensures UniqueKeys(s[1..])
  {
    forall i, j | 0 <= i < j < |s| - 1
      ensures !SameBooking(s[1..][i], s[1..][j])
    {
      assert s[1..][i] == s[i + 1] && s[1..][j] == s[j + 1];
    }
  }

  /** The cascade step when the booking to delete heads s. */
  lemma KeepStepHead(s: seq<Booking>, c: Criterion, rest: seq<Booking>)
    requires UniqueKeys(s)
    requires s != [] && rest != [] && rest[0] == s[0] && Selects(c, rest[0]) && rest[0] !in rest[1..]
    ensures Contains(Keep(s, c, rest), rest[0])
    ensures RemoveAt(Keep(s, c, rest), IndexOf(Keep(s, c, rest), rest[0])) == Keep(s, c, rest[1..])
  {
    var b := rest[0];
    var K := Keep(s, c, rest);
    var K' := Keep(s[1..], c, rest);
    UniqueNotRepeated(s, 0);
    KeepSkip(s[1..], c, rest);
    assert K == [b] + K';
    assert K[0] == b;
    assert IndexOf(K, b) == 0;
    assert Keep(s, c, rest[1..]) == Keep(s[1..], c, rest[1..]);
    assert RemoveAt(K, 0) == K[1..];
  }

  /** Removing behind a first element keeps that element in front. */
  lemma RemoveAtCons(x: Booking, s: seq<Booking>, i: int)
    requires 0 <= i < |s|
    ensures RemoveAt([x] + s, i + 1) == [x] + RemoveAt(s, i)
  {
    assert ([x] + s)[..i + 1] == [x] + s[..i];
    assert ([x] + s)[i + 2..] == s[i + 1..];
  }

  /** The cascade step when the booking to delete is further down s, given the step for the tail of s. */
  lemma KeepStepTail(s: seq<Booking>, c: Criterion, rest: seq<Booking>)
    requires s != [] && rest != [] && !SameBooking(s[0], rest[0]) && rest[0] !in rest[1..]
    requires Contains(Keep(s[1..], c, rest), rest[0])
    requires RemoveAt(Keep(s[1..], c, rest), IndexOf(Keep(s[1..], c, rest), rest[0])) == Keep(s[1..], c, rest[1..])
    ensures Contains(Keep(s, c, rest), rest[0])
    ensures RemoveAt(Keep(s, c, rest), IndexOf(Keep(s, c, rest), rest[0])) == Keep(s, c, rest[1..])
  {
    var b := rest[0];
    var K := Keep(s, c, rest);
    var K' := Keep(s[1..], c, rest);
    assert s[0] in rest <==> s[0] in rest[1..] by {
      assert rest == [b] + rest[1..];
    }
    var i' := IndexOf(K', b);
    if !Selects(c, s[0]) || s[0] in rest {
      assert K == [s[0]] + K';
      IndexOfCons(s[0], K', b);
      assert Contains(K, b) by {
        assert K[i' + 1] == K'[i'];
      }
      RemoveAtCons(s[0], K', i');
    } else {
      assert K == K';
    }
  }

  /**
   * One step of the cascade: the next booking of the snapshot is still
   * stored, the registry's removal finds exactly it, and what remains is
   * the registry with that booking forgotten from the snapshot.
   */
  lemma {:induction false} KeepStep(s: seq<Booking>, c: Criterion, rest: seq<Booking>)
    requires UniqueKeys(s)
    requires rest != [] && rest[0] in s && Selects(c, rest[0]) && rest[0] !in rest[1..]
    ensures Contains(Keep(s, c, rest), rest[0])
    ensures RemoveAt(Keep(s, c, rest), IndexOf(Keep(s, c, rest), rest[0])) == Keep(s, c, rest[1..])
  {
    if s[0] == rest[0] {
      KeepStepHead(s, c, rest);
    } else {
      assert rest[0] in s[1..];
      var j :| 0 <= j < |s[1..]| && s[1..][j] == rest[0];
      assert s[j + 1] == rest[0];
      assert !SameBooking(s[0], rest[0]);
      UniqueTail(s);
      KeepStep(s[1..], c, rest);
      KeepStepTail(s, c, rest);
    }
  }

  /** A cascade removes exactly the bookings its query selects: the selected and the remaining ones add up to the registry. */
  lemma {:induction false} SelectRejectSplit(s: seq<Booking>, c: Criterion)
    ensures |Select(s, c)| + |Reject(s, c)| == |s|
    ensures multiset(Select(s, c)) + multiset(Reject(s, c)) == multiset(s)
  {
    if s != [] {
      SelectRejectSplit(s[1..], c);
      assert s == [s[0]] + s[1..];
    }
  }

  // ----------------------------------------- availability and slot kinds

  /** Some booking of room a on p's day has a slot of the other kind (an hour where p is a segment, or the reverse). */
  predicate KindClash(s: seq<Booking>, a: Room, p: Slot) {
    exists k | 0 <= k < |s| :: s[k].room == a && s[k].slot.day == p.day && s[k].slot.HourSlot? != p.HourSlot?
  }

  /** No room carries bookings of both kinds on the same day. */
  predicate KindConsistent(s: seq<Booking>) {
    forall i, j | 0 <= i < |s| && 0 <= j < |s| && s[i].room == s[j].room && s[i].slot.day == s[j].slot.day ::
      s[i].slot.HourSlot? == s[j].slot.HourSlot?
  }

  /**
   * consultarDisponibilidad as ModeloReservasAulas documents it: a null
   * room or slot is refused, and so is a slot whose kind differs from that
   * of the bookings already made for the room on that day; otherwise the
   * answer is whether the room is free in that slot.
   */
  function DocumentedAvailability(s: seq<Booking>, a: Option<Room>, p: Option<Slot>): (r: Result<bool>)
    ensures a.None? || p.None? ==> r == Err(IllegalArgument)
    ensures a.Some? && p.Some? ==> (r.Err? <==> KindClash(s, a.value, p.value))
    ensures r.Err? ==> r.error == IllegalArgument
    ensures r.Ok? ==> (r.value <==> Available(s, a.value, p.value))
  {
    if a.None? || p.None? then Err(IllegalArgument)
    else if KindClash(s, a.value, p.value) then Err(IllegalArgument)
    else Ok(Available(s, a.value, p.value))
  }

  /**
   * The check as written only compares whole slots: with a morning booked
   * for room a on day d, the hour slot of d is reported available, the
   * registry accepts a booking of it, and room a then carries both kinds on
   * day d. The documented check refuses the question.
   */
  lemma AvailabilityIgnoresKind(t: Teacher, t': Teacher, a: Room, d: Date, h: int)
    ensures var s := [Booking(t, a, RangeSlot(d, Morning))];
            && Available(s, a, HourSlot(d, h))
            && !Contains(s, Booking(t', a, HourSlot(d, h)))
            && KindConsistent(s)
            && !KindConsistent(s + [Booking(t', a, HourSlot(d, h))])
            && DocumentedAvailability(s, Some(a), Some(HourSlot(d, h))) == Err(IllegalArgument)
  {
    var s := [Booking(t, a, RangeSlot(d, Morning))];
    var s' := s + [Booking(t', a, HourSlot(d, h))];
    assert s'[0].room == s'[1].room && s'[0].slot.day == s'[1].slot.day;
    assert s[0].room == a && s[0].slot.day == HourSlot(d, h).day;
  }

  /**
   * Booking a slot the documented check reports free keeps both
   * invariants: no two bookings share a room and a slot, and no room
   * carries both kinds on one day.
   */
  lemma DocumentedCheckKeepsKinds(s: seq<Booking>, b: Booking)
    requires UniqueKeys(s) && KindConsistent(s)
    requires DocumentedAvailability(s, Some(b.room), Some(b.slot)) == Ok(true)
    ensures UniqueKeys(s + [b]) && KindConsistent(s + [b])
  {
    AvailableIffAbsent(s, b.teacher, b.room, b.slot);
    InsertKeepsUnique(s, b);
    var s' := s + [b];
    forall i, j | 0 <= i < |s'| && 0 <= j < |s'| && s'[i].room == s'[j].room && s'[i].slot.day == s'[j].slot.day
      ensures s'[i].slot.HourSlot? == s'[j].slot.HourSlot?
    {
      if i < |s| && j == |s| {
        assert s'[i] == s[i];
        assert !(s[i].room == b.room && s[i].slot.day == b.slot.day && s[i].slot.HourSlot? != b.slot.HourSlot?);
      } else if i == |s| && j < |s| {
        assert s'[j] == s[j];
        assert !(s[j].room == b.room && s[j].slot.day == b.slot.day && s[j].slot.HourSlot? != b.slot.HourSlot?);
      } else if i < |s| && j < |s| {
        assert s'[i] == s[i] && s'[j] == s[j];
      }
    }
  }

  // ------------------------------------------------------------ the class

  class BookingRegistry {
    /** coleccionReservas, in insertion order. */
    var bookings: seq<Booking>

    ghost predicate Valid()
      reads this
    {
      UniqueKeys(bookings)
    }

    /** Reservas(): an empty registry. */
    constructor ()
      ensures Valid() && bookings == []
    {
      bookings := [];
    }

    /** getReservas: a copy of every stored booking, in stored order. */
    method GetBookings() returns (r: seq<Booking>)
      ensures r == bookings
    {
      r := [];
      var i := 0;
      while i < |bookings|
        invariant 0 <= i <= |bookings|
        invariant r == bookings[..i]
      {
        var copy := CopyBooking(Some(bookings[i]));
        r := r + [copy.value];
        i := i + 1;
      }
    }

    /** getNumReservas. */
    method Count() returns (n: int)
      ensures n == |bookings|
    {
      n := |bookings|;
    }

    /**
     * insertar: null is refused with IllegalArgument, a booking equal to a
     * stored one (same room and slot, any teacher) with OperationNotSupported,
     * and otherwise the booking is appended; the keys stay unique.
     */
    method Insert(b: Option<Booking>) returns (r: Outcome)
      requires Valid()
      modifies this
      ensures Valid()
      ensures b.None? ==> r == Fail(IllegalArgument) && bookings == old(bookings)
      ensures b.Some? && Contains(old(bookings), b.value) ==>
                r == Fail(OperationNotSupported) && bookings == old(bookings)
      ensures b.Some? && !Contains(old(bookings), b.value) ==>
                r == Pass && bookings == old(bookings) + [b.value]
    {
      if b.None? {
        return Fail(IllegalArgument);
      }
      if IndexOf(bookings, b.value) != -1 {
        return Fail(OperationNotSupported);
      }
      InsertKeepsUnique(bookings, b.value);
      bookings := bookings + [b.value];
      r := Pass;
    }

    /**
     * buscar: null when the argument is null or no stored booking equals
     * it; otherwise the stored booking with its room and slot, which may
     * carry another teacher than the argument.
     */
    method Find(b: Option<Booking>) returns (r: Option<Booking>)
      requires Valid()
      ensures r.Some? <==> b.Some? && Contains(bookings, b.value)
      ensures r.Some? ==> r.value in bookings && SameBooking(r.value, b.value)
      ensures r.Some? ==> forall k | 0 <= k < |bookings| && SameBooking(bookings[k], b.value) :: bookings[k] == r.value
    {
      if b.None? {
        return None;
      }
      var i := IndexOf(bookings, b.value);
      if i == -1 {
        return None;
      }
      r := Some(bookings[i]);
    }

    /**
     * borrar: null is refused with IllegalArgument and a booking equal to
     * none stored with OperationNotSupported; otherwise the first (and only)
     * equal booking is removed, the others keep their order, and its room
     * and slot are free again.
     */
    method Remove(b: Option<Booking>) returns (r: Outcome)
      requires Valid()
      modifies this
      ensures Valid()
      ensures b.None? ==> r == Fail(IllegalArgument) && bookings == old(bookings)
      ensures b.Some? && !Contains(old(bookings), b.value) ==>
                r == Fail(OperationNotSupported) && bookings == old(bookings)
      ensures b.Some? && Contains(old(bookings), b.value) ==>
                && r == Pass
                && bookings == RemoveAt(old(bookings), IndexOf(old(bookings), b.value))
                && Available(bookings, b.value.room, b.value.slot)
    {
      if b.None? {
        return Fail(IllegalArgument);
      }
      var i := IndexOf(bookings, b.value);
      if i == -1 {
        return Fail(OperationNotSupported);
      }
      RemoveKeepsUnique(bookings, i);
      RemovedIsAvailable(bookings, b.value);
      bookings := RemoveAt(bookings, i);
      r := Pass;
    }

    /** The loop shared by the three queries: a copy of each stored booking that c selects, in stored order. */
    method Matching(c: Criterion) returns (r: seq<Booking>)
      ensures r == Select(bookings, c)
    {
      r := [];
      var i := 0;
      while i < |bookings|
        invariant 0 <= i <= |bookings|
        invariant r + Select(bookings[i..], c) == Select(bookings, c)
      {
        SelectStep(r, bookings, i, c);
        if Selects(c, bookings[i]) {
          var copy := CopyBooking(Some(bookings[i]));
          r := r + [copy.value];
        }
        i := i + 1;
      }
      assert bookings[i..] == [];
    }

    /** getReservasProfesor: null is refused; otherwise the bookings made by that teacher, in stored order. */
    method BookingsForTeacher(t: Option<Teacher>) returns (r: Result<seq<Booking>>)
      ensures t.None? ==> r == Err(IllegalArgument)
      ensures t.Some? ==> r == Ok(Select(bookings, TeacherIs(t.value)))
    {
      if t.None? {
        return Err(IllegalArgument);
      }
      var found := Matching(TeacherIs(t.value));
      r := Ok(found);
    }

    /** getReservasAula: null is refused; otherwise the bookings of that room, in stored order. */
    method BookingsForRoom(a: Option<Room>) returns (r: Result<seq<Booking>>)
      ensures a.None? ==> r == Err(IllegalArgument)
      ensures a.Some? ==> r == Ok(Select(bookings, RoomIs(a.value)))
    {
      if a.None? {
        return Err(IllegalArgument);
      }
      var found := Matching(RoomIs(a.value));
      r := Ok(found);
    }

    /** getReservasPermanencia: null is refused; otherwise the bookings for that slot, in stored order. */
    method BookingsForSlot(p: Option<Slot>) returns (r: Result<seq<Booking>>)
      ensures p.None? ==> r == Err(IllegalArgument)
      ensures p.Some? ==> r == Ok(Select(bookings, SlotIs(p.value)))
    {
      if p.None? {
        return Err(IllegalArgument);
      }
      var found := Matching(SlotIs(p.value));
      r := Ok(found);
    }

    /**
     * consultarDisponibilidad: a null room or slot is refused; otherwise
     * true exactly when no stored booking is for that room in that slot.
     */
    method IsAvailable(a: Option<Room>, p: Option<Slot>) returns (r: Result<bool>)
      ensures a.None? || p.None? ==> r == Err(IllegalArgument)
      ensures a.Some? && p.Some? ==> r.Ok? && (r.value <==> Available(bookings, a.value, p.value))
    {
      if a.None? || p.None? {
        return Err(IllegalArgument);
      }
      var i := 0;
      while i < |bookings|
        invariant 0 <= i <= |bookings|
        invariant forall k | 0 <= k < i :: !(bookings[k].room == a.value && bookings[k].slot == p.value)
      {
        if bookings[i].room == a.value && bookings[i].slot == p.value {
          return Ok(false);
        }
        i := i + 1;
      }
      r := Ok(true);
    }
  }
}
