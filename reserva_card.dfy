/** The reservation card of the client (`components/ReservaCard.jsx`): the
    room comparison `sameSala`, the times taken in the card's room on the
    date being edited (never counting the card's own reservation), the edit
    fields with their cancel and save, and the validation of an edit.
    Today's date and the time of day are parameters. */
module ReservaCard {
  import opened JsValues
  import opened JsStrings
  import opened TimeGrid
  import opened ClientTime
  import opened ReservaModel
  import opened ReservasController
  import ReservaForm

  const MsgHorarioOcupadoSala: string := "Ese horario ya está ocupado para esta sala"

  /** `sameSala(a, b)`: when both have an id, the ids decide; otherwise
      both trimmed, lower-cased names must be non-empty and equal. */
  predicate SameSala(a: Reservation, b: Reservation) {
    var aId := IdText(a.salaId);
    var bId := IdText(b.salaId);
    if aId != "" && bId != "" then aId == bId
    else
      var aNom := Key(a.salaNombre);
      var bNom := Key(b.salaNombre);
      aNom != "" && bNom != "" && aNom == bNom
  }

  /** `sameSala` is the backend's room rule, so it is symmetric and two
      different ids never match. */
  lemma SameSalaIsRoomMatch(a: Reservation, b: Reservation)
    ensures SameSala(a, b) <==> RoomMatch(a.salaId, a.salaNombre, b.salaId, b.salaNombre)
    ensures SameSala(a, b) <==> SameSala(b, a)
  {
    assert IdText(a.salaId) != "" <==> HasId(a.salaId);
    assert IdText(b.salaId) != "" <==> HasId(b.salaId);
    RoomMatchTwoTier(a.salaId, a.salaNombre, b.salaId, b.salaNombre);
  }

  // ---------------------------------------------------------------------
  // occupiedTimes
  // ---------------------------------------------------------------------

  /** The time reservation `r` contributes to the card's `occupiedTimes`:
      its normalised time when it has a date and a time, is not the card's
      own reservation, is on `fecha` and is in the same room. */
  function CardSlotOf(r: Reservation, fecha: string, reserva: Reservation): Option<string> {
    if r.fecha != "" && r.hora != "" && r.id != reserva.id && r.fecha == fecha && SameSala(r, reserva)
    then NormalizeToStep(r.hora)
    else None
  }

  /** The contributions of each reservation, in list order. */
  function CardSlots(reservas: seq<Reservation>, fecha: string, reserva: Reservation): (slots: seq<Option<string>>)
    ensures |slots| == |reservas|
  {
    seq(|reservas|, i requires 0 <= i < |reservas| => CardSlotOf(reservas[i], fecha, reserva))
  }

  /** The card's `occupiedTimes` for the date being edited. */
  function CardOccupiedOf(reservas: seq<Reservation>, fecha: string, reserva: Reservation): set<string> {
    if fecha == "" then {} else Collect(CardSlots(reservas, fecha, reserva))
  }

  /** `occupiedTimes` of the card: the loop skips the reservations without
      a date or a time, the card's own one, other dates and other rooms,
      and adds the normalised time of the rest. */
  method OccupiedTimes(reservas: seq<Reservation>, fecha: string, reserva: Reservation) returns (times: set<string>)
    ensures times == CardOccupiedOf(reservas, fecha, reserva)
  {
    times := {};
    if fecha == "" {
      return;
    }
    var k := 0;
    while k < |reservas|
      invariant 0 <= k <= |reservas|
      invariant times == Collect(CardSlots(reservas, fecha, reserva)[..k])
    {
      var r := reservas[k];
      CollectStep(CardSlots(reservas, fecha, reserva), k);
      k := k + 1;
      if r.fecha == "" || r.hora == "" {
        continue;
      }
      if r.id == reserva.id {
        continue;
      }
      if r.fecha != fecha {
        continue;
      }
      if !SameSala(r, reserva) {
        continue;
      }
      var normalized := NormalizeToStep(r.hora);
      if normalized.Some? {
        times := times + {normalized.value};
      }
    }
    assert CardSlots(reservas, fecha, reserva)[..k] == CardSlots(reservas, fecha, reserva);
  }

  /** A time is taken for the card exactly when another reservation on
      that date, in the same room, has a time that normalises to it; the
      card's own reservation never counts. */
  lemma CardOccupiedMembers(reservas: seq<Reservation>, fecha: string, reserva: Reservation, t: string)
    requires fecha != ""
    ensures t in CardOccupiedOf(reservas, fecha, reserva) <==>
      exists i :: 0 <= i < |reservas| && CardSlotOf(reservas[i], fecha, reserva) == Some(t)
    ensures forall i :: 0 <= i < |reservas| && reservas[i].id == reserva.id ==> CardSlotOf(reservas[i], fecha, reserva).None?
  {
    var slots := CardSlots(reservas, fecha, reserva);
    CollectMembers(slots, t);
    if exists i :: 0 <= i < |reservas| && CardSlotOf(reservas[i], fecha, reserva) == Some(t) {
      var i :| 0 <= i < |reservas| && CardSlotOf(reservas[i], fecha, reserva) == Some(t);
      assert slots[i] == Some(t);
    }
  }

  // ---------------------------------------------------------------------
  // The edit fields, the payload, and agreement with the backend
  // ---------------------------------------------------------------------

  /** The edit fields a card starts from (and returns to on cancel): the
      stored date, the stored time normalised (or '' when it does not
      normalise), the stored notes. */
  function StartHora(reserva: Reservation): (hora: string)
    ensures NormalizeToStep(reserva.hora).None? ==> hora == ""
    ensures NormalizeToStep(reserva.hora).Some? ==> hora == NormalizeToStep(reserva.hora).value
  {
    NormalizeToStep(reserva.hora).GetOr("")
  }

  /** A reservation stored with a grid time starts with that time. */
  lemma StartHoraOfGridTime(reserva: Reservation, r: int)
    requires r >= 0 && r % Step == 0 && reserva.hora == ClockText(r)
    ensures StartHora(reserva) == reserva.hora
  {
    GridPointIsFixed(r);
  }

  /** The time shown in the card's header: the stored time normalised,
      else the stored time as it is, else "--". */
  function HoraLabel(reserva: Reservation): (shown: string)
    ensures shown != ""
    ensures NormalizeToStep(reserva.hora).Some? ==> shown == NormalizeToStep(reserva.hora).value
    ensures NormalizeToStep(reserva.hora).None? && reserva.hora != "" ==> shown == reserva.hora
  {
    if NormalizeToStep(reserva.hora).Some? then NormalizeToStep(reserva.hora).value
    else if reserva.hora != "" then reserva.hora
    else "--"
  }

  /** `normalizeToStep(hora, 15) || hora`. */
  function SafeHora(hora: string): (safe: string)
    ensures NormalizeToStep(hora) == Some(hora) ==> safe == hora
    ensures NormalizeToStep(hora).None? ==> safe == hora
  {
    NormalizeToStep(hora).GetOr(hora)
  }

  /** The payload of `handleSave`: the edited date and notes, the safe
      time, and the original room: its id when it has one, else its name. */
  function CardPayload(reserva: Reservation, fecha: string, hora: string, notas: string): (body: Body)
    ensures body.fecha == Str(fecha) && body.hora == Str(SafeHora(hora)) && body.notas == Str(notas)
    ensures !(body.salaId.Str? && body.salaNombre.Str?)
    ensures HasId(reserva.salaId) ==> body.salaId == Str(reserva.salaId.value)
    ensures !HasId(reserva.salaId) ==> body.salaNombre == Str(reserva.salaNombre)
  {
    if HasId(reserva.salaId) then Body(Str(fecha), Str(SafeHora(hora)), Str(reserva.salaId.value), Undefined, Str(notas))
    else Body(Str(fecha), Str(SafeHora(hora)), Undefined, Str(reserva.salaNombre), Str(notas))
  }

  /** The card's room is one the backend knows under the same name: a
      catalogue id whose catalogue name has the stored name's key. */
  predicate RoomKnown(reserva: Reservation, catalogue: Catalogue) {
    HasId(reserva.salaId) ==>
      reserva.salaId.value in catalogue && Key(catalogue[reserva.salaId.value]) == Key(reserva.salaNombre)
  }

  /** The probe the backend's update search uses for the card's payload. */
  function CardProbe(reserva: Reservation, catalogue: Catalogue, fecha: string, hora: string, notas: string): Probe
    requires RoomKnown(reserva, catalogue)
  {
    var body := CardPayload(reserva, fecha, hora, notas);
    Probe(fecha, hora, OrNull(body.salaId), RoomName(body, catalogue).s, Some(reserva.id))
  }

  /** The card's room test against a stored row is the backend's rule for
      the room the payload names. */
  lemma SameSalaIsProbeMatch(r: Reservation, reserva: Reservation, catalogue: Catalogue,
                             fecha: string, hora: string, notas: string)
    requires RoomKnown(reserva, catalogue)
    ensures var p := CardProbe(reserva, catalogue, fecha, hora, notas);
      SameSala(r, reserva) <==> RoomMatch(p.salaId, p.salaNombre, r.salaId, r.salaNombre)
  {
    var p := CardProbe(reserva, catalogue, fecha, hora, notas);
    SameSalaIsRoomMatch(r, reserva);
    RoomMatchSymmetric(p.salaId, p.salaNombre, r.salaId, r.salaNombre);
    if HasId(reserva.salaId) {
      assert p.salaId == reserva.salaId && p.salaNombre == catalogue[reserva.salaId.value];
    } else {
      assert p.salaId == None && p.salaNombre == reserva.salaNombre;
    }
  }

  /** For a grid time and stored rows with ids, a time is taken for the
      card exactly when the backend's update search, given the card's
      payload, finds a reservation of the list. */
  lemma CardOccupiedAgreesWithBackend(reservas: seq<Reservation>, reserva: Reservation, catalogue: Catalogue,
                                      fecha: string, hora: string, notas: string)
    requires fecha != "" && NormalizeToStep(hora) == Some(hora)
    requires RoomKnown(reserva, catalogue)
    requires forall i :: 0 <= i < |reservas| ==> reservas[i].id != ""
    ensures hora in CardOccupiedOf(reservas, fecha, reserva) <==>
      exists i :: 0 <= i < |reservas| && Collides(CardProbe(reserva, catalogue, fecha, hora, notas), reservas[i])
  {
    var p := CardProbe(reserva, catalogue, fecha, hora, notas);
    CardOccupiedMembers(reservas, fecha, reserva, hora);
    forall i | 0 <= i < |reservas|
      ensures CardSlotOf(reservas[i], fecha, reserva) == Some(hora) <==> Collides(p, reservas[i])
    {
      SameSalaIsProbeMatch(reservas[i], reserva, catalogue, fecha, hora, notas);
    }
  }

  // ---------------------------------------------------------------------
  // validate
  // ---------------------------------------------------------------------

  /** When the card's `validate` accepts an edit. */
  predicate EditOk(fecha: string, hora: string, today: string, nowMs: int, occupied: set<string>) {
    && fecha != "" && !IsPastDate(fecha, today)
    && hora != "" && !TimeIsPastForToday(fecha, hora, today, nowMs) && hora !in occupied
  }

  /** The error object the card's `validate` leaves: the creation form's
      date and time checks, without a room, with the card's own message for
      a taken time. */
  function CardErrors(fecha: string, hora: string, today: string, nowMs: int, occupied: set<string>)
    : map<ReservaForm.FormField, string>
  {
    var withFecha := ReservaForm.Record(map[], ReservaForm.FechaField, ReservaForm.FechaError(fecha, today));
    ReservaForm.Record(withFecha, ReservaForm.HoraField,
                       ReservaForm.HoraError(fecha, hora, today, nowMs, occupied, MsgHorarioOcupadoSala))
  }

  /** Field by field, the card's error object has an entry exactly when
      that field's check fails, with the message of the failing check; a
      taken time is reported as taken even when it is also past. */
  lemma CardErrorsFields(fecha: string, hora: string, today: string, nowMs: int, occupied: set<string>)
    ensures var errors := CardErrors(fecha, hora, today, nowMs, occupied);
      && errors.Keys <= {ReservaForm.FechaField, ReservaForm.HoraField}
      && (ReservaForm.FechaField in errors <==> fecha == "" || IsPastDate(fecha, today))
      && (ReservaForm.FechaField in errors ==>
            errors[ReservaForm.FechaField] == if fecha == "" then ReservaForm.MsgFechaObligatoria else ReservaForm.MsgFechaPasada)
      && (ReservaForm.HoraField in errors <==> hora == "" || TimeIsPastForToday(fecha, hora, today, nowMs) || hora in occupied)
      && (ReservaForm.HoraField in errors ==>
            errors[ReservaForm.HoraField] ==
              if hora == "" then ReservaForm.MsgHoraObligatoria
              else if hora in occupied then MsgHorarioOcupadoSala
              else ReservaForm.MsgHoraPasada)
  {
  }

  /** An edit is accepted exactly when the card's error object is empty. */
  lemma CardErrorsEmptyIffOk(fecha: string, hora: string, today: string, nowMs: int, occupied: set<string>)
    ensures CardErrors(fecha, hora, today, nowMs, occupied) == map[] <==> EditOk(fecha, hora, today, nowMs, occupied)
  {
    var errors := CardErrors(fecha, hora, today, nowMs, occupied);
    CardErrorsFields(fecha, hora, today, nowMs, occupied);
    if !EditOk(fecha, hora, today, nowMs, occupied) {
      assert ReservaForm.FechaField in errors || ReservaForm.HoraField in errors;
    }
  }

  /** The card's `validate`: the date's check, the time's check, then the
      taken-time check, which replaces a past-time message; the edit is
      accepted exactly when no error was recorded. */
  method Validate(fecha: string, hora: string, today: string, nowMs: int, occupied: set<string>)
    returns (errors: map<ReservaForm.FormField, string>, ok: bool)
    ensures errors == CardErrors(fecha, hora, today, nowMs, occupied)
    ensures ok <==> errors == map[]
    ensures ok <==> EditOk(fecha, hora, today, nowMs, occupied)
  {
    errors := map[];
    if fecha == "" {
      errors := errors[ReservaForm.FechaField := ReservaForm.MsgFechaObligatoria];
    } else if IsPastDate(fecha, today) {
      errors := errors[ReservaForm.FechaField := ReservaForm.MsgFechaPasada];
    }
    ghost var withFecha := errors;
    if hora == "" {
      errors := errors[ReservaForm.HoraField := ReservaForm.MsgHoraObligatoria];
    } else if TimeIsPastForToday(fecha, hora, today, nowMs) {
      errors := errors[ReservaForm.HoraField := ReservaForm.MsgHoraPasada];
    }
    if hora != "" && hora in occupied {
      ReservaForm.TakenReplacesHora(withFecha, errors, MsgHorarioOcupadoSala);
      errors := errors[ReservaForm.HoraField := MsgHorarioOcupadoSala];
    }
    ok := errors == map[];
    CardErrorsEmptyIffOk(fecha, hora, today, nowMs, occupied);
  }

  // ---------------------------------------------------------------------
  // The card's state
  // ---------------------------------------------------------------------

  /** The state of one card: the reservation it shows, whether it is being
      edited, the edit fields and the errors. */
  class CardState {
    var reserva: Reservation
    var editing: bool
    var fecha: string
    var hora: string
    var notas: string
    var errors: map<ReservaForm.FormField, string>

    /** The edit fields hold the reservation's own values. */
    predicate AtStart()
      reads this
    {
      fecha == reserva.fecha && hora == StartHora(reserva) && notas == reserva.notas
    }

    /** The card as first rendered. */
    constructor (r: Reservation)
      ensures reserva == r && !editing && errors == map[] && AtStart()
    {
      reserva := r;
      editing := false;
      fecha, hora, notas := r.fecha, StartHora(r), r.notas;
      errors := map[];
    }

    /** The effect that runs when the reservation changes in the list:
        the edit fields follow it and the errors are cleared. */
    method Sync(r: Reservation)
      modifies this
      ensures reserva == r && editing == old(editing) && errors == map[] && AtStart()
    {
      reserva := r;
      fecha, hora, notas := r.fecha, StartHora(r), r.notas;
      errors := map[];
    }

    /** `handleCancel`: back to the reservation's own values, out of edit
        mode. */
    method HandleCancel()
      modifies this
      ensures reserva == old(reserva) && !editing && errors == map[] && AtStart()
    {
      fecha, hora, notas := reserva.fecha, StartHora(reserva), reserva.notas;
      errors := map[];
      editing := false;
    }

    /** The "Editar" button, shown only to the reservation's owner: a
        signed-in user whose id is the reservation's `usuarioId`. */
    method StartEditing(userId: Option<string>)
      modifies this
      ensures editing == (old(editing) || (userId.Some? && userId.value == reserva.usuarioId))
      ensures reserva == old(reserva) && fecha == old(fecha) && hora == old(hora)
      ensures notas == old(notas) && errors == old(errors)
    {
      if userId.Some? && userId.value == reserva.usuarioId {
        editing := true;
      }
    }

    /** Choosing another date in edit mode clears the chosen time. */
    method ChangeFecha(value: string)
      modifies this
      ensures fecha == value && hora == ""
      ensures reserva == old(reserva) && editing == old(editing) && notas == old(notas) && errors == old(errors)
    {
      fecha := value;
      hora := "";
    }

    /** The entries `handleSave` leaves as they were: the reservation and
        the edit fields. */
    function Entries(): (Reservation, string, string, string)
      reads this
    {
      (reserva, fecha, hora, notas)
    }

    /** `handleSave`: records the error object of `validate`, computed
        against the times taken in the card's room; when it is not empty,
        or there is no `onUpdate`, it stops there; otherwise it sends the
        reservation's id and the payload and, when `onUpdate` returns
        without throwing (`updated`), leaves edit mode. */
    method HandleSave(reservas: seq<Reservation>, today: string, nowMs: int, hasOnUpdate: bool, updated: bool)
      returns (sent: Option<(string, Body)>)
      modifies this
      ensures errors == CardErrors(old(fecha), old(hora), today, nowMs, CardOccupiedOf(reservas, old(fecha), old(reserva)))
      ensures sent.Some? <==> errors == map[] && hasOnUpdate
      ensures sent.Some? ==> sent.value == (old(reserva).id, CardPayload(old(reserva), old(fecha), old(hora), old(notas)))
      ensures Entries() == old(Entries())
      ensures editing == if sent.Some? && updated then false else old(editing)
    {
      var occupied := OccupiedTimes(reservas, fecha, reserva);
      errors := CardErrors(fecha, hora, today, nowMs, occupied);
      sent := None;
      if errors == map[] && hasOnUpdate {
        sent := Some((reserva.id, CardPayload(reserva, fecha, hora, notas)));
        if updated {
          editing := false;
        }
      }
    }
  }
}
