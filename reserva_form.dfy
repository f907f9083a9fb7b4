/** The creation form of the client (`components/ReservaForm.jsx`): the
    room chosen from the list or typed by hand, the times and dates already
    taken for that room, the validation of the fields, and the payload sent
    on submit. The form's time helpers are the shared ones of `ClientTime`
    and `TimeGrid`; today's date and the time of day are parameters. */
module ReservaForm {
  import opened JsValues
  import opened JsStrings
  import opened TimeGrid
  import opened ClientTime
  import opened ReservaModel
  import opened ReservasController

  /** `salaMode`: a room picked from the catalogue or a name typed in. */
  datatype SalaMode = Lista | Manual

  /** An entry of the room list the form loads. */
  datatype Sala = Sala(id: string, nombre: string)

  /** The room the form has chosen: the mode, the selected catalogue id,
      the loaded room list and the typed name. */
  datatype RoomChoice = RoomChoice(mode: SalaMode, selectedSalaId: string, salas: seq<Sala>,
                                   manualSalaNombre: string)

  /** The keys of the form's error object. */
  datatype FormField = FechaField | HoraField | SalaField

  const MsgFechaObligatoria: string := "La fecha es obligatoria"
  const MsgFechaPasada: string := "No podés elegir una fecha pasada"
  const MsgHoraObligatoria: string := "La hora es obligatoria"
  const MsgHoraPasada: string := "La hora no puede ser anterior a la hora actual"
  const MsgSeleccionaSala: string := "Seleccioná una sala"
  const MsgIngresaSala: string := "Ingresá una sala"
  const MsgHorarioOcupado: string := "Ese horario ya está ocupado para la sala seleccionada"

  /** `salas.find((s) => s.id === id)`. */
  function FindSala(salas: seq<Sala>, id: string): (found: Option<Sala>)
    ensures found.Some? ==> found.value in salas && found.value.id == id
    ensures found.None? <==> forall i :: 0 <= i < |salas| ==> salas[i].id != id
  {
    if salas == [] then None
    else if salas[0].id == id then Some(salas[0])
    else FindSala(salas[1..], id)
  }

  /** `selectedSalaNombre`: the trimmed name of the selected room, or ''. */
  function SelectedSalaNombre(salas: seq<Sala>, selectedSalaId: string): (name: string)
    ensures selectedSalaId == "" ==> name == ""
    ensures selectedSalaId != "" && FindSala(salas, selectedSalaId).None? ==> name == ""
  {
    if selectedSalaId == "" then ""
    else
      var found := FindSala(salas, selectedSalaId);
      Trim(if found.Some? then found.value.nombre else "")
  }

  /** A listed room's selected name is its trimmed name. */
  lemma SelectedListedName(salas: seq<Sala>, i: int)
    requires 0 <= i < |salas| && salas[i].id != ""
    requires forall j :: 0 <= j < i ==> salas[j].id != salas[i].id
    ensures SelectedSalaNombre(salas, salas[i].id) == Trim(salas[i].nombre)
  {
    FindFirst(salas, i);
  }

  lemma {:induction false} FindFirst(salas: seq<Sala>, i: int)
    requires 0 <= i < |salas|
    requires forall j :: 0 <= j < i ==> salas[j].id != salas[i].id
    ensures FindSala(salas, salas[i].id) == Some(salas[i])
    decreases i
  {
    if i > 0 {
      FindFirst(salas[1..], i - 1);
    }
  }

  /** The `selectedSalaNombre` of a choice. */
  function SelectedName(c: RoomChoice): string {
    SelectedSalaNombre(c.salas, c.selectedSalaId)
  }

  /** Whether a room has been chosen: a selected id in list mode, a name
      that is not blank in manual mode. */
  predicate RoomSelected(c: RoomChoice) {
    (c.mode == Lista && c.selectedSalaId != "") || (c.mode == Manual && Trim(c.manualSalaNombre) != "")
  }

  /** The room test of `occupiedTimes` and `occupiedDates` for one stored
      reservation: in list mode an equal id, or no id and the selected
      room's name; in manual mode the typed name alone. */
  predicate InChosenRoom(c: RoomChoice, r: Reservation) {
    if c.mode == Lista && c.selectedSalaId != "" then
      || IdText(r.salaId) == c.selectedSalaId
      || (IdText(r.salaId) == "" && SelectedName(c) != "" && Key(r.salaNombre) == Lower(SelectedName(c)))
    else if c.mode == Manual && Trim(c.manualSalaNombre) != "" then
      Key(r.salaNombre) == Lower(Trim(c.manualSalaNombre))
    else false
  }

  /** The room branch of the loops of `occupiedTimes` and `occupiedDates`
      for one reservation, given the memoised `selectedSalaNombre`. */
  method MatchesChosenRoom(r: Reservation, c: RoomChoice, selectedSalaNombre: string) returns (matches: bool)
    requires selectedSalaNombre == SelectedName(c)
    ensures matches == InChosenRoom(c, r)
  {
    var rSalaId := IdText(r.salaId);
    var rSalaNombre := Key(r.salaNombre);
    matches := false;
    if c.mode == Lista && c.selectedSalaId != "" {
      if rSalaId == c.selectedSalaId {
        return true;
      }
      if rSalaId == "" && selectedSalaNombre != "" && rSalaNombre == Lower(selectedSalaNombre) {
        matches := true;
      }
    } else if c.mode == Manual && Trim(c.manualSalaNombre) != "" {
      if rSalaNombre == Lower(Trim(c.manualSalaNombre)) {
        matches := true;
      }
    }
  }

  // ---------------------------------------------------------------------
  // occupiedTimes
  // ---------------------------------------------------------------------

  /** Whether reservation `r` takes a slot on `fecha` in the chosen room. */
  predicate TakesSlot(r: Reservation, fecha: string, c: RoomChoice) {
    && r.fecha != "" && r.hora != "" && r.fecha == fecha
    && NormalizeToStep(r.hora).Some?
    && InChosenRoom(c, r)
  }

  /** The time reservation `r` contributes to `occupiedTimes`, if any. */
  function SlotOf(r: Reservation, fecha: string, c: RoomChoice): Option<string> {
    if TakesSlot(r, fecha, c) then NormalizeToStep(r.hora) else None
  }

  /** The contributions of each reservation, in list order. */
  function Slots(reservas: seq<Reservation>, fecha: string, c: RoomChoice): (slots: seq<Option<string>>)
    ensures |slots| == |reservas|
  {
    seq(|reservas|, i requires 0 <= i < |reservas| => SlotOf(reservas[i], fecha, c))
  }

  /** The set `occupiedTimes` builds from `reservas`. */
  function OccupiedTimesOf(reservas: seq<Reservation>, fecha: string, c: RoomChoice): set<string> {
    Collect(Slots(reservas, fecha, c))
  }

  /** A time is taken exactly when some reservation of the list, on that
      date and in the chosen room, has a time that normalises to it. */
  lemma OccupiedTimesMembers(reservas: seq<Reservation>, fecha: string, c: RoomChoice, t: string)
    ensures t in OccupiedTimesOf(reservas, fecha, c) <==>
      exists i :: 0 <= i < |reservas| && SlotOf(reservas[i], fecha, c) == Some(t)
  {
    var slots := Slots(reservas, fecha, c);
    CollectMembers(slots, t);
    if exists i :: 0 <= i < |reservas| && SlotOf(reservas[i], fecha, c) == Some(t) {
      var i :| 0 <= i < |reservas| && SlotOf(reservas[i], fecha, c) == Some(t);
      assert slots[i] == Some(t);
    }
  }

  /** `occupiedTimes`: empty without a date; otherwise, for each
      reservation on that date with a date and a time, its normalised time
      when the time normalises and the reservation is in the chosen room. */
  method OccupiedTimes(reservas: seq<Reservation>, fecha: string, c: RoomChoice) returns (times: set<string>)
    ensures times == OccupiedTimesOf(reservas, fecha, c)
    ensures fecha == "" ==> times == {}
  {
    times := {};
    if fecha == "" {
      NoDateTakesNoTime(reservas, c);
      return;
    }
    var selectedSalaNombre := SelectedName(c);
    var k := 0;
    while k < |reservas|
      invariant 0 <= k <= |reservas|
      invariant times == Collect(Slots(reservas, fecha, c)[..k])
    {
      var r := reservas[k];
      CollectStep(Slots(reservas, fecha, c), k);
      k := k + 1;
      if r.fecha == "" || r.hora == "" {
        continue;
      }
      if r.fecha != fecha {
        continue;
      }
      var normalized := NormalizeToStep(r.hora);
      if normalized.None? {
        continue;
      }
      var inRoom := MatchesChosenRoom(r, c, selectedSalaNombre);
      if inRoom {
        times := times + {normalized.value};
      }
    }
    assert Slots(reservas, fecha, c)[..k] == Slots(reservas, fecha, c);
  }

  // ---------------------------------------------------------------------
  // occupiedDates
  // ---------------------------------------------------------------------

  /** The date reservation `r` contributes to `occupiedDates`, if any: its
      date, when it has one and is in the chosen room or no room is
      chosen. */
  function DateOf(r: Reservation, c: RoomChoice): Option<string> {
    if r.fecha != "" && (InChosenRoom(c, r) || !RoomSelected(c)) then Some(r.fecha) else None
  }

  /** The contributions of each reservation, in list order. */
  function Dates(reservas: seq<Reservation>, c: RoomChoice): (dates: seq<Option<string>>)
    ensures |dates| == |reservas|
  {
    seq(|reservas|, i requires 0 <= i < |reservas| => DateOf(reservas[i], c))
  }

  /** The set `occupiedDates` builds from `reservas`. */
  function OccupiedDatesOf(reservas: seq<Reservation>, c: RoomChoice): set<string> {
    Collect(Dates(reservas, c))
  }

  /** A date is marked exactly when some reservation of the list on that
      date is in the chosen room, or has that date at all when no room is
      chosen. */
  lemma OccupiedDatesMembers(reservas: seq<Reservation>, c: RoomChoice, d: string)
    ensures d in OccupiedDatesOf(reservas, c) <==>
      exists i :: 0 <= i < |reservas| && DateOf(reservas[i], c) == Some(d)
  {
    var dates := Dates(reservas, c);
    CollectMembers(dates, d);
    if exists i :: 0 <= i < |reservas| && DateOf(reservas[i], c) == Some(d) {
      var i :| 0 <= i < |reservas| && DateOf(reservas[i], c) == Some(d);
      assert dates[i] == Some(d);
    }
  }

  /** `occupiedDates`: the dates of the reservations in the chosen room,
      or of every reservation when no room is chosen. */
  method OccupiedDates(reservas: seq<Reservation>, c: RoomChoice) returns (dates: set<string>)
    ensures dates == OccupiedDatesOf(reservas, c)
  {
    dates := {};
    var selectedSalaNombre := SelectedName(c);
    var k := 0;
    while k < |reservas|
      invariant 0 <= k <= |reservas|
      invariant dates == Collect(Dates(reservas, c)[..k])
    {
      var r := reservas[k];
      ghost var contribution := Dates(reservas, c)[k];
      assert contribution == DateOf(r, c);
      CollectStep(Dates(reservas, c), k);
      k := k + 1;
      if r.fecha == "" {
        assert contribution == None;
        continue;
      }
      if (c.mode == Lista && c.selectedSalaId != "") || (c.mode == Manual && Trim(c.manualSalaNombre) != "") {
        var inRoom := MatchesChosenRoom(r, c, selectedSalaNombre);
        if inRoom {
          assert contribution == Some(r.fecha);
          dates := dates + {r.fecha};
        } else {
          assert contribution == None;
        }
      } else {
        assert contribution == Some(r.fecha);
        dates := dates + {r.fecha};
      }
    }
    assert Dates(reservas, c)[..k] == Dates(reservas, c);
  }

  // ---------------------------------------------------------------------
  // What the form sends, and how it agrees with the backend
  // ---------------------------------------------------------------------

  /** The payload of `handleSubmit`: the selected id in list mode, the
      trimmed typed name in manual mode. */
  function Payload(fecha: string, hora: string, notas: string, c: RoomChoice): (body: Body)
    ensures body.fecha == Str(fecha) && body.hora == Str(hora) && body.notas == Str(notas)
    ensures !(body.salaId.Str? && body.salaNombre.Str?)
    ensures c.mode == Lista ==> body.salaId == Str(c.selectedSalaId)
    ensures c.mode == Manual ==> body.salaNombre == Str(Trim(c.manualSalaNombre))
  {
    if c.mode == Lista then Body(Str(fecha), Str(hora), Str(c.selectedSalaId), Undefined, Str(notas))
    else Body(Str(fecha), Str(hora), Undefined, Str(Trim(c.manualSalaNombre)), Str(notas))
  }

  /** The form's room is one the backend accepts and names as the form
      does: a selected catalogue id, with a name, whose listed name is the
      catalogue's; or a typed name that is not blank. */
  predicate ChoiceKnown(c: RoomChoice, catalogue: Catalogue) {
    if c.mode == Lista then
      && c.selectedSalaId != "" && c.selectedSalaId in catalogue && catalogue[c.selectedSalaId] != ""
      && SelectedName(c) == Trim(catalogue[c.selectedSalaId])
    else Trim(c.manualSalaNombre) != ""
  }

  /** The probe the backend's conflict search uses for the payload. */
  function PayloadProbe(fecha: string, hora: string, notas: string, c: RoomChoice, catalogue: Catalogue): Probe
    requires ChoiceKnown(c, catalogue)
  {
    var body := Payload(fecha, hora, notas, c);
    Probe(fecha, hora, OrNull(body.salaId), RoomName(body, catalogue).s, None)
  }

  /** The form's room test is the backend's room rule for the room the
      payload names. */
  lemma InChosenRoomIsRoomMatch(c: RoomChoice, catalogue: Catalogue, r: Reservation, fecha: string, hora: string, notas: string)
    requires ChoiceKnown(c, catalogue)
    ensures var p := PayloadProbe(fecha, hora, notas, c, catalogue);
      InChosenRoom(c, r) <==> RoomMatch(p.salaId, p.salaNombre, r.salaId, r.salaNombre)
  {
    var p := PayloadProbe(fecha, hora, notas, c, catalogue);
    if c.mode == Lista {
      assert p.salaId == Some(c.selectedSalaId) && p.salaNombre == catalogue[c.selectedSalaId];
      ListedRoomIsRoomMatch(c.selectedSalaId, catalogue[c.selectedSalaId], SelectedName(c), r);
    } else {
      assert p.salaId == None && p.salaNombre == Trim(c.manualSalaNombre);
      TypedRoomIsRoomMatch(c.manualSalaNombre, r);
    }
  }

  /** List mode: the id test and the name test of the form are the
      backend's rule for the catalogue room `id` named `name`. */
  lemma ListedRoomIsRoomMatch(id: string, name: string, selectedSalaNombre: string, r: Reservation)
    requires id != "" && selectedSalaNombre == Trim(name)
    ensures (|| IdText(r.salaId) == id
             || (IdText(r.salaId) == "" && selectedSalaNombre != "" && Key(r.salaNombre) == Lower(selectedSalaNombre)))
      <==> RoomMatch(Some(id), name, r.salaId, r.salaNombre)
  {
    assert Lower(selectedSalaNombre) == Key(name);
    assert IdText(r.salaId) == "" <==> !HasId(r.salaId);
    assert IdText(r.salaId) == id <==> HasId(r.salaId) && r.salaId.value == id;
  }

  /** Manual mode: the form's name test is the backend's rule for a room
      without id named by the trimmed typed name. */
  lemma TypedRoomIsRoomMatch(manual: string, r: Reservation)
    requires Trim(manual) != ""
    ensures Key(r.salaNombre) == Lower(Trim(manual)) <==> RoomMatch(None, Trim(manual), r.salaId, r.salaNombre)
  {
    KeyOfTrim(manual);
    assert Lower(Trim(manual)) == Key(manual);
  }

  /** For a date and a time on the 15-minute grid, a time is marked taken
      by the form exactly when the backend's conflict search, given the
      payload the form would send, finds a reservation of the list. */
  lemma OccupiedTimesAgreeWithBackend(reservas: seq<Reservation>, fecha: string, hora: string, notas: string,
                                      c: RoomChoice, catalogue: Catalogue)
    requires fecha != "" && NormalizeToStep(hora) == Some(hora)
    requires ChoiceKnown(c, catalogue)
    ensures hora in OccupiedTimesOf(reservas, fecha, c) <==>
      exists i :: 0 <= i < |reservas| && Collides(PayloadProbe(fecha, hora, notas, c, catalogue), reservas[i])
  {
    var p := PayloadProbe(fecha, hora, notas, c, catalogue);
    OccupiedTimesMembers(reservas, fecha, c, hora);
    forall i | 0 <= i < |reservas|
      ensures SlotOf(reservas[i], fecha, c) == Some(hora) <==> Collides(p, reservas[i])
    {
      InChosenRoomIsRoomMatch(c, catalogue, reservas[i], fecha, hora, notas);
    }
  }

  /** With a room chosen, a date is marked exactly when some reservation of
      the list on that date is in the room by the backend's rule. */
  lemma OccupiedDatesAgreeWithBackend(reservas: seq<Reservation>, d: string, notas: string,
                                      c: RoomChoice, catalogue: Catalogue)
    requires d != "" && ChoiceKnown(c, catalogue)
    ensures var p := PayloadProbe(d, "", notas, c, catalogue);
      d in OccupiedDatesOf(reservas, c) <==>
      exists i :: 0 <= i < |reservas| && reservas[i].fecha == d
        && RoomMatch(p.salaId, p.salaNombre, reservas[i].salaId, reservas[i].salaNombre)
  {
    var p := PayloadProbe(d, "", notas, c, catalogue);
    OccupiedDatesMembers(reservas, c, d);
    assert RoomSelected(c);
    forall i | 0 <= i < |reservas|
      ensures DateOf(reservas[i], c) == Some(d) <==>
        (reservas[i].fecha == d && RoomMatch(p.salaId, p.salaNombre, reservas[i].salaId, reservas[i].salaNombre))
    {
      InChosenRoomIsRoomMatch(c, catalogue, reservas[i], d, "", notas);
    }
  }

  /** Without a room chosen, every reservation's date is marked. */
  lemma NoRoomMarksEveryDate(reservas: seq<Reservation>, c: RoomChoice, i: int)
    requires !RoomSelected(c) && 0 <= i < |reservas| && reservas[i].fecha != ""
    ensures reservas[i].fecha in OccupiedDatesOf(reservas, c)
  {
    OccupiedDatesMembers(reservas, c, reservas[i].fecha);
  }

  /** When the list is the table's listing, a grid time the form does not
      mark taken is not refused by the backend as a conflict. */
  lemma FreeSlotIsNotAConflict(rows: map<string, Reservation>, list: seq<Reservation>, catalogue: Catalogue,
                               caller: string, fecha: string, hora: string, notas: string, c: RoomChoice,
                               newId: string, now: int)
    requires WellKeyed(rows) && ListsOnce(list, rows, rows.Keys)
    requires fecha != "" && NormalizeToStep(hora) == Some(hora)
    requires ChoiceKnown(c, catalogue)
    requires hora !in OccupiedTimesOf(list, fecha, c)
    ensures !CreateSpec(rows, catalogue, caller, Payload(fecha, hora, notas, c), newId, now).Conflict?
  {
    var p := PayloadProbe(fecha, hora, notas, c, catalogue);
    assert forall k :: k in rows ==> !Collides(p, rows[k]) by {
      OccupiedTimesAgreeWithBackend(list, fecha, hora, notas, c, catalogue);
      ScanSeesEveryRow(list, rows, p);
    }
    PayloadConflicts(rows, catalogue, caller, fecha, hora, notas, c, newId, now);
  }

  /** The backend answers the form's payload with a conflict only when a
      stored row collides with the payload's probe. */
  lemma PayloadConflicts(rows: map<string, Reservation>, catalogue: Catalogue, caller: string,
                         fecha: string, hora: string, notas: string, c: RoomChoice, newId: string, now: int)
    requires fecha != "" && NormalizeToStep(hora) == Some(hora)
    requires ChoiceKnown(c, catalogue)
    ensures CreateSpec(rows, catalogue, caller, Payload(fecha, hora, notas, c), newId, now).Conflict? ==>
      exists k :: k in rows && Collides(PayloadProbe(fecha, hora, notas, c, catalogue), rows[k])
  {
    var body := Payload(fecha, hora, notas, c);
    assert Truthy(body.fecha) && Truthy(body.hora) && NormalizeToStep(body.hora.s) == Some(hora);
    assert Truthy(body.salaId) ==> body.salaId.s in catalogue;
    assert Truthy(RoomName(body, catalogue));
    CreateConflicts(rows, catalogue, caller, body, newId, now);
  }

  // ---------------------------------------------------------------------
  // validate
  // ---------------------------------------------------------------------

  /** When `validate` accepts the form: a date that is not past, a time
      that is not past today and not taken, and a room. */
  predicate FormOk(fecha: string, hora: string, today: string, nowMs: int, c: RoomChoice, occupied: set<string>) {
    && fecha != "" && !IsPastDate(fecha, today)
    && hora != "" && !TimeIsPastForToday(fecha, hora, today, nowMs) && hora !in occupied
    && RoomSelected(c)
  }

  /** Without a date no time is taken: every reservation that takes a
      slot has a date. */
  lemma NoDateTakesNoTime(reservas: seq<Reservation>, c: RoomChoice)
    ensures OccupiedTimesOf(reservas, "", c) == {}
  {
    forall t ensures t !in OccupiedTimesOf(reservas, "", c) {
      OccupiedTimesMembers(reservas, "", c, t);
    }
  }

  /** The date's message: a missing date, else a past one. */
  function FechaError(fecha: string, today: string): Option<string> {
    if fecha == "" then Some(MsgFechaObligatoria)
    else if IsPastDate(fecha, today) then Some(MsgFechaPasada)
    else None
  }

  /** The time's message: a missing time, else a taken one (`taken` is the
      message of the form or of the card), which wins over a time already
      past today. */
  function HoraError(fecha: string, hora: string, today: string, nowMs: int, occupied: set<string>, taken: string): Option<string> {
    if hora == "" then Some(MsgHoraObligatoria)
    else if hora in occupied then Some(taken)
    else if TimeIsPastForToday(fecha, hora, today, nowMs) then Some(MsgHoraPasada)
    else None
  }

  /** The room's message: nothing selected from the list, or no name typed. */
  function SalaError(c: RoomChoice): Option<string> {
    if RoomSelected(c) then None
    else if c.mode == Lista then Some(MsgSeleccionaSala)
    else Some(MsgIngresaSala)
  }

  /** An error object with `field` set to `message` when there is one. */
  function Record(errors: map<FormField, string>, field: FormField, message: Option<string>): map<FormField, string> {
    if message.Some? then errors[field := message.value] else errors
  }

  /** The error object `validate` leaves: an entry for each failing field
      (date, time, room), holding that field's message. */
  function FormErrors(fecha: string, hora: string, today: string, nowMs: int, c: RoomChoice, occupied: set<string>): map<FormField, string> {
    var withFecha := Record(map[], FechaField, FechaError(fecha, today));
    var withHora := Record(withFecha, HoraField, HoraError(fecha, hora, today, nowMs, occupied, MsgHorarioOcupado));
    Record(withHora, SalaField, SalaError(c))
  }

  /** Field by field, the error object has an entry exactly when that
      field's check fails, with the message of the failing check; a taken
      time is reported as taken even when it is also past. */
  lemma FormErrorsFields(fecha: string, hora: string, today: string, nowMs: int, c: RoomChoice, occupied: set<string>)
    ensures var errors := FormErrors(fecha, hora, today, nowMs, c, occupied);
      && errors.Keys <= {FechaField, HoraField, SalaField}
      && (FechaField in errors <==> fecha == "" || IsPastDate(fecha, today))
      && (FechaField in errors ==> errors[FechaField] == if fecha == "" then MsgFechaObligatoria else MsgFechaPasada)
      && (HoraField in errors <==> hora == "" || TimeIsPastForToday(fecha, hora, today, nowMs) || hora in occupied)
      && (HoraField in errors ==>
            errors[HoraField] == if hora == "" then MsgHoraObligatoria else if hora in occupied then MsgHorarioOcupado else MsgHoraPasada)
      && (SalaField in errors <==> !RoomSelected(c))
      && (SalaField in errors ==> errors[SalaField] == if c.mode == Lista then MsgSeleccionaSala else MsgIngresaSala)
  {
  }

  /** The form is accepted exactly when the error object is empty. */
  lemma FormErrorsEmptyIffOk(fecha: string, hora: string, today: string, nowMs: int, c: RoomChoice, occupied: set<string>)
    ensures FormErrors(fecha, hora, today, nowMs, c, occupied) == map[] <==> FormOk(fecha, hora, today, nowMs, c, occupied)
  {
    var errors := FormErrors(fecha, hora, today, nowMs, c, occupied);
    FormErrorsFields(fecha, hora, today, nowMs, c, occupied);
    if !FormOk(fecha, hora, today, nowMs, c, occupied) {
      assert FechaField in errors || HoraField in errors || SalaField in errors;
    }
  }

  /** Setting the time's entry after the room's is setting it before. */
  lemma HoraAfterSala(errors: map<FormField, string>, message: string, sala: Option<string>)
    ensures Record(errors, SalaField, sala)[HoraField := message] == Record(errors[HoraField := message], SalaField, sala)
  {
  }

  /** A taken time's message replaces whatever the time's entry held. */
  lemma TakenReplacesHora(before: map<FormField, string>, after: map<FormField, string>, message: string)
    requires after - {HoraField} == before - {HoraField}
    ensures after[HoraField := message] == Record(before, HoraField, Some(message))
  {
    forall f | f != HoraField
      ensures (f in after <==> f in before) && (f in after ==> after[f] == before[f])
    {
      assert (f in after <==> f in after - {HoraField}) && (f in before <==> f in before - {HoraField});
      if f in after {
        assert (after - {HoraField})[f] == after[f] && (before - {HoraField})[f] == before[f];
      }
    }
  }

  /** The room block of `validate`: a list choice needs a selected id, a
      typed choice a name that is not blank. */
  method CheckSala(errors: map<FormField, string>, c: RoomChoice) returns (updated: map<FormField, string>)
    ensures updated == Record(errors, SalaField, SalaError(c))
  {
    updated := errors;
    if c.mode == Lista {
      if c.selectedSalaId == "" {
        updated := updated[SalaField := MsgSeleccionaSala];
      }
    } else {
      if Trim(c.manualSalaNombre) == "" {
        updated := updated[SalaField := MsgIngresaSala];
      }
    }
  }

  /** `validate`: fills the error object field by field, the taken-time
      check last; the form is accepted exactly when no error was recorded. */
  method Validate(fecha: string, hora: string, today: string, nowMs: int, c: RoomChoice, occupied: set<string>)
    returns (errors: map<FormField, string>, ok: bool)
    ensures errors == FormErrors(fecha, hora, today, nowMs, c, occupied)
    ensures ok <==> errors == map[]
    ensures ok <==> FormOk(fecha, hora, today, nowMs, c, occupied)
  {
    errors := map[];
    if fecha == "" {
      errors := errors[FechaField := MsgFechaObligatoria];
    } else if IsPastDate(fecha, today) {
      errors := errors[FechaField := MsgFechaPasada];
    }
    ghost var withFecha := errors;
    assert withFecha == Record(map[], FechaField, FechaError(fecha, today));
    if hora == "" {
      errors := errors[HoraField := MsgHoraObligatoria];
    } else if TimeIsPastForToday(fecha, hora, today, nowMs) {
      errors := errors[HoraField := MsgHoraPasada];
    }
    ghost var withHora := errors;
    assert withHora - {HoraField} == withFecha - {HoraField};
    assert hora == "" || hora !in occupied ==>
      withHora == Record(withFecha, HoraField, HoraError(fecha, hora, today, nowMs, occupied, MsgHorarioOcupado));
    errors := CheckSala(errors, c);
    if hora != "" && hora in occupied {
      HoraAfterSala(withHora, MsgHorarioOcupado, SalaError(c));
      TakenReplacesHora(withFecha, withHora, MsgHorarioOcupado);
      errors := errors[HoraField := MsgHorarioOcupado];
    }
    ok := errors == map[];
    FormErrorsEmptyIffOk(fecha, hora, today, nowMs, c, occupied);
  }

  // ---------------------------------------------------------------------
  // The form's state and handleSubmit
  // ---------------------------------------------------------------------

  /** The state of the form that `handleSubmit` reads and resets. */
  class FormState {
    var fecha: string
    var hora: string
    var notas: string
    var showSlots: bool
    var salaMode: SalaMode
    var selectedSalaId: string
    var manualSalaNombre: string
    var errors: map<FormField, string>

    /** The initial state: empty fields, list mode, nothing selected. */
    constructor ()
      ensures fecha == "" && hora == "" && notas == "" && !showSlots
      ensures salaMode == Lista && selectedSalaId == "" && manualSalaNombre == "" && errors == map[]
    {
      fecha, hora, notas, showSlots := "", "", "", false;
      salaMode, selectedSalaId, manualSalaNombre := Lista, "", "";
      errors := map[];
    }

    /** The entries `handleSubmit` clears: date, time, notes, whether the
        time slots are shown, and the typed room name. */
    function Entries(): (string, string, string, bool, string)
      reads this
    {
      (fecha, hora, notas, showSlots, manualSalaNombre)
    }

    /** `handleSubmit`: records the error object of `validate` for the
        current fields, where `occupiedTimes` is the component's memoised
        set of taken times (what `OccupiedTimes` computes from the list).
        When it is empty, sends the payload and, when `onCreate` returns
        without throwing (`created`), clears the date, time, notes, errors
        and the typed name. When `onCreate` throws, the fields are kept. */
    method HandleSubmit(occupiedTimes: set<string>, salas: seq<Sala>, today: string, nowMs: int, created: bool)
      returns (payload: Option<Body>)
      modifies this
      ensures var c := RoomChoice(old(salaMode), old(selectedSalaId), salas, old(manualSalaNombre));
        payload.Some? <==> FormErrors(old(fecha), old(hora), today, nowMs, c, occupiedTimes) == map[]
      ensures payload.Some? ==>
        payload == Some(Payload(old(fecha), old(hora), old(notas), RoomChoice(old(salaMode), old(selectedSalaId), salas, old(manualSalaNombre))))
      ensures var c := RoomChoice(old(salaMode), old(selectedSalaId), salas, old(manualSalaNombre));
        errors == FormErrors(old(fecha), old(hora), today, nowMs, c, occupiedTimes)
      ensures salaMode == old(salaMode) && selectedSalaId == old(selectedSalaId)
      ensures payload.None? || !created ==> Entries() == old(Entries())
      ensures payload.Some? && created ==>
        Entries() == ("", "", "", false, if salaMode == Manual then "" else old(manualSalaNombre))
    {
      var c := RoomChoice(salaMode, selectedSalaId, salas, manualSalaNombre);
      var newErrors := FormErrors(fecha, hora, today, nowMs, c, occupiedTimes);
      var ok := newErrors == map[];
      errors := newErrors;
      payload := None;
      if ok {
        payload := Some(Payload(fecha, hora, notas, c));
        if created {
          fecha, hora, notas := "", "", "";
          errors := map[];
          showSlots := false;
          if salaMode == Manual {
            manualSalaNombre := "";
          }
        }
      }
    }
  }
}
