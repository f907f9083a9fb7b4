/** The booking endpoints of the backend (`controllers/reservasController.js`):
    listing, reading, creating, updating and deleting reservations, with the
    request validation, the room resolution against the room catalogue and
    the conflict search that keeps two bookings of the same room out of the
    same 15-minute slot. Each endpoint is a method over the table, proved
    equal to a declarative description of its response; the lemmas below
    state what those responses promise, and which requests keep the table
    free of double bookings. */
module ReservasController {
  import opened JsValues
  import opened JsStrings
  import opened TimeGrid
  import opened ReservaModel

  /** The fields of `req.body` the endpoints read. */
  datatype Body = Body(fecha: Field, hora: Field, salaId: Field, salaNombre: Field, notas: Field)

  /** The `salas` table as `SalaModel.findById` sees it: room id to room name. */
  type Catalogue = map<string, string>

  /** What an endpoint answers: the status code and the JSON payload. */
  datatype Response =
    | Listed(reservas: seq<Reservation>)
    | Found(reserva: Reservation)
    | Created(reserva: Reservation)
    | Updated(reserva: Reservation)
    | Deleted
    | BadRequest(message: string)
    | Forbidden(message: string)
    | NotFound(message: string)
    | Conflict(fecha: string, hora: string, salaId: Option<string>, salaNombre: string)
  {
    /** The HTTP status; a 403 reaches the client through the error
        handler, which answers with the error's own status. */
    function Status(): int {
      match this
      case Listed(_) => 200
      case Found(_) => 200
      case Created(_) => 201
      case Updated(_) => 200
      case Deleted => 200
      case BadRequest(_) => 400
      case Forbidden(_) => 403
      case NotFound(_) => 404
      case Conflict(_, _, _, _) => 409
    }

    /** The `message` of the JSON payload, where there is one. */
    function Message(): string {
      match this
      case Listed(_) => ""
      case Found(_) => ""
      case Created(_) => "Reserva creada correctamente"
      case Updated(_) => "Reserva actualizada correctamente"
      case Deleted => "Reserva eliminada correctamente"
      case BadRequest(m) => m
      case Forbidden(m) => m
      case NotFound(m) => m
      case Conflict(_, _, _, _) => MsgConflicto
    }
  }

  const MsgFechaHora: string := "Fecha y hora son obligatorias"
  const MsgSalaInvalida: string := "Sala inválida"
  const MsgSalaObligatoria: string := "La sala es obligatoria"
  const MsgHoraInvalida: string := "Hora inválida"
  const MsgNoEncontrada: string := "Reserva no encontrada"
  const MsgSinPermisoEditar: string := "No tenés permiso para editar esta reserva"
  const MsgSinPermisoEliminar: string := "No tenés permiso para eliminar esta reserva"
  const MsgConflicto: string := "Conflicto de reserva: la sala ya está ocupada en ese horario."

  // ---------------------------------------------------------------------
  // Room resolution and the conflict search
  // ---------------------------------------------------------------------

  /** The room name a request ends up with: a catalogue id brings the
      catalogue's name, whatever name the body carries; otherwise the
      body's name as given. The room id is always `salaId || null`. */
  function RoomName(body: Body, catalogue: Catalogue): Field
    requires Truthy(body.salaId) ==> body.salaId.s in catalogue
  {
    if Truthy(body.salaId) then Str(catalogue[body.salaId.s]) else body.salaNombre
  }

  /** The three room tests of the conflict search, for a candidate room
      (`candId`, `candName`) against a stored row's room: (A) both have an
      id and the ids are equal; (B) the row has no id and its non-empty
      name key equals the candidate's; (C) the candidate has no id and the
      row's non-empty name key equals the candidate's. */
  predicate RoomMatch(candId: Option<string>, candName: string, rowId: Option<string>, rowName: string) {
    || (HasId(candId) && HasId(rowId) && rowId.value == candId.value)
    || (!HasId(rowId) && Key(rowName) != "" && Key(rowName) == Key(candName))
    || (!HasId(candId) && Key(rowName) != "" && Key(rowName) == Key(candName))
  }

  /** The same test read as two tiers: ids decide when both sides have one;
      otherwise the trimmed, lower-cased names decide. */
  lemma RoomMatchTwoTier(candId: Option<string>, candName: string, rowId: Option<string>, rowName: string)
    ensures RoomMatch(candId, candName, rowId, rowName) <==>
      if HasId(candId) && HasId(rowId) then candId.value == rowId.value
      else Key(rowName) != "" && Key(rowName) == Key(candName)
  {
  }

  /** Whether two rooms match does not depend on which is the candidate. */
  lemma RoomMatchSymmetric(aId: Option<string>, aName: string, bId: Option<string>, bName: string)
    ensures RoomMatch(aId, aName, bId, bName) <==> RoomMatch(bId, bName, aId, aName)
  {
    RoomMatchTwoTier(aId, aName, bId, bName);
    RoomMatchTwoTier(bId, bName, aId, aName);
  }

  /** Two rooms with different ids never match, whatever their names. */
  lemma DifferentIdsNeverMatch(aId: Option<string>, aName: string, bId: Option<string>, bName: string)
    requires HasId(aId) && HasId(bId) && aId.value != bId.value
    ensures !RoomMatch(aId, aName, bId, bName)
  {
    RoomMatchTwoTier(aId, aName, bId, bName);
  }

  /** What the conflict search looks for: the date, the normalised time and
      the room of the request, and, on update, the id of the row being
      edited, which never conflicts with itself. */
  datatype Probe = Probe(fecha: string, hora: string, salaId: Option<string>, salaNombre: string, exclude: Option<string>)

  /** The callback of `reservas.find`: a stored row conflicts when it has a
      date and a time (and, on update, an id other than the edited one), the
      same date, a time that normalises to the requested slot, and a
      matching room. */
  predicate Collides(p: Probe, r: Reservation) {
    && (p.exclude.Some? ==> r.id != "" && r.id != p.exclude.value)
    && r.fecha != "" && r.hora != ""
    && r.fecha == p.fecha
    && NormalizeToStep(r.hora) == Some(p.hora)
    && RoomMatch(p.salaId, p.salaNombre, r.salaId, r.salaNombre)
  }

  /** `reservas.find(collides)`: the first conflicting row of the list. */
  function FirstConflict(reservas: seq<Reservation>, p: Probe): (found: Option<Reservation>)
    ensures found.None? <==> forall i :: 0 <= i < |reservas| ==> !Collides(p, reservas[i])
    ensures found.Some? ==> found.value in reservas && Collides(p, found.value)
  {
    if reservas == [] then None
    else if Collides(p, reservas[0]) then Some(reservas[0])
    else
      var rest := reservas[1..];
      assert forall i :: 0 <= i < |rest| ==> rest[i] == reservas[i + 1];
      FirstConflict(rest, p)
  }

  /** Scanning the listing sees every row of the table and nothing else:
      the search finds a conflict exactly when some stored row conflicts. */
  lemma ScanSeesEveryRow(list: seq<Reservation>, rows: map<string, Reservation>, p: Probe)
    requires WellKeyed(rows)
    requires ListsOnce(list, rows, rows.Keys)
    ensures FirstConflict(list, p).None? <==> forall k :: k in rows ==> !Collides(p, rows[k])
  {
    if FirstConflict(list, p).Some? {
      var i :| 0 <= i < |list| && Collides(p, list[i]);
      assert list[i] in multiset(list);
      assert list[i].id in rows && rows[list[i].id] == list[i];
    } else {
      forall k | k in rows ensures !Collides(p, rows[k]) {
        assert multiset(list)[rows[k]] == 1;
        assert rows[k] in multiset(list);
        var i :| 0 <= i < |list| && list[i] == rows[k];
      }
    }
  }

  // ---------------------------------------------------------------------
  // What each endpoint answers
  // ---------------------------------------------------------------------

  /** `createReserva`, described by its outcome on the table `rows`: the
      checks in the order the endpoint makes them, then the conflict search,
      then the row stored under the fresh id `newId` at time `now`. */
  ghost function CreateSpec(rows: map<string, Reservation>, catalogue: Catalogue, caller: string,
                            body: Body, newId: string, now: int): Response
  {
    if !Truthy(body.fecha) || !Truthy(body.hora) then BadRequest(MsgFechaHora)
    else if Truthy(body.salaId) && body.salaId.s !in catalogue then BadRequest(MsgSalaInvalida)
    else
      var salaNombre := RoomName(body, catalogue);
      if !Truthy(salaNombre) then BadRequest(MsgSalaObligatoria)
      else match NormalizeToStep(body.hora.s)
        case None => BadRequest(MsgHoraInvalida)
        case Some(hora) =>
          var p := Probe(body.fecha.s, hora, OrNull(body.salaId), salaNombre.s, None);
          if exists k :: k in rows && Collides(p, rows[k]) then
            Conflict(body.fecha.s, hora, OrNull(body.salaId), salaNombre.s)
          else
            Created(StoredRow(Reservation(newId, caller, OrNull(body.salaId), salaNombre.s, body.fecha.s,
                                          hora, OrEmpty(body.notas), now, None)))
  }

  /** The `changes` object `updateReserva` hands to the table: the body's
      date and notes as sent, the normalised time when a time is sent, and
      the room only when one is named — a catalogue id with its name, or a
      bare name with the id set to `null`. */
  ghost function UpdateChanges(body: Body, catalogue: Catalogue): Changes
    requires Truthy(body.salaId) ==> body.salaId.s in catalogue
    requires Truthy(body.hora) ==> NormalizeToStep(body.hora.s).Some?
  {
    Changes(
      if Truthy(body.salaId) then body.salaId else if Truthy(body.salaNombre) then Null else Undefined,
      if Truthy(body.salaId) || Truthy(body.salaNombre) then RoomName(body, catalogue) else Undefined,
      body.fecha,
      if Truthy(body.hora) then Str(NormalizeToStep(body.hora.s).value) else body.hora,
      body.notas)
  }

  /** `updateReserva` on row `id`, described by its outcome on `rows`. The
      conflict search runs only when the body has a date, a time and a
      room; ownership is checked last, by the table. */
  ghost function UpdateSpec(rows: map<string, Reservation>, catalogue: Catalogue, caller: string,
                            id: string, body: Body, now: int): Response
  {
    if Truthy(body.salaId) && body.salaId.s !in catalogue then BadRequest(MsgSalaInvalida)
    else if Truthy(body.hora) && NormalizeToStep(body.hora.s).None? then BadRequest(MsgHoraInvalida)
    else
      var changes := UpdateChanges(body, catalogue);
      var salaNombre := RoomName(body, catalogue);
      if Truthy(body.fecha) && Truthy(changes.hora) && Truthy(salaNombre)
         && exists k :: k in rows && Collides(Probe(body.fecha.s, changes.hora.s, OrNull(body.salaId), salaNombre.s, Some(id)), rows[k])
      then Conflict(body.fecha.s, changes.hora.s, OrNull(body.salaId), salaNombre.s)
      else if id !in rows then NotFound(MsgNoEncontrada)
      else if rows[id].usuarioId != caller then Forbidden(MsgSinPermisoEditar)
      else Updated(Merge(rows[id], changes, now))
  }

  /** `deleteReserva` on row `id`, described by its outcome on `rows`. */
  ghost function DeleteSpec(rows: map<string, Reservation>, caller: string, id: string): Response {
    if id !in rows then NotFound(MsgNoEncontrada)
    else if rows[id].usuarioId != caller then Forbidden(MsgSinPermisoEliminar)
    else Deleted
  }

  /** The table after a response: a created or updated row is stored under
      its id, a deleted one is gone, anything else leaves the table alone. */
  ghost function After(rows: map<string, Reservation>, id: string, resp: Response): map<string, Reservation> {
    match resp
    case Created(r) => rows[id := r]
    case Updated(r) => rows[id := r]
    case Deleted => rows - {id}
    case _ => rows
  }

  // ---------------------------------------------------------------------
  // The endpoints
  // ---------------------------------------------------------------------

  /** `getReservas`: every row once, newest first. */
  method GetReservas(table: ReservaTable) returns (resp: Response)
    requires table.Valid()
    ensures resp.Listed? && resp.Status() == 200
    ensures NewestFirst(resp.reservas) && ListsOnce(resp.reservas, table.rows, table.rows.Keys)
  {
    var reservas := table.ListAll();
    resp := Listed(reservas);
  }

  /** `getReservaById`: the row, or 404. */
  method GetReservaById(table: ReservaTable, id: string) returns (resp: Response)
    requires table.Valid()
    ensures id in table.rows ==> resp == Found(table.rows[id])
    ensures id !in table.rows ==> resp == NotFound(MsgNoEncontrada) && resp.Status() == 404
  {
    var reserva := table.FindById(id);
    if reserva.None? {
      return NotFound(MsgNoEncontrada);
    }
    resp := Found(reserva.value);
  }

  /** `createReserva` by user `caller`; `newId` and `now` stand for
      `randomUUID()` and the clock. */
  method CreateReserva(table: ReservaTable, catalogue: Catalogue, caller: string, body: Body,
                       newId: string, now: int) returns (resp: Response)
    requires table.Valid() && newId != "" && newId !in table.rows
    modifies table
    ensures table.Valid()
    ensures resp == CreateSpec(old(table.rows), catalogue, caller, body, newId, now)
    ensures resp.Created? ==> table.rows == old(table.rows)[newId := resp.reserva]
    ensures !resp.Created? ==> table.rows == old(table.rows)
  {
    if !Truthy(body.fecha) || !Truthy(body.hora) {
      return BadRequest(MsgFechaHora);
    }
    var finalSalaId := OrNull(body.salaId);
    var finalSalaNombre := body.salaNombre;
    if Truthy(body.salaId) {
      if body.salaId.s !in catalogue {
        return BadRequest(MsgSalaInvalida);
      }
      finalSalaNombre := Str(catalogue[body.salaId.s]);
      finalSalaId := Some(body.salaId.s);
    }
    assert finalSalaId == OrNull(body.salaId) && finalSalaNombre == RoomName(body, catalogue);
    if !Truthy(finalSalaNombre) {
      return BadRequest(MsgSalaObligatoria);
    }
    var normalizedHora := NormalizeToStep(body.hora.s);
    if normalizedHora.None? {
      return BadRequest(MsgHoraInvalida);
    }
    var reservas := table.ListAll();
    var probe := Probe(body.fecha.s, normalizedHora.value, finalSalaId, finalSalaNombre.s, None);
    var conflict := FirstConflict(reservas, probe);
    ScanSeesEveryRow(reservas, table.rows, probe);
    if conflict.Some? {
      return Conflict(body.fecha.s, normalizedHora.value, finalSalaId, finalSalaNombre.s);
    }
    var nueva := Reservation(newId, caller, finalSalaId, finalSalaNombre.s, body.fecha.s,
                             normalizedHora.value, OrEmpty(body.notas), now, None);
    var created := table.Create(nueva);
    resp := Created(created);
  }

  /** `updateReserva` of row `id` by user `caller` at time `now`. */
  method UpdateReserva(table: ReservaTable, catalogue: Catalogue, caller: string, id: string,
                       body: Body, now: int) returns (resp: Response)
    requires table.Valid()
    modifies table
    ensures table.Valid()
    ensures resp == UpdateSpec(old(table.rows), catalogue, caller, id, body, now)
    ensures resp.Updated? ==> table.rows == old(table.rows)[id := resp.reserva]
    ensures !resp.Updated? ==> table.rows == old(table.rows)
  {
    var changes := Changes(Undefined, Undefined, body.fecha, body.hora, body.notas);
    var finalSalaId := OrNull(body.salaId);
    var finalSalaNombre := body.salaNombre;
    if Truthy(body.salaId) {
      if body.salaId.s !in catalogue {
        return BadRequest(MsgSalaInvalida);
      }
      finalSalaId := Some(body.salaId.s);
      finalSalaNombre := Str(catalogue[body.salaId.s]);
      changes := changes.(salaId := Str(body.salaId.s), salaNombre := finalSalaNombre);
    } else if Truthy(body.salaNombre) {
      finalSalaId := None;
      finalSalaNombre := body.salaNombre;
      changes := changes.(salaId := Null, salaNombre := body.salaNombre);
    }
    if Truthy(body.hora) {
      var normalizedHora := NormalizeToStep(body.hora.s);
      if normalizedHora.None? {
        return BadRequest(MsgHoraInvalida);
      }
      changes := changes.(hora := Str(normalizedHora.value));
    }
    assert changes == UpdateChanges(body, catalogue);
    assert finalSalaId == OrNull(body.salaId) && finalSalaNombre == RoomName(body, catalogue);
    if Truthy(body.fecha) && Truthy(changes.hora) && Truthy(finalSalaNombre) {
      var reservas := table.ListAll();
      var probe := Probe(body.fecha.s, changes.hora.s, finalSalaId, finalSalaNombre.s, Some(id));
      var conflict := FirstConflict(reservas, probe);
      ScanSeesEveryRow(reservas, table.rows, probe);
      if conflict.Some? {
        return Conflict(body.fecha.s, changes.hora.s, finalSalaId, finalSalaNombre.s);
      }
    }
    var outcome := table.Update(id, caller, changes, now);
    match outcome
    case NoSuchRow => resp := NotFound(MsgNoEncontrada);
    case NotOwner => resp := Forbidden(MsgSinPermisoEditar);
    case Merged(row) => resp := Updated(row);
  }

  /** `deleteReserva` of row `id` by user `caller`. */
  method DeleteReserva(table: ReservaTable, caller: string, id: string) returns (resp: Response)
    requires table.Valid()
    modifies table
    ensures table.Valid()
    ensures resp == DeleteSpec(old(table.rows), caller, id)
    ensures resp.Deleted? ==> table.rows == old(table.rows) - {id}
    ensures !resp.Deleted? ==> table.rows == old(table.rows)
  {
    var outcome := table.Remove(id, caller);
    match outcome
    case RemoveNotFound => resp := NotFound(MsgNoEncontrada);
    case RemoveNotOwner => resp := Forbidden(MsgSinPermisoEliminar);
    case Removed => resp := Deleted;
  }

  // ---------------------------------------------------------------------
  // No double booking
  // ---------------------------------------------------------------------

  /** A time that is its own normalisation: a point of the 15-minute grid. */
  predicate OnGrid(hora: string) {
    NormalizeToStep(hora) == Some(hora)
  }

  /** The slot a stored time occupies: the grid point it normalises to,
      if it normalises to one. "09:00", "9:00" and "9:07" all occupy
      "09:00"; a time that does not read, "NaN:NaN" and a negative time
      with minutes (which drifts on every normalisation) occupy none. */
  function GridSlot(hora: string): (slot: Option<string>)
    ensures slot.Some? ==> OnGrid(slot.value) && NormalizeToStep(hora) == slot
    ensures slot.None? ==> NormalizeToStep(hora).None? || !OnGrid(NormalizeToStep(hora).value)
  {
    match NormalizeToStep(hora)
    case None => None
    case Some(s) => if OnGrid(s) then Some(s) else None
  }

  /** Two rows book the same room in the same slot: the same date, times
      that normalise to the same grid point, and rooms the conflict search
      would match. */
  predicate Clash(a: Reservation, b: Reservation) {
    && a.fecha != "" && a.fecha == b.fecha
    && GridSlot(a.hora).Some? && GridSlot(a.hora) == GridSlot(b.hora)
    && RoomMatch(a.salaId, a.salaNombre, b.salaId, b.salaNombre)
  }

  /** The slot of a time the normaliser wrote is that time itself, or
      there is none. */
  lemma GridSlotOfWrittenTime(time: string, x: string)
    requires NormalizeToStep(time) == Some(x)
    ensures GridSlot(x).Some? ==> GridSlot(x) == Some(x)
  {
    if GridSlot(x).Some? {
      ResultReachesGridOnlyIfFixed(time, x, GridSlot(x).value);
    }
  }

  /** No two different rows of the table clash. */
  predicate NoDoubleBooking(rows: map<string, Reservation>) {
    forall j, k :: j in rows && k in rows && j != k ==> !Clash(rows[j], rows[k])
  }

  /** Two optional room ids the room tests cannot tell apart. */
  predicate SameRoomId(a: Option<string>, b: Option<string>) {
    HasId(a) == HasId(b) && (HasId(a) ==> a.value == b.value)
  }

  /** A row written with the date, the time and the room of a probe that
      found no conflict with `r` clashes with `r` in neither order. */
  lemma WrittenRowDoesNotClash(p: Probe, x: Reservation, r: Reservation, time: string)
    requires x.fecha == p.fecha && x.hora == p.hora && NormalizeToStep(time) == Some(p.hora)
    requires SameRoomId(x.salaId, p.salaId) && x.salaNombre == p.salaNombre
    requires p.exclude.Some? ==> r.id != "" && r.id != p.exclude.value
    requires !Collides(p, r)
    ensures !Clash(x, r) && !Clash(r, x)
  {
    assert NormalizeToStep("") == None;
    GridSlotOfWrittenTime(time, x.hora);
    RoomMatchTwoTier(x.salaId, x.salaNombre, r.salaId, r.salaNombre);
    RoomMatchTwoTier(p.salaId, p.salaNombre, r.salaId, r.salaNombre);
    RoomMatchSymmetric(r.salaId, r.salaNombre, x.salaId, x.salaNombre);
  }

  /** For a request whose time is a grid point, the search's test and the
      clash are the same thing: a stored row collides with the probe exactly
      when the row written from it would clash with the stored one. */
  lemma SearchFindsExactlyClashes(p: Probe, x: Reservation, r: Reservation)
    requires x.fecha == p.fecha && x.hora == p.hora && OnGrid(p.hora)
    requires SameRoomId(x.salaId, p.salaId) && x.salaNombre == p.salaNombre
    requires p.exclude.None?
    ensures Collides(p, r) <==> Clash(x, r)
  {
    assert NormalizeToStep("") == None;
    RoomMatchTwoTier(x.salaId, x.salaNombre, r.salaId, r.salaNombre);
    RoomMatchTwoTier(p.salaId, p.salaNombre, r.salaId, r.salaNombre);
  }

  /** Every created row is clash-free with the rows already stored: a
      successful create keeps the table free of double bookings. */
  lemma CreatePreserves(rows: map<string, Reservation>, catalogue: Catalogue, caller: string,
                        body: Body, newId: string, now: int)
    requires NoDoubleBooking(rows)
    ensures var resp := CreateSpec(rows, catalogue, caller, body, newId, now);
      resp.Created? ==> NoDoubleBooking(rows[newId := resp.reserva])
  {
    var resp := CreateSpec(rows, catalogue, caller, body, newId, now);
    if resp.Created? {
      var x := resp.reserva;
      var salaNombre := RoomName(body, catalogue);
      var p := Probe(body.fecha.s, NormalizeToStep(body.hora.s).value, OrNull(body.salaId), salaNombre.s, None);
      assert forall k :: k in rows ==> !Collides(p, rows[k]);
      var after := rows[newId := x];
      forall j, k | j in after && k in after && j != k ensures !Clash(after[j], after[k]) {
        if j == newId {
          WrittenRowDoesNotClash(p, x, rows[k], body.hora.s);
        } else if k == newId {
          WrittenRowDoesNotClash(p, x, rows[j], body.hora.s);
        }
      }
    }
  }

  /** An update that names a date, a time and a room, and either names
      the room by catalogue id or renames a row that has no room id, keeps
      the table free of double bookings. (Catalogue names are never empty:
      the column is `NOT NULL` and every seeded room has a name.) */
  lemma UpdatePreserves(rows: map<string, Reservation>, catalogue: Catalogue, caller: string,
                        id: string, body: Body, now: int)
    requires WellKeyed(rows) && NoDoubleBooking(rows)
    requires forall s :: s in catalogue ==> catalogue[s] != ""
    requires Truthy(body.fecha) && Truthy(body.hora)
    requires Truthy(body.salaId) || (Truthy(body.salaNombre) && id in rows && !HasId(rows[id].salaId))
    ensures var resp := UpdateSpec(rows, catalogue, caller, id, body, now);
      resp.Updated? ==> NoDoubleBooking(rows[id := resp.reserva])
  {
    var resp := UpdateSpec(rows, catalogue, caller, id, body, now);
    if resp.Updated? {
      var m := resp.reserva;
      var changes := UpdateChanges(body, catalogue);
      var salaNombre := RoomName(body, catalogue);
      var p := Probe(body.fecha.s, changes.hora.s, OrNull(body.salaId), salaNombre.s, Some(id));
      assert changes.hora.s != "";
      assert forall k :: k in rows ==> !Collides(p, rows[k]);
      MergeFields(rows[id], changes, now);
      var after := rows[id := m];
      forall j, k | j in after && k in after && j != k ensures !Clash(after[j], after[k]) {
        if j == id {
          WrittenRowDoesNotClash(p, m, rows[k], body.hora.s);
        } else if k == id {
          WrittenRowDoesNotClash(p, m, rows[j], body.hora.s);
        }
      }
    }
  }

  /** Deleting a row never creates a double booking. */
  lemma DeletePreserves(rows: map<string, Reservation>, caller: string, id: string)
    requires NoDoubleBooking(rows)
    ensures DeleteSpec(rows, caller, id).Deleted? ==> NoDoubleBooking(rows - {id})
  {
  }

  /** The requests the invariant is proved for over any sequence of them. */
  datatype Request =
    | CreateRequest(caller: string, body: Body, newId: string, now: int)
    | UpdateRequest(caller: string, id: string, body: Body, now: int)
    | DeleteRequest(caller: string, id: string)

  /** Creates under a non-empty id, every delete, and updates that send a
      date, a time and a catalogue room id. */
  predicate Covered(req: Request) {
    match req
    case CreateRequest(_, _, newId, _) => newId != ""
    case UpdateRequest(_, _, body, _) => Truthy(body.fecha) && Truthy(body.hora) && Truthy(body.salaId)
    case DeleteRequest(_, _) => true
  }

  /** The table after one request. */
  ghost function Apply(rows: map<string, Reservation>, catalogue: Catalogue, req: Request): map<string, Reservation> {
    match req
    case CreateRequest(caller, body, newId, now) =>
      var resp := CreateSpec(rows, catalogue, caller, body, newId, now);
      if resp.Created? then rows[newId := resp.reserva] else rows
    case UpdateRequest(caller, id, body, now) =>
      var resp := UpdateSpec(rows, catalogue, caller, id, body, now);
      if resp.Updated? then rows[id := resp.reserva] else rows
    case DeleteRequest(caller, id) =>
      if DeleteSpec(rows, caller, id).Deleted? then rows - {id} else rows
  }

  /** The table after a sequence of requests, served one at a time. */
  ghost function Run(rows: map<string, Reservation>, catalogue: Catalogue, reqs: seq<Request>): map<string, Reservation>
    decreases |reqs|
  {
    if reqs == [] then rows else Run(Apply(rows, catalogue, reqs[0]), catalogue, reqs[1..])
  }

  /** One covered request keeps the table well keyed and free of double
      bookings. */
  lemma ApplyPreserves(rows: map<string, Reservation>, catalogue: Catalogue, req: Request)
    requires WellKeyed(rows) && NoDoubleBooking(rows)
    requires forall s :: s in catalogue ==> catalogue[s] != ""
    requires Covered(req)
    ensures WellKeyed(Apply(rows, catalogue, req)) && NoDoubleBooking(Apply(rows, catalogue, req))
  {
    match req
    case CreateRequest(caller, body, newId, now) =>
      CreatePreserves(rows, catalogue, caller, body, newId, now);
      CreateKeepsKeys(rows, catalogue, caller, body, newId, now);
    case UpdateRequest(caller, id, body, now) =>
      UpdatePreserves(rows, catalogue, caller, id, body, now);
      UpdateKeepsKeys(rows, catalogue, caller, id, body, now);
    case DeleteRequest(caller, id) =>
      DeletePreserves(rows, caller, id);
  }

  lemma CreateKeepsKeys(rows: map<string, Reservation>, catalogue: Catalogue, caller: string,
                        body: Body, newId: string, now: int)
    requires WellKeyed(rows) && newId != ""
    ensures var resp := CreateSpec(rows, catalogue, caller, body, newId, now);
      resp.Created? ==> WellKeyed(rows[newId := resp.reserva])
  {
  }

  lemma UpdateKeepsKeys(rows: map<string, Reservation>, catalogue: Catalogue, caller: string,
                        id: string, body: Body, now: int)
    requires WellKeyed(rows)
    ensures var resp := UpdateSpec(rows, catalogue, caller, id, body, now);
      resp.Updated? ==> WellKeyed(rows[id := resp.reserva])
  {
    var resp := UpdateSpec(rows, catalogue, caller, id, body, now);
    if resp.Updated? {
      MergeFields(rows[id], UpdateChanges(body, catalogue), now);
    }
  }

  /** Served one at a time, creates, deletes and updates by catalogue room
      never leave two rows booking the same room in the same slot. */
  lemma {:induction false} RunNeverDoubleBooks(rows: map<string, Reservation>, catalogue: Catalogue, reqs: seq<Request>)
    requires WellKeyed(rows) && NoDoubleBooking(rows)
    requires forall s :: s in catalogue ==> catalogue[s] != ""
    requires forall i :: 0 <= i < |reqs| ==> Covered(reqs[i])
    ensures WellKeyed(Run(rows, catalogue, reqs)) && NoDoubleBooking(Run(rows, catalogue, reqs))
    decreases |reqs|
  {
    if reqs != [] {
      ApplyPreserves(rows, catalogue, reqs[0]);
      RunNeverDoubleBooks(Apply(rows, catalogue, reqs[0]), catalogue, reqs[1..]);
    }
  }

  // ---------------------------------------------------------------------
  // What create promises
  // ---------------------------------------------------------------------

  /** The 400s of a create, in the order the checks are made; none of
      them depends on the table. */
  lemma CreateBadRequests(rows: map<string, Reservation>, other: map<string, Reservation>, catalogue: Catalogue,
                          caller: string, body: Body, newId: string, now: int)
    ensures var resp := CreateSpec(rows, catalogue, caller, body, newId, now);
      && (resp.BadRequest? ==> resp == CreateSpec(other, catalogue, caller, body, newId, now))
      && (!Truthy(body.fecha) || !Truthy(body.hora) ==> resp == BadRequest(MsgFechaHora))
      && (Truthy(body.fecha) && Truthy(body.hora) && Truthy(body.salaId) && body.salaId.s !in catalogue
          ==> resp == BadRequest(MsgSalaInvalida))
      && (Truthy(body.fecha) && Truthy(body.hora) && !Truthy(body.salaId) && !Truthy(body.salaNombre)
          ==> resp == BadRequest(MsgSalaObligatoria))
      && ((Truthy(body.fecha) && Truthy(body.hora)
           && (Truthy(body.salaId) ==> body.salaId.s in catalogue) && Truthy(RoomName(body, catalogue))
           && NormalizeToStep(body.hora.s).None?) ==> resp == BadRequest(MsgHoraInvalida))
  {
  }

  /** A create that passes validation conflicts exactly when some stored
      row collides with its date, normalised time and room; the 409 reports
      the normalised time. Otherwise it is created. */
  lemma CreateConflicts(rows: map<string, Reservation>, catalogue: Catalogue, caller: string,
                        body: Body, newId: string, now: int)
    requires Truthy(body.fecha) && Truthy(body.hora)
    requires Truthy(body.salaId) ==> body.salaId.s in catalogue
    requires Truthy(RoomName(body, catalogue)) && NormalizeToStep(body.hora.s).Some?
    ensures var resp := CreateSpec(rows, catalogue, caller, body, newId, now);
      var p := Probe(body.fecha.s, NormalizeToStep(body.hora.s).value, OrNull(body.salaId), RoomName(body, catalogue).s, None);
      && (resp.Conflict? || resp.Created?)
      && (resp.Conflict? <==> exists k :: k in rows && Collides(p, rows[k]))
      && (resp.Conflict? ==> resp.fecha == body.fecha.s && resp.hora == p.hora && resp.salaNombre == p.salaNombre)
  {
    var hora := NormalizeToStep(body.hora.s).value;
    var salaNombre := RoomName(body, catalogue).s;
    var p := Probe(body.fecha.s, hora, OrNull(body.salaId), salaNombre, None);
    assert CreateSpec(rows, catalogue, caller, body, newId, now) ==
      if exists k :: k in rows && Collides(p, rows[k]) then Conflict(body.fecha.s, hora, OrNull(body.salaId), salaNombre)
      else Created(StoredRow(Reservation(newId, caller, OrNull(body.salaId), salaNombre, body.fecha.s,
                                         hora, OrEmpty(body.notas), now, None)));
  }

  /** The row a create stores: the fresh id, the caller as owner, the
      normalised time, the catalogue's name whenever a catalogue id is sent,
      `notas || ''`; and it clashes with no stored row. */
  lemma CreatedRow(rows: map<string, Reservation>, catalogue: Catalogue, caller: string,
                   body: Body, newId: string, now: int)
    ensures var resp := CreateSpec(rows, catalogue, caller, body, newId, now);
      resp.Created? ==>
        var r := resp.reserva;
        && r.id == newId && r.usuarioId == caller && r.createdAt == now && r.updatedAt == None
        && r.fecha == body.fecha.s && r.fecha != ""
        && NormalizeToStep(body.hora.s) == Some(r.hora)
        && r.notas == OrEmpty(body.notas)
        && (Truthy(body.salaId) ==> r.salaId == Some(body.salaId.s) && r.salaNombre == catalogue[body.salaId.s])
        && (!Truthy(body.salaId) ==> r.salaId == None && r.salaNombre == body.salaNombre.s && r.salaNombre != "")
        && (forall k :: k in rows ==> !Clash(r, rows[k]) && !Clash(rows[k], r))
  {
    var resp := CreateSpec(rows, catalogue, caller, body, newId, now);
    if resp.Created? {
      var p := Probe(body.fecha.s, NormalizeToStep(body.hora.s).value, OrNull(body.salaId), RoomName(body, catalogue).s, None);
      forall k | k in rows ensures !Clash(resp.reserva, rows[k]) && !Clash(rows[k], resp.reserva) {
        WrittenRowDoesNotClash(p, resp.reserva, rows[k], body.hora.s);
      }
    }
  }

  /** Sending the same request again, by anyone, gets a 409 once the first
      one is stored — as long as the room has an id or a non-blank name and
      the time normalises to a real clock. */
  lemma RepeatedRequestConflicts(rows: map<string, Reservation>, catalogue: Catalogue, body: Body,
                                 caller1: string, newId1: string, now1: int,
                                 caller2: string, newId2: string, now2: int)
    requires CreateSpec(rows, catalogue, caller1, body, newId1, now1).Created?
    requires Truthy(body.salaId) || Trim(body.salaNombre.s) != ""
    requires NormalizeToStep(body.hora.s).value != NaNClock && NormalizeToStep(body.hora.s).value[0] != '-'
    ensures var first := CreateSpec(rows, catalogue, caller1, body, newId1, now1);
      CreateSpec(rows[newId1 := first.reserva], catalogue, caller2, body, newId2, now2).Conflict?
  {
    var first := CreateSpec(rows, catalogue, caller1, body, newId1, now1);
    var x := first.reserva;
    var h := NormalizeToStep(body.hora.s).value;
    NormalizeIdempotent(body.hora.s, h);
    assert NormalizeToStep("") == None;
    var p := Probe(body.fecha.s, h, OrNull(body.salaId), RoomName(body, catalogue).s, None);
    RoomMatchTwoTier(p.salaId, p.salaNombre, x.salaId, x.salaNombre);
    assert Collides(p, rows[newId1 := x][newId1]);
  }

  /** A time without ':' (such as "930") is stored as "NaN:NaN", which
      normalises to null, so the same request succeeds twice and the table
      holds two rows for the same date, time and room. */
  lemma NoColonTimeIsBookedTwice(catalogue: Catalogue, body: Body,
                                 caller1: string, newId1: string, now1: int,
                                 caller2: string, newId2: string, now2: int)
    requires Truthy(body.fecha) && Truthy(body.hora) && NormalizeToStep(body.hora.s) == Some(NaNClock)
    requires Truthy(body.salaId) ==> body.salaId.s in catalogue
    requires Truthy(RoomName(body, catalogue))
    ensures var first := CreateSpec(map[], catalogue, caller1, body, newId1, now1);
      && first.Created?
      && var second := CreateSpec(map[newId1 := first.reserva], catalogue, caller2, body, newId2, now2);
      && second.Created?
      && second.reserva.fecha == first.reserva.fecha && second.reserva.hora == first.reserva.hora == NaNClock
      && second.reserva.salaId == first.reserva.salaId && second.reserva.salaNombre == first.reserva.salaNombre
  {
    NullCases();
    CreateBesideUnreadableTimes(map[], catalogue, caller1, body, newId1, now1, NaNClock);
    var first := CreateSpec(map[], catalogue, caller1, body, newId1, now1);
    CreateBesideUnreadableTimes(map[newId1 := first.reserva], catalogue, caller2, body, newId2, now2, NaNClock);
  }

  /** A stored time that does not normalise collides with nothing, so a
      request whose time normalises to such a text is created whatever
      rows with that time the table holds. */
  lemma CreateBesideUnreadableTimes(rows: map<string, Reservation>, catalogue: Catalogue, caller: string,
                                    body: Body, newId: string, now: int, hora: string)
    requires Truthy(body.fecha) && Truthy(body.hora) && NormalizeToStep(body.hora.s) == Some(hora)
    requires NormalizeToStep(hora) == None
    requires Truthy(body.salaId) ==> body.salaId.s in catalogue
    requires Truthy(RoomName(body, catalogue))
    requires forall k :: k in rows ==> rows[k].hora == hora
    ensures var r := CreateSpec(rows, catalogue, caller, body, newId, now);
      && r.Created? && r.reserva.fecha == body.fecha.s && r.reserva.hora == hora
      && r.reserva.salaId == OrNull(body.salaId) && r.reserva.salaNombre == RoomName(body, catalogue).s
  {
    var p := Probe(body.fecha.s, hora, OrNull(body.salaId), RoomName(body, catalogue).s, None);
    forall k | k in rows
      ensures !Collides(p, rows[k])
    {
    }
  }

  /** A row booked by name only blocks a later request for the catalogue
      room of that name, in any case and spacing, for any time that
      normalises to the same slot. */
  lemma NameOnlyRowBlocksCatalogueRoom(rows: map<string, Reservation>, catalogue: Catalogue, caller: string,
                                       body: Body, newId: string, now: int, k: string)
    requires k in rows && !HasId(rows[k].salaId)
    requires Truthy(body.fecha) && rows[k].fecha == body.fecha.s
    requires Truthy(body.hora) && rows[k].hora != ""
    requires NormalizeToStep(body.hora.s).Some? && NormalizeToStep(rows[k].hora) == NormalizeToStep(body.hora.s)
    requires Truthy(body.salaId) && body.salaId.s in catalogue
    requires catalogue[body.salaId.s] != "" && Key(rows[k].salaNombre) != ""
    requires Key(rows[k].salaNombre) == Key(catalogue[body.salaId.s])
    ensures CreateSpec(rows, catalogue, caller, body, newId, now)
      == Conflict(body.fecha.s, NormalizeToStep(body.hora.s).value, Some(body.salaId.s), catalogue[body.salaId.s])
  {
    var p := Probe(body.fecha.s, NormalizeToStep(body.hora.s).value, Some(body.salaId.s), catalogue[body.salaId.s], None);
    assert Collides(p, rows[k]);
  }

  // ---------------------------------------------------------------------
  // What update promises
  // ---------------------------------------------------------------------

  /** Someone else's row is never changed: a non-owner learns of a bad
      room id, a bad time or a conflict first, and is refused with 403
      only after all of them pass. */
  lemma OwnerCheckedLast(rows: map<string, Reservation>, catalogue: Catalogue, caller: string,
                         id: string, body: Body, now: int)
    requires id in rows && rows[id].usuarioId != caller
    ensures var resp := UpdateSpec(rows, catalogue, caller, id, body, now);
      && (resp.BadRequest? || resp.Conflict? || resp == Forbidden(MsgSinPermisoEditar))
      && (Truthy(body.salaId) && body.salaId.s !in catalogue ==> resp == BadRequest(MsgSalaInvalida))
  {
  }

  /** A missing row is reported as 404, again only after the 400s and the
      conflict search. */
  lemma MissingRowCheckedLast(rows: map<string, Reservation>, catalogue: Catalogue, caller: string,
                              id: string, body: Body, now: int)
    requires id !in rows
    ensures var resp := UpdateSpec(rows, catalogue, caller, id, body, now);
      resp.BadRequest? || resp.Conflict? || resp == NotFound(MsgNoEncontrada)
  {
  }

  /** The owner's update of the notes alone touches nothing else: date,
      time and room stay, and no conflict search is made. */
  lemma NotesOnlyUpdate(rows: map<string, Reservation>, catalogue: Catalogue, id: string, notas: string, now: int)
    requires id in rows
    ensures var r := rows[id];
      var resp := UpdateSpec(rows, catalogue, r.usuarioId, id, Body(Undefined, Undefined, Undefined, Undefined, Str(notas)), now);
      resp == Updated(r.(notas := notas, updatedAt := Some(now)))
  {
  }

  /** An update by catalogue id sets both the id and the catalogue's name;
      a bare name sets the name and leaves the stored id as it was, since
      `null ?? old` keeps the old value. */
  lemma UpdateRoomFields(rows: map<string, Reservation>, catalogue: Catalogue, id: string, body: Body, now: int)
    requires id in rows
    ensures var r := rows[id];
      var resp := UpdateSpec(rows, catalogue, r.usuarioId, id, body, now);
      && (resp.Updated? && Truthy(body.salaId) ==>
            resp.reserva.salaId == Some(body.salaId.s) && resp.reserva.salaNombre == catalogue[body.salaId.s])
      && (resp.Updated? && !Truthy(body.salaId) && Truthy(body.salaNombre) ==>
            resp.reserva.salaId == r.salaId && resp.reserva.salaNombre == body.salaNombre.s)
      && (resp.Updated? && !Truthy(body.salaId) && !Truthy(body.salaNombre) ==>
            resp.reserva.salaId == r.salaId && resp.reserva.salaNombre == r.salaNombre)
  {
    var resp := UpdateSpec(rows, catalogue, rows[id].usuarioId, id, body, now);
    if resp.Updated? {
      MergeFields(rows[id], UpdateChanges(body, catalogue), now);
    }
  }

  /** A table of two rows that do not clash has no double booking. */
  lemma TwoRowsNoDoubleBooking(a: Reservation, b: Reservation)
    requires a.id != b.id && !Clash(a, b) && !Clash(b, a)
    ensures NoDoubleBooking(map[a.id := a, b.id := b])
  {
    var rows := map[a.id := a, b.id := b];
    forall j, k | j in rows && k in rows && j != k ensures !Clash(rows[j], rows[k]) {
      if j == a.id {
        assert rows[j] == a && rows[k] == b;
      } else {
        assert rows[j] == b && rows[k] == a;
      }
    }
  }

  /** One clashing pair is a double booking. */
  lemma ClashIsDoubleBooking(rows: map<string, Reservation>, j: string, k: string)
    requires j in rows && k in rows && j != k && Clash(rows[j], rows[k])
    ensures !NoDoubleBooking(rows)
  {
  }

  /** An update that sends a time but no date skips the conflict search,
      so it can move a row onto the slot another row of the same room holds. */
  lemma UpdateWithoutDateCanDoubleBook(a: Reservation, b: Reservation, catalogue: Catalogue, now: int)
    requires a.id != b.id
    requires a.fecha != "" && a.fecha == b.fecha && OnGrid(a.hora) && NormalizeToStep(b.hora) != Some(a.hora)
    requires HasId(a.salaId) && b.salaId == a.salaId
    ensures var rows := map[a.id := a, b.id := b];
      var resp := UpdateSpec(rows, catalogue, b.usuarioId, b.id, Body(Undefined, Str(a.hora), Undefined, Undefined, Undefined), now);
      && NoDoubleBooking(rows) && resp.Updated? && !NoDoubleBooking(rows[b.id := resp.reserva])
  {
    var rows := map[a.id := a, b.id := b];
    assert NormalizeToStep("") == None;
    var body := Body(Undefined, Str(a.hora), Undefined, Undefined, Undefined);
    var changes := Changes(Undefined, Undefined, Undefined, Str(a.hora), Undefined);
    assert UpdateChanges(body, catalogue) == changes;
    var m := Merge(b, changes, now);
    assert UpdateSpec(rows, catalogue, b.usuarioId, b.id, body, now) == Updated(m);
    TwoRowsNoDoubleBooking(a, b);
    ClashIsDoubleBooking(rows[b.id := m], a.id, b.id);
  }

  /** An update that sends a date and a time but names no room skips the
      conflict search as well, so it can move a row onto the slot another
      row of the same room holds. */
  lemma UpdateWithoutRoomCanDoubleBook(a: Reservation, b: Reservation, catalogue: Catalogue, now: int)
    requires a.id != b.id
    requires a.fecha != "" && OnGrid(a.hora) && NormalizeToStep(b.hora) != Some(a.hora)
    requires HasId(a.salaId) && b.salaId == a.salaId
    ensures var rows := map[a.id := a, b.id := b];
      var resp := UpdateSpec(rows, catalogue, b.usuarioId, b.id, Body(Str(a.fecha), Str(a.hora), Undefined, Undefined, Undefined), now);
      && NoDoubleBooking(rows) && resp.Updated?
      && resp.reserva.fecha == a.fecha && resp.reserva.hora == a.hora
      && !NoDoubleBooking(rows[b.id := resp.reserva])
  {
    var rows := map[a.id := a, b.id := b];
    var body := Body(Str(a.fecha), Str(a.hora), Undefined, Undefined, Undefined);
    var changes := Changes(Undefined, Undefined, Str(a.fecha), Str(a.hora), Undefined);
    assert UpdateChanges(body, catalogue) == changes;
    var m := Merge(b, changes, now);
    assert UpdateSpec(rows, catalogue, b.usuarioId, b.id, body, now) == Updated(m);
    MergeFields(b, changes, now);
    TwoRowsNoDoubleBooking(a, b);
    ClashIsDoubleBooking(rows[b.id := m], a.id, b.id);
  }

  /** An update that sends a date but no time skips the conflict search
      too, so it can move a row onto another day's booking of its slot. */
  lemma UpdateWithoutTimeCanDoubleBook(a: Reservation, b: Reservation, catalogue: Catalogue, now: int)
    requires a.id != b.id
    requires a.fecha != "" && a.fecha != b.fecha && OnGrid(a.hora) && a.hora == b.hora
    requires HasId(a.salaId) && b.salaId == a.salaId
    ensures var rows := map[a.id := a, b.id := b];
      var resp := UpdateSpec(rows, catalogue, b.usuarioId, b.id, Body(Str(a.fecha), Undefined, Undefined, Undefined, Undefined), now);
      && NoDoubleBooking(rows) && resp.Updated? && !NoDoubleBooking(rows[b.id := resp.reserva])
  {
    var rows := map[a.id := a, b.id := b];
    var body := Body(Str(a.fecha), Undefined, Undefined, Undefined, Undefined);
    var changes := Changes(Undefined, Undefined, Str(a.fecha), Undefined, Undefined);
    assert UpdateChanges(body, catalogue) == changes;
    var m := Merge(b, changes, now);
    assert UpdateSpec(rows, catalogue, b.usuarioId, b.id, body, now) == Updated(m);
    TwoRowsNoDoubleBooking(a, b);
    ClashIsDoubleBooking(rows[b.id := m], a.id, b.id);
  }

  /** A rename by bare name is searched as a room without id, but the row
      keeps its old room id; it can land on a slot that id already holds. */
  lemma RenameKeepsRoomIdAndCanDoubleBook(a: Reservation, b: Reservation, name: string, catalogue: Catalogue, now: int)
    requires a.id != b.id && b.id != ""
    requires a.fecha != "" && a.fecha == b.fecha && OnGrid(a.hora) && NormalizeToStep(b.hora) != Some(a.hora)
    requires HasId(a.salaId) && b.salaId == a.salaId
    requires name != "" && Key(name) != Key(a.salaNombre)
    ensures var rows := map[a.id := a, b.id := b];
      var resp := UpdateSpec(rows, catalogue, b.usuarioId, b.id, Body(Str(a.fecha), Str(a.hora), Undefined, Str(name), Undefined), now);
      && NoDoubleBooking(rows) && resp.Updated?
      && resp.reserva.salaId == a.salaId && resp.reserva.salaNombre == name
      && !NoDoubleBooking(rows[b.id := resp.reserva])
  {
    var m := Merge(b, Changes(Null, Str(name), Str(a.fecha), Str(a.hora), Undefined), now);
    RenameIsNotSearchedById(a, b, name, catalogue, now);
    OffSlotPairNoDoubleBooking(a, b);
    assert m.salaId == a.salaId && m.salaNombre == name && m.fecha == a.fecha && m.hora == a.hora;
    SameSlotSameIdDoubleBooks(map[a.id := a, b.id := b], a, b.id, m);
  }

  /** Two rows on the same date whose times normalise to different slots
      do not clash. */
  lemma OffSlotPairNoDoubleBooking(a: Reservation, b: Reservation)
    requires a.id != b.id && a.fecha == b.fecha && OnGrid(a.hora) && NormalizeToStep(b.hora) != Some(a.hora)
    ensures NoDoubleBooking(map[a.id := a, b.id := b])
  {
    assert GridSlot(a.hora) == Some(a.hora);
    TwoRowsNoDoubleBooking(a, b);
  }

  /** A row written onto another row's date, grid time and room id makes
      the pair a double booking. */
  lemma SameSlotSameIdDoubleBooks(rows: map<string, Reservation>, a: Reservation, bid: string, m: Reservation)
    requires a.id in rows && rows[a.id] == a && a.id != bid
    requires a.fecha != "" && OnGrid(a.hora) && HasId(a.salaId)
    requires m.fecha == a.fecha && m.hora == a.hora && m.salaId == a.salaId
    ensures !NoDoubleBooking(rows[bid := m])
  {
    assert GridSlot(a.hora) == Some(a.hora);
    assert RoomMatch(a.salaId, a.salaNombre, m.salaId, m.salaNombre);
    ClashIsDoubleBooking(rows[bid := m], a.id, bid);
  }

  /** The response to that rename: the search by name finds nothing, and
      the merge keeps the id. */
  lemma RenameIsNotSearchedById(a: Reservation, b: Reservation, name: string, catalogue: Catalogue, now: int)
    requires a.id != b.id && b.id != ""
    requires a.fecha != "" && OnGrid(a.hora)
    requires HasId(a.salaId)
    requires name != "" && Key(name) != Key(a.salaNombre)
    ensures var body := Body(Str(a.fecha), Str(a.hora), Undefined, Str(name), Undefined);
      UpdateSpec(map[a.id := a, b.id := b], catalogue, b.usuarioId, b.id, body, now)
        == Updated(Merge(b, Changes(Null, Str(name), Str(a.fecha), Str(a.hora), Undefined), now))
  {
    var rows := map[a.id := a, b.id := b];
    var body := Body(Str(a.fecha), Str(a.hora), Undefined, Str(name), Undefined);
    RenameSearchFindsNothing(a, b, name);
    assert UpdateChanges(body, catalogue) == Changes(Null, Str(name), Str(a.fecha), Str(a.hora), Undefined);
    UpdateAccepted(rows, catalogue, b.usuarioId, b.id, body, now);
  }

  /** An update whose room id is known, whose time normalises and whose
      search finds nothing is applied when the caller owns the row. */
  lemma UpdateAccepted(rows: map<string, Reservation>, catalogue: Catalogue, caller: string,
                       id: string, body: Body, now: int)
    requires Truthy(body.salaId) ==> body.salaId.s in catalogue
    requires Truthy(body.hora) ==> NormalizeToStep(body.hora.s).Some?
    requires id in rows && rows[id].usuarioId == caller
    requires var changes, salaNombre := UpdateChanges(body, catalogue), RoomName(body, catalogue);
      Truthy(body.fecha) && Truthy(changes.hora) && Truthy(salaNombre) ==>
        forall k :: k in rows ==> !Collides(Probe(body.fecha.s, changes.hora.s, OrNull(body.salaId), salaNombre.s, Some(id)), rows[k])
    ensures UpdateSpec(rows, catalogue, caller, id, body, now) == Updated(Merge(rows[id], UpdateChanges(body, catalogue), now))
  {
  }

  lemma RenameSearchFindsNothing(a: Reservation, b: Reservation, name: string)
    requires a.id != b.id && b.id != ""
    requires HasId(a.salaId) && Key(name) != Key(a.salaNombre)
    ensures var rows := map[a.id := a, b.id := b];
      forall k :: k in rows ==> !Collides(Probe(a.fecha, a.hora, None, name, Some(b.id)), rows[k])
  {
  }
}
