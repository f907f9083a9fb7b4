/** The reservations page of the client (`pages/ReservasPage.jsx`): the list
    it holds as the single source of truth for the form and the cards, the
    updaters applied to that list after a create, an update or a delete,
    and the messages shown. The network calls are not modelled: each
    handler receives what its request returned (a reply or an error) as a
    parameter, and the confirmation dialog's answer is a parameter too. */
module ReservasPage {
  import opened JsValues
  import opened ReservaModel

  const MsgSesionInvalida: string := "Sesión inválida. Volvé a iniciar sesión."
  const MsgErrorCargar: string := "Error al cargar reservas"
  const MsgCreada: string := "Reserva creada correctamente"
  const MsgErrorCrear: string := "Error al crear la reserva"
  const MsgActualizada: string := "Reserva actualizada correctamente"
  const MsgErrorActualizar: string := "Error al actualizar la reserva"
  const MsgEliminada: string := "Reserva eliminada correctamente"
  const MsgErrorEliminar: string := "Error al eliminar la reserva"
  const MsgOcupada: string := "Ese horario ya está ocupado para la sala seleccionada."

  // ---------------------------------------------------------------------
  // The list updaters
  // ---------------------------------------------------------------------

  /** After a create: the returned reservation first, then the list. */
  function Prepend(list: seq<Reservation>, created: Reservation): (result: seq<Reservation>)
    ensures |result| == |list| + 1 && result[0] == created && result[1..] == list
  {
    [created] + list
  }

  /** The id an update reply is filed under: its own id, or the requested
      one when the reply carries none. */
  function UpdatedId(updated: Reservation, requested: string): (key: string)
    ensures updated.id != "" ==> key == updated.id
    ensures updated.id == "" ==> key == requested
  {
    if updated.id != "" then updated.id else requested
  }

  /** After an update: every reservation filed under `key` replaced by the
      reply, the others as they were. */
  function ReplaceById(list: seq<Reservation>, key: string, updated: Reservation): (result: seq<Reservation>)
    ensures |result| == |list|
  {
    seq(|list|, i requires 0 <= i < |list| => if list[i].id == key then updated else list[i])
  }

  /** After a delete: the reservations filed under another id, in order. */
  function RemoveById(list: seq<Reservation>, key: string): (result: seq<Reservation>)
    ensures |result| <= |list|
  {
    if list == [] then []
    else (if list[0].id != key then [list[0]] else []) + RemoveById(list[1..], key)
  }

  /** Whether some reservation of the list is filed under `key`. */
  predicate HasKey(list: seq<Reservation>, key: string) {
    exists i :: 0 <= i < |list| && list[i].id == key
  }

  /** A replacement keeps the position of every reservation: the ones
      under `key` become the reply, the others stay as they were. */
  lemma ReplaceByIdPositions(list: seq<Reservation>, key: string, updated: Reservation)
    ensures forall i :: 0 <= i < |list| && list[i].id == key ==> ReplaceById(list, key, updated)[i] == updated
    ensures forall i :: 0 <= i < |list| && list[i].id != key ==> ReplaceById(list, key, updated)[i] == list[i]
  {
  }

  /** A reservation is in the list after an update exactly when it was
      there under another id, or it is the reply and some reservation was
      filed under `key`. */
  lemma ReplaceByIdMembers(list: seq<Reservation>, key: string, updated: Reservation, x: Reservation)
    ensures x in ReplaceById(list, key, updated) <==>
      (x in list && x.id != key) || (x == updated && HasKey(list, key))
  {
    var result := ReplaceById(list, key, updated);
    if x in result {
      var i :| 0 <= i < |result| && result[i] == x;
      if list[i].id != key {
        assert x in list && x.id != key;
      }
    }
    if x in list && x.id != key {
      var i :| 0 <= i < |list| && list[i] == x;
      assert result[i] == x;
    }
    if x == updated && HasKey(list, key) {
      var i :| 0 <= i < |list| && list[i].id == key;
      assert result[i] == x;
    }
  }

  /** Without a reservation under `key` an update leaves the list as it was. */
  lemma ReplaceByIdMissing(list: seq<Reservation>, key: string, updated: Reservation)
    requires !HasKey(list, key)
    ensures ReplaceById(list, key, updated) == list
  {
  }

  /** Applying the same reply twice is applying it once, when the reply
      keeps its id. */
  lemma ReplaceByIdIdempotent(list: seq<Reservation>, key: string, updated: Reservation)
    requires updated.id == key
    ensures ReplaceById(ReplaceById(list, key, updated), key, updated) == ReplaceById(list, key, updated)
  {
  }

  /** A reservation is in the list after a delete exactly when it was
      there under another id. */
  lemma {:induction false} RemoveByIdMembers(list: seq<Reservation>, key: string, x: Reservation)
    ensures x in RemoveById(list, key) <==> x in list && x.id != key
    decreases |list|
  {
    if list != [] {
      RemoveByIdMembers(list[1..], key, x);
      assert list == [list[0]] + list[1..];
    }
  }

  /** A delete keeps the other reservations in their order: the list
      without `key` is what remains once the deleted ones are taken out,
      element by element. */
  lemma {:induction false} RemoveByIdOfConcat(a: seq<Reservation>, b: seq<Reservation>, key: string)
    ensures RemoveById(a + b, key) == RemoveById(a, key) + RemoveById(b, key)
    decreases |a|
  {
    if a != [] {
      assert (a + b)[1..] == a[1..] + b;
      RemoveByIdOfConcat(a[1..], b, key);
    } else {
      assert a + b == b;
    }
  }

  /** Without a reservation under `key` a delete leaves the list as it was. */
  lemma {:induction false} RemoveByIdMissing(list: seq<Reservation>, key: string)
    requires !HasKey(list, key)
    ensures RemoveById(list, key) == list
    decreases |list|
  {
    if list != [] {
      assert !HasKey(list[1..], key) by {
        forall i | 0 <= i < |list[1..]|
          ensures list[1..][i].id != key
        {
          assert list[1..][i] == list[i + 1];
        }
      }
      RemoveByIdMissing(list[1..], key);
      assert list == [list[0]] + list[1..];
    }
  }

  /** Deleting a reservation just created undoes the create, when no other
      reservation of the list shared its id. */
  lemma RemoveUndoesPrepend(list: seq<Reservation>, created: Reservation)
    requires !HasKey(list, created.id)
    ensures RemoveById(Prepend(list, created), created.id) == list
  {
    assert Prepend(list, created)[1..] == list;
    RemoveByIdMissing(list, created.id);
  }

  /** After an update, deleting the updated id gives what deleting it
      would have given before: the update touched nothing else. */
  lemma {:induction false} RemoveAfterReplace(list: seq<Reservation>, key: string, updated: Reservation)
    requires updated.id == key
    ensures RemoveById(ReplaceById(list, key, updated), key) == RemoveById(list, key)
    decreases |list|
  {
    if list != [] {
      assert ReplaceById(list, key, updated)[1..] == ReplaceById(list[1..], key, updated);
      RemoveAfterReplace(list[1..], key, updated);
    }
  }

  /** A delete leaves no reservation under its id. */
  lemma RemoveByIdRemovesAll(list: seq<Reservation>, key: string)
    ensures !HasKey(RemoveById(list, key), key)
  {
    var result := RemoveById(list, key);
    forall i | 0 <= i < |result|
      ensures result[i].id != key
    {
      RemoveByIdMembers(list, key, result[i]);
    }
  }

  // ---------------------------------------------------------------------
  // Replies and errors
  // ---------------------------------------------------------------------

  /** What the list request returned: an array, or anything else. */
  datatype ListData = ArrayOf(items: seq<Reservation>) | NotAnArray

  /** `Array.isArray(data) ? data : []`. */
  function ListOrEmpty(data: ListData): (list: seq<Reservation>)
    ensures data.ArrayOf? ==> list == data.items
    ensures data.NotAnArray? ==> list == []
  {
    match data
    case ArrayOf(items) => items
    case NotAnArray => []
  }

  /** What a create or update request returned: `{ reserva }`, or a body
      without one. */
  datatype WriteData = WithReserva(reserva: Reservation) | WithoutReserva

  /** An error thrown by a request: its `status`, the `status` of its
      `response`, and its message ("" when it has none). */
  datatype ApiError = ApiError(status: Option<int>, responseStatus: Option<int>, message: string)

  /** What a request produced: its data, or the error it threw. */
  datatype ApiResult<T> = Done(data: T) | Failed(error: ApiError)

  /** The error raised when there is no session token. */
  const NoSession: ApiError := ApiError(None, None, MsgSesionInvalida)

  /** `error?.status || error?.response?.status`. */
  function ErrorStatus(e: ApiError): (status: Option<int>)
    ensures e.status.Some? && e.status.value != 0 ==> status == e.status
    ensures !(e.status.Some? && e.status.value != 0) ==> status == e.responseStatus
  {
    if e.status.Some? && e.status.value != 0 then e.status else e.responseStatus
  }

  /** `error?.message || fallback`. */
  function MessageOr(e: ApiError, fallback: string): (text: string)
    ensures e.message != "" ==> text == e.message
    ensures e.message == "" ==> text == fallback
  {
    if e.message != "" then e.message else fallback
  }

  /** The message of a failed create or update: the fixed "slot occupied"
      text for a 409, else the error's message or the fallback. */
  function WriteFailureMessage(e: ApiError, fallback: string): (text: string)
    ensures ErrorStatus(e) == Some(409) ==> text == MsgOcupada
    ensures ErrorStatus(e) != Some(409) ==> text == MessageOr(e, fallback)
  {
    if ErrorStatus(e) == Some(409) then MsgOcupada else MessageOr(e, fallback)
  }

  /** The backend's 409 reaches the user as the fixed text whatever the
      body's own message, and a missing session is never mistaken for it. */
  lemma ConflictMessage(e: ApiError, fallback: string)
    ensures (e.status == Some(409) || (e.status.None? && e.responseStatus == Some(409)))
      ==> WriteFailureMessage(e, fallback) == MsgOcupada
    ensures WriteFailureMessage(NoSession, fallback) == MsgSesionInvalida
  {
  }

  /** The error a create or update ends with: the missing session first,
      then the request's own error. */
  function Failure<T>(token: string, reply: ApiResult<T>): (failure: Option<ApiError>)
    ensures token == "" ==> failure == Some(NoSession)
    ensures token != "" ==> (failure.Some? <==> reply.Failed?)
    ensures token != "" && reply.Failed? ==> failure == Some(reply.error)
  {
    if token == "" then Some(NoSession) else if reply.Failed? then Some(reply.error) else None
  }

  // ---------------------------------------------------------------------
  // The page's state and handlers
  // ---------------------------------------------------------------------

  datatype MessageType = Info | Success | Error

  /** The state of the page: the reservations, the spinner flag and the
      banner. */
  class PageState {
    var reservas: seq<Reservation>
    var loading: bool
    var message: Option<string>
    var messageType: MessageType

    constructor ()
      ensures reservas == [] && loading && message == None && messageType == Info
    {
      reservas := [];
      loading := true;
      message := None;
      messageType := Info;
    }

    /** `loadReservas`: replaces the list by the array received (an
        empty list for anything else), or shows the error and keeps the
        list; the spinner is off afterwards either way. */
    method LoadReservas(reply: ApiResult<ListData>)
      modifies this
      ensures !loading
      ensures reply.Done? ==> reservas == ListOrEmpty(reply.data) && message == old(message) && messageType == old(messageType)
      ensures reply.Failed? ==> reservas == old(reservas)
      ensures reply.Failed? ==> message == Some(MessageOr(reply.error, MsgErrorCargar)) && messageType == Error
    {
      loading := true;
      if reply.Done? {
        reservas := ListOrEmpty(reply.data);
      } else {
        messageType, message := Error, Some(MessageOr(reply.error, MsgErrorCargar));
      }
      loading := false;
    }

    /** `handleCreate`: without a token it fails at once; otherwise a
        reply carrying the reservation puts it first, a reply without one
        reloads the list (`reload` is what that request returned). Every
        failure shows its message and is passed on to the form
        (`thrown`), so that the form keeps what the user typed. */
    method HandleCreate(token: string, reply: ApiResult<WriteData>, reload: ApiResult<ListData>)
      returns (thrown: bool)
      modifies this
      ensures thrown <==> Failure(token, reply).Some?
      ensures Failure(token, reply).Some? ==> reservas == old(reservas) && loading == old(loading)
      ensures Failure(token, reply).Some? ==>
        message == Some(WriteFailureMessage(Failure(token, reply).value, MsgErrorCrear)) && messageType == Error
      ensures Failure(token, reply).None? ==> message == Some(MsgCreada) && messageType == Success
      ensures Failure(token, reply).None? && reply.data.WithReserva? ==>
        reservas == Prepend(old(reservas), reply.data.reserva) && loading == old(loading)
      ensures Failure(token, reply).None? && reply.data.WithoutReserva? ==>
        reservas == (if reload.Done? then ListOrEmpty(reload.data) else old(reservas)) && !loading
    {
      var failure := Failure(token, reply);
      if failure.Some? {
        messageType, message := Error, Some(WriteFailureMessage(failure.value, MsgErrorCrear));
        return true;
      }
      if reply.data.WithReserva? {
        reservas := Prepend(reservas, reply.data.reserva);
      } else {
        LoadReservas(reload);
      }
      messageType, message := Success, Some(MsgCreada);
      return false;
    }

    /** `handleUpdate(id, changes)`: as the create, but a reply carrying
        the reservation replaces the ones filed under its id (or under
        `id` when it carries none). */
    method HandleUpdate(token: string, id: string, reply: ApiResult<WriteData>, reload: ApiResult<ListData>)
      returns (thrown: bool)
      modifies this
      ensures thrown <==> Failure(token, reply).Some?
      ensures Failure(token, reply).Some? ==> reservas == old(reservas) && loading == old(loading)
      ensures Failure(token, reply).Some? ==>
        message == Some(WriteFailureMessage(Failure(token, reply).value, MsgErrorActualizar)) && messageType == Error
      ensures Failure(token, reply).None? ==> message == Some(MsgActualizada) && messageType == Success
      ensures Failure(token, reply).None? && reply.data.WithReserva? ==>
        reservas == ReplaceById(old(reservas), UpdatedId(reply.data.reserva, id), reply.data.reserva)
      ensures Failure(token, reply).None? && reply.data.WithReserva? ==> loading == old(loading)
      ensures Failure(token, reply).None? && reply.data.WithoutReserva? ==>
        reservas == (if reload.Done? then ListOrEmpty(reload.data) else old(reservas)) && !loading
    {
      var failure := Failure(token, reply);
      if failure.Some? {
        messageType, message := Error, Some(WriteFailureMessage(failure.value, MsgErrorActualizar));
        return true;
      }
      if reply.data.WithReserva? {
        var updated := reply.data.reserva;
        reservas := ReplaceById(reservas, UpdatedId(updated, id), updated);
      } else {
        LoadReservas(reload);
      }
      messageType, message := Success, Some(MsgActualizada);
      return false;
    }

    /** `handleDelete(id)`: nothing unless the user confirms; then, with a
        token and a successful request, every reservation filed under `id`
        leaves the list. A failure is shown and not passed on. */
    method HandleDelete(confirmed: bool, token: string, id: string, reply: ApiResult<()>)
      modifies this
      ensures loading == old(loading)
      ensures !confirmed ==> reservas == old(reservas) && message == old(message) && messageType == old(messageType)
      ensures confirmed && token == "" ==>
        reservas == old(reservas) && message == Some(MsgSesionInvalida) && messageType == Error
      ensures confirmed && token != "" && reply.Failed? ==>
        reservas == old(reservas) && message == Some(MessageOr(reply.error, MsgErrorEliminar)) && messageType == Error
      ensures confirmed && token != "" && reply.Done? ==>
        reservas == RemoveById(old(reservas), id) && message == Some(MsgEliminada) && messageType == Success
    {
      if !confirmed {
        return;
      }
      if token == "" {
        messageType, message := Error, Some(MessageOr(NoSession, MsgErrorEliminar));
      } else if reply.Failed? {
        messageType, message := Error, Some(MessageOr(reply.error, MsgErrorEliminar));
      } else {
        reservas := RemoveById(reservas, id);
        messageType, message := Success, Some(MsgEliminada);
      }
    }
  }
}
