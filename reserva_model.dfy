/** The reservation table of the backend (`models/reservaModel.js`): rows keyed
    by id, with the owner check and the `??` field merge of `update`, the
    owner check of `remove`, the defaults applied by `create` and the
    newest-first order of `listAll`. */
module ReservaModel {
  import opened JsValues

  /** One row of the `reservas` table. `createdAt` and `updatedAt` are
      instants, compared as numbers where the table compares
      `datetime(createdAt)`. */
  datatype Reservation = Reservation(
    id: string,
    usuarioId: string,
    salaId: Option<string>,
    salaNombre: string,
    fecha: string,
    hora: string,
    notas: string,
    createdAt: int,
    updatedAt: Option<int>)

  /** The `changes` object handed to `update`: each field may be missing,
      `null` or a string. */
  datatype Changes = Changes(salaId: Field, salaNombre: Field, fecha: Field, hora: Field, notas: Field)

  /** What `update` reports: `null` (no such row), the 403 error it throws,
      or the row as stored afterwards. */
  datatype UpdateOutcome = NoSuchRow | NotOwner | Merged(row: Reservation)

  /** What `remove` reports: `{ notFound: true }`, the 403 error it throws,
      or `{ deleted: true }`. */
  datatype RemoveOutcome = RemoveNotFound | RemoveNotOwner | Removed

  /** `x || null` on an optional id: an empty id is stored as NULL. */
  predicate HasId(id: Option<string>) {
    id.Some? && id.value != ""
  }

  /** The row `create` inserts for a new reservation: `salaId || null`,
      `notas || ''`, and no `updatedAt` yet. */
  function StoredRow(nueva: Reservation): (row: Reservation)
    ensures row.id == nueva.id && row.usuarioId == nueva.usuarioId
    ensures row.salaNombre == nueva.salaNombre && row.fecha == nueva.fecha && row.hora == nueva.hora
    ensures row.notas == nueva.notas && row.createdAt == nueva.createdAt && row.updatedAt == None
    ensures HasId(nueva.salaId) ==> row.salaId == nueva.salaId
    ensures !HasId(nueva.salaId) ==> row.salaId == None
  {
    nueva.(salaId := if HasId(nueva.salaId) then nueva.salaId else None, updatedAt := None)
  }

  /** The merged row of `update`: every field takes `changes.f ?? existing.f`,
      `updatedAt` is the time of the update. */
  function Merge(existing: Reservation, changes: Changes, now: int): Reservation {
    existing.(
      salaId := if changes.salaId.Str? then Some(changes.salaId.s) else existing.salaId,
      salaNombre := Coalesce(changes.salaNombre, existing.salaNombre),
      fecha := Coalesce(changes.fecha, existing.fecha),
      hora := Coalesce(changes.hora, existing.hora),
      notas := Coalesce(changes.notas, existing.notas),
      updatedAt := Some(now))
  }

  /** What the merge promises field by field: a string in `changes`, even
      an empty one, overwrites; `null` and a missing field keep the stored
      value; identity, owner and creation time never change. */
  lemma MergeFields(existing: Reservation, changes: Changes, now: int)
    ensures var r := Merge(existing, changes, now);
      && r.id == existing.id && r.usuarioId == existing.usuarioId && r.createdAt == existing.createdAt
      && r.updatedAt == Some(now)
      && (changes.salaId.Str? ==> r.salaId == Some(changes.salaId.s))
      && (!changes.salaId.Str? ==> r.salaId == existing.salaId)
      && (changes.salaNombre.Str? ==> r.salaNombre == changes.salaNombre.s)
      && (!changes.salaNombre.Str? ==> r.salaNombre == existing.salaNombre)
      && (changes.fecha.Str? ==> r.fecha == changes.fecha.s)
      && (!changes.fecha.Str? ==> r.fecha == existing.fecha)
      && (changes.hora.Str? ==> r.hora == changes.hora.s)
      && (!changes.hora.Str? ==> r.hora == existing.hora)
      && (changes.notas.Str? ==> r.notas == changes.notas.s)
      && (!changes.notas.Str? ==> r.notas == existing.notas)
  {
  }

  /** Applying the same changes twice is applying them once. */
  lemma MergeIdempotent(existing: Reservation, changes: Changes, t1: int, t2: int)
    ensures Merge(Merge(existing, changes, t1), changes, t2) == Merge(existing, changes, t2)
  {
  }

  /** A `changes` object with only `null`s and missing fields writes nothing
      but the update time. */
  lemma NullNeverClears(existing: Reservation, changes: Changes, now: int)
    requires !changes.salaId.Str? && !changes.salaNombre.Str? && !changes.fecha.Str?
    requires !changes.hora.Str? && !changes.notas.Str?
    ensures Merge(existing, changes, now) == existing.(updatedAt := Some(now))
  {
  }

  /** Newest `createdAt` first, as `ORDER BY datetime(createdAt) DESC`. */
  predicate NewestFirst(list: seq<Reservation>) {
    forall i, j :: 0 <= i < j < |list| ==> list[i].createdAt >= list[j].createdAt
  }

  /** Puts a row into a newest-first list in its place. */
  function InsertNewestFirst(list: seq<Reservation>, x: Reservation): (r: seq<Reservation>)
    requires NewestFirst(list)
    ensures NewestFirst(r)
    ensures multiset(r) == multiset(list) + multiset{x}
  {
    if list == [] || x.createdAt >= list[0].createdAt then
      HeadFirst(list, x);
      [x] + list
    else
      var rest := InsertNewestFirst(list[1..], x);
      InsertedBehindHead(list, x, rest);
      [list[0]] + rest
  }

  /** A row at least as new as the head of the list goes in front. */
  lemma HeadFirst(list: seq<Reservation>, x: Reservation)
    requires NewestFirst(list) && (list == [] || x.createdAt >= list[0].createdAt)
    ensures NewestFirst([x] + list)
  {
  }

  /** A row older than the head goes into the tail. */
  lemma InsertedBehindHead(list: seq<Reservation>, x: Reservation, rest: seq<Reservation>)
    requires NewestFirst(list) && list != [] && x.createdAt < list[0].createdAt
    requires NewestFirst(rest) && multiset(rest) == multiset(list[1..]) + multiset{x}
    ensures NewestFirst([list[0]] + rest)
    ensures multiset([list[0]] + rest) == multiset(list) + multiset{x}
  {
    assert list == [list[0]] + list[1..];
    NewestFirstCons(list[0], rest, list[1..], x);
  }

  lemma NewestFirstCons(a: Reservation, rest: seq<Reservation>, tail: seq<Reservation>, x: Reservation)
    requires NewestFirst(rest) && multiset(rest) == multiset(tail) + multiset{x}
    requires x.createdAt <= a.createdAt
    requires forall i :: 0 <= i < |tail| ==> tail[i].createdAt <= a.createdAt
    ensures NewestFirst([a] + rest)
  {
    forall j | 0 <= j < |rest| ensures rest[j].createdAt <= a.createdAt {
      assert rest[j] in multiset(rest);
      if rest[j] != x {
        assert rest[j] in multiset(tail);
      }
    }
  }

  /** `list` holds exactly the rows stored under the keys in `keys`, each once. */
  ghost predicate ListsOnce(list: seq<Reservation>, rows: map<string, Reservation>, keys: set<string>)
    requires keys <= rows.Keys
  {
    forall r :: multiset(list)[r] == if r.id in keys && rows[r.id] == r then 1 else 0
  }

  /** Inserting the row stored under a key not yet listed lists it once. */
  lemma CountsAfterInsert(rows: map<string, Reservation>, done: set<string>, k: string,
                          before: seq<Reservation>, after: seq<Reservation>)
    requires done <= rows.Keys && k in rows && k !in done && rows[k].id == k
    requires |before| == |done|
    requires ListsOnce(before, rows, done)
    requires multiset(after) == multiset(before) + multiset{rows[k]}
    ensures |after| == |done + {k}|
    ensures ListsOnce(after, rows, done + {k})
  {
    assert |multiset(after)| == |multiset(before)| + 1;
    forall r ensures multiset(after)[r] == if r.id in done + {k} && rows[r.id] == r then 1 else 0 {
      assert multiset(after)[r] == multiset(before)[r] + multiset{rows[k]}[r];
      if r == rows[k] {
        assert r.id == k && k !in done;
      }
    }
  }

  /** One step of `listAll`: the key taken from the remaining ones moves to
      the listed ones, and the list still holds each listed row once. */
  lemma ListStep(rows: map<string, Reservation>, done: set<string>, remaining: set<string>, k: string,
                 before: seq<Reservation>, after: seq<Reservation>)
    requires WellKeyed(rows)
    requires remaining <= rows.Keys && done == rows.Keys - remaining && k in remaining
    requires |before| == |done| && ListsOnce(before, rows, done)
    requires multiset(after) == multiset(before) + multiset{rows[k]}
    ensures remaining - {k} <= rows.Keys && done + {k} == rows.Keys - (remaining - {k})
    ensures |after| == |done + {k}| && ListsOnce(after, rows, done + {k})
  {
    CountsAfterInsert(rows, done, k, before, after);
  }

  /** Every row sits under its own id, and no id is empty. */
  ghost predicate WellKeyed(rows: map<string, Reservation>) {
    forall k :: k in rows ==> k != "" && rows[k].id == k
  }

  /** The table. */
  class ReservaTable {
    var rows: map<string, Reservation>

    ghost predicate Valid()
      reads this
    {
      WellKeyed(rows)
    }

    constructor()
      ensures rows == map[] && Valid()
    {
      rows := map[];
    }

    /** `findById`: the row with that id, if any. */
    method FindById(id: string) returns (found: Option<Reservation>)
      requires Valid()
      ensures found.Some? <==> id in rows
      ensures found.Some? ==> found.value == rows[id] && found.value.id == id
    {
      if id in rows {
        found := Some(rows[id]);
      } else {
        found := None;
      }
    }

    /** `create`: inserts the stored form of the new reservation under its
        fresh id and returns it. */
    method Create(nueva: Reservation) returns (created: Reservation)
      requires Valid() && nueva.id != "" && nueva.id !in rows
      modifies this
      ensures Valid()
      ensures created == StoredRow(nueva)
      ensures rows == old(rows)[nueva.id := created]
    {
      created := StoredRow(nueva);
      rows := rows[nueva.id := created];
    }

    /** `update`: no row → `null`; another owner → 403; otherwise the merged
        row replaces the stored one and is returned. Nothing is written on
        the two error paths. */
    method Update(id: string, usuarioId: string, changes: Changes, now: int) returns (outcome: UpdateOutcome)
      requires Valid()
      modifies this
      ensures Valid()
      ensures id !in old(rows) ==> outcome == NoSuchRow && rows == old(rows)
      ensures id in old(rows) && old(rows)[id].usuarioId != usuarioId ==> outcome == NotOwner && rows == old(rows)
      ensures id in old(rows) && old(rows)[id].usuarioId == usuarioId ==>
        outcome == Merged(Merge(old(rows)[id], changes, now)) && rows == old(rows)[id := outcome.row]
    {
      if id !in rows {
        return NoSuchRow;
      }
      var existing := rows[id];
      if existing.usuarioId != usuarioId {
        return NotOwner;
      }
      var updated := Merge(existing, changes, now);
      rows := rows[id := updated];
      outcome := Merged(updated);
    }

    /** `remove`: no row → not found; another owner → 403; otherwise exactly
        that row is deleted. */
    method Remove(id: string, usuarioId: string) returns (outcome: RemoveOutcome)
      requires Valid()
      modifies this
      ensures Valid()
      ensures id !in old(rows) ==> outcome == RemoveNotFound && rows == old(rows)
      ensures id in old(rows) && old(rows)[id].usuarioId != usuarioId ==> outcome == RemoveNotOwner && rows == old(rows)
      ensures id in old(rows) && old(rows)[id].usuarioId == usuarioId ==> outcome == Removed && rows == old(rows) - {id}
    {
      if id !in rows {
        return RemoveNotFound;
      }
      if rows[id].usuarioId != usuarioId {
        return RemoveNotOwner;
      }
      rows := rows - {id};
      outcome := Removed;
    }

    /** `listAll`: every row exactly once, newest first. */
    method ListAll() returns (list: seq<Reservation>)
      requires Valid()
      ensures NewestFirst(list)
      ensures |list| == |rows|
      ensures ListsOnce(list, rows, rows.Keys)
    {
      var table := rows;
      list := [];
      var remaining := table.Keys;
      ghost var done: set<string> := {};
      while remaining != {}
        invariant remaining <= table.Keys && done == table.Keys - remaining
        invariant NewestFirst(list)
        invariant |list| == |done|
        invariant ListsOnce(list, table, done)
        decreases |remaining|
      {
        var k :| k in remaining;
        ghost var before := list;
        list := InsertNewestFirst(list, table[k]);
        ListStep(table, done, remaining, k, before, list);
        remaining := remaining - {k};
        done := done + {k};
      }
    }
  }
}
