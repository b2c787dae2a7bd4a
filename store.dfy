/**
 The attendance store as a value: the `estudiantes` table keyed by
 `student_id` and the `asistencias` table keyed by its unique pair
 `(student_id, fecha)`. A map per table makes the uniqueness of each key a
 matter of the type: an upsert replaces the row at its key and cannot add
 a second one. The autoincrement `id` column is not used by any query and
 is not modelled.
 */
module Store {
  import opened Roster

  /** The `fecha` column: the date as its 'YYYY-MM-DD' text, used only as a key here. */
  type DateKey = string

  type Key = (StudentId, DateKey)

  /** A stored `asistencias` row; `justificada` is the INTEGER column. */
  datatype Row = Row(estado: string, causa: string, justificada: int)

  /** What `get_attendance` returns: the row, with `justificada` read as a truth value. */
  datatype Attendance = Attendance(estado: string, causa: string, justificada: bool)

  datatype Tables = Tables(estudiantes: map<StudentId, string>, asistencias: map<Key, Row>)

  const Ausente: string := "Ausente"

  /** The answer for a (student, date) that has no row. */
  const Unrecorded: Attendance := Attendance("", "", false)

  /** A row as the write path leaves it: absence details only on an absence, `justificada` 0 or 1. */
  predicate NormalRow(r: Row)
  {
    && (r.justificada == 0 || r.justificada == 1)
    && (r.estado != Ausente ==> r.causa == "" && r.justificada == 0)
  }

  /** Every attendance row is normal. */
  predicate Valid(t: Tables)
  {
    forall k :: k in t.asistencias ==> NormalRow(t.asistencias[k])
  }

  /**
   The row `update_attendance` writes: the status as given; the reason
   and the flag (1 when truthy, else 0) only for an absence, otherwise
   an empty reason and 0.
   */
  function Normalized(estado: string, causa: string, justificada: bool): (r: Row)
    ensures NormalRow(r)
    ensures r.estado == estado
    ensures estado == Ausente ==> r.causa == causa && (r.justificada == 1 <==> justificada)
  {
    if estado != Ausente then Row(estado, "", 0)
    else Row(estado, causa, if justificada then 1 else 0)
  }

  /** `get_attendance`: the stored row, or the unrecorded default when there is none. */
  function Lookup(t: Tables, sid: StudentId, fecha: DateKey): (a: Attendance)
    ensures (sid, fecha) !in t.asistencias ==> a == Unrecorded
    ensures (sid, fecha) in t.asistencias ==>
      var row := t.asistencias[(sid, fecha)];
      a.estado == row.estado && a.causa == row.causa && (a.justificada <==> row.justificada != 0)
  {
    if (sid, fecha) in t.asistencias then
      var row := t.asistencias[(sid, fecha)];
      Attendance(row.estado, row.causa, row.justificada != 0)
    else Unrecorded
  }

  /** Reading a normal row gives back no absence details unless it records an absence. */
  lemma LookupOfValid(t: Tables, sid: StudentId, fecha: DateKey)
    requires Valid(t)
    ensures var a := Lookup(t, sid, fecha);
      a.estado != Ausente ==> a.causa == "" && !a.justificada
  {
    if (sid, fecha) in t.asistencias {
      assert NormalRow(t.asistencias[(sid, fecha)]);
    }
  }

  /**
   `update_attendance`: an insert-or-update on the key `(sid, fecha)` of
   the normalised row. Reading the key back gives the normalised values;
   every other row and the roster are untouched; normality is kept.
   */
  function Upsert(t: Tables, sid: StudentId, fecha: DateKey, estado: string, causa: string, justificada: bool): (t': Tables)
    ensures t'.estudiantes == t.estudiantes
    ensures t'.asistencias.Keys == t.asistencias.Keys + {(sid, fecha)}
    ensures t'.asistencias[(sid, fecha)] == Normalized(estado, causa, justificada)
    ensures forall k :: k in t.asistencias && k != (sid, fecha) ==> t'.asistencias[k] == t.asistencias[k]
    ensures Lookup(t', sid, fecha) ==
      if estado == Ausente then Attendance(estado, causa, justificada) else Attendance(estado, "", false)
    ensures Valid(t) ==> Valid(t')
  {
    t.(asistencias := t.asistencias[(sid, fecha) := Normalized(estado, causa, justificada)])
  }

  /** Reading another key after an upsert gives what it gave before. */
  lemma LookupAfterUpsertElsewhere(t: Tables, sid: StudentId, fecha: DateKey, estado: string, causa: string,
                                   justificada: bool, sid2: StudentId, fecha2: DateKey)
    requires (sid2, fecha2) != (sid, fecha)
    ensures Lookup(Upsert(t, sid, fecha, estado, causa, justificada), sid2, fecha2) == Lookup(t, sid2, fecha2)
  {
  }

  /** A second upsert on the same key overwrites the first instead of adding a row. */
  lemma UpsertOverwrites(t: Tables, sid: StudentId, fecha: DateKey,
                         estado1: string, causa1: string, justificada1: bool,
                         estado2: string, causa2: string, justificada2: bool)
    ensures Upsert(Upsert(t, sid, fecha, estado1, causa1, justificada1), sid, fecha, estado2, causa2, justificada2)
         == Upsert(t, sid, fecha, estado2, causa2, justificada2)
  {
  }

  /** Calling `update_attendance` twice with the same arguments is the same as calling it once. */
  lemma UpsertIdempotent(t: Tables, sid: StudentId, fecha: DateKey, estado: string, causa: string, justificada: bool)
    ensures var once := Upsert(t, sid, fecha, estado, causa, justificada);
      Upsert(once, sid, fecha, estado, causa, justificada) == once
  {
    UpsertOverwrites(t, sid, fecha, estado, causa, justificada, estado, causa, justificada);
  }

  /** Upserts on different keys do not interfere: their order does not matter. */
  lemma UpsertsCommute(t: Tables, sid1: StudentId, fecha1: DateKey, estado1: string, causa1: string, justificada1: bool,
                       sid2: StudentId, fecha2: DateKey, estado2: string, causa2: string, justificada2: bool)
    requires (sid1, fecha1) != (sid2, fecha2)
    ensures Upsert(Upsert(t, sid1, fecha1, estado1, causa1, justificada1), sid2, fecha2, estado2, causa2, justificada2)
         == Upsert(Upsert(t, sid2, fecha2, estado2, causa2, justificada2), sid1, fecha1, estado1, causa1, justificada1)
  {
  }

  /**
   The seed loop of `init_db`: every seed entry is inserted, or its name
   overwritten on conflict. Students outside the seed keep their names,
   nobody is removed, and the attendance table is untouched.
   */
  function SyncRoster(t: Tables, seed: seq<Student>): (t': Tables)
    ensures t'.asistencias == t.asistencias
    ensures t'.estudiantes.Keys == t.estudiantes.Keys + Ids(seed)
    ensures forall id :: id in t.estudiantes && id !in Ids(seed) ==> t'.estudiantes[id] == t.estudiantes[id]
    ensures forall id :: id in Ids(seed) ==> t'.estudiantes[id] == SeedNames(seed)[id]
  {
    t.(estudiantes := t.estudiantes + SeedNames(seed))
  }

  /** After the sync every seed student is stored under the seed's name. */
  lemma SyncRosterStoresSeed(t: Tables, seed: seq<Student>, i: int)
    requires DistinctIds(seed)
    requires 0 <= i < |seed|
    ensures seed[i].id in SyncRoster(t, seed).estudiantes
    ensures SyncRoster(t, seed).estudiantes[seed[i].id] == seed[i].nombre
  {
    SeedNamesOfDistinct(seed, i);
  }

  /** Running the sync a second time with the same seed changes nothing. */
  lemma SyncRosterIdempotent(t: Tables, seed: seq<Student>)
    ensures SyncRoster(SyncRoster(t, seed), seed) == SyncRoster(t, seed)
  {
  }

  /** A later sync whose seed lacks a student keeps that student and its name. */
  lemma SyncRosterNonDestructive(t: Tables, seed: seq<Student>, id: StudentId)
    requires id in t.estudiantes
    ensures id in SyncRoster(t, seed).estudiantes
    ensures id !in Ids(seed) ==> SyncRoster(t, seed).estudiantes[id] == t.estudiantes[id]
  {
  }

  /**
   What `get_students` may return: every stored student exactly once,
   with its stored name, in nondecreasing name order (rows with equal
   names come in no specified order).
   */
  predicate IsListing(estudiantes: map<StudentId, string>, students: seq<Student>)
  {
    && |students| == |estudiantes|
    && Ids(students) == estudiantes.Keys
    && (forall i :: 0 <= i < |students| ==>
          students[i].id in estudiantes && estudiantes[students[i].id] == students[i].nombre)
    && SortedByName(students)
  }

  /** A listing names no student twice and is ordered between any two positions. */
  lemma ListingIsDistinctAndOrdered(estudiantes: map<StudentId, string>, students: seq<Student>, i: int, j: int)
    requires IsListing(estudiantes, students)
    requires 0 <= i < j < |students|
    ensures students[i].id != students[j].id
    ensures NameLe(students[i].nombre, students[j].nombre)
  {
    assert |estudiantes.Keys| == |estudiantes|;
    IdsCount(students);
    SortedByNamePairwise(students, i, j);
  }

  /**
   Part of a listing: the students not in `remaining` are listed, once
   each, with their names, in name order.
   */
  predicate PartialListing(estudiantes: map<StudentId, string>, remaining: set<StudentId>, students: seq<Student>)
  {
    && remaining <= estudiantes.Keys
    && Ids(students) == estudiantes.Keys - remaining
    && |students| + |remaining| == |estudiantes.Keys|
    && (forall i :: 0 <= i < |students| ==>
          students[i].id in estudiantes && estudiantes[students[i].id] == students[i].nombre)
    && SortedByName(students)
  }

  /** Inserting one more remaining student by name extends a partial listing. */
  lemma PartialListingStep(estudiantes: map<StudentId, string>, remaining: set<StudentId>, students: seq<Student>,
                           id: StudentId, next: seq<Student>)
    requires PartialListing(estudiantes, remaining, students)
    requires id in remaining
    requires SortedByName(next)
    requires multiset(next) == multiset(students) + multiset{Student(id, estudiantes[id])}
    ensures PartialListing(estudiantes, remaining - {id}, next)
  {
    var x := Student(id, estudiantes[id]);
    IdsOfInsert(students, x, next);
    forall i | 0 <= i < |next|
      ensures next[i].id in estudiantes && estudiantes[next[i].id] == next[i].nombre
    {
      assert next[i] in multiset(next);
      if next[i] != x {
        assert next[i] in multiset(students);
        var j :| 0 <= j < |students| && students[j] == next[i];
      }
    }
  }
}
