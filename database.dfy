/**
 The SQLite file as an object whose two tables the application updates in
 place. Every operation opens the same file, so one object stands for it;
 each method's contract ties the new tables to the pure definitions in
 `Store`.
 */
module Database {
  import opened Roster
  import opened Store

  class AttendanceDb {
    var estudiantes: map<StudentId, string>
    var asistencias: map<Key, Row>

    /** The tables as a value. */
    function Snapshot(): Tables
      reads this
    {
      Tables(estudiantes, asistencias)
    }

    /** Opening the database file finds whatever tables it holds (empty ones on a first run). */
    constructor Open(t: Tables)
      ensures Snapshot() == t
    {
      estudiantes := t.estudiantes;
      asistencias := t.asistencias;
    }

    /** `update_attendance`: clears the absence details unless absent, then upserts on the key. */
    method UpdateAttendance(sid: StudentId, fecha: DateKey, estado: string, causa: string, justificada: bool)
      modifies this
      ensures Snapshot() == Upsert(old(Snapshot()), sid, fecha, estado, causa, justificada)
      ensures old(Valid(Snapshot())) ==> Valid(Snapshot())
    {
      var justificadaInt := if justificada then 1 else 0;
      var causaStored := causa;
      if estado != Ausente {
        causaStored := "";
        justificadaInt := 0;
      }
      asistencias := asistencias[(sid, fecha) := Row(estado, causaStored, justificadaInt)];
    }

    /** The seed loop of `init_db`: one insert-or-rename per seed entry, in seed order. */
    method InitDb(seed: seq<Student>)
      modifies this
      ensures Snapshot() == SyncRoster(old(Snapshot()), seed)
    {
      ghost var before := estudiantes;
      for i := 0 to |seed|
        invariant estudiantes == before + SeedNames(seed[..i])
        invariant asistencias == old(asistencias)
      {
        SeedNamesStep(before, seed, i);
        estudiantes := estudiantes[seed[i].id := seed[i].nombre];
      }
      assert seed[..|seed|] == seed;
    }

    /** `get_students`: every student once, ordered by name; the tables are not changed. */
    method GetStudents() returns (students: seq<Student>)
      ensures IsListing(estudiantes, students)
    {
      students := [];
      var remaining := estudiantes.Keys;
      while remaining != {}
        invariant PartialListing(estudiantes, remaining, students)
        decreases remaining
      {
        var id :| id in remaining;
        var next := InsertByName(students, Student(id, estudiantes[id]));
        PartialListingStep(estudiantes, remaining, students, id, next);
        students := next;
        remaining := remaining - {id};
      }
      assert |estudiantes.Keys| == |estudiantes|;
    }
  }
}
