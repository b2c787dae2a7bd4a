/**
 The decision `render_attendance_cell` makes on every rerun of the page:
 which values the cell's widgets start from, which values it takes from
 them, and whether it calls `update_attendance`. The widgets themselves
 are left to the page; here the user's input is the value each widget
 holds when the script runs.
 */
module Cell {
  import opened Roster
  import opened Store

  /** The choices of the status select box, in display order. */
  const EstadoOptions: seq<string> := ["", "Presente", "Ausente", "Tarde"]

  /** The status the select box starts from: the stored one if it is a choice, else the empty one. */
  function ShownEstado(stored: string): (e: string)
    ensures e in EstadoOptions
    ensures e == stored <==> stored in EstadoOptions
    ensures e != stored ==> e == ""
  {
    if stored in EstadoOptions then stored else ""
  }

  /** What the three widgets show before the user touches them. */
  function InitialWidgets(current: Attendance): (widgets: Attendance)
    ensures widgets.estado in EstadoOptions
    ensures widgets.causa == current.causa && widgets.justificada == current.justificada
    ensures current.estado in EstadoOptions ==> widgets == current
    ensures current.estado !in EstadoOptions ==> widgets.estado == ""
  {
    Attendance(ShownEstado(current.estado), current.causa, current.justificada)
  }

  /**
   The values the cell acts on: the reason and the flag are read from their
   widgets only for an absence, and are empty and false otherwise.
   */
  function CellValues(widgets: Attendance): (cell: Attendance)
    ensures cell.estado == widgets.estado
    ensures widgets.estado == Ausente ==> cell == widgets
    ensures widgets.estado != Ausente ==> cell.causa == "" && !cell.justificada
  {
    if widgets.estado == Ausente then widgets
    else Attendance(widgets.estado, "", false)
  }

  /**
   The write trigger: the status differs from the one read from the store,
   or the status is an absence and its reason or flag differ. The stored
   status is compared as read, not as shown in the select box.
   */
  predicate NeedsWrite(current: Attendance, cell: Attendance)
    ensures NeedsWrite(current, cell) ==> cell != current
    ensures cell.estado == Ausente ==> (NeedsWrite(current, cell) <==> cell != current)
    ensures cell.estado != Ausente ==> (NeedsWrite(current, cell) <==> cell.estado != current.estado)
  {
    || cell.estado != current.estado
    || (cell.estado == Ausente && (cell.causa != current.causa || cell.justificada != current.justificada))
  }

  /** One rerun of the cell: read the stored values, decide, and write when the trigger fires. */
  function RenderCell(t: Tables, sid: StudentId, fecha: DateKey, widgets: Attendance): (t': Tables)
    ensures t'.estudiantes == t.estudiantes
    ensures t'.asistencias.Keys <= t.asistencias.Keys + {(sid, fecha)}
    ensures forall k :: k in t.asistencias && k != (sid, fecha) ==> k in t'.asistencias && t'.asistencias[k] == t.asistencias[k]
    ensures forall sid2, fecha2 :: (sid2, fecha2) != (sid, fecha) ==>
      Lookup(t', sid2, fecha2) == Lookup(t, sid2, fecha2)
    ensures Valid(t) ==> Valid(t')
  {
    var cell := CellValues(widgets);
    if NeedsWrite(Lookup(t, sid, fecha), cell) then
      Upsert(t, sid, fecha, cell.estado, cell.causa, cell.justificada)
    else t
  }

  /**
   In a store written only through `update_attendance`, the stored values
   match the cell's values after one rerun: the display and the store do
   not drift apart.
   */
  lemma RenderCellStoresCell(t: Tables, sid: StudentId, fecha: DateKey, widgets: Attendance)
    requires Valid(t)
    ensures Lookup(RenderCell(t, sid, fecha, widgets), sid, fecha) == CellValues(widgets)
  {
    var cell := CellValues(widgets);
    if !NeedsWrite(Lookup(t, sid, fecha), cell) {
      LookupOfValid(t, sid, fecha);
    }
  }

  /**
   In a store written only through `update_attendance`, a rerun writes
   exactly when the stored record differs from the cell's values.
   */
  lemma RenderCellWritesIffChanged(t: Tables, sid: StudentId, fecha: DateKey, widgets: Attendance)
    requires Valid(t)
    ensures RenderCell(t, sid, fecha, widgets) == t <==> Lookup(t, sid, fecha) == CellValues(widgets)
  {
    LookupOfValid(t, sid, fecha);
    RenderCellStoresCell(t, sid, fecha, widgets);
  }

  /** The rerun loop settles: a second rerun with the same widget values writes nothing. */
  lemma RenderCellSettles(t: Tables, sid: StudentId, fecha: DateKey, widgets: Attendance)
    ensures var t' := RenderCell(t, sid, fecha, widgets);
      !NeedsWrite(Lookup(t', sid, fecha), CellValues(widgets)) &&
      RenderCell(t', sid, fecha, widgets) == t'
  {
  }

  /**
   A rerun in which the user has touched nothing writes only when the
   stored status is not one of the choices, and then stores the empty
   status with no absence details.
   */
  lemma UntouchedCell(t: Tables, sid: StudentId, fecha: DateKey)
    ensures var current := Lookup(t, sid, fecha);
      RenderCell(t, sid, fecha, InitialWidgets(current)) ==
        if current.estado in EstadoOptions then t else Upsert(t, sid, fecha, "", "", false)
  {
  }

  /** Leaving a never-written cell at the empty status writes nothing. */
  lemma UnrecordedCellStaysUnwritten(t: Tables, sid: StudentId, fecha: DateKey, causa: string, justificada: bool)
    requires (sid, fecha) !in t.asistencias
    ensures RenderCell(t, sid, fecha, Attendance("", causa, justificada)) == t
    ensures (sid, fecha) !in RenderCell(t, sid, fecha, Attendance("", causa, justificada)).asistencias
  {
  }
}
