/**
 * The per-date workout log and handleLogExercise, which records one field
 * (weight or repetitions) of one exercise of one workout sheet: it updates
 * the exercise's entry if the date has one, and appends a new entry if not.
 */
module WorkoutLog {
  import opened Text
  import opened Catalog

  /** A logged exercise: the sheet (scheda) and the exercise name identify it. */
  datatype LogEntry = LogEntry(
    date: Day,
    schedaId: string,
    esercizioNome: string,
    pesoEseguito: int,
    ripetizioniEseguite: int)

  /** The field being logged; any other field name leaves both numbers as they are. */
  datatype LogField = PesoEseguito | RipetizioniEseguite | OtherField(name: string)

  /** `parseFloat(valore) || 0`: NaN and 0 both give 0. */
  function OrZero(parsed: JsInt): (r: int)
  {
    if parsed.NaN? then 0 else parsed.value
  }

  predicate IsEntryFor(l: LogEntry, schedaId: string, esercizioNome: string)
  {
    l.schedaId == schedaId && l.esercizioNome == esercizioNome
  }

  /** findIndex: the first entry for the exercise, or -1. */
  function FindLog(logs: seq<LogEntry>, schedaId: string, esercizioNome: string): (i: int)
    ensures -1 <= i < |logs|
    ensures 0 <= i ==> IsEntryFor(logs[i], schedaId, esercizioNome)
    ensures forall j :: 0 <= j < |logs| && (i < 0 || j < i) ==> !IsEntryFor(logs[j], schedaId, esercizioNome)
  {
    if logs == [] then -1
    else if IsEntryFor(logs[0], schedaId, esercizioNome) then 0
    else
      var k := FindLog(logs[1..], schedaId, esercizioNome);
      if k < 0 then -1 else k + 1
  }

  /** `{ ...entry, [campo]: value }`. */
  function SetField(l: LogEntry, field: LogField, value: int): (r: LogEntry)
  {
    match field
    case PesoEseguito => l.(pesoEseguito := value)
    case RipetizioniEseguite => l.(ripetizioniEseguite := value)
    case OtherField(_) => l
  }

  /** The value an entry holds for one of the two modelled fields. */
  function FieldValue(l: LogEntry, field: LogField): (r: int)
    requires !field.OtherField?
  {
    if field.PesoEseguito? then l.pesoEseguito else l.ripetizioniEseguite
  }

  function LogsForDate(workoutLogs: map<Day, seq<LogEntry>>, date: Day): (r: seq<LogEntry>)
  {
    if date in workoutLogs then workoutLogs[date] else []
  }

  /** handleLogExercise on the date's entries, with the already-parsed value. */
  function LogExercise(workoutLogs: map<Day, seq<LogEntry>>, date: Day, schedaId: string,
                       esercizioNome: string, field: LogField, parsed: JsInt): (r: map<Day, seq<LogEntry>>)
  {
    var currentLogs := LogsForDate(workoutLogs, date);
    var i := FindLog(currentLogs, schedaId, esercizioNome);
    var value := OrZero(parsed);
    if 0 <= i then
      workoutLogs[date := currentLogs[i := SetField(currentLogs[i], field, value)]]
    else
      workoutLogs[date := currentLogs + [LogEntry(date, schedaId, esercizioNome,
                                                  if field.PesoEseguito? then value else 0,
                                                  if field.RipetizioniEseguite? then value else 0)]]
  }

  function CountEntries(logs: seq<LogEntry>, schedaId: string, esercizioNome: string): (r: nat)
  {
    if logs == [] then 0
    else (if IsEntryFor(logs[0], schedaId, esercizioNome) then 1 else 0) + CountEntries(logs[1..], schedaId, esercizioNome)
  }

  lemma {:induction false} CountEntriesUpdate(logs: seq<LogEntry>, i: nat, x: LogEntry, schedaId: string, esercizioNome: string)
    requires i < |logs|
    requires IsEntryFor(x, schedaId, esercizioNome) == IsEntryFor(logs[i], schedaId, esercizioNome)
    ensures CountEntries(logs[i := x], schedaId, esercizioNome) == CountEntries(logs, schedaId, esercizioNome)
  {
    if i > 0 {
      assert logs[i := x][1..] == logs[1..][i - 1 := x];
      CountEntriesUpdate(logs[1..], i - 1, x, schedaId, esercizioNome);
    }
  }

  lemma {:induction false} CountEntriesAppend(logs: seq<LogEntry>, x: LogEntry, schedaId: string, esercizioNome: string)
    ensures CountEntries(logs + [x], schedaId, esercizioNome)
         == CountEntries(logs, schedaId, esercizioNome) + (if IsEntryFor(x, schedaId, esercizioNome) then 1 else 0)
  {
    if logs == [] {
      assert [x][1..] == [];
    } else {
      assert (logs + [x])[1..] == logs[1..] + [x];
      CountEntriesAppend(logs[1..], x, schedaId, esercizioNome);
    }
  }

  lemma {:induction false} CountEntriesNone(logs: seq<LogEntry>, schedaId: string, esercizioNome: string)
    requires forall j :: 0 <= j < |logs| ==> !IsEntryFor(logs[j], schedaId, esercizioNome)
    ensures CountEntries(logs, schedaId, esercizioNome) == 0
  {
    if logs != [] {
      CountEntriesNone(logs[1..], schedaId, esercizioNome);
    }
  }

  /**
   * Logging is an upsert on (schedaId, esercizioNome): the date ends up with
   * an entry for the exercise, a new one only if it had none, so the number
   * of its entries becomes max(1, before); the first entry for it holds the
   * logged value in the logged field; entries of other exercises keep their
   * places; other dates are untouched.
   */
  lemma LogExerciseUpserts(workoutLogs: map<Day, seq<LogEntry>>, date: Day, schedaId: string,
                           esercizioNome: string, field: LogField, parsed: JsInt)
    ensures var before := LogsForDate(workoutLogs, date);
            var after := LogsForDate(LogExercise(workoutLogs, date, schedaId, esercizioNome, field, parsed), date);
            && CountEntries(after, schedaId, esercizioNome)
               == (if CountEntries(before, schedaId, esercizioNome) == 0 then 1 else CountEntries(before, schedaId, esercizioNome))
            && 0 <= FindLog(after, schedaId, esercizioNome)
            && (!field.OtherField? ==> FieldValue(after[FindLog(after, schedaId, esercizioNome)], field) == OrZero(parsed))
            && |before| <= |after| <= |before| + 1
            && (forall j :: 0 <= j < |before| && !IsEntryFor(before[j], schedaId, esercizioNome) ==> after[j] == before[j])
    ensures forall d :: d != date ==>
              (d in LogExercise(workoutLogs, date, schedaId, esercizioNome, field, parsed) <==> d in workoutLogs)
              && LogsForDate(LogExercise(workoutLogs, date, schedaId, esercizioNome, field, parsed), d)
                 == LogsForDate(workoutLogs, d)
  {
    var before := LogsForDate(workoutLogs, date);
    var i := FindLog(before, schedaId, esercizioNome);
    var value := OrZero(parsed);
    var after := LogsForDate(LogExercise(workoutLogs, date, schedaId, esercizioNome, field, parsed), date);
    if 0 <= i {
      CountEntriesUpdate(before, i, SetField(before[i], field, value), schedaId, esercizioNome);
      assert after[i] == SetField(before[i], field, value);
      CountEntriesZero(before, i, schedaId, esercizioNome);
    } else {
      var x := LogEntry(date, schedaId, esercizioNome,
                        if field.PesoEseguito? then value else 0,
                        if field.RipetizioniEseguite? then value else 0);
      CountEntriesNone(before, schedaId, esercizioNome);
      CountEntriesAppend(before, x, schedaId, esercizioNome);
      assert after == before + [x];
      assert FindLog(after, schedaId, esercizioNome) == |before| by {
        FindLogAppend(before, x, schedaId, esercizioNome);
      }
    }
  }

  lemma {:induction false} CountEntriesZero(logs: seq<LogEntry>, i: nat, schedaId: string, esercizioNome: string)
    requires i < |logs| && IsEntryFor(logs[i], schedaId, esercizioNome)
    ensures CountEntries(logs, schedaId, esercizioNome) > 0
  {
    if i > 0 {
      CountEntriesZero(logs[1..], i - 1, schedaId, esercizioNome);
    }
  }

  lemma {:induction false} FindLogAppend(logs: seq<LogEntry>, x: LogEntry, schedaId: string, esercizioNome: string)
    requires forall j :: 0 <= j < |logs| ==> !IsEntryFor(logs[j], schedaId, esercizioNome)
    requires IsEntryFor(x, schedaId, esercizioNome)
    ensures FindLog(logs + [x], schedaId, esercizioNome) == |logs|
  {
    if logs != [] {
      assert (logs + [x])[1..] == logs[1..] + [x];
      FindLogAppend(logs[1..], x, schedaId, esercizioNome);
    }
  }

  /** Logging the same exercise twice on a date adds at most one entry overall. */
  lemma LogExerciseTwice(workoutLogs: map<Day, seq<LogEntry>>, date: Day, schedaId: string, esercizioNome: string,
                         f1: LogField, p1: JsInt, f2: LogField, p2: JsInt)
    ensures var once := LogExercise(workoutLogs, date, schedaId, esercizioNome, f1, p1);
            var twice := LogExercise(once, date, schedaId, esercizioNome, f2, p2);
            |LogsForDate(twice, date)| == |LogsForDate(once, date)|
  {
    LogExerciseUpserts(workoutLogs, date, schedaId, esercizioNome, f1, p1);
  }
}
