# CasaAzul academic ledgers in Dafny

This project models the ledgers of the CasaAzul school-management backend (the
Laravel `backendv2` API). Teachers and administrators use it to:

- enrol students in course offerings (*asignaturas*) that have a seat counter
  (`cupo_disponible`);
- take and correct attendance (*asistencias*);
- record grades (*notas*) on the Chilean 1.0–7.0 scale;
- read reports and dashboards derived from those tables.

The model keeps the tables in memory as sequences of rows inside one object,
`Db.Database`. Each controller action that writes becomes a method on that object.
Each read-only endpoint becomes a function over the rows.

Modules follow the source files:

| module | file | models |
|---|---|---|
| `Common`, `Rounding`, `Seqs`, `Schema`, `Db` | common, rounding, seqs, schema, db | statuses, the teacher ownership gate, PHP `round` on scaled integers, collection pipelines, the rows and the table invariants |
| `Cupos` | cupos.dfy | the seat counter and the quantity it conserves |
| `Matriculas` | matriculas.dfy | `MatriculaController` |
| `Asistencias` | asistencias.dfy | `AsistenciaController` |
| `Notas` | notas.dfy | `NotasController` |
| `Reportes` | reportes.dfy | `ReporteController` |
| `Asignaturas` | asignaturas.dfy | `AsignaturaController` |
| `Estudiantes` | estudiantes.dfy | the `Estudiante` model |
| `Dashboard` | dashboard.dfy | `DashboardController` |

Conventions:

- **Grades** are tenths, so 1.0–7.0 is 10..70 and the pass mark 4.0 is 40.
  The column is `decimal(3,1)`.
- **Percentages** are hundredths of a percent, 0..10000.
- **PHP `round`** is round-half-up on non-negative rationals, in `Rounding.RoundDiv`.
  `Rounding.Redondeado(n, d, r)` names its defining property,
  `d(r - 1/2) <= n < d(r + 1/2)`; every rounded average and percentage is
  stated with it.
- **Request parameters** that the source tests with `$request->has(...)` are
  `Common.Param`: `Absent` (not sent), `Null` (sent as null, which `has`
  accepts) or `Given(v)`. A parameter sent as null filters with
  `where(col, null)`, i.e. `IS NULL`, or with a NULL bound, and so matches
  nothing; a date sent as null to `listaEstudiantes` stays NULL instead of
  defaulting to today.
- **A missing row** makes `findOrFail` raise inside the `try`. The resulting 500 is
  `ServerError`, and nothing changes.
- **Validator failures** are `Unprocessable` (422). This includes an empty bulk
  list, which `required|array` refuses.
- **Deletes cascade** as the migrations declare:
  - deleting an enrolment removes its grades and attendance records;
  - deleting an offering removes its teacher assignments.
- **The teacher gate** is `Common.Denied`: the role is 2 and the offering's
  `id_profesor` differs from the user's.

Every mutating method states its complete new state as a function of the old
tables. Separate lemmas prove that those functions keep `Db.Integras`:

- unique ids below the next auto-increment value;
- resolving foreign keys;
- one enrolment per (student, offering), the unique key of the `matriculas` migration;
- one offering per (course, period, section);
- non-negative seat counters;
- grades in range.

They also prove that enrolment and withdrawal conserve free seats plus enrolments (`Cupos.Plazas`).

`Db.Database.Valid()` is `Db.Integras` over the object's fields. The constructor
establishes it. Every action that writes requires it and ensures it again, by
calling the preservation lemma for its new tables. So no sequence of actions
can leave duplicate ids, dangling keys or a negative seat counter. Where
several tables change together, the action writes them through
`Db.Database.EscribirMatriculas`, `EscribirRetiro` or `EscribirAsistencias`.
Each of these writes the given tables only when they satisfy `Db.Integras`.

## Model

| member | source | states |
|---|---|---|
| Rounding.RoundDiv | backendv2/app/Http/Controllers/Api/v1/NotasController.php:379 | `round(n/d)` half-up: `Redondeado(n, d, r)`, that is d(r - 1/2) <= n < d(r + 1/2), so r is the integer nearest to n/d with halves rounded up |
| Rounding.Percent | backendv2/app/Http/Controllers/Api/v1/AsistenciaController.php:373 | `round(part/total*100, 2)`: 0 when total is 0, at most 100%, exactly 100% when every record counts, otherwise `Redondeado(10000 part, total, r)`, the nearest hundredth of a percent |
| Rounding.RoundDivWithin | backendv2/app/Http/Controllers/Api/v1/NotasController.php:379 | rounding a quotient that lies between two integers stays between them |
| Rounding.MeanWithinMinMax | backendv2/app/Http/Controllers/Api/v1/NotasController.php:379 | a rounded average lies between the smallest and largest value averaged |
| Rounding.MeanWithin | backendv2/app/Http/Controllers/Api/v1/NotasController.php:437 | a rounded average of values in [lo, hi] is in [lo, hi] |
| Db.Propietario | backendv2/app/Http/Controllers/Api/v1/AsistenciaController.php:180-181 | the owner the gate compares with: none for an unknown offering; otherwise the `id_profesor` of an offering with that id, and, when ids are unique, of every such offering |
| Schema.DeAsignatura | backendv2/app/Http/Controllers/Api/v1/AsignaturaController.php:246 | `$asignatura->matriculas`: exactly the enrolments of the offering |
| Schema.MatriculasDe | backendv2/app/Http/Controllers/Api/v1/AsistenciaController.php:521-522 | `pluck('id_matricula')`: exactly the ids of the offering's enrolments |
| Cupos.AdjustSeats | backendv2/app/Http/Controllers/Api/v1/MatriculaController.php:248 | `decrement`/`increment('cupo_disponible')` touches only that offering's counter, and only the counter |
| Cupos.AdjustSeatsCupo | backendv2/app/Http/Controllers/Api/v1/MatriculaController.php:319 | after the update the offering's counter is the old one moved by delta (NULL stays NULL); every other counter is unchanged |
| Cupos.AdjustSeatsKeys | backendv2/app/Http/Controllers/Api/v1/MatriculaController.php:248 | moving a counter keeps the offering ids and the (course, period, section) key unique |
| Cupos.SeatRoundTrip | backendv2/app/Http/Controllers/Api/v1/MatriculaController.php:315-321 | a decrement followed by an increment of the same offering restores the offerings table |
| Cupos.AdjustSeatsNonNegative | backendv2/app/Http/Controllers/Api/v1/MatriculaController.php:143-160 | counters never go negative when a decrement happens only on a counter that the seat check found positive |
| Cupos.Inscritos | backendv2/app/Http/Controllers/Api/v1/AsignaturaController.php:168 | `matriculas()->count()` is 0 exactly when no enrolment names the offering |
| Cupos.InscritosAppend | backendv2/app/Http/Controllers/Api/v1/MatriculaController.php:240-244 | a new enrolment raises its offering's enrolment count by one and no other |
| Cupos.InscritosWithout | backendv2/app/Http/Controllers/Api/v1/MatriculaController.php:321 | deleting an enrolment lowers its offering's enrolment count by one and no other |
| Cupos.TakeSeatConserves | backendv2/app/Http/Controllers/Api/v1/MatriculaController.php:240-248 | enrolling (insert plus decrement) keeps free seats plus enrolments of every offering |
| Cupos.ReturnSeatConserves | backendv2/app/Http/Controllers/Api/v1/MatriculaController.php:315-321 | withdrawing (increment plus delete) keeps free seats plus enrolments of every offering |
| Matriculas.Store | backendv2/app/Http/Controllers/Api/v1/MatriculaController.php:202-265 | 422 on an unknown student or offering; 400 with nothing changed on a duplicate (student, offering) or when no seat is free (a NULL counter has none); else 201, exactly one new enrolment in state 5 and only that offering's counter one lower |
| Matriculas.EnrolKeepsIntegrity | backendv2/app/Http/Controllers/Api/v1/MatriculaController.php:218-248 | an enrolment that passed the duplicate and seat checks keeps every table invariant |
| Matriculas.Ofertas | backendv2/app/Http/Controllers/Api/v1/MatriculaController.php:110-118 | the offerings of the course and period; when `seccion` is sent, only those of that section, and none when it is sent as null (`where(col, null)` is `IS NULL` on a NOT NULL column) |
| Matriculas.MatricularTodasTally | backendv2/app/Http/Controllers/Api/v1/MatriculaController.php:127-169 | `matriculadas + ya_existentes` plus the number of errors grows by exactly the number of offerings; `matriculadas` grows by the number of enrolments created |
| Matriculas.MatricularTodasConserva | backendv2/app/Http/Controllers/Api/v1/MatriculaController.php:152-162 | the batch keeps free seats plus enrolments of every offering: each new enrolment costs exactly one seat |
| Matriculas.MatricularTodasCubre | backendv2/app/Http/Controllers/Api/v1/MatriculaController.php:131-149 | afterwards the student is enrolled in every listed offering or it is reported; reports are only for offerings without a free seat |
| Matriculas.MatricularTodasIntacta | backendv2/app/Http/Controllers/Api/v1/MatriculaController.php:131-162 | offerings outside the batch are left exactly as they were |
| Matriculas.MatricularTodasIntegra | backendv2/app/Http/Controllers/Api/v1/MatriculaController.php:127-169 | the batch keeps every table invariant |
| Matriculas.SeccionNula | backendv2/app/Http/Controllers/Api/v1/MatriculaController.php:113-124 | a section sent as null selects no offering (so the action answers 404), and an absent one selects every offering of the course and period |
| Matriculas.MatricularOfertas | backendv2/app/Http/Controllers/Api/v1/MatriculaController.php:131-169 | the loop, which writes the tables offering by offering, leaves exactly the enrolments, seat counters, next id and tallies of the batch fold `MatricularTodas` |
| Matriculas.MatricularEnCurso | backendv2/app/Http/Controllers/Api/v1/MatriculaController.php:87-194 | 422 on invalid input; 404 with nothing changed when no offering matches, which includes a section sent as null; else the loop's state is the batch fold and the counters add up to `total_asignaturas` |
| Matriculas.ConEstadoFila | backendv2/app/Http/Controllers/Api/v1/MatriculaController.php:288-289 | updating an enrolment changes only its state; every other row is found unchanged |
| Matriculas.ConEstadoIntegra | backendv2/app/Http/Controllers/Api/v1/MatriculaController.php:288-289 | a state change keeps every table invariant |
| Matriculas.Update | backendv2/app/Http/Controllers/Api/v1/MatriculaController.php:274-303 | 422 on an unknown state, 500 on an unknown enrolment (both with nothing changed), else the state of that enrolment is set |
| Matriculas.WithdrawKeepsIntegrity | backendv2/app/Http/Controllers/Api/v1/MatriculaController.php:315-321 | deleting an enrolment (with its grades and records) and returning its seat keeps every table invariant |
| Matriculas.Destroy | backendv2/app/Http/Controllers/Api/v1/MatriculaController.php:311-337 | 500 with nothing changed on an unknown id; else the enrolment and its grades and records are gone and its offering gets one seat back, with no check against `cupo_maximo` |
| Matriculas.StoreThenDestroy | backendv2/app/Http/Controllers/Api/v1/MatriculaController.php:315-321 | destroying a fresh enrolment restores the enrolments, grades, records and seat counters from before the store |
| Matriculas.Inscripciones | backendv2/app/Http/Controllers/Api/v1/MatriculaController.php:363-368 | exactly the student's enrolments whose offering has the course and period |
| Matriculas.RetiroExacto | backendv2/app/Http/Controllers/Api/v1/MatriculaController.php:363-376 | the withdrawal leaves exactly the enrolments that are not the student's in that course and period |
| Matriculas.RetiroCerrado | backendv2/app/Http/Controllers/Api/v1/MatriculaController.php:370-376 | the loop's result is one seat back per selected enrolment and the selected rows removed with their grades and records |
| Matriculas.RetiroIntegro | backendv2/app/Http/Controllers/Api/v1/MatriculaController.php:370-376 | the withdrawal loop keeps every table invariant |
| Matriculas.RetiroConserva | backendv2/app/Http/Controllers/Api/v1/MatriculaController.php:370-376 | the withdrawal loop keeps free seats plus enrolments of every offering |
| Matriculas.RetirarTodas | backendv2/app/Http/Controllers/Api/v1/MatriculaController.php:370-376 | the loop deletes the selected enrolments one by one, returning one seat each, and `eliminadas` is their number |
| Matriculas.RetirarDeCurso | backendv2/app/Http/Controllers/Api/v1/MatriculaController.php:345-395 | 422 on invalid input; else exactly the student's enrolments in the course and period are removed, with their grades and records, one seat back each, and their count is returned |
| Matriculas.RetirarDeCursoIntegra | backendv2/app/Http/Controllers/Api/v1/MatriculaController.php:363-376 | `retirarDeCurso` keeps every table invariant and the seat conservation |
| Matriculas.AsignaturasDisponibles | backendv2/app/Http/Controllers/Api/v1/MatriculaController.php:403-445 | 422 on an unknown course or period; else every open (state 9) offering of the course and period, and only those, with `tiene_cupos` exactly when the counter is positive |
| Asistencias.Store | backendv2/app/Http/Controllers/Api/v1/AsistenciaController.php:86-148 | 422 on an unknown enrolment or a long remark; 403 for a teacher who does not own the offering; 400 when the enrolment has a record that day; else 201 with one record, `justificada` false when absent; nothing changes on failure |
| Asistencias.StoreUnaPorDia | backendv2/app/Http/Controllers/Api/v1/AsistenciaController.php:117-126 | the duplicate check keeps at most one record per (enrolment, day) |
| Asistencias.StoreIntegra | backendv2/app/Http/Controllers/Api/v1/AsistenciaController.php:128-134 | a new record keeps every table invariant |
| Asistencias.CorreccionFila | backendv2/app/Http/Controllers/Api/v1/AsistenciaController.php:296-300 | `update` changes only `presente`, `justificada` (kept when absent) and `observaciones` of one record; every other row is found unchanged |
| Asistencias.CorreccionIntegra | backendv2/app/Http/Controllers/Api/v1/AsistenciaController.php:296-300 | a correction keeps every table invariant and one record per (enrolment, day) |
| Asistencias.Update | backendv2/app/Http/Controllers/Api/v1/AsistenciaController.php:267-314 | 422 on a long remark, 500 on an unknown record, 403 for a teacher who does not own it (nothing changes in each); else the record is corrected |
| Asistencias.TomarTodas | backendv2/app/Http/Controllers/Api/v1/AsistenciaController.php:204-237 | the loop's records, next id, `registradas` and `errores` are the fold of the batch over the rows |
| Asistencias.TomarMasivo | backendv2/app/Http/Controllers/Api/v1/AsistenciaController.php:156-258 | 422 on invalid input; 403 for a teacher who does not own the offering; 400 when any listed enrolment has a record that day; nothing changes in each; else the batch fold |
| Asistencias.TomaCuenta | backendv2/app/Http/Controllers/Api/v1/AsistenciaController.php:204-237 | `registradas` plus the number of errors equals the number of rows; `registradas` counts the rows whose enrolment belongs to the offering; old records are kept and one new record is added per success |
| Asistencias.TomaNuevas | backendv2/app/Http/Controllers/Api/v1/AsistenciaController.php:222-228 | every new record is dated that day and belongs to an enrolment of the offering that some row lists |
| Asistencias.TomaErrores | backendv2/app/Http/Controllers/Api/v1/AsistenciaController.php:210-219 | every new error names a listed enrolment that is not in the offering |
| Asistencias.TomaCubre | backendv2/app/Http/Controllers/Api/v1/AsistenciaController.php:207-230 | after the batch, every listed enrolment of the offering has a record that day |
| Asistencias.SegundaToma | backendv2/app/Http/Controllers/Api/v1/AsistenciaController.php:190-202 | repeating the same batch is either rejected by the pre-check or adds nothing |
| Asistencias.TomaIntegra | backendv2/app/Http/Controllers/Api/v1/AsistenciaController.php:204-237 | the batch keeps every table invariant |
| Asistencias.TomaDuplicada | backendv2/app/Http/Controllers/Api/v1/AsistenciaController.php:190-237 | a batch listing one enrolment twice passes the pre-check and stores two records for the same day |
| Asistencias.TomarMasivoSinRepetir | backendv2/app/Http/Controllers/Api/v1/AsistenciaController.php:156-258 | `tomarMasivo` that also refuses a repeated enrolment in the batch (422); otherwise as written |
| Asistencias.TomaUnaPorDia | backendv2/app/Http/Controllers/Api/v1/AsistenciaController.php:190-237 | a batch that passes the pre-check and lists each enrolment once keeps one record per (enrolment, day) |
| Asistencias.EliminarPorFecha | backendv2/app/Http/Controllers/Api/v1/AsistenciaController.php:492-547 | 422 on an unknown offering, 403 for a teacher who does not own it (nothing changes in either); else exactly the day's records of its enrolments are removed and counted |
| Asistencias.EliminarExacto | backendv2/app/Http/Controllers/Api/v1/AsistenciaController.php:521-527 | the records kept are exactly those outside that offering and day; deleted plus kept is the old total |
| Asistencias.EliminarPermiteRetomar | backendv2/app/Http/Controllers/Api/v1/AsistenciaController.php:521-527 | after deleting the day, a batch for that offering and day passes the pre-check again, and the invariants hold |
| Asistencias.ResumenDe | backendv2/app/Http/Controllers/Api/v1/AsistenciaController.php:358-373 | `presentes + ausentes = total_clases`; `justificadas` is the number of justified records, at most the total; percentage 0 when empty, otherwise the rounded share of present records, at most 100% |
| Asistencias.ResumenAusentes | backendv2/app/Http/Controllers/Api/v1/AsistenciaController.php:358-371 | `presentes` counts the present records and `ausentes` the absent ones |
| Asistencias.RegistrosDe | backendv2/app/Http/Controllers/Api/v1/AsistenciaController.php:338-350 | one enrolment's records, restricted to the day when `fecha` is sent and to the inclusive range when both `fecha_inicio` and `fecha_fin` are sent; a bound sent as null matches no record |
| Asistencias.Agrupar | backendv2/app/Http/Controllers/Api/v1/AsistenciaController.php:355-385 | one entry per enrolment with records, whose statistics are the summary of exactly those records |
| Asistencias.AgruparCubre | backendv2/app/Http/Controllers/Api/v1/AsistenciaController.php:338-385 | the entries hold exactly the filtered records of the offering's enrolments |
| Asistencias.PorAsignatura | backendv2/app/Http/Controllers/Api/v1/AsistenciaController.php:323-407 | 500 on an unknown offering, 403 for a teacher who does not own it; else entries covering exactly the records that pass the day and range filters of `EnFiltro` (a filter sent as null passes none), each with statistics equal to `ResumenDe` of its own records |
| Asistencias.DelDiaDeMatricula | backendv2/app/Http/Controllers/Api/v1/AsistenciaController.php:438-444 | the enrolment's record of that day, present exactly when one exists, and the last one in table order (no later record of the same enrolment and day), as `keyBy` keeps |
| Asistencias.ListaEstudiantes | backendv2/app/Http/Controllers/Api/v1/AsistenciaController.php:416-484 | the day is today when not sent, NULL when sent as null; one entry per enrolment of the offering, in order, with that enrolment's id and student and the record `keyBy` keeps for it that day (the last in table order; none when the day is NULL); `ya_registrada` exactly when some enrolment has a record that day; 500 and 403 as in the other reads |
| Asistencias.RegistrosDeMatriculas | backendv2/app/Http/Controllers/Api/v1/AsistenciaController.php:575 | `whereIn('id_matricula', ...)`: exactly the records of those enrolments |
| Asistencias.EstadisticasDe | backendv2/app/Http/Controllers/Api/v1/AsistenciaController.php:555-616 | 500/403 as above; else the summary of the offering's records, `total_estudiantes` its enrolments, `total_clases` the number of distinct dates, at most the number of records and 0 only without records |
| Notas.Store | backendv2/app/Http/Controllers/Api/v1/NotasController.php:79-124 | 422 on an unknown enrolment, a blank or long name or a grade outside 1.0–7.0; 403 for a teacher who does not own the offering; nothing changes in either; else 201 with exactly one new grade |
| Notas.StoreIntegra | backendv2/app/Http/Controllers/Api/v1/NotasController.php:110 | a valid new grade keeps every table invariant |
| Notas.CambiosFila | backendv2/app/Http/Controllers/Api/v1/NotasController.php:163 | `update` changes only `nombre`, `descripcion`, `nota` and `observaciones` of one grade (absent keys kept); id, enrolment and date never change |
| Notas.CambiosIntegra | backendv2/app/Http/Controllers/Api/v1/NotasController.php:163 | an update with a valid grade keeps every table invariant |
| Notas.Update | backendv2/app/Http/Controllers/Api/v1/NotasController.php:133-177 | 422 on a grade outside 1.0–7.0 or a blank or long name, 500 on an unknown id, 403 for a teacher who does not own it (nothing changes in each); else the update |
| Notas.Destroy | backendv2/app/Http/Controllers/Api/v1/NotasController.php:185-214 | 500 on an unknown id, 403 for a teacher who does not own it (nothing changes in either); else exactly that grade is removed |
| Notas.DestroyIntegra | backendv2/app/Http/Controllers/Api/v1/NotasController.php:201 | deleting a grade keeps every table invariant |
| Notas.StoreThenDestroy | backendv2/app/Http/Controllers/Api/v1/NotasController.php:201 | deleting a freshly stored grade restores the grades table |
| Notas.CargarEn | backendv2/app/Http/Controllers/Api/v1/NotasController.php:297-331 | the loop's grades, next id, `creadas` and `errores` are the fold of the batch over the rows |
| Notas.CargarMasivo | backendv2/app/Http/Controllers/Api/v1/NotasController.php:276-351 | 422 on invalid input (unknown offering or enrolment, blank evaluation name, empty list, grade outside 1.0–7.0) with nothing changed; else the batch fold, with no ownership check |
| Notas.CargaCuenta | backendv2/app/Http/Controllers/Api/v1/NotasController.php:297-331 | `creadas` plus the number of errors equals the number of rows; `creadas` counts the rows whose enrolment is in the offering; old grades are kept |
| Notas.CargaNuevas | backendv2/app/Http/Controllers/Api/v1/NotasController.php:315-322 | every new grade carries the evaluation's name, description and date, a grade from a row, within 1.0–7.0, on an enrolment of the offering |
| Notas.CargaErrores | backendv2/app/Http/Controllers/Api/v1/NotasController.php:303-313 | every new error names a listed enrolment that is not in the offering |
| Notas.CargaIntegra | backendv2/app/Http/Controllers/Api/v1/NotasController.php:297-331 | the bulk load keeps every table invariant |
| Notas.CargaAjena | backendv2/app/Http/Controllers/Api/v1/NotasController.php:276-351 | a teacher who does not own the offering, and who `store` would refuse with 403, passes validation here and creates a grade |
| Notas.CargarMasivoConPermiso | backendv2/app/Http/Controllers/Api/v1/NotasController.php:276-351 | `cargarMasivo` with the ownership gate the other grade actions have: 403 with nothing changed; otherwise as written |
| Notas.ConPermisoSoloPropias | backendv2/app/Http/Controllers/Api/v1/NotasController.php:297-331 | with the gate passed, every grade the load creates is one that `store` would also let that user create |
| Notas.Promedio | backendv2/app/Http/Controllers/Api/v1/NotasController.php:379 | 0 for no grades; otherwise `round(avg, 1)`, the nearest tenth to the mean, between the lowest and highest grade |
| Notas.PromedioValido | backendv2/app/Http/Controllers/Api/v1/NotasController.php:437 | the average of grades in 1.0–7.0 is in 1.0–7.0 |
| Notas.AprobadoSiMediaExacta | backendv2/app/Http/Controllers/Api/v1/NotasController.php:407 | 'Aprobado' exactly when the exact mean is at least 3.95, so that it rounds to 4.0; 'Reprobado' without grades |
| Notas.NotasDe | backendv2/app/Http/Controllers/Api/v1/NotasController.php:375-377 | exactly the enrolment's grades |
| Notas.Agrupar | backendv2/app/Http/Controllers/Api/v1/NotasController.php:231-255 | one entry per enrolment with grades, whose total, average and status are those of exactly its grades |
| Notas.PorAsignatura | backendv2/app/Http/Controllers/Api/v1/NotasController.php:222-268 | the entries hold exactly the grades of the offering's enrolments, each with consistent totals and status |
| Notas.NotasEstudianteAsignatura | backendv2/app/Http/Controllers/Api/v1/NotasController.php:360-417 | 404 when the student is not enrolled in the offering; else that enrolment's grades with their average and status |
| Notas.DelEstudiante | backendv2/app/Http/Controllers/Api/v1/NotasController.php:428-430 | exactly the student's enrolments |
| Notas.NotasEstudiante | backendv2/app/Http/Controllers/Api/v1/NotasController.php:425-472 | one entry per enrolment of the student, in order, each with its grades, average and status |
| Notas.VistasCoinciden | backendv2/app/Http/Controllers/Api/v1/NotasController.php:432-457 | the three grade views agree on an enrolment's grades, average and status |
| Reportes.ResumenNotasDe | backendv2/app/Http/Controllers/Api/v1/ReporteController.php:90-97 | `aprobados` counts grades >= 4.0 and `reprobados` those < 4.0, summing to `total_notas`; max and min are grades in the list and bound it (NULL when empty); the average is `Redondeado(sum, count, promedio)`, the mean rounded half up to a tenth, 0 when empty, and lies between min and max |
| Reportes.NotasDeConsulta | backendv2/app/Http/Controllers/Api/v1/ReporteController.php:73-88 | exactly the grades of the requested offering (all when `id_asignatura` is not sent, none when it is sent as null) inside the inclusive date range when both ends are sent (none when either is null) |
| Reportes.ReporteNotas | backendv2/app/Http/Controllers/Api/v1/ReporteController.php:70-113 | the listed grades are exactly the queried ones and the summary is `ResumenNotasDe` of them |
| Reportes.EstadisticasDeCurso | backendv2/app/Http/Controllers/Api/v1/ReporteController.php:153-157 | `aprobados` counts the 'Aprobado' students and `reprobados` the 'Reprobado' ones, summing to `total_estudiantes`; the course average is the mean of the student averages rounded half up (`Redondeado`), 0 when empty, between the lowest and highest student average |
| Reportes.NotasPorAsignatura | backendv2/app/Http/Controllers/Api/v1/ReporteController.php:121-169 | 500 on an unknown offering; else the per-student entries of the offering, and statistics that are `EstadisticasDeCurso` of those entries |
| Reportes.CursoValido | backendv2/app/Http/Controllers/Api/v1/ReporteController.php:134-155 | with grades in range, every student average and the course average are in 1.0–7.0 |
| Reportes.AsistenciasDeConsulta | backendv2/app/Http/Controllers/Api/v1/ReporteController.php:226-245 | exactly the records of the requested offering (all when not sent, none when sent as null) inside the inclusive date range when both ends are sent (none when either is null) |
| Reportes.ReporteAsistencia | backendv2/app/Http/Controllers/Api/v1/ReporteController.php:246-253 | the summary is `ResumenDe` of the selected records: `presentes`, `ausentes` and `justificadas` count them, `presentes + ausentes = total_registros`, percentage the rounded share of present records, at most 100% and 0 when empty |
| Reportes.EntradasCoherentes | backendv2/app/Http/Controllers/Api/v1/ReporteController.php:291-300 | each per-student entry has `ausentes = total_clases - presentes` and a percentage of at most 100% |
| Reportes.CubreTodas | backendv2/app/Http/Controllers/Api/v1/ReporteController.php:280-300 | the per-student entries hold exactly the records of the offering's enrolments |
| Reportes.AsistenciaPorAsignatura | backendv2/app/Http/Controllers/Api/v1/ReporteController.php:278-322 | 500 on an unknown offering; else entries that cover exactly the offering's records, each with statistics equal to `ResumenDe` of its own records |
| Reportes.AsistenciaGeneral | backendv2/app/Http/Controllers/Api/v1/ReporteController.php:413-420 | 0 with no records; else the rounded share of present records, at most 100% |
| Reportes.AsistenciaGeneralEsReporte | backendv2/app/Http/Controllers/Api/v1/ReporteController.php:413-420 | the global percentage equals the attendance summary's percentage with no filters |
| Reportes.FilaDe | backendv2/app/Http/Controllers/Api/v1/ReporteController.php:434-451 | the row names its offering; its average is the mean of the offering's grades rounded half up to a tenth (0 with none), and its percentage the share of present records among the offering's records rounded to a hundredth, at most 100% (0 with none) |
| Reportes.Filas | backendv2/app/Http/Controllers/Api/v1/ReporteController.php:434-453 | one row per offering, and exactly those offerings' rows |
| Reportes.ReportePorAsignaturas | backendv2/app/Http/Controllers/Api/v1/ReporteController.php:427-454 | exactly the offerings whose period is active, one row each |
| Reportes.AcademicoValido | backendv2/app/Http/Controllers/Api/v1/ReporteController.php:447 | each row's average is 0 (no grades) or within 1.0–7.0 |
| Reportes.Exportar | backendv2/app/Http/Controllers/Api/v1/ReporteController.php:459-473 | both exports answer 501 |
| Asignaturas.Store | backendv2/app/Http/Controllers/Api/v1/AsignaturaController.php:75-124 | 422 on invalid input (unknown references, maximum below 1, counter below 0, blank or long section, long room); 400 with nothing inserted when the (course, period, section) exists; else 201 with one new offering |
| Asignaturas.StoreIntegra | backendv2/app/Http/Controllers/Api/v1/AsignaturaController.php:98-110 | a store that passed the duplicate check keeps every invariant, so the triple stays unique |
| Asignaturas.CuposSinRelacion | backendv2/app/Http/Controllers/Api/v1/AsignaturaController.php:82-83 | validation accepts a free-seat counter larger than the maximum |
| Asignaturas.StoreThenDestroy | backendv2/app/Http/Controllers/Api/v1/AsignaturaController.php:175 | destroying a freshly stored offering restores the offerings table |
| Asignaturas.Destroy | backendv2/app/Http/Controllers/Api/v1/AsignaturaController.php:163-188 | 500 on an unknown id, 400 while it has enrolments (nothing changes in either); else the offering and its assignments are removed |
| Asignaturas.DestroyIntegra | backendv2/app/Http/Controllers/Api/v1/AsignaturaController.php:168-175 | deleting an offering without enrolments keeps every table invariant |
| Asignaturas.ConProfesorFila | backendv2/app/Http/Controllers/Api/v1/AsignaturaController.php:208 | assigning a teacher changes only that offering's `id_profesor` |
| Asignaturas.ConProfesorPropietario | backendv2/app/Http/Controllers/Api/v1/AsignaturaController.php:208 | after the assignment the gate sees the new teacher as owner of that offering and the old owners elsewhere |
| Asignaturas.ConProfesorOk | backendv2/app/Http/Controllers/Api/v1/AsignaturaController.php:208 | assigning a teacher keeps the offering invariants and ids |
| Asignaturas.UpsertContenido | backendv2/app/Http/Controllers/Api/v1/AsignaturaController.php:211-221 | `updateOrInsert` leaves exactly one row for the (offering, teacher) pair, namely the new one; other rows are kept; a row is added only when the pair was new |
| Asignaturas.UpsertDistinct | backendv2/app/Http/Controllers/Api/v1/AsignaturaController.php:211-221 | the upsert keeps the (offering, teacher) pairs unique |
| Asignaturas.UpsertIdempotente | backendv2/app/Http/Controllers/Api/v1/AsignaturaController.php:211-221 | repeating the assignment adds no rows, and repeating it identically changes nothing |
| Asignaturas.NuevaAsignacion | backendv2/app/Http/Controllers/Api/v1/AsignaturaController.php:217 | `es_titular` defaults to true |
| Asignaturas.AsignarProfesor | backendv2/app/Http/Controllers/Api/v1/AsignaturaController.php:190-235 | 422 on an unknown teacher, 500 on an unknown offering (nothing changes in either); else the teacher is set and the assignment is upserted |
| Asignaturas.AsignarIntegra | backendv2/app/Http/Controllers/Api/v1/AsignaturaController.php:205-221 | the assignment keeps every table invariant |
| Asignaturas.InscritoDe | backendv2/app/Http/Controllers/Api/v1/AsignaturaController.php:247-257 | an enrolment's entry carries an attendance percentage of at most 100% |
| Asignaturas.Estudiantes | backendv2/app/Http/Controllers/Api/v1/AsignaturaController.php:237-279 | 500 on an unknown offering; else one entry per enrolment of the offering, in order, and `total_estudiantes` is their number |
| Asignaturas.EstudiantesTalCual | backendv2/app/Http/Controllers/Api/v1/AsignaturaController.php:240-272 | the action as written: 200 exactly when the offering exists and has no enrolment, else 500 |
| Asignaturas.EstudiantesTalCualFalla | backendv2/app/Http/Controllers/Api/v1/AsignaturaController.php:240-272 | for an existing offering with an enrolment, the action as written answers 500 while the intended listing answers 200 and lists that enrolment |
| Asignaturas.EstudiantesConUnaMatricula | backendv2/app/Http/Controllers/Api/v1/AsignaturaController.php:240-272 | offering 1 with enrolment 1: 500 as written, 200 with one entry as intended |
| Asignaturas.TotalEstudiantes | backendv2/app/Http/Controllers/Api/v1/AsignaturaController.php:268 | the count equals the number of distinct enrolment ids of the offering |
| Estudiantes.PromedioMatricula | backendv2/app/Models/Estudiante.php:74-76 | an enrolment's average is 0 without grades and, with grades in range, positive exactly when it has a grade |
| Estudiantes.AsistenciaMatricula | backendv2/app/Models/Estudiante.php:98-100 | an enrolment's attendance percentage is at most 100% and positive only when some record shows the student present |
| Estudiantes.MediaPositiva | backendv2/app/Models/Estudiante.php:74-84 | 0 exactly when no value is positive; else the rounded mean of the positive values, between their minimum and maximum |
| Estudiantes.CeroNoCuenta | backendv2/app/Models/Estudiante.php:76-78 | a zero among the values does not change the result |
| Estudiantes.PromediosCero | backendv2/app/Models/Estudiante.php:79-81 | the mean of the averages is 0 exactly when every enrolment's average is 0 |
| Estudiantes.AsistenciasCero | backendv2/app/Models/Estudiante.php:103-105 | the mean of the percentages is 0 exactly when every enrolment's percentage is 0, and at most 100% |
| Estudiantes.PromedioGeneral | backendv2/app/Models/Estudiante.php:66-85 | 0 with no enrolments; 0 exactly when every enrolment's average is 0; else the rounded mean of the positive averages |
| Estudiantes.PromedioGeneralValido | backendv2/app/Models/Estudiante.php:66-85 | with grades in range, 0 exactly when the student has no grade at all, otherwise within 1.0–7.0 |
| Estudiantes.SinNotasNoCuenta | backendv2/app/Models/Estudiante.php:76-78 | an extra enrolment without grades does not change `promedioGeneral` |
| Estudiantes.AsistenciaGeneral | backendv2/app/Models/Estudiante.php:90-109 | the same rule over attendance percentages (2-decimal rounding), at most 100% |
| Estudiantes.Trim | backendv2/app/Models/Estudiante.php:49 | PHP `trim`: the string with leading and trailing blanks cut, starting and ending with non-blanks; empty exactly when the input is all blanks |
| Estudiantes.TrimIdempotente | backendv2/app/Models/Estudiante.php:49 | trimming twice is trimming once |
| Estudiantes.TrimSinBordes | backendv2/app/Models/Estudiante.php:49 | a string without blank ends is its own trim |
| Estudiantes.NombreCompleto | backendv2/app/Models/Estudiante.php:47-50 | the full name has no blank ends and is the space-joined names when the first and last parts have none |
| Estudiantes.NombreSinMaterno | backendv2/app/Models/Estudiante.php:49 | with no second surname the trailing space is dropped |
| Estudiantes.EstaActivo | backendv2/app/Models/Estudiante.php:114-117 | true only when the student's state exists and is named 'Activo'; false without a state |
| Estudiantes.EstaActivoSi | backendv2/app/Models/Estudiante.php:116 | with unique state ids, true exactly when the state exists and is named 'Activo' |
| Dashboard.Dias | backendv2/app/Http/Controllers/Api/v1/DashboardController.php:55-57 | `distinct('fecha')`: exactly the dates of the records, no more of them than records |
| Dashboard.EstadisticasDe | backendv2/app/Http/Controllers/Api/v1/DashboardController.php:50-80 | `total_estudiantes`, `total_notas_registradas` and `clases_realizadas` count the offering's enrolments, grades and distinct record dates; there are no more classes than records |
| Dashboard.ListaDe | backendv2/app/Http/Controllers/Api/v1/DashboardController.php:49-82 | one statistics entry per offering, and only those |
| Dashboard.MisAsignaturas | backendv2/app/Http/Controllers/Api/v1/DashboardController.php:43-82 | exactly the teacher's offerings in an active period, one entry each |
| Dashboard.Pendientes | backendv2/app/Http/Controllers/Api/v1/DashboardController.php:98-105 | exactly the listed offerings with no record dated today |
| Dashboard.TomarQuitaPendiente | backendv2/app/Http/Controllers/Api/v1/DashboardController.php:99-104 | once a record of the offering is dated today it is no longer pending |
| Dashboard.OtroDiaNoCambia | backendv2/app/Http/Controllers/Api/v1/DashboardController.php:99-104 | a record of another day does not change the pending list |
| Dashboard.AsignaturasDe | backendv2/app/Http/Controllers/Api/v1/DashboardController.php:85-86 | exactly the ids of the teacher's offerings |
| Dashboard.EstudiantesDe | backendv2/app/Http/Controllers/Api/v1/DashboardController.php:85-87 | the distinct students enrolled in those offerings, no more than their enrolments |
| Dashboard.PanelDeProfesor | backendv2/app/Http/Controllers/Api/v1/DashboardController.php:28-138 | 403 exactly when the user is not a teacher with an `id_profesor`; 500 exactly when that teacher does not exist; else the teacher's offerings in active periods with their statistics, the pending ones among them (no record today), the distinct students and the grade and record counts of all the teacher's offerings; totals are the sizes of the lists |
| Dashboard.ConteoDe | backendv2/app/Http/Controllers/Api/v1/DashboardController.php:150-158 | `activos` counts the active rows and `inactivos = total - activos` counts the others, never negative |
| Dashboard.ActivoEstaActivo | backendv2/app/Http/Controllers/Api/v1/DashboardController.php:151-153 | with state names compared exactly (see "## Left out"), a student the dashboard counts as active is active in the sense of `estaActivo` |
| Dashboard.Unidas | backendv2/app/Http/Controllers/Api/v1/DashboardController.php:191-194 | the join keeps exactly the grades whose enrolment exists |
| Dashboard.PromedioGeneral | backendv2/app/Http/Controllers/Api/v1/DashboardController.php:191-194 | 0 with no joined grades; else the mean of the joined grades rounded half up to a tenth (`Redondeado`), between the lowest and highest of them |
| Dashboard.PromedioGeneralValido | backendv2/app/Http/Controllers/Api/v1/DashboardController.php:244 | with grades in range, 0 or within 1.0–7.0 |
| Dashboard.Insertar | backendv2/app/Http/Controllers/Api/v1/DashboardController.php:205 | inserting into a newest-first list keeps it newest-first and adds exactly the new element |
| Dashboard.Ultimas | backendv2/app/Http/Controllers/Api/v1/DashboardController.php:204-207 | at most n enrolments (all when there are at most n), newest first, taken from the table with no row repeated more often than in the table, none left out newer than one listed |
| Dashboard.PanelDeAdmin | backendv2/app/Http/Controllers/Api/v1/DashboardController.php:146-265 | totals the table sizes; active students, teachers, offerings and enrolments are the counts of the rows passing each activity test, and `inactivos` the count of those failing it; the general average and attendance percentage (at most 100%, 0 without records) of the tables; the 5 latest enrolments, newest first |

## Left out

- **Validation messages, response bodies and eager-loaded relations.** The
  model returns statuses and the computed values only. Names such as
  `Profesor::nombreCompleto`, course names and RUTs are not modelled.
- **The exception branches of the batch loops.** The inner `try` of
  `matricularEnCurso`, `tomarMasivo` and `cargarMasivo` turns a failing insert
  into an error entry. Inserts never fail in the model, so those branches do
  not occur; this includes a `cargarMasivo` evaluation name longer than the
  100-character column. The outer 500-with-rollback branches occur only for `findOrFail`
  on a missing row.
- **Concurrency.** Seat check and decrement are not locked. The model is
  sequential.
- **Clock, request and session.** `now()` is the `hoy`/`ahora` parameter and
  the authenticated user is a `Principal` parameter. Authentication, routing
  and middleware are not part of this model. The dashboard's admin route has
  no role check, and the model has none either.
- **Floating point.** Grades are tenths and percentages hundredths, so the
  model does not show PHP's float artefacts.
  - Input grades are taken as already on the `decimal(3,1)` grid; MySQL's
    rounding of a finer input is not modelled.
  - `Nota.nota` is a natural number, since every write path validates 1.0–7.0.
- **Ordering.** `orderBy('fecha', 'desc')` and `sortByDesc` on the grade and
  record lists are not modelled. The lists keep table order.
- **Grouping.** `groupBy` on the student id is modelled as one entry per
  enrolment. Within one offering the unique (student, offering) key makes
  these the same.
- **Pagination and search.** The `index`/`show` endpoints are not modelled.
- **Endpoints outside the ledgers.** `AsignaturaController.update` (mass
  assignment) is not modelled. Nor are `ReporteController.general`,
  `academico`'s grade summary (`Nota::avg` over the whole table),
  `notasPorEstudiante` and `asistenciaPorEstudiante`.
- **Two admin dashboard fields.** `estudiantes_por_estado` (a SQL `groupBy`)
  and `periodo_actual`/`periodo_activo` (ordering of periods by year and
  semester) are not modelled.
- Dashboard.Ultimas: orders by a `creado` function given as a parameter.
  `Matricula` declares `$timestamps = false`, so `created_at` is never written
  and its value in the source is not determined by the code.
- Estudiantes.PromedioMatricula: `Matricula::promedio()` is called by the
  source but not defined in `Matricula.php`; Eloquent forwards the call to
  the query builder, which throws `BadMethodCallException`. The model gives
  it the intended meaning, the enrolment average of
  `notasEstudianteAsignatura`. Likewise, Estudiantes.AsistenciaMatricula
  gives the undefined `porcentajeAsistencia()` the attendance percentage of
  `porAsignatura`.
- Asignaturas.Estudiantes, Estudiantes.PromedioGeneral, Estudiantes.AsistenciaGeneral:
  use those two intended definitions. As written, `AsignaturaController::estudiantes`
  answers 500 for every offering with an enrolment (see "## Findings"), and
  `Estudiante::promedioGeneral`/`asistenciaGeneral` throw for every student
  with an enrolment; the model does not capture those exceptions outside
  Asignaturas.EstudiantesTalCual.
- Asignaturas.Existe, Matriculas.Ofertas, Dashboard.EstadoLlamado: compare
  sections and state names exactly. MySQL's default `utf8mb4_unicode_ci`
  collation ignores case and trailing spaces, so the source finds section
  "A" when "a" is asked for (and refuses a new offering "a" beside "A"),
  where the model does not. Dashboard.ActivoEstaActivo relies on the exact
  comparison, as the PHP `===` in `estaActivo` does.
- **`cargarMasivo`'s `nombre`** must not be blank (`required`) but has no
  length rule in its validator, so the model accepts a name of any length.
  The `notas.nombre` column is 100 characters wide: under MySQL's strict
  mode a longer name makes every insert throw, so each row would end in
  `errores`. That failure is one of the insert exceptions above and is not
  modelled.

## Findings

| source | as written | input that shows it | evidently intended | confidence | as-written member | corrected member |
|---|---|---|---|---|---|---|
| backendv2/app/Http/Controllers/Api/v1/AsistenciaController.php:190-237 | The pre-check looks only at records already in the table, so one enrolment listed twice in a batch is stored twice for the same day. | `tomarMasivo` for offering 1 on day 0 with rows `[{id_matricula: 1, presente: true}, {id_matricula: 1, presente: true}]`, enrolment 1 in offering 1, no records | at most one record per (enrolment, day), as `store` keeps it | not executed | Asistencias.TomaDuplicada | Asistencias.TomarMasivoSinRepetir |
| backendv2/app/Http/Controllers/Api/v1/NotasController.php:276-351 | `cargarMasivo` has no teacher ownership check, unlike `store`, `update`, `destroy` and `tomarMasivo`. | a teacher with `id_profesor` 7 loads grade 5.0 for enrolment 1 of offering 1 owned by teacher 8 | 403 for a teacher who does not own the offering | not executed | Notas.CargaAjena | Notas.CargarMasivoConPermiso |
| backendv2/app/Http/Controllers/Api/v1/AsignaturaController.php:240-272 | Each entry calls `promedio()` and `porcentajeAsistencia()` on the enrolment; `Matricula` defines neither, so the call throws and the `catch` answers 500. | `GET asignaturas/1/estudiantes` with offering 1 existing and enrolment 1 in it | 200 with one entry per enrolment, its grade average and attendance percentage | not executed | Asignaturas.EstudiantesTalCual | Asignaturas.Estudiantes |
