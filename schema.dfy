/** The rows of the tables the core reads and writes (`asignaturas`,
    `matriculas`, `notas`, `asistencias`, `asignaciones_profesores`), their
    keys, and the integrity rules the schema and the controllers maintain. */
module Schema {
  import opened Common
  import opened Seqs

  /** A course offering: one section of a course in an academic period. */
  datatype Asignatura = Asignatura(
    id: Id,
    curso: Id,
    periodo: Id,
    profesor: Option<Id>,
    seccion: string,
    cupoMaximo: Option<int>,
    cupoDisponible: Option<int>,
    horario: Option<string>,
    sala: Option<string>,
    estado: Option<Id>)

  /** An enrolment of a student in an offering. */
  datatype Matricula = Matricula(id: Id, estudiante: Id, asignatura: Id, fecha: Date, estado: Option<Id>)

  /** A grade of an enrolment; `nota` is in tenths (the column is `decimal(3,1)`;
      every write path validates `min:1.0`, so it is never negative). */
  datatype Nota = Nota(
    id: Id,
    matricula: Id,
    nombre: string,
    descripcion: Option<string>,
    fecha: Date,
    nota: nat,
    observaciones: Option<string>)

  /** One day's attendance of an enrolment. */
  datatype Asistencia = Asistencia(
    id: Id,
    matricula: Id,
    fecha: Date,
    presente: bool,
    justificada: bool,
    observaciones: Option<string>)

  /** A row of `asignaciones_profesores`: a teacher assigned to an offering. */
  datatype Asignacion = Asignacion(asignatura: Id, profesor: Id, esTitular: bool, fechaAsignacion: int)

  /** The catalogue rows the ledgers refer to; the core reads them and never changes them. */
  datatype Estudiante = Estudiante(id: Id, nombres: string, apellidoPaterno: string, apellidoMaterno: string, estado: Option<Id>)
  datatype Profesor = Profesor(id: Id, estado: Option<Id>)
  datatype Estado = Estado(id: Id, nombre: string, tipo: string)
  datatype Periodo = Periodo(id: Id, activo: bool)

  datatype Catalogo = Catalogo(
    estudiantes: seq<Estudiante>,
    profesores: seq<Profesor>,
    cursos: set<Id>,
    periodos: seq<Periodo>,
    estados: seq<Estado>)
  {
    // The `exists:<table>,<column>` validation rules.
    predicate ExisteEstudiante(id: Id) { id in Keys(estudiantes, EstudianteId) }
    predicate ExisteProfesor(id: Id) { id in Keys(profesores, ProfesorId) }
    predicate ExisteCurso(id: Id) { id in cursos }
    predicate ExistePeriodo(id: Id) { id in Keys(periodos, PeriodoId) }
    predicate ExisteEstado(id: Id) { id in Keys(estados, EstadoId) }
  }

  /** `id_estado` 5 is "Matriculado" (enrolments), 9 is "Abierta" (offerings). */
  const ESTADO_MATRICULADO: Id := 5
  const ESTADO_ABIERTA: Id := 9

  /** Grades are validated to lie in [1.0, 7.0]; 4.0 is the pass mark. */
  const NOTA_MINIMA: int := 10
  const NOTA_MAXIMA: int := 70
  const NOTA_APROBACION: int := 40

  predicate NotaValida(n: int)
  {
    NOTA_MINIMA <= n <= NOTA_MAXIMA
  }

  // Keys of the rows.

  function EstudianteId(e: Estudiante): Id { e.id }
  function ProfesorId(p: Profesor): Id { p.id }
  function PeriodoId(p: Periodo): Id { p.id }
  function EstadoId(e: Estado): Id { e.id }
  function AsignaturaId(a: Asignatura): Id { a.id }
  function Seccion(a: Asignatura): (Id, Id, string) { (a.curso, a.periodo, a.seccion) }
  function MatriculaId(m: Matricula): Id { m.id }
  function EstudianteAsignatura(m: Matricula): (Id, Id) { (m.estudiante, m.asignatura) }
  function NotaId(n: Nota): Id { n.id }
  function NotaMatricula(n: Nota): Id { n.matricula }
  function AsistenciaMatricula(a: Asistencia): Id { a.matricula }

  function AsistenciaId(a: Asistencia): Id { a.id }
  function AsistenciaDia(a: Asistencia): (Id, Date) { (a.matricula, a.fecha) }
  function AsignaturaProfesor(g: Asignacion): (Id, Id) { (g.asignatura, g.profesor) }

  /** No two rows share a key. */
  ghost predicate Distinct<T, K>(rows: seq<T>, key: T -> K)
  {
    forall i, j :: 0 <= i < j < |rows| ==> key(rows[i]) != key(rows[j])
  }

  /** The keys present in a table. */
  function Keys<T(==), K(==)>(rows: seq<T>, key: T -> K): (r: set<K>)
    ensures forall x :: x in rows ==> key(x) in r
    ensures forall k :: k in r ==> exists x :: x in rows && key(x) == k
  {
    set x | x in rows :: key(x)
  }

  /** Every key below the table's next auto-increment value. */
  ghost predicate Below<T>(rows: seq<T>, key: T -> Id, next: Id)
  {
    forall i :: 0 <= i < |rows| ==> key(rows[i]) < next
  }

  /** The row with a given key, if any. */
  function Find<T(==), K(==)>(rows: seq<T>, key: T -> K, k: K): (r: Option<T>)
    ensures r.Some? ==> r.value in rows && key(r.value) == k
    ensures r.None? <==> k !in Keys(rows, key)
  {
    if rows == [] then None
    else if key(rows[0]) == k then Some(rows[0])
    else
      var rest := Find(rows[1..], key, k);
      assert forall x :: x in rows ==> x == rows[0] || x in rows[1..];
      rest
  }

  /** The row with a key known to be present. */
  function Row<T(==), K(==)>(rows: seq<T>, key: T -> K, k: K): (r: T)
    requires k in Keys(rows, key)
    ensures r in rows && key(r) == k
  {
    Find(rows, key, k).value
  }

  /** The rows whose key is not in `ks`: what a `whereIn(...)->delete()`
      or an ON DELETE CASCADE on those keys leaves behind. */
  function Without<T(==,!new), K(==)>(rows: seq<T>, key: T -> K, ks: set<K>): (r: seq<T>)
    ensures |r| <= |rows|
    ensures forall x :: x in r <==> x in rows && key(x) !in ks
  {
    if rows == [] then []
    else
      var rest := Without(rows[1..], key, ks);
      assert forall x :: x in rows <==> x == rows[0] || x in rows[1..];
      (if key(rows[0]) in ks then [] else [rows[0]]) + rest
  }

  /** Deleting in two steps is deleting the union. */
  lemma {:induction false} WithoutUnion<T(!new), K>(rows: seq<T>, key: T -> K, a: set<K>, b: set<K>)
    ensures Without(Without(rows, key, a), key, b) == Without(rows, key, a + b)
  {
    if rows != [] {
      WithoutUnion(rows[1..], key, a, b);
      var s := Without(rows, key, a);
      if key(rows[0]) !in a {
        assert s[0] == rows[0] && s[1..] == Without(rows[1..], key, a);
      } else {
        assert s == Without(rows[1..], key, a);
      }
    }
  }

  /** Deleting nothing changes nothing. */
  lemma {:induction false} WithoutNone<T(!new), K>(rows: seq<T>, key: T -> K, ks: set<K>)
    requires forall i :: 0 <= i < |rows| ==> key(rows[i]) !in ks
    ensures Without(rows, key, ks) == rows
  {
    if rows != [] {
      WithoutNone(rows[1..], key, ks);
    }
  }

  /** Deleting a key that only the last row carries drops that row. */
  lemma {:induction false} WithoutAppendLast<T(!new), K>(rows: seq<T>, key: T -> K, ks: set<K>, x: T)
    requires key(x) in ks
    ensures Without(rows + [x], key, ks) == Without(rows, key, ks)
  {
    if rows == [] {
      assert rows + [x] == [x];
    } else {
      assert (rows + [x])[1..] == rows[1..] + [x];
      WithoutAppendLast(rows[1..], key, ks, x);
    }
  }

  /** In a table without duplicate keys, a row present in the table is the one `Find` returns. */
  lemma {:induction false} FindUnique<T, K>(rows: seq<T>, key: T -> K, x: T)
    requires Distinct(rows, key)
    requires x in rows
    ensures Find(rows, key, key(x)) == Some(x)
  {
    if rows[0] != x {
      assert Distinct(rows[1..], key) by {
        forall i, j | 0 <= i < j < |rows[1..]|
          ensures key(rows[1..][i]) != key(rows[1..][j])
        {
          assert rows[1..][i] == rows[i + 1] && rows[1..][j] == rows[j + 1];
        }
      }
      var i :| 0 <= i < |rows| && rows[i] == x;
      assert key(rows[0]) != key(x);
      FindUnique(rows[1..], key, x);
    }
  }

  /** In a table without duplicate keys, `Find` returns the one row with the key, whichever it is. */
  lemma FindEach<T, K>(rows: seq<T>, key: T -> K, k: K)
    ensures Distinct(rows, key) ==> forall x :: x in rows && key(x) == k ==> Find(rows, key, k) == Some(x)
  {
    if Distinct(rows, key) {
      forall x | x in rows && key(x) == k
        ensures Find(rows, key, k) == Some(x)
      {
        FindUnique(rows, key, x);
      }
    }
  }

  lemma {:induction false} DistinctAppend<T, K>(rows: seq<T>, key: T -> K, x: T)
    requires Distinct(rows, key)
    requires forall i :: 0 <= i < |rows| ==> key(rows[i]) != key(x)
    ensures Distinct(rows + [x], key)
  {
    var s := rows + [x];
    forall i, j | 0 <= i < j < |s|
      ensures key(s[i]) != key(s[j])
    {
      if j < |rows| {
        assert s[i] == rows[i] && s[j] == rows[j];
      } else {
        assert s[i] == rows[i] && s[j] == x;
      }
    }
  }

  /** Dropping the first row keeps the keys distinct. */
  lemma DistinctTail<T, K>(rows: seq<T>, key: T -> K)
    requires rows != [] && Distinct(rows, key)
    ensures Distinct(rows[1..], key)
  {
    var tail := rows[1..];
    forall i, j | 0 <= i < j < |tail|
      ensures key(tail[i]) != key(tail[j])
    {
      assert tail[i] == rows[i + 1] && tail[j] == rows[j + 1];
    }
  }

  /** Putting the first row back in front of distinct rows taken from the
      others keeps the keys distinct. */
  lemma DistinctCons<T, K>(rows: seq<T>, rest: seq<T>, key: T -> K)
    requires rows != [] && Distinct(rows, key) && Distinct(rest, key)
    requires forall x :: x in rest ==> x in rows[1..]
    ensures Distinct([rows[0]] + rest, key)
  {
    var s := [rows[0]] + rest;
    forall i, j | 0 <= i < j < |s|
      ensures key(s[i]) != key(s[j])
    {
      if i == 0 {
        assert s[j] == rest[j - 1] && s[j] in rest;
        var tail := rows[1..];
        var k :| 0 <= k < |tail| && tail[k] == s[j];
        assert rows[k + 1] == s[j];
      } else {
        assert s[i] == rest[i - 1] && s[j] == rest[j - 1];
      }
    }
  }

  /** Deleting rows keeps the keys distinct. */
  lemma {:induction false} DistinctFilter<T(!new), K>(rows: seq<T>, keep: T -> bool, key: T -> K)
    requires Distinct(rows, key)
    ensures Distinct(Filter(rows, keep), key)
  {
    if rows != [] {
      DistinctTail(rows, key);
      DistinctFilter(rows[1..], keep, key);
      if keep(rows[0]) {
        DistinctCons(rows, Filter(rows[1..], keep), key);
      }
    }
  }

  /** Deleting rows keeps the keys distinct. */
  lemma {:induction false} DistinctWithout<T(!new), K, J>(rows: seq<T>, key: T -> K, ks: set<K>, other: T -> J)
    requires Distinct(rows, other)
    ensures Distinct(Without(rows, key, ks), other)
  {
    if rows != [] {
      DistinctTail(rows, other);
      DistinctWithout(rows[1..], key, ks, other);
      if key(rows[0]) !in ks {
        DistinctCons(rows, Without(rows[1..], key, ks), other);
      }
    }
  }

  /** Appending a row adds exactly its key. */
  lemma KeysAppend<T, K>(rows: seq<T>, key: T -> K, x: T)
    ensures Keys(rows + [x], key) == Keys(rows, key) + {key(x)}
  {
    assert forall y :: y in rows + [x] <==> y in rows || y == x;
  }

  /** In a table without duplicate keys, two rows with the same key are the same row. */
  lemma DistinctSameKey<T, K>(rows: seq<T>, key: T -> K, x: T, y: T)
    requires Distinct(rows, key)
    requires x in rows && y in rows && key(x) == key(y)
    ensures x == y
  {
    var i :| 0 <= i < |rows| && rows[i] == x;
    var j :| 0 <= j < |rows| && rows[j] == y;
    assert forall a, b :: 0 <= a < |rows| && 0 <= b < |rows| && key(rows[a]) == key(rows[b]) ==> a == b;
  }

  /** Two tables whose rows agree on a key position by position have the same
      keys, and one has duplicate keys exactly when the other has. */
  lemma KeysPointwise<T, K>(rows: seq<T>, r: seq<T>, key: T -> K)
    requires |r| == |rows|
    requires forall i :: 0 <= i < |r| ==> key(r[i]) == key(rows[i])
    ensures Keys(r, key) == Keys(rows, key)
    ensures Distinct(r, key) <==> Distinct(rows, key)
  {
    forall k | k in Keys(rows, key)
      ensures k in Keys(r, key)
    {
      var x :| x in rows && key(x) == k;
      var i :| 0 <= i < |rows| && rows[i] == x;
      assert r[i] in r;
    }
    forall k | k in Keys(r, key)
      ensures k in Keys(rows, key)
    {
      var x :| x in r && key(x) == k;
      var i :| 0 <= i < |r| && r[i] == x;
      assert rows[i] in rows;
    }
  }

  /** Two tables whose rows agree on a key position by position: one without
      duplicate keys makes the other without duplicate keys. */
  lemma DistinctPointwise<T, K>(rows: seq<T>, r: seq<T>, key: T -> K)
    requires |r| == |rows|
    requires forall i :: 0 <= i < |r| ==> key(r[i]) == key(rows[i])
    requires Distinct(rows, key)
    ensures Distinct(r, key)
  {
  }

  lemma BelowWithout<T(!new), K>(rows: seq<T>, key: T -> K, ks: set<K>, id: T -> Id, next: Id)
    requires Below(rows, id, next)
    ensures Below(Without(rows, key, ks), id, next)
  {
    var r := Without(rows, key, ks);
    forall i | 0 <= i < |r|
      ensures id(r[i]) < next
    {
      assert r[i] in rows;
    }
  }

  lemma BelowAppend<T>(rows: seq<T>, id: T -> Id, next: Id, x: T)
    requires Below(rows, id, next)
    requires id(x) == next
    ensures Below(rows + [x], id, next + 1)
  {
    var r := rows + [x];
    forall i | 0 <= i < |r|
      ensures id(r[i]) < next + 1
    {
      if i < |rows| {
        assert r[i] == rows[i];
      }
    }
  }

  lemma {:induction false} BelowFilter<T(!new)>(rows: seq<T>, keep: T -> bool, key: T -> Id, next: Id)
    requires Below(rows, key, next)
    ensures Below(Filter(rows, keep), key, next)
  {
    var r := Filter(rows, keep);
    forall i | 0 <= i < |r|
      ensures key(r[i]) < next
    {
      assert r[i] in rows;
    }
  }

  // The integrity rules. The unique keys are the schema's (`asignaturas` on
  // (id_curso, id_periodo, seccion), `matriculas` on (id_estudiante,
  // id_asignatura)); the foreign keys cascade on delete; the grade range and
  // the non-negative seat counter are kept by the controllers' validation.

  ghost predicate AsignaturasOk(asignaturas: seq<Asignatura>)
  {
    && Distinct(asignaturas, AsignaturaId)
    && Distinct(asignaturas, Seccion)
    && forall a :: a in asignaturas && a.cupoDisponible.Some? ==> a.cupoDisponible.value >= 0
  }

  ghost predicate MatriculasOk(matriculas: seq<Matricula>, asignaturas: seq<Asignatura>)
  {
    && Distinct(matriculas, MatriculaId)
    && Distinct(matriculas, EstudianteAsignatura)
    && forall m :: m in matriculas ==> m.asignatura in Keys(asignaturas, AsignaturaId)
  }

  ghost predicate NotasOk(notas: seq<Nota>, matriculas: seq<Matricula>)
  {
    && Distinct(notas, NotaId)
    && forall n :: n in notas ==> n.matricula in Keys(matriculas, MatriculaId) && NotaValida(n.nota)
  }

  ghost predicate AsistenciasOk(asistencias: seq<Asistencia>, matriculas: seq<Matricula>)
  {
    && Distinct(asistencias, AsistenciaId)
    && forall a :: a in asistencias ==> a.matricula in Keys(matriculas, MatriculaId)
  }

  ghost predicate AsignacionesOk(asignaciones: seq<Asignacion>, asignaturas: seq<Asignatura>)
  {
    && Distinct(asignaciones, AsignaturaProfesor)
    && forall g :: g in asignaciones ==> g.asignatura in Keys(asignaturas, AsignaturaId)
  }

  /** At most one attendance record per (enrolment, day). The schema has only an
      index on (id_matricula, fecha); the controllers' checks are what keep it. */
  ghost predicate OnePerDay(asistencias: seq<Asistencia>)
  {
    Distinct(asistencias, AsistenciaDia)
  }

  /** The enrolments of a student in an offering (at most one, by the unique key). */
  predicate Enrolled(matriculas: seq<Matricula>, estudiante: Id, asignatura: Id)
  {
    (estudiante, asignatura) in Keys(matriculas, EstudianteAsignatura)
  }

  /** `matricula` is an enrolment in `asignatura`. */
  predicate DeLaAsignatura(matriculas: seq<Matricula>, matricula: Id, asignatura: Id)
  {
    exists m :: m in matriculas && m.id == matricula && m.asignatura == asignatura
  }

  /** The enrolments of an offering, in table order. */
  function DeAsignatura(matriculas: seq<Matricula>, asignatura: Id): (r: seq<Matricula>)
    ensures forall m :: m in r <==> m in matriculas && m.asignatura == asignatura
  {
    Filter(matriculas, EnAsignatura(asignatura))
  }

  /** Whether an enrolment is in `asignatura`, as a test on rows. */
  function EnAsignatura(asignatura: Id): Matricula -> bool
  {
    (m: Matricula) => m.asignatura == asignatura
  }

  /** A table without duplicate keys has as many keys as rows. */
  lemma {:induction false} DistinctCard<T, K>(rows: seq<T>, key: T -> K)
    requires Distinct(rows, key)
    ensures |Keys(rows, key)| == |rows|
  {
    if rows != [] {
      var tail := rows[1..];
      assert Distinct(tail, key) by {
        forall i, j | 0 <= i < j < |tail|
          ensures key(tail[i]) != key(tail[j])
        {
          assert tail[i] == rows[i + 1] && tail[j] == rows[j + 1];
        }
      }
      DistinctCard(tail, key);
      forall x | x in tail
        ensures key(x) != key(rows[0])
      {
        var j :| 0 <= j < |tail| && tail[j] == x;
        assert rows[j + 1] == x;
      }
      assert forall x :: x in rows <==> x == rows[0] || x in tail;
      assert Keys(rows, key) == {key(rows[0])} + Keys(tail, key);
    }
  }

  /** The enrolment ids of an offering (`Matricula::where('id_asignatura', $id)->pluck('id_matricula')`). */
  function MatriculasDe(matriculas: seq<Matricula>, asignatura: Id): (r: set<Id>)
    ensures forall m :: m in matriculas && m.asignatura == asignatura ==> m.id in r
    ensures forall k :: k in r ==> exists m :: m in matriculas && m.asignatura == asignatura && m.id == k
  {
    set m | m in matriculas && m.asignatura == asignatura :: m.id
  }
}
