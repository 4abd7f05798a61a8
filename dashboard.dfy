/** The two dashboards: a teacher's view of their offerings in active
    periods, and the administrator's counts and latest enrolments. Both are
    read-only aggregations over the tables. */
module Dashboard {
  import opened Common
  import opened Seqs
  import opened Rounding
  import opened Schema
  import N = Notas
  import R = Reportes
  import E = Estudiantes

  // ---------------------------------------------------------------------------
  // Teacher dashboard.

  /** `id_rol == 2` and an `id_profesor` PHP treats as true (not null, not 0). */
  predicate EsProfesor(user: Principal)
  {
    user.rol == ROL_PROFESOR && user.profesor.Some? && user.profesor.value != 0
  }

  /** The distinct dates among some attendance records. */
  function Dias(registros: seq<Asistencia>): (r: set<Date>)
    ensures forall d :: d in r <==> exists a :: a in registros && a.fecha == d
    ensures |r| <= |registros|
  {
    var fechas := seq(|registros|, i requires 0 <= i < |registros| => registros[i].fecha);
    assert forall a :: a in registros ==> a.fecha in fechas by {
      forall a | a in registros ensures a.fecha in fechas {
        var i :| 0 <= i < |registros| && registros[i] == a;
        assert fechas[i] == a.fecha;
      }
    }
    DistinctValues(fechas)
  }

  /** The statistics of one of the teacher's offerings. */
  datatype Estadisticas = Estadisticas(
    asignatura: Id,
    totalEstudiantes: nat,
    cupoMaximo: Option<int>,
    cupoDisponible: Option<int>,
    totalNotas: nat,
    clasesRealizadas: nat)

  /** `total_estudiantes` counts the offering's enrolments, `total_notas_registradas`
      the grades of those enrolments, and `clases_realizadas` the distinct
      days with an attendance record of those enrolments, so never more
      days than records. */
  function EstadisticasDe(matriculas: seq<Matricula>, notas: seq<Nota>, asistencias: seq<Asistencia>, a: Asignatura): (r: Estadisticas)
    ensures r.asignatura == a.id && r.cupoMaximo == a.cupoMaximo && r.cupoDisponible == a.cupoDisponible
    ensures r.totalEstudiantes == |DeAsignatura(matriculas, a.id)|
    ensures r.totalNotas == |R.NotasDeAsignatura(matriculas, notas, a.id)|
    ensures r.clasesRealizadas == |Dias(R.AsistenciasDeAsignatura(matriculas, asistencias, a.id))|
    ensures r.clasesRealizadas <= |R.AsistenciasDeAsignatura(matriculas, asistencias, a.id)|
  {
    Estadisticas(a.id, |DeAsignatura(matriculas, a.id)|, a.cupoMaximo, a.cupoDisponible,
                 |R.NotasDeAsignatura(matriculas, notas, a.id)|,
                 |Dias(R.AsistenciasDeAsignatura(matriculas, asistencias, a.id))|)
  }

  /** Whether an offering is taught by `profesor` in an active period. */
  function DelProfesorActiva(periodos: seq<Periodo>, profesor: Id): Asignatura -> bool
  {
    (a: Asignatura) => a.profesor == Some(profesor) && R.PeriodoActivo(periodos, a.periodo)
  }

  /** The statistics of some offerings, in order. */
  function ListaDe(matriculas: seq<Matricula>, notas: seq<Nota>, asistencias: seq<Asistencia>, ofertas: seq<Asignatura>): (r: seq<Estadisticas>)
    ensures |r| == |ofertas|
    ensures forall e :: e in r <==> exists a :: a in ofertas && e == EstadisticasDe(matriculas, notas, asistencias, a)
  {
    if ofertas == [] then []
    else
      var rest := ListaDe(matriculas, notas, asistencias, ofertas[1..]);
      assert forall a :: a in ofertas <==> a == ofertas[0] || a in ofertas[1..];
      [EstadisticasDe(matriculas, notas, asistencias, ofertas[0])] + rest
  }

  /** `mis_asignaturas`: one entry per offering of the teacher in an active
      period, in table order, and no other. */
  function MisAsignaturas(periodos: seq<Periodo>, asignaturas: seq<Asignatura>, matriculas: seq<Matricula>,
                          notas: seq<Nota>, asistencias: seq<Asistencia>, profesor: Id): (r: seq<Estadisticas>)
    ensures |r| == Count(asignaturas, DelProfesorActiva(periodos, profesor))
    ensures forall e :: e in r <==>
      exists a :: a in asignaturas && a.profesor == Some(profesor) && R.PeriodoActivo(periodos, a.periodo) &&
        e == EstadisticasDe(matriculas, notas, asistencias, a)
  {
    CountIsFilterLength(asignaturas, DelProfesorActiva(periodos, profesor));
    ListaDe(matriculas, notas, asistencias, Filter(asignaturas, DelProfesorActiva(periodos, profesor)))
  }

  /** Whether no enrolment of the entry's offering has a record dated `hoy`. */
  function SinAsistenciaHoy(matriculas: seq<Matricula>, asistencias: seq<Asistencia>, hoy: Date): Estadisticas -> bool
  {
    (e: Estadisticas) => !exists a :: a in asistencias && a.fecha == hoy && DeLaAsignatura(matriculas, a.matricula, e.asignatura)
  }

  /** `asignaturas_sin_asistencia`: exactly the listed offerings with no
      attendance record today, in the listed order. */
  function Pendientes(mis: seq<Estadisticas>, matriculas: seq<Matricula>, asistencias: seq<Asistencia>, hoy: Date): (r: seq<Estadisticas>)
    ensures |r| <= |mis|
    ensures forall e :: e in r <==> (e in mis &&
              !exists a :: a in asistencias && a.fecha == hoy && DeLaAsignatura(matriculas, a.matricula, e.asignatura))
  {
    Filter(mis, SinAsistenciaHoy(matriculas, asistencias, hoy))
  }

  /** Taking attendance today for an offering takes it off the pending list. */
  lemma TomarQuitaPendiente(mis: seq<Estadisticas>, matriculas: seq<Matricula>, asistencias: seq<Asistencia>,
                            hoy: Date, e: Estadisticas, a: Asistencia)
    requires a.fecha == hoy && DeLaAsignatura(matriculas, a.matricula, e.asignatura)
    ensures e !in Pendientes(mis, matriculas, asistencias + [a], hoy)
  {
    assert a in asistencias + [a];
  }

  /** Records of any other day leave the pending list as it was. */
  lemma OtroDiaNoCambia(mis: seq<Estadisticas>, matriculas: seq<Matricula>, asistencias: seq<Asistencia>,
                        hoy: Date, a: Asistencia)
    requires a.fecha != hoy
    ensures Pendientes(mis, matriculas, asistencias + [a], hoy) == Pendientes(mis, matriculas, asistencias, hoy)
  {
    forall e | e in mis
      ensures SinAsistenciaHoy(matriculas, asistencias + [a], hoy)(e) == SinAsistenciaHoy(matriculas, asistencias, hoy)(e)
    {
      assert forall b :: b in asistencias + [a] && b.fecha == hoy ==> b in asistencias;
    }
    FilterSame(mis, SinAsistenciaHoy(matriculas, asistencias + [a], hoy), SinAsistenciaHoy(matriculas, asistencias, hoy));
  }

  /** The offerings a teacher teaches in any period (`whereHas('asignatura', id_profesor)`). */
  function AsignaturasDe(asignaturas: seq<Asignatura>, profesor: Id): (r: set<Id>)
    ensures forall k :: k in r <==> exists a :: a in asignaturas && a.id == k && a.profesor == Some(profesor)
  {
    set a | a in asignaturas && a.profesor == Some(profesor) :: a.id
  }

  /** Whether an enrolment id is of an enrolment in one of `ids`. */
  function DeAlguna(matriculas: seq<Matricula>, ids: set<Id>): Id -> bool
  {
    (k: Id) => exists m :: m in matriculas && m.id == k && m.asignatura in ids
  }

  function NotaDe(matriculas: seq<Matricula>, ids: set<Id>): Nota -> bool
  {
    (n: Nota) => DeAlguna(matriculas, ids)(n.matricula)
  }

  function AsistenciaDe(matriculas: seq<Matricula>, ids: set<Id>): Asistencia -> bool
  {
    (a: Asistencia) => DeAlguna(matriculas, ids)(a.matricula)
  }

  /** Whether an enrolment is in one of the offerings `ids`. */
  function EnAlguna(ids: set<Id>): Matricula -> bool
  {
    (m: Matricula) => m.asignatura in ids
  }

  /** The students of a teacher's offerings, each counted once
      (`distinct('id_estudiante')->count()`): never more than their enrolments. */
  function EstudiantesDe(matriculas: seq<Matricula>, ids: set<Id>): (r: set<Id>)
    ensures forall k :: k in r <==> exists m :: m in matriculas && m.asignatura in ids && m.estudiante == k
    ensures |r| <= Count(matriculas, EnAlguna(ids))
  {
    if matriculas == [] then {}
    else
      var m := matriculas[0];
      var rest := EstudiantesDe(matriculas[1..], ids);
      assert forall x :: x in matriculas <==> x == m || x in matriculas[1..];
      if m.asignatura in ids then {m.estudiante} + rest else rest
  }

  /** The teacher dashboard's data. */
  datatype PanelProfesor = PanelProfesor(
    profesor: Id,
    totalAsignaturas: nat,
    totalEstudiantes: nat,
    notasRegistradas: nat,
    asistenciasRegistradas: nat,
    misAsignaturas: seq<Estadisticas>,
    hoy: Date,
    pendientes: seq<Estadisticas>,
    totalPendientes: nat)

  /** `profesor`: 403 unless the user is a teacher; 500 when their teacher
      row is missing; otherwise the panel: the teacher's offerings in active
      periods with their statistics, those of them without attendance today,
      and the distinct students, grades and attendance records of the
      teacher's offerings in every period; its totals are the sizes of its
      lists and its pending list is part of the offering list. */
  function PanelDeProfesor(catalogo: Catalogo, asignaturas: seq<Asignatura>, matriculas: seq<Matricula>,
                           notas: seq<Nota>, asistencias: seq<Asistencia>, user: Principal, hoy: Date): (r: (Status, Option<PanelProfesor>))
    ensures r.0 == Forbidden <==> !EsProfesor(user)
    ensures r.0 == ServerError <==> EsProfesor(user) && !catalogo.ExisteProfesor(user.profesor.value)
    ensures r.0 == Ok <==> r.1.Some?
    ensures r.1.Some? ==> var p := r.1.value;
      && Some(p.profesor) == user.profesor
      && p.totalAsignaturas == |p.misAsignaturas|
      && p.totalPendientes == |p.pendientes| <= p.totalAsignaturas
      && (forall e :: e in p.pendientes ==> e in p.misAsignaturas)
      && p.misAsignaturas == MisAsignaturas(catalogo.periodos, asignaturas, matriculas, notas, asistencias, p.profesor)
      && p.hoy == hoy && p.pendientes == Pendientes(p.misAsignaturas, matriculas, asistencias, hoy)
      && p.totalEstudiantes == |EstudiantesDe(matriculas, AsignaturasDe(asignaturas, p.profesor))|
      && p.totalEstudiantes <= Count(matriculas, EnAlguna(AsignaturasDe(asignaturas, p.profesor)))
      && p.notasRegistradas == Count(notas, NotaDe(matriculas, AsignaturasDe(asignaturas, p.profesor)))
      && p.asistenciasRegistradas == Count(asistencias, AsistenciaDe(matriculas, AsignaturasDe(asignaturas, p.profesor)))
  {
    if !EsProfesor(user) then (Forbidden, None)
    else
      var profesor := user.profesor.value;
      if !catalogo.ExisteProfesor(profesor) then (ServerError, None)
      else
        var mis := MisAsignaturas(catalogo.periodos, asignaturas, matriculas, notas, asistencias, profesor);
        var ids := AsignaturasDe(asignaturas, profesor);
        var pendientes := Pendientes(mis, matriculas, asistencias, hoy);
        (Ok, Some(PanelProfesor(profesor, |mis|, |EstudiantesDe(matriculas, ids)|,
                                Count(notas, NotaDe(matriculas, ids)), Count(asistencias, AsistenciaDe(matriculas, ids)),
                                mis, hoy, pendientes, |pendientes|)))
  }

  // ---------------------------------------------------------------------------
  // Administrator dashboard.

  /** The row's state exists with this name and type (`whereHas('estado', ...)`). */
  predicate EstadoLlamado(estados: seq<Estado>, estado: Option<Id>, nombre: string, tipo: string)
  {
    exists x :: x in estados && estado == Some(x.id) && x.nombre == nombre && x.tipo == tipo
  }

  function EstudianteActivo(estados: seq<Estado>): Estudiante -> bool
  {
    (e: Estudiante) => EstadoLlamado(estados, e.estado, "Activo", "estudiante")
  }

  function ProfesorActivo(estados: seq<Estado>): Profesor -> bool
  {
    (p: Profesor) => EstadoLlamado(estados, p.estado, "Activo", "profesor")
  }

  function MatriculaActiva(estados: seq<Estado>): Matricula -> bool
  {
    (m: Matricula) => EstadoLlamado(estados, m.estado, "Matriculado", "matricula")
  }

  /** The complement of a test. */
  function No<T>(p: T -> bool): T -> bool
  {
    (x: T) => !p(x)
  }

  /** `total`, `activos` and `inactivos = total - activos`. */
  datatype Conteo = Conteo(total: nat, activos: nat, inactivos: int)

  /** The subtraction never goes negative: `inactivos` is exactly the
      number of rows that are not active. */
  function ConteoDe<T(!new)>(rows: seq<T>, activo: T -> bool): (r: Conteo)
    ensures r.total == |rows| && r.activos == Count(rows, activo)
    ensures r.inactivos == Count(rows, No(activo)) >= 0
  {
    CountPartition(rows, activo, No(activo));
    Conteo(|rows|, Count(rows, activo), |rows| - Count(rows, activo))
  }

  /** A student the administrator counts as active is active by
      `estaActivo`, provided state ids are keys. */
  lemma ActivoEstaActivo(estados: seq<Estado>, e: Estudiante)
    requires Distinct(estados, EstadoId)
    requires EstudianteActivo(estados)(e)
    ensures E.EstaActivo(estados, e)
  {
    E.EstaActivoSi(estados, e);
  }

  /** The grades that join an existing enrolment (`notas JOIN matriculas`). */
  function Unidas(matriculas: seq<Matricula>, notas: seq<Nota>): (r: seq<Nota>)
    ensures forall n :: n in r <==> n in notas && n.matricula in Keys(matriculas, MatriculaId)
  {
    Filter(notas, (n: Nota) => n.matricula in Keys(matriculas, MatriculaId))
  }

  /** `round(AVG(nota) ?? 0, 1)` over the joined grades: 0 when there are
      none, otherwise the nearest tenth to their mean, halves rounded up,
      between the lowest and the highest of them. */
  function PromedioGeneral(matriculas: seq<Matricula>, notas: seq<Nota>): (p: nat)
    ensures Unidas(matriculas, notas) == [] ==> p == 0
    ensures var u := Unidas(matriculas, notas);
      u != [] ==> Redondeado(Sum(N.Valores(u)), |u|, p)
    ensures Unidas(matriculas, notas) != [] ==>
      Min(N.Valores(Unidas(matriculas, notas))) <= p <= Max(N.Valores(Unidas(matriculas, notas)))
  {
    N.Promedio(Unidas(matriculas, notas))
  }

  /** With valid grades the general average is 0 or a valid grade. */
  lemma PromedioGeneralValido(matriculas: seq<Matricula>, notas: seq<Nota>)
    requires forall n :: n in notas ==> NotaValida(n.nota)
    ensures PromedioGeneral(matriculas, notas) == 0 || NotaValida(PromedioGeneral(matriculas, notas))
  {
    if Unidas(matriculas, notas) != [] {
      N.PromedioValido(Unidas(matriculas, notas));
    }
  }

  // The latest enrolments, ordered by `created_at` descending.

  /** Newest first, by the creation time `creado`. */
  ghost predicate Desc(s: seq<Matricula>, creado: Matricula -> int)
  {
    forall i, j :: 0 <= i < j < |s| ==> creado(s[i]) >= creado(s[j])
  }

  /** How many leading entries of `top` are strictly newer than `m`. */
  function Posicion(top: seq<Matricula>, m: Matricula, creado: Matricula -> int): (p: nat)
    ensures p <= |top|
    ensures forall i :: 0 <= i < p ==> creado(top[i]) > creado(m)
    ensures p < |top| ==> creado(top[p]) <= creado(m)
  {
    if top == [] || creado(top[0]) <= creado(m) then 0
    else 1 + Posicion(top[1..], m, creado)
  }

  /** Insert into a newest-first list after the strictly newer entries,
      keeping it newest-first. */
  function Insertar(top: seq<Matricula>, m: Matricula, creado: Matricula -> int): (r: seq<Matricula>)
    requires Desc(top, creado)
    ensures |r| == |top| + 1
    ensures forall x :: x in r <==> x == m || x in top
    ensures Desc(r, creado)
  {
    var p := Posicion(top, m, creado);
    InsertarOrden(top, m, creado, p);
    assert top == top[..p] + top[p..];
    top[..p] + [m] + top[p..]
  }

  /** Putting `m` after the entries strictly newer than it keeps the list newest-first. */
  lemma InsertarOrden(top: seq<Matricula>, m: Matricula, creado: Matricula -> int, p: nat)
    requires Desc(top, creado) && p <= |top|
    requires forall i :: 0 <= i < p ==> creado(top[i]) > creado(m)
    requires p < |top| ==> creado(top[p]) <= creado(m)
    ensures Desc(top[..p] + [m] + top[p..], creado)
  {
    var r := top[..p] + [m] + top[p..];
    assert forall i :: p <= i < |top| ==> creado(top[i]) <= creado(m) by {
      forall i | p <= i < |top| ensures creado(top[i]) <= creado(m) {
        assert creado(top[i]) <= creado(top[p]);
      }
    }
    assert forall i :: 0 <= i < |r| ==> r[i] == (if i < p then top[i] else if i == p then m else top[i - 1]);
  }

  /** `orderBy('created_at', 'desc')->limit(n)`: at most `n` enrolments,
      newest first, each an enrolment of the table; every enrolment left out
      is no newer than any listed, and none is left out when there are at
      most `n`. */
  function Ultimas(ms: seq<Matricula>, creado: Matricula -> int, n: nat): (r: seq<Matricula>)
    ensures |r| == if |ms| <= n then |ms| else n
    ensures Desc(r, creado)
    ensures forall x :: x in r ==> x in ms
    ensures multiset(r) <= multiset(ms)
    ensures forall m :: m in ms && m !in r ==> forall x :: x in r ==> creado(m) <= creado(x)
    ensures |ms| <= n ==> forall m :: m in ms ==> m in r
  {
    if ms == [] then []
    else
      var prev := ms[..|ms| - 1];
      var last := ms[|ms| - 1];
      assert ms == prev + [last];
      var top := Ultimas(prev, creado, n);
      UltimasPaso(prev, last, top, creado, n);
      var ins := Insertar(top, last, creado);
      ins[..if |ins| <= n then |ins| else n]
  }

  /** One step of `Ultimas`: adding an enrolment to a correct selection of
      the rows before it and cutting the list back to `n` gives a correct
      selection of all the rows. */
  lemma UltimasPaso(prev: seq<Matricula>, last: Matricula, top: seq<Matricula>, creado: Matricula -> int, n: nat)
    requires |top| == if |prev| <= n then |prev| else n
    requires Desc(top, creado)
    requires forall x :: x in top ==> x in prev
    requires multiset(top) <= multiset(prev)
    requires forall m :: m in prev && m !in top ==> forall x :: x in top ==> creado(m) <= creado(x)
    requires |prev| <= n ==> forall m :: m in prev ==> m in top
    ensures var ins := Insertar(top, last, creado);
      var r := ins[..if |ins| <= n then |ins| else n];
      && |r| == (if |prev + [last]| <= n then |prev + [last]| else n)
      && Desc(r, creado)
      && (forall x :: x in r ==> x in prev + [last])
      && multiset(r) <= multiset(prev + [last])
      && (forall m :: m in prev + [last] && m !in r ==> forall x :: x in r ==> creado(m) <= creado(x))
      && (|prev + [last]| <= n ==> forall m :: m in prev + [last] ==> m in r)
  {
    var ins := Insertar(top, last, creado);
    var r := ins[..if |ins| <= n then |ins| else n];
    assert forall x :: x in r ==> x in ins;
    UltimasFuera(prev, last, top, creado, n);
    UltimasCuenta(prev, last, top, creado, n);
  }

  /** One step of `Ultimas` keeps each enrolment at most as often as the table has it. */
  lemma UltimasCuenta(prev: seq<Matricula>, last: Matricula, top: seq<Matricula>, creado: Matricula -> int, n: nat)
    requires Desc(top, creado)
    requires multiset(top) <= multiset(prev)
    ensures var ins := Insertar(top, last, creado);
      multiset(ins[..if |ins| <= n then |ins| else n]) <= multiset(prev + [last])
  {
    var ins := Insertar(top, last, creado);
    var r := ins[..if |ins| <= n then |ins| else n];
    var p := Posicion(top, last, creado);
    assert ins == top[..p] + [last] + top[p..];
    assert top == top[..p] + top[p..];
    assert multiset(ins) == multiset(top) + multiset{last};
    assert ins == r + ins[|r|..];
    assert multiset(r) <= multiset(ins);
  }

  /** One step of `Ultimas`: after adding an enrolment to a correct
      selection and cutting the list back to `n`, every enrolment left out is
      no newer than any kept. */
  lemma UltimasFuera(prev: seq<Matricula>, last: Matricula, top: seq<Matricula>, creado: Matricula -> int, n: nat)
    requires |top| == if |prev| <= n then |prev| else n
    requires Desc(top, creado)
    requires forall m :: m in prev && m !in top ==> forall x :: x in top ==> creado(m) <= creado(x)
    requires |prev| <= n ==> forall m :: m in prev ==> m in top
    ensures var ins := Insertar(top, last, creado);
      var r := ins[..if |ins| <= n then |ins| else n];
      forall m :: m in prev + [last] && m !in r ==> forall x :: x in r ==> creado(m) <= creado(x)
  {
    var ins := Insertar(top, last, creado);
    var k := if |ins| <= n then |ins| else n;
    var r := ins[..k];
    forall m, x | m in prev + [last] && m !in r && x in r
      ensures creado(m) <= creado(x)
    {
      var i :| 0 <= i < k && ins[i] == x;
      if m in ins {
        var j :| 0 <= j < |ins| && ins[j] == m;
        assert k <= j;
      } else if x !in top {
        NoMasNuevo(prev, last, top, creado, n, m, i);
      }
    }
  }

  /** The inserted enrolment, when it is kept, is no older than one that was
      left out before. */
  lemma NoMasNuevo(prev: seq<Matricula>, last: Matricula, top: seq<Matricula>, creado: Matricula -> int, n: nat,
                   m: Matricula, i: nat)
    requires |top| == if |prev| <= n then |prev| else n
    requires Desc(top, creado)
    requires forall m :: m in prev && m !in top ==> forall x :: x in top ==> creado(m) <= creado(x)
    requires |prev| <= n ==> forall m :: m in prev ==> m in top
    requires m in prev && m !in top
    requires var ins := Insertar(top, last, creado); i < |ins| && i < n && ins[i] !in top
    ensures creado(m) <= creado(Insertar(top, last, creado)[i])
  {
    var p := Posicion(top, last, creado);
    var ins := Insertar(top, last, creado);
    assert ins == top[..p] + [last] + top[p..];
    assert i == p;
    assert |top| == n;
    assert ins[n] == top[n - 1];
    assert creado(top[n - 1]) <= creado(top[p]) || p == n - 1;
  }

  /** The administrator dashboard's data. */
  datatype PanelAdmin = PanelAdmin(
    estudiantes: Conteo,
    profesores: Conteo,
    cursos: nat,
    asignaturas: nat,
    asignaturasActivas: nat,
    matriculas: nat,
    matriculasActivas: nat,
    promedioGeneral: nat,
    porcentajeAsistencia: nat,
    ultimas: seq<Matricula>)

  /** `admin`: the counts of students, teachers, courses, offerings and
      enrolments with the active ones among them (the inactive ones are
      exactly the rest), the general average and attendance percentage, and
      the five latest enrolments. */
  function PanelDeAdmin(catalogo: Catalogo, asignaturas: seq<Asignatura>, matriculas: seq<Matricula>,
                        notas: seq<Nota>, asistencias: seq<Asistencia>, creado: Matricula -> int): (r: PanelAdmin)
    ensures r.estudiantes.total == |catalogo.estudiantes| && r.profesores.total == |catalogo.profesores|
    ensures r.estudiantes.activos == Count(catalogo.estudiantes, EstudianteActivo(catalogo.estados))
    ensures r.estudiantes.inactivos == Count(catalogo.estudiantes, No(EstudianteActivo(catalogo.estados)))
    ensures r.profesores.activos == Count(catalogo.profesores, ProfesorActivo(catalogo.estados))
    ensures r.profesores.inactivos == Count(catalogo.profesores, No(ProfesorActivo(catalogo.estados)))
    ensures r.cursos == |catalogo.cursos|
    ensures r.asignaturasActivas == Count(asignaturas, R.EnPeriodoActivo(catalogo.periodos))
    ensures r.matriculasActivas == Count(matriculas, MatriculaActiva(catalogo.estados))
    ensures r.asignaturasActivas <= r.asignaturas == |asignaturas|
    ensures r.matriculasActivas <= r.matriculas == |matriculas|
    ensures r.promedioGeneral == PromedioGeneral(matriculas, notas)
    ensures r.porcentajeAsistencia == R.AsistenciaGeneral(asistencias) <= 10000
    ensures asistencias == [] ==> r.porcentajeAsistencia == 0
    ensures r.ultimas == Ultimas(matriculas, creado, 5)
    ensures |r.ultimas| <= 5 && Desc(r.ultimas, creado)
  {
    PanelAdmin(
      ConteoDe(catalogo.estudiantes, EstudianteActivo(catalogo.estados)),
      ConteoDe(catalogo.profesores, ProfesorActivo(catalogo.estados)),
      |catalogo.cursos|,
      |asignaturas|, Count(asignaturas, R.EnPeriodoActivo(catalogo.periodos)),
      |matriculas|, Count(matriculas, MatriculaActiva(catalogo.estados)),
      PromedioGeneral(matriculas, notas),
      R.AsistenciaGeneral(asistencias),
      Ultimas(matriculas, creado, 5))
  }
}
