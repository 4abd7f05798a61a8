/** The offering catalogue (`AsignaturaController`): creating an offering
    under the (course, period, section) uniqueness check, deleting one that
    has no enrolments, assigning its teacher, and listing its students. */
module Asignaturas {
  import opened Common
  import opened Seqs
  import opened Schema
  import opened Db
  import E = Estudiantes

  // ---------------------------------------------------------------------------
  // store

  /** The fields of a new offering as the request gives them. */
  datatype Oferta = Oferta(
    curso: Id,
    periodo: Id,
    profesor: Option<Id>,
    seccion: string,
    cupoMaximo: Option<int>,
    cupoDisponible: Option<int>,
    horario: Option<string>,
    sala: Option<string>,
    estado: Option<Id>)

  /** The validation rules of `store`. Nothing relates `cupo_disponible` to `cupo_maximo`. */
  predicate OfertaValida(catalogo: Catalogo, o: Oferta)
  {
    && catalogo.ExisteCurso(o.curso)
    && catalogo.ExistePeriodo(o.periodo)
    && (o.profesor.Some? ==> catalogo.ExisteProfesor(o.profesor.value))
    && NoBlanco(o.seccion) && |o.seccion| <= 10
    && (o.cupoMaximo.Some? ==> o.cupoMaximo.value >= 1)
    && (o.cupoDisponible.Some? ==> o.cupoDisponible.value >= 0)
    && (o.sala.Some? ==> |o.sala.value| <= 20)
    && (o.estado.Some? ==> catalogo.ExisteEstado(o.estado.value))
  }

  /** An offering with the same course, period and section already exists. */
  predicate Existe(asignaturas: seq<Asignatura>, o: Oferta)
  {
    (o.curso, o.periodo, o.seccion) in Keys(asignaturas, Seccion)
  }

  function NuevaAsignatura(id: Id, o: Oferta): Asignatura
  {
    Asignatura(id, o.curso, o.periodo, o.profesor, o.seccion, o.cupoMaximo, o.cupoDisponible, o.horario, o.sala, o.estado)
  }

  /** Creation of an offering: 422 on invalid fields, 400 when the (course,
      period, section) triple is taken, otherwise 201 with one new offering. */
  method Store(db: Database, o: Oferta) returns (status: Status)
    requires db.Valid()
    modifies db`asignaturas, db`nextAsignatura
    ensures db.Valid()
    ensures status == (if !OfertaValida(db.catalogo, o) then Unprocessable
                       else if Existe(old(db.asignaturas), o) then BadRequest
                       else Created)
    ensures status != Created ==> unchanged(db)
    ensures status == Created ==>
      && db.asignaturas == old(db.asignaturas) + [NuevaAsignatura(old(db.nextAsignatura), o)]
      && db.nextAsignatura == old(db.nextAsignatura) + 1
  {
    if !OfertaValida(db.catalogo, o) {
      return Unprocessable;
    }
    if Existe(db.asignaturas, o) {
      return BadRequest;
    }
    StoreIntegra(db.asignaturas, db.matriculas, db.notas, db.asistencias, db.asignaciones,
                 db.nextAsignatura, db.nextMatricula, db.nextNota, db.nextAsistencia, db.catalogo, o);
    db.asignaturas := db.asignaturas + [NuevaAsignatura(db.nextAsignatura, o)];
    db.nextAsignatura := db.nextAsignatura + 1;
    status := Created;
  }

  /** A new offering whose triple is free keeps the integrity rules, so the
      triple stays unique; creating the same offering again is refused. */
  lemma StoreIntegra(asignaturas: seq<Asignatura>, matriculas: seq<Matricula>, notas: seq<Nota>,
                     asistencias: seq<Asistencia>, asignaciones: seq<Asignacion>,
                     nA: Id, nM: Id, nN: Id, nS: Id, catalogo: Catalogo, o: Oferta)
    requires Integras(asignaturas, matriculas, notas, asistencias, asignaciones, nA, nM, nN, nS)
    requires OfertaValida(catalogo, o) && !Existe(asignaturas, o)
    ensures var r := asignaturas + [NuevaAsignatura(nA, o)];
      && Integras(r, matriculas, notas, asistencias, asignaciones, nA + 1, nM, nN, nS)
      && Existe(r, o)
  {
    var x := NuevaAsignatura(nA, o);
    var r := asignaturas + [x];
    forall i | 0 <= i < |asignaturas|
      ensures AsignaturaId(asignaturas[i]) != AsignaturaId(x) && Seccion(asignaturas[i]) != Seccion(x)
    {
      assert asignaturas[i] in asignaturas;
    }
    DistinctAppend(asignaturas, AsignaturaId, x);
    DistinctAppend(asignaturas, Seccion, x);
    BelowAppend(asignaturas, AsignaturaId, nA, x);
    KeysAppend(asignaturas, AsignaturaId, x);
    KeysAppend(asignaturas, Seccion, x);
    assert forall y :: y in r <==> y in asignaturas || y == x;
  }

  /** Validation bounds each counter on its own: an offering with one seat
      in total and five available passes. */
  lemma CuposSinRelacion(catalogo: Catalogo, curso: Id, periodo: Id)
    requires catalogo.ExisteCurso(curso) && catalogo.ExistePeriodo(periodo)
    ensures var o := Oferta(curso, periodo, None, "A", Some(1), Some(5), None, None, None);
      OfertaValida(catalogo, o) && o.cupoDisponible.value > o.cupoMaximo.value
  {
    assert !Blanco("A"[0]);
  }

  /** Deleting the offering just created gives back the table as it was. */
  lemma StoreThenDestroy(asignaturas: seq<Asignatura>, nA: Id, o: Oferta)
    requires Below(asignaturas, AsignaturaId, nA)
    ensures Without(asignaturas + [NuevaAsignatura(nA, o)], AsignaturaId, {nA}) == asignaturas
  {
    WithoutAppendLast(asignaturas, AsignaturaId, {nA}, NuevaAsignatura(nA, o));
    WithoutNone(asignaturas, AsignaturaId, {nA});
  }

  // ---------------------------------------------------------------------------
  // destroy

  function AsignacionAsignatura(g: Asignacion): Id { g.asignatura }

  /** The offering has at least one enrolment. */
  predicate ConMatriculas(matriculas: seq<Matricula>, asignatura: Id)
  {
    exists m :: m in matriculas && m.asignatura == asignatura
  }

  /** Deletion of an offering: 500 when it does not exist, 400 while it has
      any enrolment; otherwise the offering goes, and its teacher assignments
      with it (ON DELETE CASCADE). */
  method Destroy(db: Database, id: Id) returns (status: Status)
    requires db.Valid()
    modifies db`asignaturas, db`asignaciones
    ensures db.Valid()
    ensures status == (if id !in Keys(old(db.asignaturas), AsignaturaId) then ServerError
                       else if ConMatriculas(db.matriculas, id) then BadRequest
                       else Ok)
    ensures status != Ok ==> unchanged(db)
    ensures status == Ok ==>
      && db.asignaturas == Without(old(db.asignaturas), AsignaturaId, {id})
      && db.asignaciones == Without(old(db.asignaciones), AsignacionAsignatura, {id})
  {
    if id !in Keys(db.asignaturas, AsignaturaId) {
      return ServerError;
    }
    if ConMatriculas(db.matriculas, id) {
      return BadRequest;
    }
    DestroyIntegra(db.asignaturas, db.matriculas, db.notas, db.asistencias, db.asignaciones,
                   db.nextAsignatura, db.nextMatricula, db.nextNota, db.nextAsistencia, id);
    db.asignaturas := Without(db.asignaturas, AsignaturaId, {id});
    db.asignaciones := Without(db.asignaciones, AsignacionAsignatura, {id});
    status := Ok;
  }

  /** A deletion the guard lets through keeps the integrity rules: no
      enrolment is left pointing at the deleted offering. */
  lemma DestroyIntegra(asignaturas: seq<Asignatura>, matriculas: seq<Matricula>, notas: seq<Nota>,
                       asistencias: seq<Asistencia>, asignaciones: seq<Asignacion>,
                       nA: Id, nM: Id, nN: Id, nS: Id, id: Id)
    requires Integras(asignaturas, matriculas, notas, asistencias, asignaciones, nA, nM, nN, nS)
    requires !ConMatriculas(matriculas, id)
    ensures Integras(Without(asignaturas, AsignaturaId, {id}), matriculas, notas, asistencias,
                     Without(asignaciones, AsignacionAsignatura, {id}), nA, nM, nN, nS)
  {
    var r := Without(asignaturas, AsignaturaId, {id});
    var g := Without(asignaciones, AsignacionAsignatura, {id});
    DistinctWithout(asignaturas, AsignaturaId, {id}, AsignaturaId);
    DistinctWithout(asignaturas, AsignaturaId, {id}, Seccion);
    DistinctWithout(asignaciones, AsignacionAsignatura, {id}, AsignaturaProfesor);
    BelowWithout(asignaturas, AsignaturaId, {id}, AsignaturaId, nA);
    forall k | k in Keys(asignaturas, AsignaturaId) && k != id
      ensures k in Keys(r, AsignaturaId)
    {
      var x :| x in asignaturas && x.id == k;
      assert x in r;
    }
    forall m | m in matriculas
      ensures m.asignatura in Keys(r, AsignaturaId)
    {
      assert m.asignatura != id;
    }
  }

  // ---------------------------------------------------------------------------
  // asignarProfesor

  /** The offerings with offering `id`'s teacher set. */
  function ConProfesor(asignaturas: seq<Asignatura>, id: Id, profesor: Id): (r: seq<Asignatura>)
    ensures |r| == |asignaturas|
  {
    seq(|asignaturas|, i requires 0 <= i < |asignaturas| =>
      if asignaturas[i].id == id then asignaturas[i].(profesor := Some(profesor)) else asignaturas[i])
  }

  /** Looking any offering up after the assignment finds the row found
      before, with the new teacher when it is `id`. */
  lemma {:induction false} ConProfesorFila(asignaturas: seq<Asignatura>, id: Id, profesor: Id, k: Id)
    ensures Find(ConProfesor(asignaturas, id, profesor), AsignaturaId, k)
         == match Find(asignaturas, AsignaturaId, k)
            case None => None
            case Some(x) => Some(if k == id then x.(profesor := Some(profesor)) else x)
  {
    if asignaturas != [] {
      var r := ConProfesor(asignaturas, id, profesor);
      assert r[1..] == ConProfesor(asignaturas[1..], id, profesor);
      ConProfesorFila(asignaturas[1..], id, profesor, k);
    }
  }

  /** After the assignment the ownership gate sees the new teacher as the
      offering's owner, and every other offering keeps its owner. */
  lemma ConProfesorPropietario(asignaturas: seq<Asignatura>, id: Id, profesor: Id, k: Id)
    ensures Propietario(ConProfesor(asignaturas, id, profesor), k)
         == if k == id && k in Keys(asignaturas, AsignaturaId) then Some(profesor) else Propietario(asignaturas, k)
  {
    ConProfesorFila(asignaturas, id, profesor, k);
  }

  /** Row by row, setting a teacher keeps the key, the section and the seats. */
  lemma ConProfesorPuntual(asignaturas: seq<Asignatura>, id: Id, profesor: Id)
    ensures var r := ConProfesor(asignaturas, id, profesor);
      forall i :: 0 <= i < |r| ==>
        && AsignaturaId(r[i]) == AsignaturaId(asignaturas[i])
        && Seccion(r[i]) == Seccion(asignaturas[i])
        && r[i].cupoDisponible == asignaturas[i].cupoDisponible
  {
  }

  /** Setting a teacher changes no key nor seat counter. */
  lemma ConProfesorOk(asignaturas: seq<Asignatura>, id: Id, profesor: Id, nA: Id)
    requires AsignaturasOk(asignaturas) && Below(asignaturas, AsignaturaId, nA)
    ensures var r := ConProfesor(asignaturas, id, profesor);
      && AsignaturasOk(r) && Below(r, AsignaturaId, nA)
      && Keys(r, AsignaturaId) == Keys(asignaturas, AsignaturaId)
  {
    ConProfesorPuntual(asignaturas, id, profesor);
    MismasClaves(asignaturas, ConProfesor(asignaturas, id, profesor), nA);
  }

  /** A table that agrees row by row on key, section and seats with a sound
      one is sound too and has the same keys. */
  lemma MismasClaves(asignaturas: seq<Asignatura>, r: seq<Asignatura>, nA: Id)
    requires AsignaturasOk(asignaturas) && Below(asignaturas, AsignaturaId, nA)
    requires |r| == |asignaturas|
    requires forall i :: 0 <= i < |r| ==>
        && AsignaturaId(r[i]) == AsignaturaId(asignaturas[i])
        && Seccion(r[i]) == Seccion(asignaturas[i])
        && r[i].cupoDisponible == asignaturas[i].cupoDisponible
    ensures AsignaturasOk(r) && Below(r, AsignaturaId, nA)
    ensures Keys(r, AsignaturaId) == Keys(asignaturas, AsignaturaId)
  {
    KeysPointwise(asignaturas, r, AsignaturaId);
    KeysPointwise(asignaturas, r, Seccion);
    MismosCupos(asignaturas, r);
    MismasCotas(asignaturas, r, nA);
  }

  /** Seat counters copied row by row stay non-negative. */
  lemma MismosCupos(asignaturas: seq<Asignatura>, r: seq<Asignatura>)
    requires AsignaturasOk(asignaturas) && |r| == |asignaturas|
    requires forall i :: 0 <= i < |r| ==> r[i].cupoDisponible == asignaturas[i].cupoDisponible
    ensures forall x :: x in r && x.cupoDisponible.Some? ==> x.cupoDisponible.value >= 0
  {
    forall x | x in r && x.cupoDisponible.Some?
      ensures x.cupoDisponible.value >= 0
    {
      var i :| 0 <= i < |r| && r[i] == x;
      assert asignaturas[i] in asignaturas;
    }
  }

  /** Keys copied row by row stay below the next id. */
  lemma MismasCotas(asignaturas: seq<Asignatura>, r: seq<Asignatura>, nA: Id)
    requires Below(asignaturas, AsignaturaId, nA) && |r| == |asignaturas|
    requires forall i :: 0 <= i < |r| ==> AsignaturaId(r[i]) == AsignaturaId(asignaturas[i])
    ensures Below(r, AsignaturaId, nA)
  {
    forall i | 0 <= i < |r|
      ensures AsignaturaId(r[i]) < nA
    {
      assert AsignaturaId(asignaturas[i]) < nA;
    }
  }

  /** `updateOrInsert` keyed on (offering, teacher): the matching row gets the
      new values, or a row is appended when none matches. */
  function Upsert(asignaciones: seq<Asignacion>, g: Asignacion): (r: seq<Asignacion>)
  {
    if AsignaturaProfesor(g) in Keys(asignaciones, AsignaturaProfesor) then
      seq(|asignaciones|, i requires 0 <= i < |asignaciones| =>
        if AsignaturaProfesor(asignaciones[i]) == AsignaturaProfesor(g) then g else asignaciones[i])
    else asignaciones + [g]
  }

  /** After the upsert the pair has the new row and no other; the rows of
      every other pair are untouched; a row is added only for a new pair. */
  lemma UpsertContenido(asignaciones: seq<Asignacion>, g: Asignacion)
    ensures var r := Upsert(asignaciones, g);
      && g in r
      && (forall x :: x in r && AsignaturaProfesor(x) == AsignaturaProfesor(g) ==> x == g)
      && (forall x :: x in asignaciones && AsignaturaProfesor(x) != AsignaturaProfesor(g) <==> x in r && AsignaturaProfesor(x) != AsignaturaProfesor(g))
      && |r| == |asignaciones| + (if AsignaturaProfesor(g) in Keys(asignaciones, AsignaturaProfesor) then 0 else 1)
  {
    var r := Upsert(asignaciones, g);
    if AsignaturaProfesor(g) in Keys(asignaciones, AsignaturaProfesor) {
      var x :| x in asignaciones && AsignaturaProfesor(x) == AsignaturaProfesor(g);
      var i :| 0 <= i < |asignaciones| && asignaciones[i] == x;
      assert r[i] == g;
      forall y | y in asignaciones && AsignaturaProfesor(y) != AsignaturaProfesor(g)
        ensures y in r
      {
        var j :| 0 <= j < |asignaciones| && asignaciones[j] == y;
        assert r[j] == y;
      }
    } else {
      assert forall y :: y in r <==> y in asignaciones || y == g;
    }
  }

  /** The upsert keeps one row per (offering, teacher). */
  lemma UpsertDistinct(asignaciones: seq<Asignacion>, g: Asignacion)
    requires Distinct(asignaciones, AsignaturaProfesor)
    ensures Distinct(Upsert(asignaciones, g), AsignaturaProfesor)
  {
    if AsignaturaProfesor(g) in Keys(asignaciones, AsignaturaProfesor) {
      var r := Upsert(asignaciones, g);
      DistinctPointwise(asignaciones, r, AsignaturaProfesor);
    } else {
      forall i | 0 <= i < |asignaciones|
        ensures AsignaturaProfesor(asignaciones[i]) != AsignaturaProfesor(g)
      {
        assert asignaciones[i] in asignaciones;
      }
      DistinctAppend(asignaciones, AsignaturaProfesor, g);
    }
  }

  /** Repeating an assignment of the same teacher adds no row, whatever its
      other values; with the same values it changes nothing at all. */
  lemma UpsertIdempotente(asignaciones: seq<Asignacion>, g: Asignacion, h: Asignacion)
    requires AsignaturaProfesor(h) == AsignaturaProfesor(g)
    ensures |Upsert(Upsert(asignaciones, g), h)| == |Upsert(asignaciones, g)|
    ensures Upsert(Upsert(asignaciones, g), g) == Upsert(asignaciones, g)
  {
    var r := Upsert(asignaciones, g);
    UpsertContenido(asignaciones, g);
    assert AsignaturaProfesor(g) in Keys(r, AsignaturaProfesor);
    var r2 := Upsert(r, g);
    assert |r2| == |r|;
    forall i | 0 <= i < |r|
      ensures r2[i] == r[i]
    {
      if AsignaturaProfesor(r[i]) == AsignaturaProfesor(g) {
        assert r[i] in r;
      }
    }
  }

  /** The row `asignarProfesor` upserts: `es_titular` defaults to true. */
  function NuevaAsignacion(asignatura: Id, profesor: Id, esTitular: Option<bool>, ahora: int): (g: Asignacion)
    ensures esTitular.None? ==> g.esTitular
  {
    Asignacion(asignatura, profesor, esTitular.Or(true), ahora)
  }

  /** Assignment of a teacher: 422 on an unknown teacher, 500 when the
      offering does not exist; otherwise the offering's teacher is set and
      the (offering, teacher) assignment row upserted. `ahora` is the clock. */
  method AsignarProfesor(db: Database, id: Id, profesor: Id, esTitular: Option<bool>, ahora: int) returns (status: Status)
    requires db.Valid()
    modifies db`asignaturas, db`asignaciones
    ensures db.Valid()
    ensures status == (if !db.catalogo.ExisteProfesor(profesor) then Unprocessable
                       else if id !in Keys(old(db.asignaturas), AsignaturaId) then ServerError
                       else Ok)
    ensures status != Ok ==> unchanged(db)
    ensures status == Ok ==>
      && db.asignaturas == ConProfesor(old(db.asignaturas), id, profesor)
      && db.asignaciones == Upsert(old(db.asignaciones), NuevaAsignacion(id, profesor, esTitular, ahora))
  {
    if !db.catalogo.ExisteProfesor(profesor) {
      return Unprocessable;
    }
    if id !in Keys(db.asignaturas, AsignaturaId) {
      return ServerError;
    }
    AsignarIntegra(db.asignaturas, db.matriculas, db.notas, db.asistencias, db.asignaciones,
                   db.nextAsignatura, db.nextMatricula, db.nextNota, db.nextAsistencia, id, profesor,
                   NuevaAsignacion(id, profesor, esTitular, ahora));
    db.asignaturas := ConProfesor(db.asignaturas, id, profesor);
    db.asignaciones := Upsert(db.asignaciones, NuevaAsignacion(id, profesor, esTitular, ahora));
    status := Ok;
  }

  /** An assignment of an existing offering keeps the integrity rules. */
  lemma AsignarIntegra(asignaturas: seq<Asignatura>, matriculas: seq<Matricula>, notas: seq<Nota>,
                       asistencias: seq<Asistencia>, asignaciones: seq<Asignacion>,
                       nA: Id, nM: Id, nN: Id, nS: Id, id: Id, profesor: Id, g: Asignacion)
    requires Integras(asignaturas, matriculas, notas, asistencias, asignaciones, nA, nM, nN, nS)
    requires id in Keys(asignaturas, AsignaturaId) && g.asignatura == id
    ensures Integras(ConProfesor(asignaturas, id, profesor), matriculas, notas, asistencias,
                     Upsert(asignaciones, g), nA, nM, nN, nS)
  {
    ConProfesorOk(asignaturas, id, profesor, nA);
    UpsertDistinct(asignaciones, g);
    UpsertContenido(asignaciones, g);
  }

  // ---------------------------------------------------------------------------
  // estudiantes

  /** One student of the offering: the enrolment, its average and attendance
      percentage, and its state. */
  datatype Inscrito = Inscrito(matricula: Id, estudiante: Id, promedio: nat, asistencia: nat, estado: Option<Id>)

  /** An enrolment's grade average and attendance percentage, by the formulas
      of the grade and attendance queries. */
  function InscritoDe(notas: seq<Nota>, asistencias: seq<Asistencia>, m: Matricula): (r: Inscrito)
    ensures r.asistencia <= 10000
  {
    Inscrito(m.id, m.estudiante, E.PromedioMatricula(notas, m), E.AsistenciaMatricula(asistencias, m), m.estado)
  }

  /** `estudiantes`: 500 when the offering does not exist; otherwise one entry
      per enrolment of the offering, in table order, and their number. */
  function Estudiantes(asignaturas: seq<Asignatura>, matriculas: seq<Matricula>, notas: seq<Nota>,
                       asistencias: seq<Asistencia>, id: Id): (r: (Status, seq<Inscrito>, nat))
    ensures r.0 == (if id in Keys(asignaturas, AsignaturaId) then Ok else ServerError)
    ensures r.2 == |r.1|
    ensures r.0 == Ok ==> |r.1| == |DeAsignatura(matriculas, id)|
    ensures r.0 == Ok ==> forall i :: 0 <= i < |r.1| ==> r.1[i] == InscritoDe(notas, asistencias, DeAsignatura(matriculas, id)[i])
    ensures r.0 != Ok ==> r.1 == []
  {
    if id !in Keys(asignaturas, AsignaturaId) then (ServerError, [], 0)
    else
      var ms := DeAsignatura(matriculas, id);
      var es := seq(|ms|, i requires 0 <= i < |ms| => InscritoDe(notas, asistencias, ms[i]));
      (Ok, es, |es|)
  }

  /** With distinct enrolment ids, `total_estudiantes` is the number of
      enrolments of the offering. */
  lemma TotalEstudiantes(matriculas: seq<Matricula>, id: Id)
    requires Distinct(matriculas, MatriculaId)
    ensures |DeAsignatura(matriculas, id)| == |MatriculasDe(matriculas, id)|
  {
    var ms := DeAsignatura(matriculas, id);
    DistinctFilter(matriculas, EnAsignatura(id), MatriculaId);
    DistinctCard(ms, MatriculaId);
    assert Keys(ms, MatriculaId) == MatriculasDe(matriculas, id);
  }

  /** `estudiantes` as written: each entry calls `promedio()` and
      `porcentajeAsistencia()` on the enrolment, and `Matricula` defines
      neither, so the first enrolment raises inside the `try`. The action
      answers 200 only for an existing offering without enrolments. */
  function EstudiantesTalCual(asignaturas: seq<Asignatura>, matriculas: seq<Matricula>, id: Id): (r: Status)
    ensures r in {Ok, ServerError}
    ensures r == Ok <==> id in Keys(asignaturas, AsignaturaId) && forall m :: m in matriculas ==> m.asignatura != id
  {
    if id in Keys(asignaturas, AsignaturaId) && DeAsignatura(matriculas, id) == [] then Ok
    else
      assert DeAsignatura(matriculas, id) != [] ==> DeAsignatura(matriculas, id)[0] in DeAsignatura(matriculas, id);
      ServerError
  }

  /** The corrected listing agrees with the action as written exactly when
      the offering has no enrolment; with one, the listing answers 200 and
      lists it where the action as written answers 500. */
  lemma EstudiantesTalCualFalla(asignaturas: seq<Asignatura>, matriculas: seq<Matricula>, notas: seq<Nota>,
                                asistencias: seq<Asistencia>, id: Id, m: Matricula)
    requires id in Keys(asignaturas, AsignaturaId)
    requires m in matriculas && m.asignatura == id
    ensures EstudiantesTalCual(asignaturas, matriculas, id) == ServerError
    ensures Estudiantes(asignaturas, matriculas, notas, asistencias, id).0 == Ok
    ensures InscritoDe(notas, asistencias, m) in Estudiantes(asignaturas, matriculas, notas, asistencias, id).1
  {
    var ms := DeAsignatura(matriculas, id);
    var i :| 0 <= i < |ms| && ms[i] == m;
    var r := Estudiantes(asignaturas, matriculas, notas, asistencias, id);
    assert r.1[i] == InscritoDe(notas, asistencias, m);
  }

  /** The concrete case: offering 1 with one enrolment. */
  lemma EstudiantesConUnaMatricula()
    ensures var asignaturas := [Asignatura(1, 1, 1, Some(8), "A", None, None, None, None, Some(ESTADO_ABIERTA))];
      var matriculas := [Matricula(1, 1, 1, 0, Some(ESTADO_MATRICULADO))];
      && EstudiantesTalCual(asignaturas, matriculas, 1) == ServerError
      && Estudiantes(asignaturas, matriculas, [], [], 1).0 == Ok
      && Estudiantes(asignaturas, matriculas, [], [], 1).2 == 1
  {
    var asignaturas := [Asignatura(1, 1, 1, Some(8), "A", None, None, None, None, Some(ESTADO_ABIERTA))];
    var matriculas := [Matricula(1, 1, 1, 0, Some(ESTADO_MATRICULADO))];
    assert asignaturas[0] in asignaturas;
    EstudiantesTalCualFalla(asignaturas, matriculas, [], [], 1, matriculas[0]);
    assert DeAsignatura(matriculas, 1) == matriculas by {
      assert DeAsignatura(matriculas, 1) == Filter(matriculas, EnAsignatura(1));
    }
  }
}
