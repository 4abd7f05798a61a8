/** The grades ledger (`NotasController`): recording, correcting and deleting
    one grade, the bulk upload of one evaluation for an offering, and the
    averages and pass/fail status the queries report. */
module Notas {
  import opened Common
  import opened Seqs
  import opened Rounding
  import opened Schema
  import opened Db

  /** `nombre` is validated `max:100` by `store` and `update`. */
  const MAX_NOMBRE: nat := 100

  // ---------------------------------------------------------------------------
  // store

  /** The validation rules of `store`. */
  predicate StoreValida(matriculas: seq<Matricula>, matricula: Id, nombre: string, nota: int)
  {
    matricula in Keys(matriculas, MatriculaId) && NoBlanco(nombre) && |nombre| <= MAX_NOMBRE && NotaValida(nota)
  }

  /** One grade: 422 on an unknown enrolment, a long name or a grade outside
      [1.0, 7.0], 403 for a teacher who does not own the offering, otherwise
      201 with one new grade. */
  method Store(db: Database, user: Principal, matricula: Id, nombre: string, descripcion: Option<string>,
               fecha: Date, nota: int, observaciones: Option<string>) returns (status: Status)
    requires db.Valid()
    modifies db`notas, db`nextNota
    ensures db.Valid()
    ensures status == (if !StoreValida(db.matriculas, matricula, nombre, nota) then Unprocessable
                       else if Denied(user, PropietarioDeMatricula(db.asignaturas, db.matriculas, matricula)) then Forbidden
                       else Created)
    ensures status != Created ==> unchanged(db)
    ensures status == Created ==>
      && db.notas == old(db.notas) + [Nota(old(db.nextNota), matricula, nombre, descripcion, fecha, nota, observaciones)]
      && db.nextNota == old(db.nextNota) + 1
  {
    if !StoreValida(db.matriculas, matricula, nombre, nota) {
      return Unprocessable;
    }
    if Denied(user, PropietarioDeMatricula(db.asignaturas, db.matriculas, matricula)) {
      return Forbidden;
    }
    StoreIntegra(db.asignaturas, db.matriculas, db.notas, db.asistencias, db.asignaciones,
                 db.nextAsignatura, db.nextMatricula, db.nextNota, db.nextAsistencia,
                 Nota(db.nextNota, matricula, nombre, descripcion, fecha, nota, observaciones));
    db.notas := db.notas + [Nota(db.nextNota, matricula, nombre, descripcion, fecha, nota, observaciones)];
    db.nextNota := db.nextNota + 1;
    status := Created;
  }

  /** A grade that passed validation, stored under the next id, keeps the integrity rules. */
  lemma StoreIntegra(asignaturas: seq<Asignatura>, matriculas: seq<Matricula>, notas: seq<Nota>,
                     asistencias: seq<Asistencia>, asignaciones: seq<Asignacion>,
                     nA: Id, nM: Id, nN: Id, nS: Id, n: Nota)
    requires Integras(asignaturas, matriculas, notas, asistencias, asignaciones, nA, nM, nN, nS)
    requires n.id == nN && n.matricula in Keys(matriculas, MatriculaId) && NotaValida(n.nota)
    ensures Integras(asignaturas, matriculas, notas + [n], asistencias, asignaciones, nA, nM, nN + 1, nS)
  {
    forall i | 0 <= i < |notas|
      ensures NotaId(notas[i]) != NotaId(n)
    {
    }
    DistinctAppend(notas, NotaId, n);
    BelowAppend(notas, NotaId, nN, n);
    assert forall x :: x in notas + [n] <==> x in notas || x == n;
  }

  // ---------------------------------------------------------------------------
  // update

  /** The keys of an update request (`$request->only(...)`): `nota` is
      required, the others keep the stored value when absent. */
  datatype Cambios = Cambios(nombre: Field<string>, descripcion: Field<Option<string>>, nota: int,
                             observaciones: Field<Option<string>>)

  /** The validation rules of `update`. */
  predicate CambiosValidos(c: Cambios)
  {
    (c.nombre.Set? ==> NoBlanco(c.nombre.value) && |c.nombre.value| <= MAX_NOMBRE) && NotaValida(c.nota)
  }

  /** A grade with the request's keys applied. */
  function Aplicar(n: Nota, c: Cambios): Nota
    requires NotaValida(c.nota)
  {
    n.(nombre := c.nombre.Or(n.nombre), descripcion := c.descripcion.Or(n.descripcion),
       nota := c.nota, observaciones := c.observaciones.Or(n.observaciones))
  }

  /** The table with grade `id` updated. */
  function ConCambios(notas: seq<Nota>, id: Id, c: Cambios): (r: seq<Nota>)
    requires NotaValida(c.nota)
    ensures |r| == |notas|
  {
    seq(|notas|, i requires 0 <= i < |notas| => if notas[i].id == id then Aplicar(notas[i], c) else notas[i])
  }

  /** Looking any grade up by id after an update finds the row found before,
      updated when it is `id`: its id, enrolment and date never change, and
      the keys absent from the request keep their stored values. */
  lemma {:induction false} CambiosFila(notas: seq<Nota>, id: Id, c: Cambios, k: Id)
    requires NotaValida(c.nota)
    ensures Find(ConCambios(notas, id, c), NotaId, k)
         == match Find(notas, NotaId, k)
            case None => None
            case Some(x) => Some(if k == id then Aplicar(x, c) else x)
  {
    if notas != [] {
      var r := ConCambios(notas, id, c);
      assert r[1..] == ConCambios(notas[1..], id, c);
      CambiosFila(notas[1..], id, c, k);
    }
  }

  /** An update keeps the integrity rules: it changes no key and stores a valid grade. */
  lemma CambiosIntegra(asignaturas: seq<Asignatura>, matriculas: seq<Matricula>, notas: seq<Nota>,
                       asistencias: seq<Asistencia>, asignaciones: seq<Asignacion>,
                       nA: Id, nM: Id, nN: Id, nS: Id, id: Id, c: Cambios)
    requires Integras(asignaturas, matriculas, notas, asistencias, asignaciones, nA, nM, nN, nS)
    requires NotaValida(c.nota)
    ensures Integras(asignaturas, matriculas, ConCambios(notas, id, c), asistencias, asignaciones, nA, nM, nN, nS)
  {
    var r := ConCambios(notas, id, c);
    DistinctPointwise(notas, r, NotaId);
    forall x | x in r
      ensures x.matricula in Keys(matriculas, MatriculaId) && NotaValida(x.nota)
    {
      var i :| 0 <= i < |r| && r[i] == x;
      assert notas[i] in notas;
    }
    forall i | 0 <= i < |r|
      ensures r[i].id < nN
    {
      assert notas[i].id < nN;
    }
  }

  /** Update of one grade: 422 on invalid keys, 500 when the grade does not
      exist, 403 for a teacher who does not own its offering, otherwise only
      that grade changes. */
  method Update(db: Database, user: Principal, id: Id, c: Cambios) returns (status: Status)
    requires db.Valid()
    modifies db`notas
    ensures db.Valid()
    ensures status == (if !CambiosValidos(c) then Unprocessable
                       else if id !in Keys(old(db.notas), NotaId) then ServerError
                       else if Denied(user, PropietarioDeMatricula(db.asignaturas, db.matriculas,
                                                                   Row(old(db.notas), NotaId, id).matricula)) then Forbidden
                       else Ok)
    ensures status != Ok ==> unchanged(db)
    ensures status == Ok ==> db.notas == ConCambios(old(db.notas), id, c)
  {
    if !CambiosValidos(c) {
      return Unprocessable;
    }
    if id !in Keys(db.notas, NotaId) {
      return ServerError;
    }
    var n := Row(db.notas, NotaId, id);
    if Denied(user, PropietarioDeMatricula(db.asignaturas, db.matriculas, n.matricula)) {
      return Forbidden;
    }
    CambiosIntegra(db.asignaturas, db.matriculas, db.notas, db.asistencias, db.asignaciones,
                   db.nextAsignatura, db.nextMatricula, db.nextNota, db.nextAsistencia, id, c);
    db.notas := ConCambios(db.notas, id, c);
    status := Ok;
  }

  // ---------------------------------------------------------------------------
  // destroy

  /** Deletion of one grade: 500 when it does not exist, 403 for a teacher
      who does not own its offering, otherwise that grade and no other is removed. */
  method Destroy(db: Database, user: Principal, id: Id) returns (status: Status)
    requires db.Valid()
    modifies db`notas
    ensures db.Valid()
    ensures status == (if id !in Keys(old(db.notas), NotaId) then ServerError
                       else if Denied(user, PropietarioDeMatricula(db.asignaturas, db.matriculas,
                                                                   Row(old(db.notas), NotaId, id).matricula)) then Forbidden
                       else Ok)
    ensures status != Ok ==> unchanged(db)
    ensures status == Ok ==> db.notas == Without(old(db.notas), NotaId, {id})
  {
    if id !in Keys(db.notas, NotaId) {
      return ServerError;
    }
    var n := Row(db.notas, NotaId, id);
    if Denied(user, PropietarioDeMatricula(db.asignaturas, db.matriculas, n.matricula)) {
      return Forbidden;
    }
    DestroyIntegra(db.asignaturas, db.matriculas, db.notas, db.asistencias, db.asignaciones,
                   db.nextAsignatura, db.nextMatricula, db.nextNota, db.nextAsistencia, id);
    db.notas := Without(db.notas, NotaId, {id});
    status := Ok;
  }

  /** A deletion keeps the integrity rules. */
  lemma DestroyIntegra(asignaturas: seq<Asignatura>, matriculas: seq<Matricula>, notas: seq<Nota>,
                       asistencias: seq<Asistencia>, asignaciones: seq<Asignacion>,
                       nA: Id, nM: Id, nN: Id, nS: Id, id: Id)
    requires Integras(asignaturas, matriculas, notas, asistencias, asignaciones, nA, nM, nN, nS)
    ensures Integras(asignaturas, matriculas, Without(notas, NotaId, {id}), asistencias, asignaciones, nA, nM, nN, nS)
  {
    DistinctWithout(notas, NotaId, {id}, NotaId);
    BelowWithout(notas, NotaId, {id}, NotaId, nN);
  }

  /** Deleting the grade just stored gives back the table as it was. */
  lemma StoreThenDestroy(notas: seq<Nota>, nN: Id, n: Nota)
    requires Below(notas, NotaId, nN)
    requires n.id == nN
    ensures Without(notas + [n], NotaId, {n.id}) == notas
  {
    WithoutAppendLast(notas, NotaId, {n.id}, n);
    WithoutNone(notas, NotaId, {n.id});
  }

  // ---------------------------------------------------------------------------
  // cargarMasivo

  /** One row of a bulk upload: an enrolment, its grade and an optional remark. */
  datatype FilaNota = FilaNota(matricula: Id, nota: int, observaciones: Option<string>)

  /** Every row's grade lies in [1.0, 7.0]. */
  predicate Calificables(filas: seq<FilaNota>)
  {
    forall f :: f in filas ==> NotaValida(f.nota)
  }

  /** The validation rules of `cargarMasivo`; `required|array` refuses an
      empty list, and the evaluation name must not be blank but has no
      length rule. */
  predicate CargaValida(asignaturas: seq<Asignatura>, matriculas: seq<Matricula>, asignatura: Id, e: Evaluacion,
                        filas: seq<FilaNota>)
  {
    && asignatura in Keys(asignaturas, AsignaturaId)
    && NoBlanco(e.nombre)
    && filas != []
    && (forall f :: f in filas ==> f.matricula in Keys(matriculas, MatriculaId))
    && Calificables(filas)
  }

  /** The progress of the loop: the table, the next id, `creadas` and `errores`. */
  datatype Carga = Carga(notas: seq<Nota>, next: Id, creadas: nat, errores: seq<Id>)

  /** The evaluation every row of a bulk upload shares. */
  datatype Evaluacion = Evaluacion(nombre: string, descripcion: Option<string>, fecha: Date)

  /** The grade a row of a bulk upload stores under id `id`. */
  function NotaDeFila(id: Id, e: Evaluacion, f: FilaNota): Nota
    requires NotaValida(f.nota)
  {
    Nota(id, f.matricula, e.nombre, e.descripcion, e.fecha, f.nota, f.observaciones)
  }

  /** One row of the loop: an error when the enrolment is not in the
      offering, otherwise one grade more. */
  function Cargar(matriculas: seq<Matricula>, asignatura: Id, e: Evaluacion, c: Carga, f: FilaNota): Carga
    requires NotaValida(f.nota)
  {
    if !DeLaAsignatura(matriculas, f.matricula, asignatura) then
      c.(errores := c.errores + [f.matricula])
    else
      Carga(c.notas + [NotaDeFila(c.next, e, f)], c.next + 1, c.creadas + 1, c.errores)
  }

  /** The loop over the rows, in order. */
  function CargarTodas(matriculas: seq<Matricula>, asignatura: Id, e: Evaluacion, c: Carga, filas: seq<FilaNota>): Carga
    requires Calificables(filas)
    decreases |filas|
  {
    if filas == [] then c
    else
      assert filas[|filas| - 1] in filas;
      Cargar(matriculas, asignatura, e, CargarTodas(matriculas, asignatura, e, c, filas[..|filas| - 1]), filas[|filas| - 1])
  }

  /** The loop of `cargarMasivo` on the database. */
  method CargarEn(db: Database, asignatura: Id, e: Evaluacion, filas: seq<FilaNota>) returns (creadas: nat, errores: seq<Id>)
    requires Calificables(filas)
    requires db.Valid()
    modifies db`notas, db`nextNota
    ensures db.Valid()
    ensures Carga(db.notas, db.nextNota, creadas, errores)
         == CargarTodas(db.matriculas, asignatura, e, Carga(old(db.notas), old(db.nextNota), 0, []), filas)
  {
    creadas, errores := 0, [];
    ghost var inicio := Carga(db.notas, db.nextNota, 0, []);
    CargaIntegra(db.asignaturas, db.matriculas, db.asistencias, db.asignaciones, db.nextAsignatura, db.nextMatricula,
                 db.nextAsistencia, asignatura, e, inicio, filas);
    var i := 0;
    while i < |filas|
      invariant 0 <= i <= |filas|
      invariant Carga(db.notas, db.nextNota, creadas, errores)
             == CargarTodas(db.matriculas, asignatura, e, inicio, filas[..i])
    {
      var f := filas[i];
      assert filas[..i + 1][..i] == filas[..i];
      if !DeLaAsignatura(db.matriculas, f.matricula, asignatura) {
        errores := errores + [f.matricula];
      } else {
        db.notas := db.notas + [NotaDeFila(db.nextNota, e, f)];
        db.nextNota := db.nextNota + 1;
        creadas := creadas + 1;
      }
      i := i + 1;
    }
    assert filas[..i] == filas;
  }

  /** Bulk upload of one evaluation as written: 422 on invalid input,
      otherwise every row is either stored or reported as an error. No
      ownership gate: any authenticated caller reaches the loop. */
  method CargarMasivo(db: Database, user: Principal, asignatura: Id, e: Evaluacion, filas: seq<FilaNota>)
    returns (status: Status, creadas: nat, errores: seq<Id>)
    requires db.Valid()
    modifies db`notas, db`nextNota
    ensures db.Valid()
    ensures status == (if CargaValida(db.asignaturas, db.matriculas, asignatura, e, filas) then Ok else Unprocessable)
    ensures status != Ok ==> unchanged(db) && creadas == 0 && errores == []
    ensures status == Ok ==>
      Carga(db.notas, db.nextNota, creadas, errores)
        == CargarTodas(db.matriculas, asignatura, e, Carga(old(db.notas), old(db.nextNota), 0, []), filas)
  {
    creadas, errores := 0, [];
    if !CargaValida(db.asignaturas, db.matriculas, asignatura, e, filas) {
      return Unprocessable, creadas, errores;
    }
    creadas, errores := CargarEn(db, asignatura, e, filas);
    status := Ok;
  }

  /** `cargarMasivo` with the ownership gate every other write of the ledger
      has: 403 for a teacher who does not own the offering, otherwise as
      `CargarMasivo`. */
  method CargarMasivoConPermiso(db: Database, user: Principal, asignatura: Id, e: Evaluacion, filas: seq<FilaNota>)
    returns (status: Status, creadas: nat, errores: seq<Id>)
    requires db.Valid()
    modifies db`notas, db`nextNota
    ensures db.Valid()
    ensures status == (if !CargaValida(db.asignaturas, db.matriculas, asignatura, e, filas) then Unprocessable
                       else if Denied(user, Propietario(db.asignaturas, asignatura)) then Forbidden
                       else Ok)
    ensures status != Ok ==> unchanged(db) && creadas == 0 && errores == []
    ensures status == Ok ==>
      Carga(db.notas, db.nextNota, creadas, errores)
        == CargarTodas(db.matriculas, asignatura, e, Carga(old(db.notas), old(db.nextNota), 0, []), filas)
  {
    creadas, errores := 0, [];
    if !CargaValida(db.asignaturas, db.matriculas, asignatura, e, filas) {
      return Unprocessable, creadas, errores;
    }
    if Denied(user, Propietario(db.asignaturas, asignatura)) {
      return Forbidden, creadas, errores;
    }
    status, creadas, errores := CargarMasivo(db, user, asignatura, e, filas);
  }

  /** Whether a row's enrolment belongs to the offering, as a test on rows. */
  function EsDeLaAsignatura(matriculas: seq<Matricula>, asignatura: Id): FilaNota -> bool
  {
    (f: FilaNota) => DeLaAsignatura(matriculas, f.matricula, asignatura)
  }

  /** Every row is counted once, as stored or as an error; the rows stored are
      exactly those of the offering; the table only grows, by one grade under
      the next id per row stored. */
  lemma {:induction false} CargaCuenta(matriculas: seq<Matricula>, asignatura: Id, e: Evaluacion, c: Carga, filas: seq<FilaNota>)
    requires Calificables(filas)
    ensures var r := CargarTodas(matriculas, asignatura, e, c, filas);
      && r.creadas + |r.errores| == c.creadas + |c.errores| + |filas|
      && r.creadas == c.creadas + Count(filas, EsDeLaAsignatura(matriculas, asignatura))
      && |r.notas| == |c.notas| + (r.creadas - c.creadas)
      && r.next == c.next + (r.creadas - c.creadas)
      && r.notas[..|c.notas|] == c.notas
  {
    if filas != [] {
      var init, f := filas[..|filas| - 1], filas[|filas| - 1];
      assert f in filas;
      CargaCuenta(matriculas, asignatura, e, c, init);
      assert filas == init + [f];
      CountAppend(init, [f], EsDeLaAsignatura(matriculas, asignatura));
      var p := CargarTodas(matriculas, asignatura, e, c, init);
      assert |p.notas| >= |c.notas|;
      if DeLaAsignatura(matriculas, f.matricula, asignatura) {
        var n := NotaDeFila(p.next, e, f);
        assert (p.notas + [n])[..|c.notas|] == p.notas[..|c.notas|];
      }
    }
  }

  /** Every grade the loop adds carries the evaluation's name, description
      and date, a valid grade, and an enrolment of the offering that a row lists. */
  lemma {:induction false} CargaNuevas(matriculas: seq<Matricula>, asignatura: Id, e: Evaluacion, c: Carga, filas: seq<FilaNota>)
    requires Calificables(filas)
    ensures var r := CargarTodas(matriculas, asignatura, e, c, filas);
      && |r.notas| >= |c.notas|
      && r.notas[..|c.notas|] == c.notas
      && forall i :: |c.notas| <= i < |r.notas| ==>
           && r.notas[i].nombre == e.nombre && r.notas[i].descripcion == e.descripcion && r.notas[i].fecha == e.fecha
           && NotaValida(r.notas[i].nota)
           && DeLaAsignatura(matriculas, r.notas[i].matricula, asignatura)
           && exists f :: f in filas && f.matricula == r.notas[i].matricula && f.nota == r.notas[i].nota
  {
    if filas != [] {
      var init, f := filas[..|filas| - 1], filas[|filas| - 1];
      assert f in filas;
      CargaNuevas(matriculas, asignatura, e, c, init);
      var p := CargarTodas(matriculas, asignatura, e, c, init);
      if DeLaAsignatura(matriculas, f.matricula, asignatura) {
        var n := NotaDeFila(p.next, e, f);
        var r := p.notas + [n];
        assert r[..|c.notas|] == p.notas[..|c.notas|];
        forall i | |c.notas| <= i < |r|
          ensures exists g :: g in filas && g.matricula == r[i].matricula && g.nota == r[i].nota
        {
          if i < |p.notas| {
            assert r[i] == p.notas[i];
            var g :| g in init && g.matricula == r[i].matricula && g.nota == r[i].nota;
            assert g in filas;
          } else {
            assert r[i] == n;
          }
        }
      } else {
        forall i | |c.notas| <= i < |p.notas|
          ensures exists g :: g in filas && g.matricula == p.notas[i].matricula && g.nota == p.notas[i].nota
        {
          var g :| g in init && g.matricula == p.notas[i].matricula && g.nota == p.notas[i].nota;
          assert g in filas;
        }
      }
    }
  }

  /** Every error the loop reports names a listed enrolment outside the offering. */
  lemma {:induction false} CargaErrores(matriculas: seq<Matricula>, asignatura: Id, e: Evaluacion, c: Carga, filas: seq<FilaNota>)
    requires Calificables(filas)
    ensures var r := CargarTodas(matriculas, asignatura, e, c, filas);
      && |r.errores| >= |c.errores|
      && r.errores[..|c.errores|] == c.errores
      && forall i :: |c.errores| <= i < |r.errores| ==>
           exists f :: f in filas && f.matricula == r.errores[i] && !DeLaAsignatura(matriculas, f.matricula, asignatura)
  {
    if filas != [] {
      var init, f := filas[..|filas| - 1], filas[|filas| - 1];
      assert f in filas;
      CargaErrores(matriculas, asignatura, e, c, init);
      var p := CargarTodas(matriculas, asignatura, e, c, init);
      var r := CargarTodas(matriculas, asignatura, e, c, filas);
      if !DeLaAsignatura(matriculas, f.matricula, asignatura) {
        assert r.errores == p.errores + [f.matricula];
        assert r.errores[..|c.errores|] == p.errores[..|c.errores|];
      }
      forall i | |c.errores| <= i < |r.errores|
        ensures exists g :: g in filas && g.matricula == r.errores[i] && !DeLaAsignatura(matriculas, g.matricula, asignatura)
      {
        if i < |p.errores| {
          assert r.errores[i] == p.errores[i];
          var g :| g in init && g.matricula == p.errores[i] && !DeLaAsignatura(matriculas, g.matricula, asignatura);
          assert g in filas;
        } else {
          assert r.errores[i] == f.matricula;
        }
      }
    }
  }

  /** The bulk upload keeps the integrity rules. */
  lemma {:induction false} CargaIntegra(asignaturas: seq<Asignatura>, matriculas: seq<Matricula>,
                                        asistencias: seq<Asistencia>, asignaciones: seq<Asignacion>,
                                        nA: Id, nM: Id, nS: Id,
                                        asignatura: Id, e: Evaluacion, c: Carga, filas: seq<FilaNota>)
    requires Calificables(filas)
    requires Integras(asignaturas, matriculas, c.notas, asistencias, asignaciones, nA, nM, c.next, nS)
    ensures var r := CargarTodas(matriculas, asignatura, e, c, filas);
      Integras(asignaturas, matriculas, r.notas, asistencias, asignaciones, nA, nM, r.next, nS)
  {
    if filas != [] {
      var init, f := filas[..|filas| - 1], filas[|filas| - 1];
      assert f in filas;
      CargaIntegra(asignaturas, matriculas, asistencias, asignaciones, nA, nM, nS, asignatura, e, c, init);
      var p := CargarTodas(matriculas, asignatura, e, c, init);
      if DeLaAsignatura(matriculas, f.matricula, asignatura) {
        var m :| m in matriculas && m.id == f.matricula && m.asignatura == asignatura;
        StoreIntegra(asignaturas, matriculas, p.notas, asistencias, asignaciones, nA, nM, p.next, nS, NotaDeFila(p.next, e, f));
      }
    }
  }

  /** The bulk upload as written lets a teacher grade an offering they do not
      own: a teacher (profesor 7) uploading a valid row for an offering of
      profesor 8 passes validation and gets a grade stored, where `store`
      answers 403 for the same grade. */
  lemma CargaAjena()
    ensures var asignaturas := [Asignatura(1, 1, 1, Some(8), "A", None, None, None, None, Some(ESTADO_ABIERTA))];
      var matriculas := [Matricula(1, 1, 1, 0, Some(ESTADO_MATRICULADO))];
      var user := Principal(ROL_PROFESOR, Some(7));
      var filas := [FilaNota(1, 50, None)];
      var e := Evaluacion("Prueba 1", None, 0);
      && CargaValida(asignaturas, matriculas, 1, e, filas)
      && Denied(user, Propietario(asignaturas, 1))
      && Denied(user, PropietarioDeMatricula(asignaturas, matriculas, 1))
      && CargarTodas(matriculas, 1, e, Carga([], 1, 0, []), filas).creadas == 1
  {
    var asignaturas := [Asignatura(1, 1, 1, Some(8), "A", None, None, None, None, Some(ESTADO_ABIERTA))];
    var matriculas := [Matricula(1, 1, 1, 0, Some(ESTADO_MATRICULADO))];
    var filas := [FilaNota(1, 50, None)];
    var e := Evaluacion("Prueba 1", None, 0);
    assert !Blanco(e.nombre[0]);
    assert asignaturas[0] in asignaturas && matriculas[0] in matriculas;
    assert DeLaAsignatura(matriculas, 1, 1);
    assert filas[..0] == [];
    assert CargarTodas(matriculas, 1, e, Carga([], 1, 0, []), filas[..0]) == Carga([], 1, 0, []);
  }

  /** With the gate, a caller the gate refuses changes nothing, and a caller
      it lets through stores only grades of an offering they own (or any
      offering, for a role other than teacher). */
  lemma ConPermisoSoloPropias(asignaturas: seq<Asignatura>, matriculas: seq<Matricula>, user: Principal,
                              asignatura: Id, e: Evaluacion, c: Carga, filas: seq<FilaNota>)
    requires CargaValida(asignaturas, matriculas, asignatura, e, filas)
    requires !Denied(user, Propietario(asignaturas, asignatura))
    requires Distinct(matriculas, MatriculaId)
    ensures var r := CargarTodas(matriculas, asignatura, e, c, filas);
      forall i :: |c.notas| <= i < |r.notas| ==>
        !Denied(user, PropietarioDeMatricula(asignaturas, matriculas, r.notas[i].matricula))
  {
    var r := CargarTodas(matriculas, asignatura, e, c, filas);
    CargaNuevas(matriculas, asignatura, e, c, filas);
    forall i | |c.notas| <= i < |r.notas|
      ensures !Denied(user, PropietarioDeMatricula(asignaturas, matriculas, r.notas[i].matricula))
    {
      var m :| m in matriculas && m.id == r.notas[i].matricula && m.asignatura == asignatura;
      FindUnique(matriculas, MatriculaId, m);
    }
  }

  // ---------------------------------------------------------------------------
  // Averages and status

  /** The grade values of some grades, in order. */
  function Valores(notas: seq<Nota>): (r: seq<nat>)
    ensures |r| == |notas|
    ensures forall i :: 0 <= i < |notas| ==> r[i] == notas[i].nota
  {
    seq(|notas|, i requires 0 <= i < |notas| => notas[i].nota)
  }

  /** `round($notas->avg('nota'), 1)`, and 0 when there are no grades: the
      mean rounded half up to tenths, between the lowest and highest grade. */
  function Promedio(notas: seq<Nota>): (p: nat)
    ensures notas == [] ==> p == 0
    ensures notas != [] ==> Redondeado(Sum(Valores(notas)), |notas|, p)
    ensures notas != [] ==> Min(Valores(notas)) <= p <= Max(Valores(notas))
  {
    if notas == [] then 0
    else
      var v := Valores(notas);
      MeanWithinMinMax(v);
      var p := RoundDiv(SumNat(v), |v|);
      assert p == MeanRounded(v);
      p
  }

  /** The average of valid grades is a valid grade. */
  lemma PromedioValido(notas: seq<Nota>)
    requires notas != []
    requires forall n :: n in notas ==> NotaValida(n.nota)
    ensures NotaValida(Promedio(notas))
  {
    var v := Valores(notas);
    forall i | 0 <= i < |v|
      ensures NOTA_MINIMA <= v[i] <= NOTA_MAXIMA
    {
      assert notas[i] in notas;
    }
    MeanWithin(v, NOTA_MINIMA, NOTA_MAXIMA);
  }

  /** `'Aprobado'` or `'Reprobado'`. */
  datatype Situacion = Aprobado | Reprobado

  /** The status reported beside an average: passed from 4.0 up. */
  function SituacionDe(promedio: nat): Situacion
  {
    if promedio >= NOTA_APROBACION then Aprobado else Reprobado
  }

  lemma MulMonotone(n: nat, a: int, b: int)
    requires a <= b
    ensures n * a <= n * b
  {
  }

  /** Because the average is rounded before it is compared with 4.0, a
      student passes exactly when the unrounded mean of their grades is at
      least 3.95, i.e. twice the sum is at least 79 tenths per grade; a
      student with no grades fails. */
  lemma {:induction false} AprobadoSiMediaExacta(notas: seq<Nota>)
    ensures notas == [] ==> SituacionDe(Promedio(notas)) == Reprobado
    ensures notas != [] ==>
      (SituacionDe(Promedio(notas)) == Aprobado <==> 2 * Sum(Valores(notas)) >= (2 * NOTA_APROBACION - 1) * |notas|)
  {
    if notas != [] {
      var p, n, s := Promedio(notas), |notas|, Sum(Valores(notas));
      if p >= NOTA_APROBACION {
        MulMonotone(n, 2 * NOTA_APROBACION - 1, 2 * p - 1);
      } else {
        MulMonotone(n, 2 * p + 1, 2 * NOTA_APROBACION - 1);
      }
    }
  }

  // ---------------------------------------------------------------------------
  // Queries

  /** The grades of an enrolment, in table order. */
  function NotasDe(notas: seq<Nota>, matricula: Id): (r: seq<Nota>)
    ensures forall n :: n in r <==> n in notas && n.matricula == matricula
  {
    Filter(notas, (n: Nota) => n.matricula == matricula)
  }

  /** A student's report in one offering: their grades, how many, the average
      and the status. */
  datatype Boletin = Boletin(estudiante: Id, asignatura: Id, notas: seq<Nota>, total: nat, promedio: nat, situacion: Situacion)

  function BoletinDe(notas: seq<Nota>, m: Matricula): Boletin
  {
    var ns := NotasDe(notas, m.id);
    Boletin(m.estudiante, m.asignatura, ns, |ns|, Promedio(ns), SituacionDe(Promedio(ns)))
  }

  /** A report is consistent: its count is the number of its grades, its
      average their rounded mean and its status that of the average. */
  predicate Coherente(b: Boletin)
  {
    b.total == |b.notas| && b.promedio == Promedio(b.notas) && b.situacion == SituacionDe(b.promedio)
  }

  /** The reports of the enrolments `ms` that have at least one grade. */
  function Agrupar(ms: seq<Matricula>, notas: seq<Nota>): (r: seq<Boletin>)
    ensures forall b :: b in r ==> b.notas != [] && Coherente(b)
    ensures forall b :: b in r ==> exists m :: m in ms && b == BoletinDe(notas, m)
    ensures forall m :: m in ms && NotasDe(notas, m.id) != [] ==> BoletinDe(notas, m) in r
  {
    if ms == [] then []
    else
      var rest := Agrupar(ms[1..], notas);
      assert forall m :: m in ms <==> m == ms[0] || m in ms[1..];
      (if NotasDe(notas, ms[0].id) == [] then [] else [BoletinDe(notas, ms[0])]) + rest
  }

  /** `porAsignatura`: one report per student of the offering with grades
      (the unique key makes that one per enrolment). It has no ownership
      gate and no existence check: an unknown offering gives an empty list. */
  function PorAsignatura(matriculas: seq<Matricula>, notas: seq<Nota>, asignatura: Id): (r: seq<Boletin>)
    ensures forall b :: b in r ==> b.notas != [] && Coherente(b) && b.asignatura == asignatura
    ensures forall b, n :: b in r && n in b.notas ==> n in notas && n.matricula in MatriculasDe(matriculas, asignatura)
    ensures forall n :: n in notas && n.matricula in MatriculasDe(matriculas, asignatura) ==> exists b :: b in r && n in b.notas
  {
    var ms := DeAsignatura(matriculas, asignatura);
    var r := Agrupar(ms, notas);
    forall n | n in notas && n.matricula in MatriculasDe(matriculas, asignatura)
      ensures exists b :: b in r && n in b.notas
    {
      var m :| m in matriculas && m.asignatura == asignatura && m.id == n.matricula;
      assert n in BoletinDe(notas, m).notas;
    }
    r
  }

  /** `notasEstudianteAsignatura`: 404 when the student is not enrolled in
      the offering; otherwise the report of that enrolment, average 0 and
      failed when it has no grades. */
  function NotasEstudianteAsignatura(matriculas: seq<Matricula>, notas: seq<Nota>, estudiante: Id, asignatura: Id)
    : (r: (Status, Option<Boletin>))
    ensures r.0 == (if Enrolled(matriculas, estudiante, asignatura) then Ok else NotFound)
    ensures r.1.Some? <==> r.0 == Ok
    ensures r.1.Some? ==> Coherente(r.1.value) && r.1.value.estudiante == estudiante && r.1.value.asignatura == asignatura
    ensures r.1.Some? ==> exists m :: m in matriculas && m.estudiante == estudiante && m.asignatura == asignatura
                                      && r.1.value.notas == NotasDe(notas, m.id)
  {
    match Find(matriculas, EstudianteAsignatura, (estudiante, asignatura))
    case None => (NotFound, None)
    case Some(m) => (Ok, Some(BoletinDe(notas, m)))
  }

  /** The enrolments of a student, in table order. */
  function DelEstudiante(matriculas: seq<Matricula>, estudiante: Id): (r: seq<Matricula>)
    ensures forall m :: m in r <==> m in matriculas && m.estudiante == estudiante
  {
    Filter(matriculas, EsDelEstudiante(estudiante))
  }

  /** Whether an enrolment belongs to `estudiante`, as a test on rows. */
  function EsDelEstudiante(estudiante: Id): Matricula -> bool
  {
    (m: Matricula) => m.estudiante == estudiante
  }

  /** `notasEstudiante`: one report per enrolment of the student, in order,
      including the enrolments without grades. */
  function NotasEstudiante(matriculas: seq<Matricula>, notas: seq<Nota>, estudiante: Id): (r: seq<Boletin>)
    ensures |r| == |DelEstudiante(matriculas, estudiante)|
    ensures forall i :: 0 <= i < |r| ==>
      var m := DelEstudiante(matriculas, estudiante)[i];
      Coherente(r[i]) && r[i].estudiante == estudiante && r[i].asignatura == m.asignatura && r[i].notas == NotasDe(notas, m.id)
  {
    var ms := DelEstudiante(matriculas, estudiante);
    seq(|ms|, i requires 0 <= i < |ms| => BoletinDe(notas, ms[i]))
  }

  /** The three queries agree: for any enrolment, the per-student list, the
      per-offering list (when the enrolment has grades) and the single
      lookup report the same grades, average and status. */
  lemma {:induction false} VistasCoinciden(matriculas: seq<Matricula>, notas: seq<Nota>, m: Matricula)
    requires Distinct(matriculas, EstudianteAsignatura)
    requires m in matriculas
    ensures BoletinDe(notas, m) in NotasEstudiante(matriculas, notas, m.estudiante)
    ensures NotasDe(notas, m.id) != [] ==> BoletinDe(notas, m) in PorAsignatura(matriculas, notas, m.asignatura)
    ensures NotasEstudianteAsignatura(matriculas, notas, m.estudiante, m.asignatura) == (Ok, Some(BoletinDe(notas, m)))
  {
    var ms := DelEstudiante(matriculas, m.estudiante);
    var i :| 0 <= i < |ms| && ms[i] == m;
    assert NotasEstudiante(matriculas, notas, m.estudiante)[i] == BoletinDe(notas, m);
    assert m in DeAsignatura(matriculas, m.asignatura);
    FindUnique(matriculas, EstudianteAsignatura, m);
  }
}
