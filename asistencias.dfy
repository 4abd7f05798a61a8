/** The attendance ledger (`AsistenciaController`): single and bulk
    attendance taking, correction, deletion of a day, and the statistics the
    read-only endpoints compute. At most one record per (enrolment, day) is
    the rule the checks of `store` and `tomarMasivo` are there to keep. */
module Asistencias {
  import opened Common
  import opened Seqs
  import opened Schema
  import opened Rounding
  import opened Db

  /** The `max:500` rule on `observaciones`. */
  const MAX_OBSERVACIONES: nat := 500

  predicate ObservacionValida(o: Option<string>)
  {
    o.Some? ==> |o.value| <= MAX_OBSERVACIONES
  }

  /** Some record of the enrolment is dated that day (`whereDate('fecha', ...)`). */
  predicate Registrada(asistencias: seq<Asistencia>, matricula: Id, fecha: Date)
  {
    (matricula, fecha) in Keys(asistencias, AsistenciaDia)
  }

  /** The row `store` and `tomarMasivo` insert; `justificada` defaults to false. */
  function NuevaAsistencia(id: Id, matricula: Id, fecha: Date, presente: bool,
                           justificada: Option<bool>, observaciones: Option<string>): Asistencia
  {
    Asistencia(id, matricula, fecha, presente, justificada.Or(false), observaciones)
  }

  // ---------------------------------------------------------------------------
  // store

  /** Attendance of one enrolment on one day: 422 on an unknown enrolment or
      a long remark, 403 for a teacher who does not own the offering, 400
      when the enrolment already has a record that day, otherwise 201 with
      one new record. */
  method Store(db: Database, user: Principal, matricula: Id, fecha: Date, presente: bool,
               justificada: Option<bool>, observaciones: Option<string>) returns (status: Status)
    requires db.Valid()
    modifies db`asistencias, db`nextAsistencia
    ensures db.Valid()
    ensures status == (if !(matricula in Keys(old(db.matriculas), MatriculaId) && ObservacionValida(observaciones)) then Unprocessable
                       else if Denied(user, PropietarioDeMatricula(old(db.asignaturas), old(db.matriculas), matricula)) then Forbidden
                       else if Registrada(old(db.asistencias), matricula, fecha) then BadRequest
                       else Created)
    ensures status != Created ==> unchanged(db)
    ensures status == Created ==>
      && db.asistencias == old(db.asistencias) + [NuevaAsistencia(old(db.nextAsistencia), matricula, fecha, presente, justificada, observaciones)]
      && db.nextAsistencia == old(db.nextAsistencia) + 1
  {
    if !(matricula in Keys(db.matriculas, MatriculaId) && ObservacionValida(observaciones)) {
      return Unprocessable;
    }
    if Denied(user, PropietarioDeMatricula(db.asignaturas, db.matriculas, matricula)) {
      return Forbidden;
    }
    if Registrada(db.asistencias, matricula, fecha) {
      return BadRequest;
    }
    StoreIntegra(db.asignaturas, db.matriculas, db.notas, db.asistencias, db.asignaciones,
                 db.nextAsignatura, db.nextMatricula, db.nextNota, db.nextAsistencia,
                 NuevaAsistencia(db.nextAsistencia, matricula, fecha, presente, justificada, observaciones));
    db.asistencias := db.asistencias + [NuevaAsistencia(db.nextAsistencia, matricula, fecha, presente, justificada, observaciones)];
    db.nextAsistencia := db.nextAsistencia + 1;
    status := Created;
  }

  /** A record added for an enrolment with no record that day keeps one
      record per (enrolment, day); so does every sequence of `store` calls. */
  lemma StoreUnaPorDia(asistencias: seq<Asistencia>, a: Asistencia)
    requires OnePerDay(asistencias)
    requires !Registrada(asistencias, a.matricula, a.fecha)
    ensures OnePerDay(asistencias + [a])
  {
    forall i | 0 <= i < |asistencias|
      ensures AsistenciaDia(asistencias[i]) != AsistenciaDia(a)
    {
      assert asistencias[i] in asistencias;
    }
    DistinctAppend(asistencias, AsistenciaDia, a);
  }

  /** A record of an existing enrolment under the next id keeps the integrity rules. */
  lemma StoreIntegra(asignaturas: seq<Asignatura>, matriculas: seq<Matricula>, notas: seq<Nota>,
                     asistencias: seq<Asistencia>, asignaciones: seq<Asignacion>,
                     nA: Id, nM: Id, nN: Id, nS: Id, a: Asistencia)
    requires Integras(asignaturas, matriculas, notas, asistencias, asignaciones, nA, nM, nN, nS)
    requires a.id == nS && a.matricula in Keys(matriculas, MatriculaId)
    ensures Integras(asignaturas, matriculas, notas, asistencias + [a], asignaciones, nA, nM, nN, nS + 1)
  {
    forall i | 0 <= i < |asistencias|
      ensures AsistenciaId(asistencias[i]) != AsistenciaId(a)
    {
    }
    DistinctAppend(asistencias, AsistenciaId, a);
    BelowAppend(asistencias, AsistenciaId, nS, a);
    assert forall x :: x in asistencias + [a] <==> x in asistencias || x == a;
  }

  // ---------------------------------------------------------------------------
  // update

  /** A record corrected: `presente` and `observaciones` replaced (a missing
      remark becomes NULL), `justificada` replaced only when one is given. */
  function Corregida(a: Asistencia, presente: bool, justificada: Option<bool>, observaciones: Option<string>): Asistencia
  {
    a.(presente := presente, justificada := justificada.Or(a.justificada), observaciones := observaciones)
  }

  /** The table with record `id` corrected. */
  function ConCorreccion(asistencias: seq<Asistencia>, id: Id, presente: bool, justificada: Option<bool>,
                         observaciones: Option<string>): (r: seq<Asistencia>)
    ensures |r| == |asistencias|
  {
    seq(|asistencias|, i requires 0 <= i < |asistencias| =>
      if asistencias[i].id == id then Corregida(asistencias[i], presente, justificada, observaciones) else asistencias[i])
  }

  /** Looking any record up by id after a correction finds the row found
      before, corrected when it is `id`; its enrolment, day and id never change. */
  lemma {:induction false} CorreccionFila(asistencias: seq<Asistencia>, id: Id, presente: bool, justificada: Option<bool>,
                                          observaciones: Option<string>, k: Id)
    ensures Find(ConCorreccion(asistencias, id, presente, justificada, observaciones), AsistenciaId, k)
         == match Find(asistencias, AsistenciaId, k)
            case None => None
            case Some(x) => Some(if k == id then Corregida(x, presente, justificada, observaciones) else x)
  {
    if asistencias != [] {
      var r := ConCorreccion(asistencias, id, presente, justificada, observaciones);
      assert r[1..] == ConCorreccion(asistencias[1..], id, presente, justificada, observaciones);
      CorreccionFila(asistencias[1..], id, presente, justificada, observaciones, k);
    }
  }

  /** A correction keeps the integrity rules and one record per (enrolment, day). */
  lemma CorreccionIntegra(asignaturas: seq<Asignatura>, matriculas: seq<Matricula>, notas: seq<Nota>,
                          asistencias: seq<Asistencia>, asignaciones: seq<Asignacion>,
                          nA: Id, nM: Id, nN: Id, nS: Id,
                          id: Id, presente: bool, justificada: Option<bool>, observaciones: Option<string>)
    requires Integras(asignaturas, matriculas, notas, asistencias, asignaciones, nA, nM, nN, nS)
    ensures var r := ConCorreccion(asistencias, id, presente, justificada, observaciones);
      && Integras(asignaturas, matriculas, notas, r, asignaciones, nA, nM, nN, nS)
      && (OnePerDay(asistencias) ==> OnePerDay(r))
  {
    var r := ConCorreccion(asistencias, id, presente, justificada, observaciones);
    DistinctPointwise(asistencias, r, AsistenciaId);
    if OnePerDay(asistencias) {
      DistinctPointwise(asistencias, r, AsistenciaDia);
    }
    forall x | x in r
      ensures x.matricula in Keys(matriculas, MatriculaId)
    {
      var i :| 0 <= i < |r| && r[i] == x;
      assert asistencias[i] in asistencias;
    }
    forall i | 0 <= i < |r|
      ensures r[i].id < nS
    {
      assert asistencias[i].id < nS;
    }
  }

  /** Correction of one record: 422 on a long remark, 500 when the record
      does not exist, 403 for a teacher who does not own the offering,
      otherwise only that record changes. */
  method Update(db: Database, user: Principal, id: Id, presente: bool, justificada: Option<bool>,
                observaciones: Option<string>) returns (status: Status)
    requires db.Valid()
    modifies db`asistencias
    ensures db.Valid()
    ensures status == (if !ObservacionValida(observaciones) then Unprocessable
                       else if id !in Keys(old(db.asistencias), AsistenciaId) then ServerError
                       else if Denied(user, PropietarioDeMatricula(old(db.asignaturas), old(db.matriculas),
                                                                   Row(old(db.asistencias), AsistenciaId, id).matricula)) then Forbidden
                       else Ok)
    ensures status != Ok ==> unchanged(db)
    ensures status == Ok ==> db.asistencias == ConCorreccion(old(db.asistencias), id, presente, justificada, observaciones)
  {
    if !ObservacionValida(observaciones) {
      return Unprocessable;
    }
    if id !in Keys(db.asistencias, AsistenciaId) {
      return ServerError;
    }
    var a := Row(db.asistencias, AsistenciaId, id);
    if Denied(user, PropietarioDeMatricula(db.asignaturas, db.matriculas, a.matricula)) {
      return Forbidden;
    }
    CorreccionIntegra(db.asignaturas, db.matriculas, db.notas, db.asistencias, db.asignaciones,
                      db.nextAsignatura, db.nextMatricula, db.nextNota, db.nextAsistencia,
                      id, presente, justificada, observaciones);
    db.EscribirAsistencias(ConCorreccion(db.asistencias, id, presente, justificada, observaciones));
    status := Ok;
  }

  // ---------------------------------------------------------------------------
  // tomarMasivo

  /** One entry of the `asistencias` array of the request. */
  datatype Fila = Fila(matricula: Id, presente: bool, justificada: Option<bool>, observaciones: Option<string>)

  /** The validation rules of `tomarMasivo`; `required|array` refuses an empty list. */
  predicate MasivoValido(asignaturas: seq<Asignatura>, matriculas: seq<Matricula>, asignatura: Id, filas: seq<Fila>)
  {
    && asignatura in Keys(asignaturas, AsignaturaId)
    && filas != []
    && forall f :: f in filas ==> f.matricula in Keys(matriculas, MatriculaId) && ObservacionValida(f.observaciones)
  }

  /** The pre-check: some listed enrolment already has a record that day. */
  predicate YaTomada(asistencias: seq<Asistencia>, filas: seq<Fila>, fecha: Date)
  {
    exists f :: f in filas && Registrada(asistencias, f.matricula, fecha)
  }

  /** The progress of the loop: the table, the next id, `registradas` and `errores`. */
  datatype Toma = Toma(asistencias: seq<Asistencia>, next: Id, registradas: nat, errores: seq<Id>)

  /** One row of the loop: an error when the enrolment is not in the offering,
      otherwise one record more. */
  function Registrar(matriculas: seq<Matricula>, asignatura: Id, fecha: Date, t: Toma, f: Fila): Toma
  {
    if !DeLaAsignatura(matriculas, f.matricula, asignatura) then
      t.(errores := t.errores + [f.matricula])
    else
      Toma(t.asistencias + [NuevaAsistencia(t.next, f.matricula, fecha, f.presente, f.justificada, f.observaciones)],
           t.next + 1, t.registradas + 1, t.errores)
  }

  /** The loop over the rows, in order. */
  function RegistrarTodas(matriculas: seq<Matricula>, asignatura: Id, fecha: Date, t: Toma, filas: seq<Fila>): Toma
    decreases |filas|
  {
    if filas == [] then t
    else Registrar(matriculas, asignatura, fecha, RegistrarTodas(matriculas, asignatura, fecha, t, filas[..|filas| - 1]), filas[|filas| - 1])
  }

  /** The loop of `tomarMasivo` on the database. */
  method TomarTodas(db: Database, asignatura: Id, fecha: Date, filas: seq<Fila>) returns (registradas: nat, errores: seq<Id>)
    requires db.Valid()
    modifies db`asistencias, db`nextAsistencia
    ensures db.Valid()
    ensures Toma(db.asistencias, db.nextAsistencia, registradas, errores)
         == RegistrarTodas(db.matriculas, asignatura, fecha, Toma(old(db.asistencias), old(db.nextAsistencia), 0, []), filas)
  {
    registradas, errores := 0, [];
    ghost var inicio := Toma(db.asistencias, db.nextAsistencia, 0, []);
    TomaIntegra(db.asignaturas, db.matriculas, db.notas, db.asignaciones, db.nextAsignatura, db.nextMatricula, db.nextNota,
                asignatura, fecha, inicio, filas);
    var i := 0;
    while i < |filas|
      invariant 0 <= i <= |filas|
      invariant Toma(db.asistencias, db.nextAsistencia, registradas, errores)
             == RegistrarTodas(db.matriculas, asignatura, fecha, inicio, filas[..i])
    {
      var f := filas[i];
      assert filas[..i + 1][..i] == filas[..i];
      if !DeLaAsignatura(db.matriculas, f.matricula, asignatura) {
        errores := errores + [f.matricula];
      } else {
        db.asistencias := db.asistencias + [NuevaAsistencia(db.nextAsistencia, f.matricula, fecha, f.presente, f.justificada, f.observaciones)];
        db.nextAsistencia := db.nextAsistencia + 1;
        registradas := registradas + 1;
      }
      i := i + 1;
    }
    assert filas[..i] == filas;
  }

  /** Bulk attendance of an offering on one day: 422 on invalid input, 403
      for a teacher who does not own the offering, 400 (nothing inserted)
      when any listed enrolment already has a record that day; otherwise
      every row is either recorded or reported as an error. */
  method TomarMasivo(db: Database, user: Principal, asignatura: Id, fecha: Date, filas: seq<Fila>)
    returns (status: Status, registradas: nat, errores: seq<Id>)
    requires db.Valid()
    modifies db`asistencias, db`nextAsistencia
    ensures db.Valid()
    ensures status == (if !MasivoValido(old(db.asignaturas), old(db.matriculas), asignatura, filas) then Unprocessable
                       else if Denied(user, Propietario(old(db.asignaturas), asignatura)) then Forbidden
                       else if YaTomada(old(db.asistencias), filas, fecha) then BadRequest
                       else Ok)
    ensures status != Ok ==> unchanged(db) && registradas == 0 && errores == []
    ensures status == Ok ==>
      Toma(db.asistencias, db.nextAsistencia, registradas, errores)
        == RegistrarTodas(old(db.matriculas), asignatura, fecha, Toma(old(db.asistencias), old(db.nextAsistencia), 0, []), filas)
  {
    registradas, errores := 0, [];
    if !MasivoValido(db.asignaturas, db.matriculas, asignatura, filas) {
      return Unprocessable, registradas, errores;
    }
    if Denied(user, Propietario(db.asignaturas, asignatura)) {
      return Forbidden, registradas, errores;
    }
    if YaTomada(db.asistencias, filas, fecha) {
      return BadRequest, registradas, errores;
    }
    registradas, errores := TomarTodas(db, asignatura, fecha, filas);
    status := Ok;
  }

  /** No enrolment listed twice: the `distinct` rule the corrected bulk take adds. */
  predicate SinRepetir(filas: seq<Fila>)
  {
    forall i, j :: 0 <= i < j < |filas| ==> filas[i].matricula != filas[j].matricula
  }

  /** `tomarMasivo` with the `distinct` rule on `asistencias.*.id_matricula`:
      422 when an enrolment is listed twice, otherwise as `TomarMasivo`. */
  method TomarMasivoSinRepetir(db: Database, user: Principal, asignatura: Id, fecha: Date, filas: seq<Fila>)
    returns (status: Status, registradas: nat, errores: seq<Id>)
    requires db.Valid()
    modifies db`asistencias, db`nextAsistencia
    ensures db.Valid()
    ensures status == (if !(MasivoValido(old(db.asignaturas), old(db.matriculas), asignatura, filas) && SinRepetir(filas)) then Unprocessable
                       else if Denied(user, Propietario(old(db.asignaturas), asignatura)) then Forbidden
                       else if YaTomada(old(db.asistencias), filas, fecha) then BadRequest
                       else Ok)
    ensures status != Ok ==> unchanged(db) && registradas == 0 && errores == []
    ensures status == Ok ==>
      Toma(db.asistencias, db.nextAsistencia, registradas, errores)
        == RegistrarTodas(old(db.matriculas), asignatura, fecha, Toma(old(db.asistencias), old(db.nextAsistencia), 0, []), filas)
  {
    registradas, errores := 0, [];
    if !(MasivoValido(db.asignaturas, db.matriculas, asignatura, filas) && SinRepetir(filas)) {
      return Unprocessable, registradas, errores;
    }
    status, registradas, errores := TomarMasivo(db, user, asignatura, fecha, filas);
  }

  /** Whether a row's enrolment belongs to the offering, as a test on rows. */
  function PerteneceA(matriculas: seq<Matricula>, asignatura: Id): Fila -> bool
  {
    (f: Fila) => DeLaAsignatura(matriculas, f.matricula, asignatura)
  }

  /** Every row is counted once, as recorded or as an error; the rows recorded
      are exactly those of the offering; the table only grows, by one record
      under the next id per row recorded. */
  lemma {:induction false} TomaCuenta(matriculas: seq<Matricula>, asignatura: Id, fecha: Date, t: Toma, filas: seq<Fila>)
    ensures var r := RegistrarTodas(matriculas, asignatura, fecha, t, filas);
      && r.registradas + |r.errores| == t.registradas + |t.errores| + |filas|
      && r.registradas == t.registradas + Count(filas, PerteneceA(matriculas, asignatura))
      && |r.asistencias| == |t.asistencias| + (r.registradas - t.registradas)
      && r.next == t.next + (r.registradas - t.registradas)
      && r.asistencias[..|t.asistencias|] == t.asistencias
  {
    if filas != [] {
      var init, f := filas[..|filas| - 1], filas[|filas| - 1];
      TomaCuenta(matriculas, asignatura, fecha, t, init);
      assert filas == init + [f];
      CountAppend(init, [f], PerteneceA(matriculas, asignatura));
      var p := RegistrarTodas(matriculas, asignatura, fecha, t, init);
      assert |p.asistencias| >= |t.asistencias|;
      if DeLaAsignatura(matriculas, f.matricula, asignatura) {
        var a := NuevaAsistencia(p.next, f.matricula, fecha, f.presente, f.justificada, f.observaciones);
        assert (p.asistencias + [a])[..|t.asistencias|] == p.asistencias[..|t.asistencias|];
      }
    }
  }

  /** Every record the loop adds is dated that day and belongs to a listed
      enrolment of the offering; the records before it stay. */
  lemma {:induction false} TomaNuevas(matriculas: seq<Matricula>, asignatura: Id, fecha: Date, t: Toma, filas: seq<Fila>)
    ensures var r := RegistrarTodas(matriculas, asignatura, fecha, t, filas);
      && |r.asistencias| >= |t.asistencias|
      && r.asistencias[..|t.asistencias|] == t.asistencias
      && forall i :: |t.asistencias| <= i < |r.asistencias| ==>
           && r.asistencias[i].fecha == fecha && DeLaAsignatura(matriculas, r.asistencias[i].matricula, asignatura)
           && exists f :: f in filas && f.matricula == r.asistencias[i].matricula
  {
    if filas != [] {
      var init, f := filas[..|filas| - 1], filas[|filas| - 1];
      TomaNuevas(matriculas, asignatura, fecha, t, init);
      var p := RegistrarTodas(matriculas, asignatura, fecha, t, init);
      if DeLaAsignatura(matriculas, f.matricula, asignatura) {
        var a := NuevaAsistencia(p.next, f.matricula, fecha, f.presente, f.justificada, f.observaciones);
        var r := p.asistencias + [a];
        assert r[..|t.asistencias|] == p.asistencias[..|t.asistencias|];
        forall i | |t.asistencias| <= i < |r|
          ensures r[i].fecha == fecha && DeLaAsignatura(matriculas, r[i].matricula, asignatura)
          ensures exists g :: g in filas && g.matricula == r[i].matricula
        {
          if i < |p.asistencias| {
            assert r[i] == p.asistencias[i];
            var g :| g in init && g.matricula == r[i].matricula;
            assert g in filas;
          } else {
            assert r[i] == a && f in filas;
          }
        }
      } else {
        forall i | |t.asistencias| <= i < |p.asistencias|
          ensures exists g :: g in filas && g.matricula == p.asistencias[i].matricula
        {
          var g :| g in init && g.matricula == p.asistencias[i].matricula;
          assert g in filas;
        }
      }
    }
  }

  /** Every error the loop reports names a listed enrolment outside the offering. */
  lemma {:induction false} TomaErrores(matriculas: seq<Matricula>, asignatura: Id, fecha: Date, t: Toma, filas: seq<Fila>)
    ensures var r := RegistrarTodas(matriculas, asignatura, fecha, t, filas);
      && |r.errores| >= |t.errores|
      && r.errores[..|t.errores|] == t.errores
      && forall i :: |t.errores| <= i < |r.errores| ==>
           exists f :: f in filas && f.matricula == r.errores[i] && !DeLaAsignatura(matriculas, f.matricula, asignatura)
  {
    if filas != [] {
      var init, f := filas[..|filas| - 1], filas[|filas| - 1];
      TomaErrores(matriculas, asignatura, fecha, t, init);
      var p := RegistrarTodas(matriculas, asignatura, fecha, t, init);
      var r := RegistrarTodas(matriculas, asignatura, fecha, t, filas);
      if !DeLaAsignatura(matriculas, f.matricula, asignatura) {
        assert r.errores == p.errores + [f.matricula];
        assert r.errores[..|t.errores|] == p.errores[..|t.errores|];
      }
      forall i | |t.errores| <= i < |r.errores|
        ensures exists g :: g in filas && g.matricula == r.errores[i] && !DeLaAsignatura(matriculas, g.matricula, asignatura)
      {
        if i < |p.errores| {
          assert r.errores[i] == p.errores[i];
          var g :| g in init && g.matricula == p.errores[i] && !DeLaAsignatura(matriculas, g.matricula, asignatura);
          assert g in filas;
        } else {
          assert r.errores[i] == f.matricula && f in filas;
        }
      }
    }
  }

  /** Every listed enrolment of the offering ends with a record that day. */
  lemma {:induction false} TomaCubre(matriculas: seq<Matricula>, asignatura: Id, fecha: Date, t: Toma, filas: seq<Fila>)
    ensures var r := RegistrarTodas(matriculas, asignatura, fecha, t, filas);
      forall f :: f in filas && DeLaAsignatura(matriculas, f.matricula, asignatura) ==> Registrada(r.asistencias, f.matricula, fecha)
  {
    if filas != [] {
      var init, f := filas[..|filas| - 1], filas[|filas| - 1];
      TomaCubre(matriculas, asignatura, fecha, t, init);
      var p := RegistrarTodas(matriculas, asignatura, fecha, t, init);
      var r := RegistrarTodas(matriculas, asignatura, fecha, t, filas);
      assert forall g :: g in filas ==> g in init || g == f;
      if DeLaAsignatura(matriculas, f.matricula, asignatura) {
        KeysAppend(p.asistencias, AsistenciaDia, NuevaAsistencia(p.next, f.matricula, fecha, f.presente, f.justificada, f.observaciones));
      }
    }
  }

  /** With the pre-check passed and no enrolment listed twice, the loop keeps
      one record per (enrolment, day). */
  lemma {:induction false} TomaUnaPorDia(matriculas: seq<Matricula>, asignatura: Id, fecha: Date, t: Toma, filas: seq<Fila>)
    requires OnePerDay(t.asistencias)
    requires !YaTomada(t.asistencias, filas, fecha)
    requires SinRepetir(filas)
    ensures OnePerDay(RegistrarTodas(matriculas, asignatura, fecha, t, filas).asistencias)
  {
    if filas != [] {
      var init, f := filas[..|filas| - 1], filas[|filas| - 1];
      assert forall g :: g in init ==> g in filas;
      assert SinRepetir(init) by {
        forall i, j | 0 <= i < j < |init|
          ensures init[i].matricula != init[j].matricula
        {
          assert init[i] == filas[i] && init[j] == filas[j];
        }
      }
      TomaUnaPorDia(matriculas, asignatura, fecha, t, init);
      var p := RegistrarTodas(matriculas, asignatura, fecha, t, init);
      if DeLaAsignatura(matriculas, f.matricula, asignatura) {
        TomaNuevas(matriculas, asignatura, fecha, t, init);
        assert !Registrada(p.asistencias, f.matricula, fecha) by {
          forall i | 0 <= i < |p.asistencias|
            ensures AsistenciaDia(p.asistencias[i]) != (f.matricula, fecha)
          {
            if i < |t.asistencias| {
              assert p.asistencias[i] == t.asistencias[i] && t.asistencias[i] in t.asistencias;
            } else {
              var g :| g in init && g.matricula == p.asistencias[i].matricula;
              var j :| 0 <= j < |init| && init[j] == g;
              assert filas[j] == g && filas[|filas| - 1] == f;
            }
          }
        }
        StoreUnaPorDia(p.asistencias, NuevaAsistencia(p.next, f.matricula, fecha, f.presente, f.justificada, f.observaciones));
      }
    }
  }

  /** The loop keeps the integrity rules: records go only to existing
      enrolments, under fresh ids. */
  lemma {:induction false} TomaIntegra(asignaturas: seq<Asignatura>, matriculas: seq<Matricula>, notas: seq<Nota>,
                                       asignaciones: seq<Asignacion>, nA: Id, nM: Id, nN: Id,
                                       asignatura: Id, fecha: Date, t: Toma, filas: seq<Fila>)
    requires Integras(asignaturas, matriculas, notas, t.asistencias, asignaciones, nA, nM, nN, t.next)
    ensures var r := RegistrarTodas(matriculas, asignatura, fecha, t, filas);
      Integras(asignaturas, matriculas, notas, r.asistencias, asignaciones, nA, nM, nN, r.next)
  {
    if filas != [] {
      var init, f := filas[..|filas| - 1], filas[|filas| - 1];
      TomaIntegra(asignaturas, matriculas, notas, asignaciones, nA, nM, nN, asignatura, fecha, t, init);
      var p := RegistrarTodas(matriculas, asignatura, fecha, t, init);
      if DeLaAsignatura(matriculas, f.matricula, asignatura) {
        var m :| m in matriculas && m.id == f.matricula && m.asignatura == asignatura;
        StoreIntegra(asignaturas, matriculas, notas, p.asistencias, asignaciones, nA, nM, nN, p.next,
                     NuevaAsistencia(p.next, f.matricula, fecha, f.presente, f.justificada, f.observaciones));
      }
    }
  }

  /** Taking the same list on the same day again adds nothing: either the
      first take recorded a row, and the pre-check of the second refuses the
      whole batch, or no row was of the offering, and none is now. */
  lemma SegundaToma(matriculas: seq<Matricula>, asignatura: Id, fecha: Date, t: Toma, filas: seq<Fila>)
    ensures var r := RegistrarTodas(matriculas, asignatura, fecha, t, filas);
      || YaTomada(r.asistencias, filas, fecha)
      || RegistrarTodas(matriculas, asignatura, fecha, r, filas).asistencias == r.asistencias
  {
    var r := RegistrarTodas(matriculas, asignatura, fecha, t, filas);
    TomaCubre(matriculas, asignatura, fecha, t, filas);
    if Count(filas, PerteneceA(matriculas, asignatura)) > 0 {
      var f :| f in filas && PerteneceA(matriculas, asignatura)(f);
      assert Registrada(r.asistencias, f.matricula, fecha);
    } else {
      TomaCuenta(matriculas, asignatura, fecha, r, filas);
      var r2 := RegistrarTodas(matriculas, asignatura, fecha, r, filas);
      assert r2.asistencias == r2.asistencias[..|r.asistencias|];
    }
  }

  /** The bulk take as written lets a list that names one enrolment twice
      record that enrolment twice on the same day: the pre-check looks only at
      the records stored before the loop. */
  lemma TomaDuplicada()
    ensures var matriculas := [Matricula(1, 1, 1, 0, Some(ESTADO_MATRICULADO))];
      var fila := Fila(1, true, None, None);
      var t := Toma([], 1, 0, []);
      && !YaTomada(t.asistencias, [fila, fila], 0)
      && RegistrarTodas(matriculas, 1, 0, t, [fila, fila]).registradas == 2
      && !OnePerDay(RegistrarTodas(matriculas, 1, 0, t, [fila, fila]).asistencias)
  {
    var matriculas := [Matricula(1, 1, 1, 0, Some(ESTADO_MATRICULADO))];
    var fila := Fila(1, true, None, None);
    var t := Toma([], 1, 0, []);
    assert [fila, fila][..1] == [fila];
    assert [fila][..0] == [];
    assert DeLaAsignatura(matriculas, 1, 1) by {
      assert matriculas[0] in matriculas;
    }
    assert RegistrarTodas(matriculas, 1, 0, t, []) == t;
    var r1 := RegistrarTodas(matriculas, 1, 0, t, [fila]);
    assert r1 == Registrar(matriculas, 1, 0, RegistrarTodas(matriculas, 1, 0, t, [fila][..0]), fila);
    assert r1.asistencias == [NuevaAsistencia(1, 1, 0, true, None, None)];
    var r := RegistrarTodas(matriculas, 1, 0, t, [fila, fila]);
    assert r == Registrar(matriculas, 1, 0, r1, fila);
    assert r.asistencias == [NuevaAsistencia(1, 1, 0, true, None, None), NuevaAsistencia(2, 1, 0, true, None, None)];
    assert AsistenciaDia(r.asistencias[0]) == AsistenciaDia(r.asistencias[1]);
  }

  // ---------------------------------------------------------------------------
  // eliminarPorFecha

  /** A record of one of the enrolments `ids` dated `fecha`. */
  predicate DelDia(ids: set<Id>, fecha: Date, a: Asistencia)
  {
    a.matricula in ids && a.fecha == fecha
  }

  function DelDiaDe(ids: set<Id>, fecha: Date): Asistencia -> bool
  {
    (a: Asistencia) => DelDia(ids, fecha, a)
  }

  function FueraDelDia(ids: set<Id>, fecha: Date): Asistencia -> bool
  {
    (a: Asistencia) => !DelDia(ids, fecha, a)
  }

  /** Deletion of one day of an offering, so it can be taken again: 422 on an
      unknown offering, 403 for a teacher who does not own it; otherwise the
      records of its enrolments dated that day are deleted and counted. */
  method EliminarPorFecha(db: Database, user: Principal, asignatura: Id, fecha: Date) returns (status: Status, eliminadas: nat)
    requires db.Valid()
    modifies db`asistencias
    ensures db.Valid()
    ensures status == (if asignatura !in Keys(old(db.asignaturas), AsignaturaId) then Unprocessable
                       else if Denied(user, Propietario(old(db.asignaturas), asignatura)) then Forbidden
                       else Ok)
    ensures status != Ok ==> unchanged(db) && eliminadas == 0
    ensures status == Ok ==>
      var ids := MatriculasDe(old(db.matriculas), asignatura);
      && db.asistencias == Filter(old(db.asistencias), FueraDelDia(ids, fecha))
      && eliminadas == Count(old(db.asistencias), DelDiaDe(ids, fecha))
  {
    eliminadas := 0;
    if asignatura !in Keys(db.asignaturas, AsignaturaId) {
      return Unprocessable, eliminadas;
    }
    if Denied(user, Propietario(db.asignaturas, asignatura)) {
      return Forbidden, eliminadas;
    }
    var ids := MatriculasDe(db.matriculas, asignatura);
    EliminarPermiteRetomar(db.asignaturas, db.matriculas, db.notas, db.asistencias, db.asignaciones,
                           db.nextAsignatura, db.nextMatricula, db.nextNota, db.nextAsistencia, asignatura, fecha, []);
    eliminadas := Count(db.asistencias, DelDiaDe(ids, fecha));
    db.EscribirAsistencias(Filter(db.asistencias, FueraDelDia(ids, fecha)));
    status := Ok;
  }

  /** Exactly the offering's records of that day go, every other record stays,
      and the count returned is the number of rows that went. */
  lemma EliminarExacto(asistencias: seq<Asistencia>, ids: set<Id>, fecha: Date)
    ensures forall a :: a in Filter(asistencias, FueraDelDia(ids, fecha)) <==> a in asistencias && !DelDia(ids, fecha, a)
    ensures Count(asistencias, DelDiaDe(ids, fecha)) + |Filter(asistencias, FueraDelDia(ids, fecha))| == |asistencias|
  {
    CountPartition(asistencias, DelDiaDe(ids, fecha), FueraDelDia(ids, fecha));
    CountIsFilterLength(asistencias, FueraDelDia(ids, fecha));
  }

  /** After the deletion none of the offering's enrolments has a record that
      day, so a bulk take of them passes the pre-check; the integrity rules
      and one record per (enrolment, day) are kept. */
  lemma EliminarPermiteRetomar(asignaturas: seq<Asignatura>, matriculas: seq<Matricula>, notas: seq<Nota>,
                               asistencias: seq<Asistencia>, asignaciones: seq<Asignacion>,
                               nA: Id, nM: Id, nN: Id, nS: Id, asignatura: Id, fecha: Date, filas: seq<Fila>)
    requires Integras(asignaturas, matriculas, notas, asistencias, asignaciones, nA, nM, nN, nS)
    requires forall f :: f in filas ==> DeLaAsignatura(matriculas, f.matricula, asignatura)
    ensures var r := Filter(asistencias, FueraDelDia(MatriculasDe(matriculas, asignatura), fecha));
      && !YaTomada(r, filas, fecha)
      && Integras(asignaturas, matriculas, notas, r, asignaciones, nA, nM, nN, nS)
      && (OnePerDay(asistencias) ==> OnePerDay(r))
  {
    var ids := MatriculasDe(matriculas, asignatura);
    var r := Filter(asistencias, FueraDelDia(ids, fecha));
    forall f | f in filas
      ensures !Registrada(r, f.matricula, fecha)
    {
      var m :| m in matriculas && m.id == f.matricula && m.asignatura == asignatura;
      assert f.matricula in ids;
    }
    DistinctFilter(asistencias, FueraDelDia(ids, fecha), AsistenciaId);
    if OnePerDay(asistencias) {
      DistinctFilter(asistencias, FueraDelDia(ids, fecha), AsistenciaDia);
    }
    BelowFilter(asistencias, FueraDelDia(ids, fecha), AsistenciaId, nS);
  }

  // ---------------------------------------------------------------------------
  // Statistics of porAsignatura, listaEstudiantes and estadisticas.

  function EsPresente(a: Asistencia): bool { a.presente }
  function EsAusente(a: Asistencia): bool { !a.presente }
  function EsJustificada(a: Asistencia): bool { a.justificada }

  /** `total_clases`, `presentes`, `ausentes`, `justificadas` and the
      attendance percentage (hundredths) of some records. */
  datatype Resumen = Resumen(total: nat, presentes: nat, ausentes: nat, justificadas: nat, porcentaje: nat)

  function ResumenDe(registros: seq<Asistencia>): (r: Resumen)
    ensures r.total == |registros|
    ensures r.presentes + r.ausentes == r.total
    ensures r.justificadas == Count(registros, EsJustificada) <= r.total
    ensures r.porcentaje <= 10000
    ensures r.total == 0 ==> r.porcentaje == 0
    ensures r.total > 0 ==> Redondeado(10000 * r.presentes, r.total, r.porcentaje)
  {
    var presentes := Count(registros, EsPresente);
    Resumen(|registros|, presentes, |registros| - presentes, Count(registros, EsJustificada), Percent(presentes, |registros|))
  }

  /** `ausentes` is the number of absent records: each record is present or absent. */
  lemma ResumenAusentes(registros: seq<Asistencia>)
    ensures ResumenDe(registros).ausentes == Count(registros, EsAusente)
    ensures ResumenDe(registros).presentes == Count(registros, EsPresente)
  {
    CountPartition(registros, EsPresente, EsAusente);
  }

  /** The optional filters of `porAsignatura`: one day, and a range when both ends are sent. */
  datatype Filtro = Filtro(fecha: Param<Date>, desde: Param<Date>, hasta: Param<Date>)

  /** `whereDate('fecha', ...)` when the day is sent (a null day matches no
      record), and `whereBetween` when both ends are. */
  predicate EnFiltro(filtro: Filtro, a: Asistencia)
  {
    Coincide(filtro.fecha, a.fecha) && EntreFechas(filtro.desde, filtro.hasta, a.fecha)
  }

  /** The records of enrolment `matricula` that pass the filter. */
  function RegistrosDe(asistencias: seq<Asistencia>, matricula: Id, filtro: Filtro): (r: seq<Asistencia>)
    ensures forall a :: a in r <==> a in asistencias && a.matricula == matricula && EnFiltro(filtro, a)
  {
    Filter(asistencias, (a: Asistencia) => a.matricula == matricula && EnFiltro(filtro, a))
  }

  /** One entry of `porAsignatura`: a student, their statistics and their records. */
  datatype DeEstudiante = DeEstudiante(estudiante: Id, estadisticas: Resumen, detalle: seq<Asistencia>)

  /** The entries of the enrolments `ms` that have at least one record. */
  function Agrupar(ms: seq<Matricula>, asistencias: seq<Asistencia>, filtro: Filtro): (r: seq<DeEstudiante>)
    ensures forall e :: e in r ==> e.detalle != [] && e.estadisticas == ResumenDe(e.detalle)
    ensures forall e :: e in r ==> exists m :: m in ms && m.estudiante == e.estudiante && e.detalle == RegistrosDe(asistencias, m.id, filtro)
    ensures forall m :: m in ms && RegistrosDe(asistencias, m.id, filtro) != [] ==>
      DeEstudiante(m.estudiante, ResumenDe(RegistrosDe(asistencias, m.id, filtro)), RegistrosDe(asistencias, m.id, filtro)) in r
  {
    if ms == [] then []
    else
      var registros := RegistrosDe(asistencias, ms[0].id, filtro);
      var rest := Agrupar(ms[1..], asistencias, filtro);
      assert forall m :: m in ms <==> m == ms[0] || m in ms[1..];
      (if registros == [] then [] else [DeEstudiante(ms[0].estudiante, ResumenDe(registros), registros)]) + rest
  }

  /** Every record of the offering's enrolments that passes the filter is in
      the entry of its enrolment, and only such records are. */
  lemma AgruparCubre(matriculas: seq<Matricula>, asistencias: seq<Asistencia>, asignatura: Id, filtro: Filtro)
    ensures var r := Agrupar(DeAsignatura(matriculas, asignatura), asistencias, filtro);
      && (forall e, a :: e in r && a in e.detalle ==>
            a in asistencias && EnFiltro(filtro, a) && a.matricula in MatriculasDe(matriculas, asignatura))
      && (forall a :: a in asistencias && EnFiltro(filtro, a) && a.matricula in MatriculasDe(matriculas, asignatura)
            ==> exists e :: e in r && a in e.detalle)
  {
    var ms := DeAsignatura(matriculas, asignatura);
    var r := Agrupar(ms, asistencias, filtro);
    forall e, a | e in r && a in e.detalle
      ensures a in asistencias && EnFiltro(filtro, a) && a.matricula in MatriculasDe(matriculas, asignatura)
    {
      var m :| m in ms && m.estudiante == e.estudiante && e.detalle == RegistrosDe(asistencias, m.id, filtro);
    }
    forall a | a in asistencias && EnFiltro(filtro, a) && a.matricula in MatriculasDe(matriculas, asignatura)
      ensures exists e :: e in r && a in e.detalle
    {
      var m :| m in matriculas && m.asignatura == asignatura && m.id == a.matricula;
      var registros := RegistrosDe(asistencias, m.id, filtro);
      assert a in registros;
      assert DeEstudiante(m.estudiante, ResumenDe(registros), registros) in r;
    }
  }

  /** `porAsignatura`: 500 when the offering does not exist, 403 for a
      teacher who does not own it; otherwise one entry per student with
      records (the unique key makes that one per enrolment), whose statistics
      are those of their filtered records. */
  function PorAsignatura(asignaturas: seq<Asignatura>, matriculas: seq<Matricula>, asistencias: seq<Asistencia>,
                         user: Principal, asignatura: Id, filtro: Filtro): (r: (Status, seq<DeEstudiante>))
    ensures r.0 == (if asignatura !in Keys(asignaturas, AsignaturaId) then ServerError
                    else if Denied(user, Propietario(asignaturas, asignatura)) then Forbidden
                    else Ok)
    ensures r.0 != Ok ==> r.1 == []
    ensures forall e :: e in r.1 ==> e.detalle != [] && e.estadisticas == ResumenDe(e.detalle)
    ensures forall e, a :: e in r.1 && a in e.detalle ==>
      (a in asistencias && EnFiltro(filtro, a) && a.matricula in MatriculasDe(matriculas, asignatura))
    ensures r.0 == Ok ==> forall a :: a in asistencias && EnFiltro(filtro, a) && a.matricula in MatriculasDe(matriculas, asignatura)
                                      ==> exists e :: e in r.1 && a in e.detalle
  {
    if asignatura !in Keys(asignaturas, AsignaturaId) then (ServerError, [])
    else if Denied(user, Propietario(asignaturas, asignatura)) then (Forbidden, [])
    else
      AgruparCubre(matriculas, asistencias, asignatura, filtro);
      (Ok, Agrupar(DeAsignatura(matriculas, asignatura), asistencias, filtro))
  }

  /** `v` is a record of the table that no later record of the same
      enrolment and day follows. */
  ghost predicate UltimoDelDia(asistencias: seq<Asistencia>, matricula: Id, fecha: Date, v: Asistencia)
  {
    exists i :: 0 <= i < |asistencias| && asistencias[i] == v &&
      forall j :: i < j < |asistencias| ==> asistencias[j].matricula != matricula || asistencias[j].fecha != fecha
  }

  /** The record `keyBy('id_matricula')` keeps for an enrolment on a day: the
      last one in table order. */
  function DelDiaDeMatricula(asistencias: seq<Asistencia>, matricula: Id, fecha: Date): (r: Option<Asistencia>)
    ensures r.Some? ==> r.value in asistencias && r.value.matricula == matricula && r.value.fecha == fecha
    ensures r.Some? ==> UltimoDelDia(asistencias, matricula, fecha, r.value)
    ensures r.None? <==> !Registrada(asistencias, matricula, fecha)
    decreases |asistencias|
  {
    if asistencias == [] then None
    else
      var last := asistencias[|asistencias| - 1];
      var init := asistencias[..|asistencias| - 1];
      assert asistencias == init + [last];
      KeysAppend(init, AsistenciaDia, last);
      if last.matricula == matricula && last.fecha == fecha then
        assert asistencias[|asistencias| - 1] == last;
        Some(last)
      else
        var r := DelDiaDeMatricula(init, matricula, fecha);
        UltimoTrasOtro(init, last, matricula, fecha, r);
        r
  }

  /** A record that does not match keeps the last match of the rows before it the last. */
  lemma UltimoTrasOtro(init: seq<Asistencia>, last: Asistencia, matricula: Id, fecha: Date, r: Option<Asistencia>)
    requires r.Some? ==> UltimoDelDia(init, matricula, fecha, r.value)
    requires last.matricula != matricula || last.fecha != fecha
    ensures r.Some? ==> UltimoDelDia(init + [last], matricula, fecha, r.value)
  {
    if r.Some? {
      var s := init + [last];
      var i :| 0 <= i < |init| && init[i] == r.value &&
        forall j :: i < j < |init| ==> init[j].matricula != matricula || init[j].fecha != fecha;
      assert s[i] == r.value;
      assert forall j :: i < j < |s| ==> s[j] == (if j < |init| then init[j] else last);
    }
  }

  /** One entry of `listaEstudiantes`. */
  datatype EnLista = EnLista(matricula: Id, estudiante: Id, registrada: Option<Asistencia>)

  /** `fecha` is NULL when the request sent the day as null. */
  datatype Lista = Lista(fecha: Option<Date>, totalEstudiantes: nat, yaRegistrada: bool, estudiantes: seq<EnLista>)

  /** The entry of enrolment `m`: the record `keyBy` keeps for it that day;
      none when the day is NULL, since `whereDate` with NULL matches no record. */
  function EnListaDe(asistencias: seq<Asistencia>, fecha: Option<Date>, m: Matricula): EnLista
  {
    EnLista(m.id, m.estudiante, if fecha.None? then None else DelDiaDeMatricula(asistencias, m.id, fecha.value))
  }

  /** `ya_registrada`: some enrolment of the list has a record that day. */
  predicate AlgunaRegistrada(asistencias: seq<Asistencia>, ms: seq<Matricula>, fecha: Option<Date>)
  {
    fecha.Some? && exists m :: m in ms && Registrada(asistencias, m.id, fecha.value)
  }

  /** `listaEstudiantes`: the day defaults to today when it is not sent and
      is NULL when it is sent as null; 500 when the offering does not exist,
      403 for a teacher who does not own it; otherwise one entry per
      enrolment of the offering, in order, with its student and the record
      `keyBy` keeps for it that day (the last in table order), if any;
      `total_estudiantes` their number, and `ya_registrada` whether any of
      them has a record that day. */
  function ListaEstudiantes(asignaturas: seq<Asignatura>, matriculas: seq<Matricula>, asistencias: seq<Asistencia>,
                            user: Principal, asignatura: Id, fecha: Param<Date>, hoy: Date): (r: (Status, Lista))
    ensures r.0 == (if asignatura !in Keys(asignaturas, AsignaturaId) then ServerError
                    else if Denied(user, Propietario(asignaturas, asignatura)) then Forbidden
                    else Ok)
    ensures r.0 == Ok ==>
      && (fecha.Absent? ==> r.1.fecha == Some(hoy))
      && (fecha.Null? ==> r.1.fecha == None)
      && (fecha.Given? ==> r.1.fecha == Some(fecha.value))
      && r.1.totalEstudiantes == |r.1.estudiantes| == |DeAsignatura(matriculas, asignatura)|
      && (forall i :: 0 <= i < |r.1.estudiantes| ==>
            var m := DeAsignatura(matriculas, asignatura)[i];
            && r.1.estudiantes[i].matricula == m.id && r.1.estudiantes[i].estudiante == m.estudiante
            && r.1.estudiantes[i].registrada == (if r.1.fecha.None? then None else DelDiaDeMatricula(asistencias, m.id, r.1.fecha.value))
            && (r.1.estudiantes[i].registrada.Some? <==> r.1.fecha.Some? && Registrada(asistencias, m.id, r.1.fecha.value)))
      && (r.1.yaRegistrada <==>
            r.1.fecha.Some? && exists m :: m in matriculas && m.asignatura == asignatura && Registrada(asistencias, m.id, r.1.fecha.value))
  {
    var dia := fecha.Valor(hoy);
    if asignatura !in Keys(asignaturas, AsignaturaId) then (ServerError, Lista(dia, 0, false, []))
    else if Denied(user, Propietario(asignaturas, asignatura)) then (Forbidden, Lista(dia, 0, false, []))
    else
      var ms := DeAsignatura(matriculas, asignatura);
      var estudiantes := seq(|ms|, i requires 0 <= i < |ms| => EnListaDe(asistencias, dia, ms[i]));
      (Ok, Lista(dia, |ms|, AlgunaRegistrada(asistencias, ms, dia), estudiantes))
  }

  /** The dates of some records. */
  function Fechas(registros: seq<Asistencia>): (r: seq<Date>)
    ensures |r| == |registros|
    ensures forall i :: 0 <= i < |r| ==> r[i] == registros[i].fecha
  {
    seq(|registros|, i requires 0 <= i < |registros| => registros[i].fecha)
  }

  /** `estadisticas`: the figures of all the records of an offering's enrolments. */
  datatype Estadisticas = Estadisticas(totalClases: nat, totalEstudiantes: nat, resumen: Resumen)

  /** The records of the enrolments `ids`. */
  function RegistrosDeMatriculas(asistencias: seq<Asistencia>, ids: set<Id>): (r: seq<Asistencia>)
    ensures forall a :: a in r <==> a in asistencias && a.matricula in ids
  {
    Filter(asistencias, (a: Asistencia) => a.matricula in ids)
  }

  /** `estadisticas`: 500 when the offering does not exist, 403 for a teacher
      who does not own it; otherwise `total_clases` is the number of distinct
      days with a record, `total_estudiantes` the number of enrolments, and
      the rest the summary of all their records. */
  function EstadisticasDe(asignaturas: seq<Asignatura>, matriculas: seq<Matricula>, asistencias: seq<Asistencia>,
                          user: Principal, asignatura: Id): (r: (Status, Estadisticas))
    ensures r.0 == (if asignatura !in Keys(asignaturas, AsignaturaId) then ServerError
                    else if Denied(user, Propietario(asignaturas, asignatura)) then Forbidden
                    else Ok)
    ensures r.0 == Ok ==>
      var registros := RegistrosDeMatriculas(asistencias, MatriculasDe(matriculas, asignatura));
      && r.1.resumen == ResumenDe(registros)
      && r.1.totalEstudiantes == |DeAsignatura(matriculas, asignatura)|
      && r.1.totalClases <= r.1.resumen.total
      && (r.1.totalClases == 0 <==> r.1.resumen.total == 0)
      && (forall d :: (exists a :: a in registros && a.fecha == d) ==> d in DistinctValues(Fechas(registros)))
      && r.1.totalClases == |DistinctValues(Fechas(registros))|
  {
    if asignatura !in Keys(asignaturas, AsignaturaId) then (ServerError, Estadisticas(0, 0, ResumenDe([])))
    else if Denied(user, Propietario(asignaturas, asignatura)) then (Forbidden, Estadisticas(0, 0, ResumenDe([])))
    else
      var registros := RegistrosDeMatriculas(asistencias, MatriculasDe(matriculas, asignatura));
      var dias := DistinctValues(Fechas(registros));
      assert registros != [] ==> Fechas(registros)[0] in dias;
      assert forall d :: (exists a :: a in registros && a.fecha == d) ==> d in dias by {
        forall d | exists a :: a in registros && a.fecha == d
          ensures d in dias
        {
          var a :| a in registros && a.fecha == d;
          var i :| 0 <= i < |registros| && registros[i] == a;
          assert Fechas(registros)[i] == d;
        }
      }
      (Ok, Estadisticas(|dias|, |DeAsignatura(matriculas, asignatura)|, ResumenDe(registros)))
  }
}
