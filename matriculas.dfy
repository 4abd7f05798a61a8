/** The enrolment ledger (`MatriculaController`): single and per-course
    enrolment with seat accounting, state change, withdrawal, and the list of
    offerings open for enrolment. */
module Matriculas {
  import opened Common
  import opened Seqs
  import opened Schema
  import opened Cupos
  import opened Db

  /** The row `store` and `matricularEnCurso` insert: state 5, "Matriculado", dated today. */
  function NuevaMatricula(id: Id, estudiante: Id, asignatura: Id, hoy: Date): Matricula
  {
    Matricula(id, estudiante, asignatura, hoy, Some(ESTADO_MATRICULADO))
  }

  // ---------------------------------------------------------------------------
  // Integrity of a single insertion or deletion.

  /** Inserting a fresh enrolment of a student not yet in the offering, and
      taking one of the offering's free seats, keeps the integrity rules. */
  lemma EnrolKeepsIntegrity(asignaturas: seq<Asignatura>, matriculas: seq<Matricula>, notas: seq<Nota>,
                            asistencias: seq<Asistencia>, asignaciones: seq<Asignacion>,
                            nA: Id, nM: Id, nN: Id, nS: Id, m: Matricula)
    requires Integras(asignaturas, matriculas, notas, asistencias, asignaciones, nA, nM, nN, nS)
    requires m.id == nM && m.asignatura in Keys(asignaturas, AsignaturaId)
    requires !Enrolled(matriculas, m.estudiante, m.asignatura)
    requires HasSeat(Row(asignaturas, AsignaturaId, m.asignatura))
    ensures Integras(AdjustSeats(asignaturas, m.asignatura, -1), matriculas + [m], notas, asistencias, asignaciones,
                     nA, nM + 1, nN, nS)
  {
    var a' := AdjustSeats(asignaturas, m.asignatura, -1);
    var row := Row(asignaturas, AsignaturaId, m.asignatura);
    AdjustSeatsKeys(asignaturas, m.asignatura, -1);
    forall a | a in asignaturas && a.id == m.asignatura && a.cupoDisponible.Some?
      ensures a.cupoDisponible.value - 1 >= 0
    {
      DistinctSameKey(asignaturas, AsignaturaId, a, row);
    }
    AdjustSeatsNonNegative(asignaturas, m.asignatura, -1);
    assert Below(a', AsignaturaId, nA) by {
      forall i | 0 <= i < |a'|
        ensures a'[i].id < nA
      {
        assert a'[i].id == asignaturas[i].id;
      }
    }
    forall i | 0 <= i < |matriculas|
      ensures MatriculaId(matriculas[i]) != MatriculaId(m)
    {
    }
    DistinctAppend(matriculas, MatriculaId, m);
    forall i | 0 <= i < |matriculas|
      ensures EstudianteAsignatura(matriculas[i]) != EstudianteAsignatura(m)
    {
      assert matriculas[i] in matriculas;
    }
    DistinctAppend(matriculas, EstudianteAsignatura, m);
    BelowAppend(matriculas, MatriculaId, nM, m);
    KeysAppend(matriculas, MatriculaId, m);
    assert MatriculasOk(matriculas + [m], a') by {
      assert forall x :: x in matriculas + [m] <==> x in matriculas || x == m;
    }
  }

  /** Deleting an enrolment, its grades and its attendance (the cascade), and
      giving its seat back, keeps the integrity rules. */
  lemma WithdrawKeepsIntegrity(asignaturas: seq<Asignatura>, matriculas: seq<Matricula>, notas: seq<Nota>,
                               asistencias: seq<Asistencia>, asignaciones: seq<Asignacion>,
                               nA: Id, nM: Id, nN: Id, nS: Id, m: Matricula)
    requires Integras(asignaturas, matriculas, notas, asistencias, asignaciones, nA, nM, nN, nS)
    requires m in matriculas
    ensures Integras(AdjustSeats(asignaturas, m.asignatura, 1), Without(matriculas, MatriculaId, {m.id}),
                     Without(notas, NotaMatricula, {m.id}), Without(asistencias, AsistenciaMatricula, {m.id}),
                     asignaciones, nA, nM, nN, nS)
  {
    var a' := AdjustSeats(asignaturas, m.asignatura, 1);
    AdjustSeatsKeys(asignaturas, m.asignatura, 1);
    AdjustSeatsNonNegative(asignaturas, m.asignatura, 1);
    assert Below(a', AsignaturaId, nA) by {
      forall i | 0 <= i < |a'|
        ensures a'[i].id < nA
      {
        assert a'[i].id == asignaturas[i].id;
      }
    }
    var rest := Without(matriculas, MatriculaId, {m.id});
    DistinctWithout(matriculas, MatriculaId, {m.id}, MatriculaId);
    DistinctWithout(matriculas, MatriculaId, {m.id}, EstudianteAsignatura);
    DistinctWithout(notas, NotaMatricula, {m.id}, NotaId);
    DistinctWithout(asistencias, AsistenciaMatricula, {m.id}, AsistenciaId);
    BelowWithout(matriculas, MatriculaId, {m.id}, MatriculaId, nM);
    BelowWithout(notas, NotaMatricula, {m.id}, NotaId, nN);
    BelowWithout(asistencias, AsistenciaMatricula, {m.id}, AsistenciaId, nS);
    forall n | n in Without(notas, NotaMatricula, {m.id})
      ensures n.matricula in Keys(rest, MatriculaId)
    {
      var x :| x in matriculas && x.id == n.matricula;
      assert x in rest;
    }
    forall a | a in Without(asistencias, AsistenciaMatricula, {m.id})
      ensures a.matricula in Keys(rest, MatriculaId)
    {
      var x :| x in matriculas && x.id == a.matricula;
      assert x in rest;
    }
  }

  // ---------------------------------------------------------------------------
  // store

  /** The `exists:` rules of `store`. */
  predicate StoreValida(catalogo: Catalogo, asignaturas: seq<Asignatura>, estudiante: Id, asignatura: Id)
  {
    catalogo.ExisteEstudiante(estudiante) && asignatura in Keys(asignaturas, AsignaturaId)
  }

  /** Enrolment in one offering: 422 on an unknown student or offering, 400
      when the student is already enrolled or no seat is free, otherwise 201
      with one new enrolment and one seat fewer in that offering. */
  method Store(db: Database, estudiante: Id, asignatura: Id, hoy: Date) returns (status: Status)
    requires db.Valid()
    modifies db`asignaturas, db`matriculas, db`nextMatricula
    ensures db.Valid()
    ensures !StoreValida(db.catalogo, old(db.asignaturas), estudiante, asignatura) ==> status == Unprocessable
    ensures StoreValida(db.catalogo, old(db.asignaturas), estudiante, asignatura) ==>
      status == (if Enrolled(old(db.matriculas), estudiante, asignatura) then BadRequest
                 else if !HasSeat(Row(old(db.asignaturas), AsignaturaId, asignatura)) then BadRequest
                 else Created)
    ensures status != Created ==> unchanged(db)
    ensures status == Created ==>
      && db.matriculas == old(db.matriculas) + [NuevaMatricula(old(db.nextMatricula), estudiante, asignatura, hoy)]
      && db.asignaturas == AdjustSeats(old(db.asignaturas), asignatura, -1)
      && db.nextMatricula == old(db.nextMatricula) + 1
  {
    if !StoreValida(db.catalogo, db.asignaturas, estudiante, asignatura) {
      return Unprocessable;
    }
    if Enrolled(db.matriculas, estudiante, asignatura) {
      return BadRequest;
    }
    var a := Row(db.asignaturas, AsignaturaId, asignatura);
    if !HasSeat(a) {
      return BadRequest;
    }
    var m := NuevaMatricula(db.nextMatricula, estudiante, asignatura, hoy);
    EnrolKeepsIntegrity(db.asignaturas, db.matriculas, db.notas, db.asistencias, db.asignaciones,
                        db.nextAsignatura, db.nextMatricula, db.nextNota, db.nextAsistencia, m);
    db.EscribirMatriculas(AdjustSeats(db.asignaturas, asignatura, -1), db.matriculas + [m], db.nextMatricula + 1);
    status := Created;
  }

  // ---------------------------------------------------------------------------
  // matricularEnCurso

  /** The `exists:` and `max:10` rules of `matricularEnCurso`. */
  predicate CursoValido(catalogo: Catalogo, estudiante: Id, curso: Id, periodo: Id, seccion: Param<string>)
  {
    && catalogo.ExisteEstudiante(estudiante)
    && catalogo.ExisteCurso(curso)
    && catalogo.ExistePeriodo(periodo)
    && (seccion.Given? ==> |seccion.value| <= 10)
  }

  /** The query of `matricularEnCurso`: the course and period, and the
      section when the key is sent; `nullable` lets a null section through,
      and `where('seccion', null)` matches no offering. */
  predicate EnOferta(a: Asignatura, curso: Id, periodo: Id, seccion: Param<string>)
  {
    a.curso == curso && a.periodo == periodo && Coincide(seccion, a.seccion)
  }

  function Ofertas(asignaturas: seq<Asignatura>, curso: Id, periodo: Id, seccion: Param<string>): (r: seq<Asignatura>)
    ensures forall a :: a in r <==> a in asignaturas && EnOferta(a, curso, periodo, seccion)
  {
    Filter(asignaturas, EnOfertaDe(curso, periodo, seccion))
  }

  function EnOfertaDe(curso: Id, periodo: Id, seccion: Param<string>): Asignatura -> bool
  {
    a => EnOferta(a, curso, periodo, seccion)
  }

  /** A section sent as null selects no offering, so `matricularEnCurso`
      answers 404 to valid input, where an absent section selects every
      section of the course. */
  lemma SeccionNula(asignaturas: seq<Asignatura>, curso: Id, periodo: Id)
    ensures Ofertas(asignaturas, curso, periodo, Null) == []
    ensures Ofertas(asignaturas, curso, periodo, Absent) == Filter(asignaturas, (a: Asignatura) => a.curso == curso && a.periodo == periodo)
  {
    var r := Ofertas(asignaturas, curso, periodo, Null);
    if r != [] {
      assert r[0] in r;
    }
    FilterSame(asignaturas, EnOfertaDe(curso, periodo, Absent), (a: Asignatura) => a.curso == curso && a.periodo == periodo);
  }

  /** The state the loop of `matricularEnCurso` carries: the two tables it
      writes and its three tallies (an error names the offering that had no seat). */
  datatype Avance = Avance(
    asignaturas: seq<Asignatura>,
    matriculas: seq<Matricula>,
    next: Id,
    matriculadas: nat,
    yaExistentes: nat,
    errores: seq<Id>)

  /** One pass of the loop body over offering `a` (as the query read it). */
  function MatricularUna(s: Avance, estudiante: Id, a: Asignatura, hoy: Date): Avance
  {
    if Enrolled(s.matriculas, estudiante, a.id) then
      s.(yaExistentes := s.yaExistentes + 1)
    else if !HasSeat(a) then
      s.(errores := s.errores + [a.id])
    else
      s.(asignaturas := AdjustSeats(s.asignaturas, a.id, -1),
         matriculas := s.matriculas + [NuevaMatricula(s.next, estudiante, a.id, hoy)],
         next := s.next + 1,
         matriculadas := s.matriculadas + 1)
  }

  /** The loop over `ofertas`, in order. */
  function MatricularTodas(s: Avance, estudiante: Id, ofertas: seq<Asignatura>, hoy: Date): Avance
    decreases |ofertas|
  {
    if ofertas == [] then s
    else MatricularUna(MatricularTodas(s, estudiante, ofertas[..|ofertas| - 1], hoy), estudiante, ofertas[|ofertas| - 1], hoy)
  }

  /** The loop over one more offering is one more pass of the body. */
  lemma MatricularTodasPaso(s: Avance, estudiante: Id, ofertas: seq<Asignatura>, i: nat, hoy: Date)
    requires i < |ofertas|
    ensures MatricularTodas(s, estudiante, ofertas[..i + 1], hoy)
         == MatricularUna(MatricularTodas(s, estudiante, ofertas[..i], hoy), estudiante, ofertas[i], hoy)
  {
    assert ofertas[..i + 1][..i] == ofertas[..i];
  }

  /** Every offering is counted exactly once: as enrolled, as already enrolled, or as an error. */
  lemma {:induction false} MatricularTodasTally(s: Avance, estudiante: Id, ofertas: seq<Asignatura>, hoy: Date)
    ensures var r := MatricularTodas(s, estudiante, ofertas, hoy);
      r.matriculadas + r.yaExistentes + |r.errores| == s.matriculadas + s.yaExistentes + |s.errores| + |ofertas|
    ensures MatricularTodas(s, estudiante, ofertas, hoy).matriculadas - s.matriculadas
         == |MatricularTodas(s, estudiante, ofertas, hoy).matriculas| - |s.matriculas|
  {
    if ofertas != [] {
      MatricularTodasTally(s, estudiante, ofertas[..|ofertas| - 1], hoy);
    }
  }

  /** Every enrolment the loop makes takes exactly one seat of its offering:
      free seats plus enrolments stay the same for every offering. */
  lemma {:induction false} MatricularTodasConserva(s: Avance, estudiante: Id, ofertas: seq<Asignatura>, hoy: Date, k: Id)
    requires Distinct(s.asignaturas, AsignaturaId)
    ensures Distinct(MatricularTodas(s, estudiante, ofertas, hoy).asignaturas, AsignaturaId)
    ensures Plazas(MatricularTodas(s, estudiante, ofertas, hoy).asignaturas, MatricularTodas(s, estudiante, ofertas, hoy).matriculas, k)
         == Plazas(s.asignaturas, s.matriculas, k)
  {
    if ofertas != [] {
      var init := ofertas[..|ofertas| - 1];
      var a := ofertas[|ofertas| - 1];
      MatricularTodasConserva(s, estudiante, init, hoy, k);
      var p := MatricularTodas(s, estudiante, init, hoy);
      if !Enrolled(p.matriculas, estudiante, a.id) && HasSeat(a) {
        AdjustSeatsKeys(p.asignaturas, a.id, -1);
        TakeSeatConserves(p.asignaturas, p.matriculas, NuevaMatricula(p.next, estudiante, a.id, hoy), k);
      }
    }
  }

  /** Best effort: afterwards the student is enrolled in every listed offering
      except those reported as errors, and an error is only ever an offering
      without a free seat. */
  lemma {:induction false} MatricularTodasCubre(s: Avance, estudiante: Id, ofertas: seq<Asignatura>, hoy: Date)
    ensures forall a :: a in ofertas ==>
      Enrolled(MatricularTodas(s, estudiante, ofertas, hoy).matriculas, estudiante, a.id)
      || a.id in MatricularTodas(s, estudiante, ofertas, hoy).errores
    ensures forall k :: k in MatricularTodas(s, estudiante, ofertas, hoy).errores ==>
      k in s.errores || exists a :: a in ofertas && a.id == k && !HasSeat(a)
  {
    if ofertas != [] {
      var init := ofertas[..|ofertas| - 1];
      var a := ofertas[|ofertas| - 1];
      MatricularTodasCubre(s, estudiante, init, hoy);
      var p := MatricularTodas(s, estudiante, init, hoy);
      var r := MatricularUna(p, estudiante, a, hoy);
      assert r == MatricularTodas(s, estudiante, ofertas, hoy);
      assert forall x :: x in ofertas <==> x in init || x == a;
      assert Keys(p.matriculas, EstudianteAsignatura) <= Keys(r.matriculas, EstudianteAsignatura) by {
        if r.matriculas != p.matriculas {
          KeysAppend(p.matriculas, EstudianteAsignatura, NuevaMatricula(p.next, estudiante, a.id, hoy));
        }
      }
      assert Enrolled(r.matriculas, estudiante, a.id) || a.id in r.errores by {
        if !Enrolled(p.matriculas, estudiante, a.id) && HasSeat(a) {
          KeysAppend(p.matriculas, EstudianteAsignatura, NuevaMatricula(p.next, estudiante, a.id, hoy));
        }
      }
      assert forall k :: k in p.errores ==> k in r.errores;
      forall k | k in r.errores
        ensures k in s.errores || exists b :: b in ofertas && b.id == k && !HasSeat(b)
      {
        if k !in p.errores {
          assert k == a.id && !HasSeat(a);
        } else if k !in s.errores {
          var b :| b in init && b.id == k && !HasSeat(b);
          assert b in ofertas;
        }
      }
    }
  }

  /** An offering the loop does not visit keeps its row. */
  lemma {:induction false} MatricularTodasIntacta(s: Avance, estudiante: Id, ofertas: seq<Asignatura>, hoy: Date, a: Asignatura)
    requires a in s.asignaturas
    requires forall b :: b in ofertas ==> b.id != a.id
    ensures a in MatricularTodas(s, estudiante, ofertas, hoy).asignaturas
  {
    if ofertas != [] {
      var init := ofertas[..|ofertas| - 1];
      var b := ofertas[|ofertas| - 1];
      assert forall x :: x in init ==> x in ofertas;
      MatricularTodasIntacta(s, estudiante, init, hoy, a);
      var p := MatricularTodas(s, estudiante, init, hoy);
      var q :| 0 <= q < |p.asignaturas| && p.asignaturas[q] == a;
      assert AdjustSeats(p.asignaturas, b.id, -1)[q] == a;
    }
  }

  /** The loop keeps the integrity rules when it runs over distinct offerings
      read from the offerings table. */
  lemma {:induction false} MatricularTodasIntegra(s: Avance, estudiante: Id, ofertas: seq<Asignatura>, hoy: Date,
                                                  notas: seq<Nota>, asistencias: seq<Asistencia>, asignaciones: seq<Asignacion>,
                                                  nA: Id, nN: Id, nS: Id)
    requires Integras(s.asignaturas, s.matriculas, notas, asistencias, asignaciones, nA, s.next, nN, nS)
    requires forall a :: a in ofertas ==> a in s.asignaturas
    requires Distinct(ofertas, AsignaturaId)
    ensures var r := MatricularTodas(s, estudiante, ofertas, hoy);
      Integras(r.asignaturas, r.matriculas, notas, asistencias, asignaciones, nA, r.next, nN, nS)
  {
    if ofertas != [] {
      var init := ofertas[..|ofertas| - 1];
      var a := ofertas[|ofertas| - 1];
      assert forall x :: x in init ==> x in ofertas;
      assert Distinct(init, AsignaturaId) by {
        forall i, j | 0 <= i < j < |init|
          ensures AsignaturaId(init[i]) != AsignaturaId(init[j])
        {
          assert init[i] == ofertas[i] && init[j] == ofertas[j];
        }
      }
      MatricularTodasIntegra(s, estudiante, init, hoy, notas, asistencias, asignaciones, nA, nN, nS);
      forall b | b in init
        ensures b.id != a.id
      {
        var i :| 0 <= i < |init| && init[i] == b;
        assert AsignaturaId(ofertas[i]) != AsignaturaId(ofertas[|ofertas| - 1]);
      }
      MatricularTodasIntacta(s, estudiante, init, hoy, a);
      var p := MatricularTodas(s, estudiante, init, hoy);
      if !Enrolled(p.matriculas, estudiante, a.id) && HasSeat(a) {
        DistinctSameKey(p.asignaturas, AsignaturaId, a, Row(p.asignaturas, AsignaturaId, a.id));
        EnrolKeepsIntegrity(p.asignaturas, p.matriculas, notas, asistencias, asignaciones, nA, p.next, nN, nS,
                            NuevaMatricula(p.next, estudiante, a.id, hoy));
      }
    }
  }

  /** The loop of `matricularEnCurso` over the offerings it selected, writing
      the tables as it goes: the enrolments, seats and tallies it leaves are
      the batch fold `MatricularTodas`. */
  method MatricularOfertas(db: Database, estudiante: Id, ofertas: seq<Asignatura>, hoy: Date)
    returns (matriculadas: nat, yaExistentes: nat, errores: seq<Id>)
    modifies db`asignaturas, db`matriculas, db`nextMatricula
    ensures Avance(db.asignaturas, db.matriculas, db.nextMatricula, matriculadas, yaExistentes, errores)
         == MatricularTodas(Avance(old(db.asignaturas), old(db.matriculas), old(db.nextMatricula), 0, 0, []),
                            estudiante, ofertas, hoy)
  {
    ghost var inicio := Avance(db.asignaturas, db.matriculas, db.nextMatricula, 0, 0, []);
    matriculadas, yaExistentes, errores := 0, 0, [];
    var i := 0;
    while i < |ofertas|
      invariant 0 <= i <= |ofertas|
      invariant Avance(db.asignaturas, db.matriculas, db.nextMatricula, matriculadas, yaExistentes, errores)
             == MatricularTodas(inicio, estudiante, ofertas[..i], hoy)
    {
      var a := ofertas[i];
      MatricularTodasPaso(inicio, estudiante, ofertas, i, hoy);
      if Enrolled(db.matriculas, estudiante, a.id) {
        yaExistentes := yaExistentes + 1;
      } else if !HasSeat(a) {
        errores := errores + [a.id];
      } else {
        db.matriculas := db.matriculas + [NuevaMatricula(db.nextMatricula, estudiante, a.id, hoy)];
        db.asignaturas := AdjustSeats(db.asignaturas, a.id, -1);
        db.nextMatricula := db.nextMatricula + 1;
        matriculadas := matriculadas + 1;
      }
      i := i + 1;
    }
    assert ofertas[..i] == ofertas;
  }

  /** Enrolment in every offering of a course and period (and section): 422 on
      unknown references, 404 when no offering matches (nothing changes),
      otherwise 201 with the loop's tallies. */
  method MatricularEnCurso(db: Database, estudiante: Id, curso: Id, periodo: Id, seccion: Param<string>, hoy: Date)
    returns (status: Status, matriculadas: nat, yaExistentes: nat, errores: seq<Id>, total: nat)
    requires db.Valid()
    modifies db`asignaturas, db`matriculas, db`nextMatricula
    ensures db.Valid()
    ensures !CursoValido(db.catalogo, estudiante, curso, periodo, seccion) ==> status == Unprocessable
    ensures CursoValido(db.catalogo, estudiante, curso, periodo, seccion) ==>
      status == if Ofertas(old(db.asignaturas), curso, periodo, seccion) == [] then NotFound else Created
    ensures status != Created ==> unchanged(db)
    ensures status == Created ==>
      var r := MatricularTodas(Avance(old(db.asignaturas), old(db.matriculas), old(db.nextMatricula), 0, 0, []),
                               estudiante, Ofertas(old(db.asignaturas), curso, periodo, seccion), hoy);
      && db.asignaturas == r.asignaturas && db.matriculas == r.matriculas && db.nextMatricula == r.next
      && matriculadas == r.matriculadas && yaExistentes == r.yaExistentes && errores == r.errores
      && total == |Ofertas(old(db.asignaturas), curso, periodo, seccion)|
      && matriculadas + yaExistentes + |errores| == total
  {
    matriculadas, yaExistentes, errores, total := 0, 0, [], 0;
    if !CursoValido(db.catalogo, estudiante, curso, periodo, seccion) {
      return Unprocessable, matriculadas, yaExistentes, errores, total;
    }
    var ofertas := Ofertas(db.asignaturas, curso, periodo, seccion);
    if ofertas == [] {
      return NotFound, matriculadas, yaExistentes, errores, total;
    }
    ghost var inicio := Avance(db.asignaturas, db.matriculas, db.nextMatricula, 0, 0, []);
    matriculadas, yaExistentes, errores := MatricularOfertas(db, estudiante, ofertas, hoy);
    MatricularTodasTally(inicio, estudiante, ofertas, hoy);
    DistinctFilter(old(db.asignaturas), EnOfertaDe(curso, periodo, seccion), AsignaturaId);
    MatricularTodasIntegra(inicio, estudiante, ofertas, hoy, db.notas, db.asistencias, db.asignaciones,
                           db.nextAsignatura, db.nextNota, db.nextAsistencia);
    db.Vigente();
    status, total := Created, |ofertas|;
  }

  // ---------------------------------------------------------------------------
  // update

  /** The enrolment `id` with its state replaced. */
  function ConEstado(matriculas: seq<Matricula>, id: Id, estado: Id): (r: seq<Matricula>)
    ensures |r| == |matriculas|
  {
    seq(|matriculas|, i requires 0 <= i < |matriculas| =>
      if matriculas[i].id == id then matriculas[i].(estado := Some(estado)) else matriculas[i])
  }

  /** Only the state of enrolment `id` changes: looking any enrolment up by
      its id finds the same row as before, with the new state when it is `id`. */
  lemma {:induction false} ConEstadoFila(matriculas: seq<Matricula>, id: Id, estado: Id, k: Id)
    ensures Find(ConEstado(matriculas, id, estado), MatriculaId, k)
         == match Find(matriculas, MatriculaId, k)
            case None => None
            case Some(x) => Some(if k == id then x.(estado := Some(estado)) else x)
  {
    if matriculas != [] {
      var r := ConEstado(matriculas, id, estado);
      assert r[1..] == ConEstado(matriculas[1..], id, estado);
      ConEstadoFila(matriculas[1..], id, estado, k);
    }
  }

  /** Changing a state keeps the integrity rules. */
  lemma ConEstadoIntegra(asignaturas: seq<Asignatura>, matriculas: seq<Matricula>, notas: seq<Nota>,
                         asistencias: seq<Asistencia>, asignaciones: seq<Asignacion>,
                         nA: Id, nM: Id, nN: Id, nS: Id, id: Id, estado: Id)
    requires Integras(asignaturas, matriculas, notas, asistencias, asignaciones, nA, nM, nN, nS)
    ensures Integras(asignaturas, ConEstado(matriculas, id, estado), notas, asistencias, asignaciones, nA, nM, nN, nS)
  {
    var r := ConEstado(matriculas, id, estado);
    KeysPointwise(matriculas, r, MatriculaId);
    DistinctPointwise(matriculas, r, EstudianteAsignatura);
    forall m | m in r
      ensures m.asignatura in Keys(asignaturas, AsignaturaId)
    {
      var i :| 0 <= i < |r| && r[i] == m;
      assert matriculas[i] in matriculas;
    }
    forall i | 0 <= i < |r|
      ensures r[i].id < nM
    {
      assert matriculas[i].id < nM;
    }
  }

  /** State change of an enrolment: 422 on an unknown state, 500 when the
      enrolment does not exist, otherwise only its `id_estado` changes. */
  method Update(db: Database, id: Id, estado: Id) returns (status: Status)
    requires db.Valid()
    modifies db`matriculas
    ensures db.Valid()
    ensures status == (if !db.catalogo.ExisteEstado(estado) then Unprocessable
                       else if id !in Keys(old(db.matriculas), MatriculaId) then ServerError
                       else Ok)
    ensures status != Ok ==> unchanged(db)
    ensures status == Ok ==> db.matriculas == ConEstado(old(db.matriculas), id, estado)
  {
    if !db.catalogo.ExisteEstado(estado) {
      return Unprocessable;
    }
    if id !in Keys(db.matriculas, MatriculaId) {
      return ServerError;
    }
    ConEstadoIntegra(db.asignaturas, db.matriculas, db.notas, db.asistencias, db.asignaciones,
                     db.nextAsignatura, db.nextMatricula, db.nextNota, db.nextAsistencia, id, estado);
    db.matriculas := ConEstado(db.matriculas, id, estado);
    status := Ok;
  }

  // ---------------------------------------------------------------------------
  // destroy

  /** Withdrawal of one enrolment: 500 when it does not exist; otherwise its
      seat is given back and the enrolment is deleted together with its grades
      and attendance (ON DELETE CASCADE). No role is checked. */
  method Destroy(db: Database, id: Id) returns (status: Status)
    requires db.Valid()
    modifies db`asignaturas, db`matriculas, db`notas, db`asistencias
    ensures db.Valid()
    ensures status == if id in Keys(old(db.matriculas), MatriculaId) then Ok else ServerError
    ensures status != Ok ==> unchanged(db)
    ensures status == Ok ==>
      var m := Row(old(db.matriculas), MatriculaId, id);
      && db.asignaturas == AdjustSeats(old(db.asignaturas), m.asignatura, 1)
      && db.matriculas == Without(old(db.matriculas), MatriculaId, {id})
      && db.notas == Without(old(db.notas), NotaMatricula, {id})
      && db.asistencias == Without(old(db.asistencias), AsistenciaMatricula, {id})
  {
    if id !in Keys(db.matriculas, MatriculaId) {
      return ServerError;
    }
    var m := Row(db.matriculas, MatriculaId, id);
    WithdrawKeepsIntegrity(db.asignaturas, db.matriculas, db.notas, db.asistencias, db.asignaciones,
                           db.nextAsignatura, db.nextMatricula, db.nextNota, db.nextAsistencia, m);
    db.EscribirRetiro(AdjustSeats(db.asignaturas, m.asignatura, 1), Without(db.matriculas, MatriculaId, {id}),
                      Without(db.notas, NotaMatricula, {id}), Without(db.asistencias, AsistenciaMatricula, {id}));
    status := Ok;
  }

  /** Withdrawing the enrolment just inserted (nothing refers to its fresh id
      yet) gives back exactly the tables that were there before: enrol then
      withdraw restores every seat counter and every ledger. */
  lemma StoreThenDestroy(asignaturas: seq<Asignatura>, matriculas: seq<Matricula>, notas: seq<Nota>,
                         asistencias: seq<Asistencia>, asignaciones: seq<Asignacion>,
                         nA: Id, nM: Id, nN: Id, nS: Id, m: Matricula)
    requires Integras(asignaturas, matriculas, notas, asistencias, asignaciones, nA, nM, nN, nS)
    requires m.id == nM
    ensures Without(matriculas + [m], MatriculaId, {m.id}) == matriculas
    ensures Without(notas, NotaMatricula, {m.id}) == notas
    ensures Without(asistencias, AsistenciaMatricula, {m.id}) == asistencias
    ensures AdjustSeats(AdjustSeats(asignaturas, m.asignatura, -1), m.asignatura, 1) == asignaturas
  {
    forall i | 0 <= i < |notas|
      ensures NotaMatricula(notas[i]) !in {m.id}
    {
      assert notas[i] in notas;
      var x :| x in matriculas && x.id == notas[i].matricula;
    }
    forall i | 0 <= i < |asistencias|
      ensures AsistenciaMatricula(asistencias[i]) !in {m.id}
    {
      assert asistencias[i] in asistencias;
      var x :| x in matriculas && x.id == asistencias[i].matricula;
    }
    WithoutNone(matriculas, MatriculaId, {m.id});
    WithoutAppendLast(matriculas, MatriculaId, {m.id}, m);
    WithoutNone(notas, NotaMatricula, {m.id});
    WithoutNone(asistencias, AsistenciaMatricula, {m.id});
    SeatRoundTrip(asignaturas, m.asignatura);
  }

  // ---------------------------------------------------------------------------
  // retirarDeCurso

  /** The query of `retirarDeCurso`: the student's enrolments whose offering
      belongs to the course and period. */
  predicate DelCurso(asignaturas: seq<Asignatura>, m: Matricula, estudiante: Id, curso: Id, periodo: Id)
  {
    m.estudiante == estudiante &&
    match Find(asignaturas, AsignaturaId, m.asignatura)
    case None => false
    case Some(a) => a.curso == curso && a.periodo == periodo
  }

  function Inscripciones(asignaturas: seq<Asignatura>, matriculas: seq<Matricula>, estudiante: Id, curso: Id, periodo: Id): (r: seq<Matricula>)
    ensures forall m :: m in r <==> m in matriculas && DelCurso(asignaturas, m, estudiante, curso, periodo)
  {
    Filter(matriculas, DelCursoDe(asignaturas, estudiante, curso, periodo))
  }

  function DelCursoDe(asignaturas: seq<Asignatura>, estudiante: Id, curso: Id, periodo: Id): Matricula -> bool
  {
    m => DelCurso(asignaturas, m, estudiante, curso, periodo)
  }

  /** The ids of some enrolments (`pluck('id_matricula')`). */
  function Ids(matriculas: seq<Matricula>): (r: set<Id>)
    ensures forall k :: k in r <==> exists m :: m in matriculas && m.id == k
  {
    set m | m in matriculas :: m.id
  }

  lemma IdsAppend(ms: seq<Matricula>, m: Matricula)
    ensures Ids(ms + [m]) == Ids(ms) + {m.id}
  {
    assert forall x :: x in ms + [m] <==> x in ms || x == m;
  }

  /** The counters after giving back one seat per enrolment of `ms`, in order. */
  function DevolverCupos(asignaturas: seq<Asignatura>, ms: seq<Matricula>): seq<Asignatura>
    decreases |ms|
  {
    if ms == [] then asignaturas
    else AdjustSeats(DevolverCupos(asignaturas, ms[..|ms| - 1]), ms[|ms| - 1].asignatura, 1)
  }

  /** The enrolments left are exactly those that are not the student's in that
      course and period. */
  lemma RetiroExacto(asignaturas: seq<Asignatura>, matriculas: seq<Matricula>, estudiante: Id, curso: Id, periodo: Id)
    requires Distinct(matriculas, MatriculaId)
    ensures forall m :: m in Without(matriculas, MatriculaId, Ids(Inscripciones(asignaturas, matriculas, estudiante, curso, periodo)))
                        <==> m in matriculas && !DelCurso(asignaturas, m, estudiante, curso, periodo)
  {
    var sel := Inscripciones(asignaturas, matriculas, estudiante, curso, periodo);
    forall m | m in matriculas && m.id in Ids(sel)
      ensures DelCurso(asignaturas, m, estudiante, curso, periodo)
    {
      var x :| x in sel && x.id == m.id;
      DistinctSameKey(matriculas, MatriculaId, m, x);
    }
  }

  /** One more enrolment of `sel` withdrawn: one more seat back, one more id
      deleted from each table. */
  lemma RetiroPaso(asignaturas: seq<Asignatura>, matriculas: seq<Matricula>, notas: seq<Nota>,
                   asistencias: seq<Asistencia>, sel: seq<Matricula>, i: nat)
    requires i < |sel|
    ensures DevolverCupos(asignaturas, sel[..i + 1]) == AdjustSeats(DevolverCupos(asignaturas, sel[..i]), sel[i].asignatura, 1)
    ensures Without(Without(matriculas, MatriculaId, Ids(sel[..i])), MatriculaId, {sel[i].id})
         == Without(matriculas, MatriculaId, Ids(sel[..i + 1]))
    ensures Without(Without(notas, NotaMatricula, Ids(sel[..i])), NotaMatricula, {sel[i].id})
         == Without(notas, NotaMatricula, Ids(sel[..i + 1]))
    ensures Without(Without(asistencias, AsistenciaMatricula, Ids(sel[..i])), AsistenciaMatricula, {sel[i].id})
         == Without(asistencias, AsistenciaMatricula, Ids(sel[..i + 1]))
  {
    assert sel[..i + 1][..i] == sel[..i];
    assert sel[..i + 1] == sel[..i] + [sel[i]];
    IdsAppend(sel[..i], sel[i]);
    WithoutUnion(matriculas, MatriculaId, Ids(sel[..i]), {sel[i].id});
    WithoutUnion(notas, NotaMatricula, Ids(sel[..i]), {sel[i].id});
    WithoutUnion(asistencias, AsistenciaMatricula, Ids(sel[..i]), {sel[i].id});
  }

  /** The four tables a withdrawal touches. */
  datatype Tablas = Tablas(asignaturas: seq<Asignatura>, matriculas: seq<Matricula>,
                           notas: seq<Nota>, asistencias: seq<Asistencia>)

  /** One withdrawal: the seat back to the offering, then the enrolment deleted
      with its grades and attendance. */
  function Quitar(t: Tablas, m: Matricula): Tablas
  {
    Tablas(AdjustSeats(t.asignaturas, m.asignatura, 1), Without(t.matriculas, MatriculaId, {m.id}),
           Without(t.notas, NotaMatricula, {m.id}), Without(t.asistencias, AsistenciaMatricula, {m.id}))
  }

  /** The enrolments of `sel` withdrawn one after another, in order. */
  function Retiro(t: Tablas, sel: seq<Matricula>): Tablas
    decreases |sel|
  {
    if sel == [] then t else Quitar(Retiro(t, sel[..|sel| - 1]), sel[|sel| - 1])
  }

  /** Withdrawing one after another is giving every seat back and deleting all
      the ids at once. */
  lemma {:induction false} RetiroCerrado(t: Tablas, sel: seq<Matricula>)
    ensures Retiro(t, sel) == Tablas(DevolverCupos(t.asignaturas, sel), Without(t.matriculas, MatriculaId, Ids(sel)),
                                     Without(t.notas, NotaMatricula, Ids(sel)),
                                     Without(t.asistencias, AsistenciaMatricula, Ids(sel)))
  {
    if sel == [] {
      assert Ids(sel) == {};
      WithoutNone(t.matriculas, MatriculaId, {});
      WithoutNone(t.notas, NotaMatricula, {});
      WithoutNone(t.asistencias, AsistenciaMatricula, {});
    } else {
      var i := |sel| - 1;
      RetiroCerrado(t, sel[..i]);
      RetiroPaso(t.asignaturas, t.matriculas, t.notas, t.asistencias, sel, i);
      assert sel[..i + 1] == sel;
    }
  }

  /** Before the last of distinct enrolments `ms` is withdrawn, it is still
      there: the ones before it carry other ids. */
  lemma RetiroPendiente(t: Tablas, ms: seq<Matricula>)
    requires ms != []
    requires forall m :: m in ms ==> m in t.matriculas
    requires Distinct(ms, MatriculaId)
    ensures Distinct(ms[..|ms| - 1], MatriculaId)
    ensures forall m :: m in ms[..|ms| - 1] ==> m in t.matriculas
    ensures ms[|ms| - 1] in Retiro(t, ms[..|ms| - 1]).matriculas
  {
    var init, m := ms[..|ms| - 1], ms[|ms| - 1];
    assert forall x :: x in init ==> x in ms;
    assert Distinct(init, MatriculaId) by {
      forall i, j | 0 <= i < j < |init|
        ensures MatriculaId(init[i]) != MatriculaId(init[j])
      {
        assert init[i] == ms[i] && init[j] == ms[j];
      }
    }
    assert m.id !in Ids(init) by {
      forall x | x in init
        ensures x.id != m.id
      {
        var i :| 0 <= i < |init| && init[i] == x;
        assert MatriculaId(ms[i]) != MatriculaId(ms[|ms| - 1]);
      }
    }
    RetiroCerrado(t, init);
  }

  /** Withdrawing distinct enrolments one after another, each giving its seat
      back and taking its grades and attendance with it, keeps the integrity
      rules. */
  lemma {:induction false} RetiroIntegro(t: Tablas, asignaciones: seq<Asignacion>,
                                         nA: Id, nM: Id, nN: Id, nS: Id, ms: seq<Matricula>)
    requires Integras(t.asignaturas, t.matriculas, t.notas, t.asistencias, asignaciones, nA, nM, nN, nS)
    requires forall m :: m in ms ==> m in t.matriculas
    requires Distinct(ms, MatriculaId)
    ensures var r := Retiro(t, ms);
      Integras(r.asignaturas, r.matriculas, r.notas, r.asistencias, asignaciones, nA, nM, nN, nS)
  {
    if ms != [] {
      var init := ms[..|ms| - 1];
      RetiroPendiente(t, ms);
      RetiroIntegro(t, asignaciones, nA, nM, nN, nS, init);
      var r := Retiro(t, init);
      WithdrawKeepsIntegrity(r.asignaturas, r.matriculas, r.notas, r.asistencias, asignaciones, nA, nM, nN, nS, ms[|ms| - 1]);
    }
  }

  /** ... and keeps the capacity of every offering: each free seat given back
      matches one enrolment gone. */
  lemma {:induction false} RetiroConserva(t: Tablas, asignaciones: seq<Asignacion>,
                                          nA: Id, nM: Id, nN: Id, nS: Id, ms: seq<Matricula>, k: Id)
    requires Integras(t.asignaturas, t.matriculas, t.notas, t.asistencias, asignaciones, nA, nM, nN, nS)
    requires forall m :: m in ms ==> m in t.matriculas
    requires Distinct(ms, MatriculaId)
    ensures Plazas(Retiro(t, ms).asignaturas, Retiro(t, ms).matriculas, k) == Plazas(t.asignaturas, t.matriculas, k)
  {
    if ms != [] {
      var init := ms[..|ms| - 1];
      RetiroPendiente(t, ms);
      RetiroIntegro(t, asignaciones, nA, nM, nN, nS, init);
      RetiroConserva(t, asignaciones, nA, nM, nN, nS, init, k);
      var r := Retiro(t, init);
      ReturnSeatConserves(r.asignaturas, r.matriculas, ms[|ms| - 1], k);
    }
  }

  /** The loop of `retirarDeCurso`: for each enrolment in turn, one seat back
      to its offering, then the enrolment and its cascade deleted. */
  method RetirarTodas(db: Database, sel: seq<Matricula>) returns (eliminadas: nat)
    requires db.Valid()
    requires forall m :: m in sel ==> m in db.matriculas
    requires Distinct(sel, MatriculaId)
    modifies db`asignaturas, db`matriculas, db`notas, db`asistencias
    ensures db.Valid()
    ensures eliminadas == |sel|
    ensures Tablas(db.asignaturas, db.matriculas, db.notas, db.asistencias)
         == Retiro(Tablas(old(db.asignaturas), old(db.matriculas), old(db.notas), old(db.asistencias)), sel)
  {
    var t0 := Tablas(db.asignaturas, db.matriculas, db.notas, db.asistencias);
    var t := t0;
    eliminadas := 0;
    while eliminadas < |sel|
      invariant eliminadas <= |sel|
      invariant t == Retiro(t0, sel[..eliminadas])
    {
      assert sel[..eliminadas + 1][..eliminadas] == sel[..eliminadas];
      t := Quitar(t, sel[eliminadas]);
      eliminadas := eliminadas + 1;
    }
    assert sel[..eliminadas] == sel;
    RetiroIntegro(t0, db.asignaciones, db.nextAsignatura, db.nextMatricula, db.nextNota, db.nextAsistencia, sel);
    db.EscribirRetiro(t.asignaturas, t.matriculas, t.notas, t.asistencias);
  }

  /** Withdrawal from every offering of a course and period: 422 on unknown
      references; otherwise each selected enrolment gives its seat back and is
      deleted with its grades and attendance, and `eliminadas` counts them. */
  method RetirarDeCurso(db: Database, estudiante: Id, curso: Id, periodo: Id) returns (status: Status, eliminadas: nat)
    requires db.Valid()
    modifies db`asignaturas, db`matriculas, db`notas, db`asistencias
    ensures db.Valid()
    ensures status == if CursoValido(db.catalogo, estudiante, curso, periodo, Absent) then Ok else Unprocessable
    ensures status != Ok ==> unchanged(db)
    ensures status == Ok ==>
      var sel := Inscripciones(old(db.asignaturas), old(db.matriculas), estudiante, curso, periodo);
      && eliminadas == |sel|
      && db.asignaturas == DevolverCupos(old(db.asignaturas), sel)
      && db.matriculas == Without(old(db.matriculas), MatriculaId, Ids(sel))
      && db.notas == Without(old(db.notas), NotaMatricula, Ids(sel))
      && db.asistencias == Without(old(db.asistencias), AsistenciaMatricula, Ids(sel))
  {
    eliminadas := 0;
    if !CursoValido(db.catalogo, estudiante, curso, periodo, Absent) {
      return Unprocessable, eliminadas;
    }
    var sel := Inscripciones(db.asignaturas, db.matriculas, estudiante, curso, periodo);
    ghost var t0 := Tablas(db.asignaturas, db.matriculas, db.notas, db.asistencias);
    DistinctFilter(db.matriculas, DelCursoDe(db.asignaturas, estudiante, curso, periodo), MatriculaId);
    eliminadas := RetirarTodas(db, sel);
    RetiroCerrado(t0, sel);
    status := Ok;
  }

  /** The tables `RetirarDeCurso` leaves keep the integrity rules and the
      capacity of every offering. */
  lemma RetirarDeCursoIntegra(asignaturas: seq<Asignatura>, matriculas: seq<Matricula>, notas: seq<Nota>,
                              asistencias: seq<Asistencia>, asignaciones: seq<Asignacion>,
                              nA: Id, nM: Id, nN: Id, nS: Id, estudiante: Id, curso: Id, periodo: Id, k: Id)
    requires Integras(asignaturas, matriculas, notas, asistencias, asignaciones, nA, nM, nN, nS)
    ensures var sel := Inscripciones(asignaturas, matriculas, estudiante, curso, periodo);
      && Integras(DevolverCupos(asignaturas, sel), Without(matriculas, MatriculaId, Ids(sel)),
                  Without(notas, NotaMatricula, Ids(sel)), Without(asistencias, AsistenciaMatricula, Ids(sel)),
                  asignaciones, nA, nM, nN, nS)
      && Plazas(DevolverCupos(asignaturas, sel), Without(matriculas, MatriculaId, Ids(sel)), k)
         == Plazas(asignaturas, matriculas, k)
  {
    var sel := Inscripciones(asignaturas, matriculas, estudiante, curso, periodo);
    var t := Tablas(asignaturas, matriculas, notas, asistencias);
    DistinctFilter(matriculas, DelCursoDe(asignaturas, estudiante, curso, periodo), MatriculaId);
    RetiroIntegro(t, asignaciones, nA, nM, nN, nS, sel);
    RetiroConserva(t, asignaciones, nA, nM, nN, nS, sel, k);
    RetiroCerrado(t, sel);
  }

  // ---------------------------------------------------------------------------
  // asignaturasDisponibles

  /** The filter of `asignaturasDisponibles`: the course, the period, and state 9, "Abierta". */
  predicate Abierta(a: Asignatura, curso: Id, periodo: Id)
  {
    a.curso == curso && a.periodo == periodo && a.estado == Some(ESTADO_ABIERTA)
  }

  /** One entry of the list: the offering and `tiene_cupos`. */
  datatype Disponible = Disponible(asignatura: Asignatura, tieneCupos: bool)

  /** The open offerings (state 9) of a course and period, each flagged with
      whether a seat is free; 422 on unknown references. */
  function AsignaturasDisponibles(catalogo: Catalogo, asignaturas: seq<Asignatura>, curso: Id, periodo: Id): (r: (Status, seq<Disponible>))
    ensures r.0 == (if catalogo.ExisteCurso(curso) && catalogo.ExistePeriodo(periodo) then Ok else Unprocessable)
    ensures r.0 != Ok ==> r.1 == []
    ensures forall d :: d in r.1 ==> d.asignatura in asignaturas
    ensures forall d :: d in r.1 ==>
      d.asignatura.curso == curso && d.asignatura.periodo == periodo && d.asignatura.estado == Some(ESTADO_ABIERTA)
    ensures r.0 == Ok ==> forall a :: a in asignaturas && a.curso == curso && a.periodo == periodo && a.estado == Some(ESTADO_ABIERTA)
                                      ==> Disponible(a, HasSeat(a)) in r.1
    ensures forall d :: d in r.1 ==> (d.tieneCupos <==> HasSeat(d.asignatura))
  {
    if !(catalogo.ExisteCurso(curso) && catalogo.ExistePeriodo(periodo)) then (Unprocessable, [])
    else
      var abiertas := Filter(asignaturas, (a: Asignatura) => Abierta(a, curso, periodo));
      var r := seq(|abiertas|, i requires 0 <= i < |abiertas| => Disponible(abiertas[i], HasSeat(abiertas[i])));
      assert forall a :: a in abiertas ==> Disponible(a, HasSeat(a)) in r by {
        forall a | a in abiertas
          ensures Disponible(a, HasSeat(a)) in r
        {
          var i :| 0 <= i < |abiertas| && abiertas[i] == a;
          assert r[i] == Disponible(a, HasSeat(a));
        }
      }
      (Ok, r)
  }
}
