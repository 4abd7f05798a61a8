/** The database the controllers share: the catalogue, read only, and the five
    ledger tables with their auto-increment counters. */
module Db {
  import opened Common
  import opened Schema

  class Database {
    const catalogo: Catalogo

    var asignaturas: seq<Asignatura>
    var matriculas: seq<Matricula>
    var notas: seq<Nota>
    var asistencias: seq<Asistencia>
    var asignaciones: seq<Asignacion>

    // The next auto-increment value of each table with a surrogate key.
    var nextAsignatura: Id
    var nextMatricula: Id
    var nextNota: Id
    var nextAsistencia: Id

    /** The unique keys, the foreign keys, the validated grade range and the
        non-negative seat counters; every action keeps them. */
    ghost predicate Valid()
      reads this
    {
      Integras(asignaturas, matriculas, notas, asistencias, asignaciones,
               nextAsignatura, nextMatricula, nextNota, nextAsistencia)
    }

    /** The integrity rules, read off the current tables. */
    lemma Vigente()
      requires Integras(asignaturas, matriculas, notas, asistencias, asignaciones,
                        nextAsignatura, nextMatricula, nextNota, nextAsistencia)
      ensures Valid()
    {
    }

    /** Writes the tables an enrolment changes, when they keep the integrity rules. */
    method EscribirMatriculas(a: seq<Asignatura>, ms: seq<Matricula>, nM: Id)
      requires Integras(a, ms, notas, asistencias, asignaciones, nextAsignatura, nM, nextNota, nextAsistencia)
      modifies this`asignaturas, this`matriculas, this`nextMatricula
      ensures Valid()
      ensures asignaturas == a && matriculas == ms && nextMatricula == nM
    {
      asignaturas, matriculas, nextMatricula := a, ms, nM;
    }

    /** Writes the tables a withdrawal changes (the seat counters, the
        enrolments and their cascade), when they keep the integrity rules. */
    method EscribirRetiro(a: seq<Asignatura>, ms: seq<Matricula>, ns: seq<Nota>, rs: seq<Asistencia>)
      requires Integras(a, ms, ns, rs, asignaciones, nextAsignatura, nextMatricula, nextNota, nextAsistencia)
      modifies this`asignaturas, this`matriculas, this`notas, this`asistencias
      ensures Valid()
      ensures asignaturas == a && matriculas == ms && notas == ns && asistencias == rs
    {
      asignaturas, matriculas, notas, asistencias := a, ms, ns, rs;
    }

    /** Writes the attendance table, when it keeps the integrity rules. */
    method EscribirAsistencias(rs: seq<Asistencia>)
      requires Integras(asignaturas, matriculas, notas, rs, asignaciones, nextAsignatura, nextMatricula, nextNota, nextAsistencia)
      modifies this`asistencias
      ensures Valid()
      ensures asistencias == rs
    {
      asistencias := rs;
    }

    /** A fresh installation: the catalogue is given, the ledgers are empty. */
    constructor (catalogo: Catalogo)
      ensures Valid()
      ensures this.catalogo == catalogo
      ensures asignaturas == [] && matriculas == [] && notas == [] && asistencias == [] && asignaciones == []
    {
      this.catalogo := catalogo;
      asignaturas := [];
      matriculas := [];
      notas := [];
      asistencias := [];
      asignaciones := [];
      nextAsignatura := 1;
      nextMatricula := 1;
      nextNota := 1;
      nextAsistencia := 1;
    }
  }

  /** The integrity rules over the five ledger tables and their counters. */
  ghost predicate Integras(asignaturas: seq<Asignatura>, matriculas: seq<Matricula>, notas: seq<Nota>,
                           asistencias: seq<Asistencia>, asignaciones: seq<Asignacion>,
                           nextAsignatura: Id, nextMatricula: Id, nextNota: Id, nextAsistencia: Id)
  {
    && AsignaturasOk(asignaturas)
    && MatriculasOk(matriculas, asignaturas)
    && NotasOk(notas, matriculas)
    && AsistenciasOk(asistencias, matriculas)
    && AsignacionesOk(asignaciones, asignaturas)
    && Below(asignaturas, AsignaturaId, nextAsignatura)
    && Below(matriculas, MatriculaId, nextMatricula)
    && Below(notas, NotaId, nextNota)
    && Below(asistencias, AsistenciaId, nextAsistencia)
  }

  /** The teacher of an offering, the owner the ownership gate compares
      against; NULL when the offering has no teacher or does not exist. */
  function Propietario(asignaturas: seq<Asignatura>, asignatura: Id): (r: Option<Id>)
    ensures asignatura !in Keys(asignaturas, AsignaturaId) ==> r == None
    ensures r.Some? ==> exists a :: a in asignaturas && a.id == asignatura && a.profesor == r
    ensures Distinct(asignaturas, AsignaturaId) ==> forall a :: a in asignaturas && a.id == asignatura ==> r == a.profesor
  {
    FindEach(asignaturas, AsignaturaId, asignatura);
    match Find(asignaturas, AsignaturaId, asignatura)
    case None => None
    case Some(a) => a.profesor
  }

  /** The teacher of the offering of an enrolment (NULL when either is missing). */
  function PropietarioDeMatricula(asignaturas: seq<Asignatura>, matriculas: seq<Matricula>, matricula: Id): Option<Id>
  {
    match Find(matriculas, MatriculaId, matricula)
    case None => None
    case Some(m) => Propietario(asignaturas, m.asignatura)
  }
}
