/** The read-only reports of `ReporteController`: the grade and attendance
    summaries, the per-offering reports, the global attendance percentage and
    the per-offering academic report of the active periods. */
module Reportes {
  import opened Common
  import opened Seqs
  import opened Rounding
  import opened Schema
  import N = Notas
  import A = Asistencias

  /** The optional query parameters of the summaries: an offering, and a
      date range that applies only when both ends are sent (`whereBetween`
      is inclusive). */
  datatype Consulta = Consulta(asignatura: Param<Id>, desde: Param<Date>, hasta: Param<Date>)

  predicate EnRango(q: Consulta, fecha: Date)
  {
    EntreFechas(q.desde, q.hasta, fecha)
  }

  /** `whereHas('matricula', where('id_asignatura', ...))`: an existing
      enrolment of the offering; a null offering matches no enrolment. */
  predicate DeLaConsulta(matriculas: seq<Matricula>, q: Consulta, matricula: Id)
  {
    match q.asignatura
    case Absent => true
    case Null => false
    case Given(k) => DeLaAsignatura(matriculas, matricula, k)
  }

  // ---------------------------------------------------------------------------
  // notas

  function Aprueba(n: Nota): bool { n.nota >= NOTA_APROBACION }
  function Reprueba(n: Nota): bool { n.nota < NOTA_APROBACION }

  /** `total_notas`, `promedio_general`, `nota_maxima`, `nota_minima`
      (NULL when there are no grades), `aprobados` and `reprobados`. */
  datatype ResumenNotas = ResumenNotas(total: nat, promedio: nat, maxima: Option<nat>, minima: Option<nat>,
                                       aprobados: nat, reprobados: nat)

  /** The grade summary: every grade is either passing (from 4.0 up) or
      failing; the average is `round(avg, 1)`, the nearest tenth to the mean
      with halves rounded up; the maximum and minimum are attained. */
  function ResumenNotasDe(notas: seq<Nota>): (r: ResumenNotas)
    ensures r.total == |notas|
    ensures r.aprobados == Count(notas, Aprueba) && r.reprobados == Count(notas, Reprueba)
    ensures r.aprobados + r.reprobados == r.total
    ensures notas == [] ==> r.promedio == 0 && r.maxima == None && r.minima == None
    ensures notas != [] ==> r.maxima.Some? && r.minima.Some? && r.minima.value <= r.promedio <= r.maxima.value
    ensures notas != [] ==> Redondeado(Sum(N.Valores(notas)), |notas|, r.promedio)
    ensures r.maxima.Some? ==> (exists n :: n in notas && n.nota == r.maxima.value) && forall n :: n in notas ==> n.nota <= r.maxima.value
    ensures r.minima.Some? ==> (exists n :: n in notas && n.nota == r.minima.value) && forall n :: n in notas ==> r.minima.value <= n.nota
  {
    CountPartition(notas, Aprueba, Reprueba);
    if notas == [] then ResumenNotas(0, 0, None, None, 0, 0)
    else
      var v := N.Valores(notas);
      var hi, lo := Max(v), Min(v);
      assert forall n :: n in notas ==> lo <= n.nota <= hi by {
        forall n | n in notas
          ensures lo <= n.nota <= hi
        {
          var i :| 0 <= i < |notas| && notas[i] == n;
          assert v[i] == n.nota;
        }
      }
      var i :| 0 <= i < |v| && v[i] == hi;
      var j :| 0 <= j < |v| && v[j] == lo;
      assert notas[i] in notas && notas[j] in notas;
      ResumenNotas(|notas|, N.Promedio(notas), Some(hi), Some(lo), Count(notas, Aprueba), Count(notas, Reprueba))
  }

  /** The grades the query selects. */
  function NotasDeConsulta(matriculas: seq<Matricula>, notas: seq<Nota>, q: Consulta): (r: seq<Nota>)
    ensures forall n :: n in r <==> n in notas && DeLaConsulta(matriculas, q, n.matricula) && EnRango(q, n.fecha)
  {
    Filter(notas, (n: Nota) => DeLaConsulta(matriculas, q, n.matricula) && EnRango(q, n.fecha))
  }

  /** `notas`: the summary of the selected grades, and the grades themselves. */
  function ReporteNotas(matriculas: seq<Matricula>, notas: seq<Nota>, q: Consulta): (r: (ResumenNotas, seq<Nota>))
    ensures forall n :: n in r.1 <==> n in notas && DeLaConsulta(matriculas, q, n.matricula) && EnRango(q, n.fecha)
    ensures r.0 == ResumenNotasDe(r.1)
    ensures r.0.total == |r.1| && r.0.aprobados + r.0.reprobados == r.0.total
    ensures r.0.aprobados == Count(r.1, Aprueba)
  {
    var sel := NotasDeConsulta(matriculas, notas, q);
    (ResumenNotasDe(sel), sel)
  }

  // ---------------------------------------------------------------------------
  // notasPorAsignatura

  /** `total_estudiantes`, `promedio_curso`, `aprobados` and `reprobados`. */
  datatype EstadisticasCurso = EstadisticasCurso(totalEstudiantes: nat, promedioCurso: nat, aprobados: nat, reprobados: nat)

  function Promedios(bs: seq<N.Boletin>): (r: seq<nat>)
    ensures |r| == |bs|
    ensures forall i :: 0 <= i < |bs| ==> r[i] == bs[i].promedio
  {
    seq(|bs|, i requires 0 <= i < |bs| => bs[i].promedio)
  }

  function Aprobado(b: N.Boletin): bool { b.situacion == N.Aprobado }
  function Reprobado(b: N.Boletin): bool { b.situacion == N.Reprobado }

  /** The course statistics: every student is either passed or failed; the
      course average is the rounded mean of the students' (already rounded)
      averages, the nearest tenth with halves up, between the lowest and the
      highest of them. */
  function EstadisticasDeCurso(bs: seq<N.Boletin>): (r: EstadisticasCurso)
    ensures r.totalEstudiantes == |bs|
    ensures r.aprobados == Count(bs, Aprobado) && r.reprobados == Count(bs, Reprobado)
    ensures r.aprobados + r.reprobados == r.totalEstudiantes
    ensures bs == [] ==> r.promedioCurso == 0
    ensures bs != [] ==> Redondeado(Sum(Promedios(bs)), |bs|, r.promedioCurso)
    ensures bs != [] ==> Min(Promedios(bs)) <= r.promedioCurso <= Max(Promedios(bs))
  {
    CountPartition(bs, Aprobado, Reprobado);
    var v := Promedios(bs);
    var p := MeanRounded(v);
    assert |v| == |bs|;
    assert bs != [] ==> Min(Promedios(bs)) <= p <= Max(Promedios(bs)) by {
      if bs != [] {
        MeanWithinMinMax(Promedios(bs));
      }
    }
    EstadisticasCurso(|bs|, p, Count(bs, Aprobado), Count(bs, Reprobado))
  }

  /** `notasPorAsignatura`: 500 when the offering does not exist; otherwise
      one report per student of the offering with grades, and the course statistics. */
  function NotasPorAsignatura(asignaturas: seq<Asignatura>, matriculas: seq<Matricula>, notas: seq<Nota>, asignatura: Id)
    : (r: (Status, EstadisticasCurso, seq<N.Boletin>))
    ensures r.0 == (if asignatura in Keys(asignaturas, AsignaturaId) then Ok else ServerError)
    ensures r.0 == Ok ==> r.2 == N.PorAsignatura(matriculas, notas, asignatura)
    ensures r.0 != Ok ==> r.2 == []
    ensures r.1 == EstadisticasDeCurso(r.2)
    ensures r.1.totalEstudiantes == |r.2| && r.1.aprobados + r.1.reprobados == r.1.totalEstudiantes
  {
    if asignatura !in Keys(asignaturas, AsignaturaId) then (ServerError, EstadisticasDeCurso([]), [])
    else
      var bs := N.PorAsignatura(matriculas, notas, asignatura);
      (Ok, EstadisticasDeCurso(bs), bs)
  }

  /** With valid grades, every student's average and the course average are valid grades. */
  lemma CursoValido(matriculas: seq<Matricula>, notas: seq<Nota>, asignatura: Id)
    requires forall n :: n in notas ==> NotaValida(n.nota)
    ensures var bs := N.PorAsignatura(matriculas, notas, asignatura);
      && (forall b :: b in bs ==> NotaValida(b.promedio))
      && (bs != [] ==> NotaValida(EstadisticasDeCurso(bs).promedioCurso))
  {
    var bs := N.PorAsignatura(matriculas, notas, asignatura);
    forall b | b in bs
      ensures NotaValida(b.promedio)
    {
      N.PromedioValido(b.notas);
    }
    if bs != [] {
      var v := Promedios(bs);
      forall i | 0 <= i < |v|
        ensures NOTA_MINIMA <= v[i] <= NOTA_MAXIMA
      {
        assert bs[i] in bs;
      }
      MeanWithin(v, NOTA_MINIMA, NOTA_MAXIMA);
    }
  }

  // ---------------------------------------------------------------------------
  // asistencia and asistenciaPorAsignatura

  /** The records the query selects. */
  function AsistenciasDeConsulta(matriculas: seq<Matricula>, asistencias: seq<Asistencia>, q: Consulta): (r: seq<Asistencia>)
    ensures forall a :: a in r <==> a in asistencias && DeLaConsulta(matriculas, q, a.matricula) && EnRango(q, a.fecha)
  {
    Filter(asistencias, (a: Asistencia) => DeLaConsulta(matriculas, q, a.matricula) && EnRango(q, a.fecha))
  }

  /** `asistencia`: the summary of the selected records (where `ausentes`
      counts the absent records), and the records themselves. */
  function ReporteAsistencia(matriculas: seq<Matricula>, asistencias: seq<Asistencia>, q: Consulta): (r: (A.Resumen, seq<Asistencia>))
    ensures forall a :: a in r.1 <==> a in asistencias && DeLaConsulta(matriculas, q, a.matricula) && EnRango(q, a.fecha)
    ensures r.0.total == |r.1| && r.0.presentes + r.0.ausentes == r.0.total
    ensures r.0.presentes == Count(r.1, A.EsPresente) && r.0.ausentes == Count(r.1, A.EsAusente)
    ensures r.0.porcentaje <= 10000 && (r.1 == [] ==> r.0.porcentaje == 0)
    ensures r.0.justificadas == Count(r.1, A.EsJustificada)
    ensures r.0 == A.ResumenDe(r.1)
  {
    var sel := AsistenciasDeConsulta(matriculas, asistencias, q);
    A.ResumenAusentes(sel);
    (A.ResumenDe(sel), sel)
  }

  /** No filter: every record passes. */
  const TODAS: A.Filtro := A.Filtro(Absent, Absent, Absent)

  /** Every entry's statistics are those of its records: `ausentes =
      total_clases - presentes`, and a percentage in [0, 100]. */
  lemma EntradasCoherentes(ms: seq<Matricula>, asistencias: seq<Asistencia>, filtro: A.Filtro)
    ensures forall e :: e in A.Agrupar(ms, asistencias, filtro) ==>
      && e.detalle != [] && e.estadisticas.total == |e.detalle|
      && e.estadisticas.ausentes == e.estadisticas.total - e.estadisticas.presentes
      && e.estadisticas.porcentaje <= 10000
  {
    forall e | e in A.Agrupar(ms, asistencias, filtro)
      ensures e.estadisticas.total == |e.detalle|
      ensures e.estadisticas.ausentes == e.estadisticas.total - e.estadisticas.presentes
      ensures e.estadisticas.porcentaje <= 10000
    {
      assert e.estadisticas == A.ResumenDe(e.detalle);
    }
  }

  /** Without a filter, the entries hold exactly the records of the offering's enrolments. */
  lemma CubreTodas(matriculas: seq<Matricula>, asistencias: seq<Asistencia>, asignatura: Id)
    ensures var r := A.Agrupar(DeAsignatura(matriculas, asignatura), asistencias, TODAS);
      && (forall e, a :: e in r && a in e.detalle ==> a in asistencias && a.matricula in MatriculasDe(matriculas, asignatura))
      && (forall a :: a in asistencias && a.matricula in MatriculasDe(matriculas, asignatura) ==> exists e :: e in r && a in e.detalle)
  {
    assert forall a :: A.EnFiltro(TODAS, a);
    A.AgruparCubre(matriculas, asistencias, asignatura, TODAS);
  }

  /** `asistenciaPorAsignatura`: 500 when the offering does not exist;
      otherwise one entry per student of the offering with records, with
      `ausentes = total_clases - presentes` and a percentage in [0, 100]. */
  function AsistenciaPorAsignatura(asignaturas: seq<Asignatura>, matriculas: seq<Matricula>, asistencias: seq<Asistencia>,
                                   asignatura: Id): (r: (Status, seq<A.DeEstudiante>))
    ensures r.0 == (if asignatura in Keys(asignaturas, AsignaturaId) then Ok else ServerError)
    ensures r.0 != Ok ==> r.1 == []
    ensures forall e :: e in r.1 ==> e.estadisticas == A.ResumenDe(e.detalle)
    ensures forall e :: e in r.1 ==>
      && e.detalle != [] && e.estadisticas.total == |e.detalle|
      && e.estadisticas.ausentes == e.estadisticas.total - e.estadisticas.presentes
      && e.estadisticas.porcentaje <= 10000
    ensures forall e, a :: e in r.1 && a in e.detalle ==> a in asistencias && a.matricula in MatriculasDe(matriculas, asignatura)
    ensures r.0 == Ok ==> forall a :: a in asistencias && a.matricula in MatriculasDe(matriculas, asignatura)
                                      ==> exists e :: e in r.1 && a in e.detalle
  {
    if asignatura !in Keys(asignaturas, AsignaturaId) then (ServerError, [])
    else
      var ms := DeAsignatura(matriculas, asignatura);
      CubreTodas(matriculas, asistencias, asignatura);
      EntradasCoherentes(ms, asistencias, TODAS);
      (Ok, A.Agrupar(ms, asistencias, TODAS))
  }

  // ---------------------------------------------------------------------------
  // calcularAsistenciaGeneral and reportePorAsignaturas

  /** The percentage of present records over the whole table, 0 when it is empty. */
  function AsistenciaGeneral(asistencias: seq<Asistencia>): (p: nat)
    ensures p <= 10000
    ensures asistencias == [] ==> p == 0
    ensures asistencias != [] ==>
      Redondeado(10000 * Count(asistencias, A.EsPresente), |asistencias|, p)
  {
    if |asistencias| == 0 then 0
    else Percent(Count(asistencias, A.EsPresente), |asistencias|)
  }

  /** The global percentage is the one the unfiltered attendance report gives. */
  lemma AsistenciaGeneralEsReporte(matriculas: seq<Matricula>, asistencias: seq<Asistencia>)
    ensures AsistenciaGeneral(asistencias) == ReporteAsistencia(matriculas, asistencias, Consulta(Absent, Absent, Absent)).0.porcentaje
  {
    var sel := AsistenciasDeConsulta(matriculas, asistencias, Consulta(Absent, Absent, Absent));
    FilterAll(asistencias, (a: Asistencia) => DeLaConsulta(matriculas, Consulta(Absent, Absent, Absent), a.matricula)
                                               && EnRango(Consulta(Absent, Absent, Absent), a.fecha));
  }

  /** A filter every element passes keeps the sequence. */
  lemma {:induction false} FilterAll<T(!new)>(s: seq<T>, keep: T -> bool)
    requires forall x :: x in s ==> keep(x)
    ensures Filter(s, keep) == s
  {
    if s != [] {
      assert s[0] in s;
      FilterAll(s[1..], keep);
    }
  }

  /** An offering's period exists and is active. */
  predicate PeriodoActivo(periodos: seq<Periodo>, periodo: Id)
  {
    exists p :: p in periodos && p.id == periodo && p.activo
  }

  function EnPeriodoActivo(periodos: seq<Periodo>): Asignatura -> bool
  {
    (a: Asignatura) => PeriodoActivo(periodos, a.periodo)
  }

  /** The grades and the records of an offering's enrolments. */
  function NotasDeAsignatura(matriculas: seq<Matricula>, notas: seq<Nota>, asignatura: Id): seq<Nota>
  {
    NotasDeConsulta(matriculas, notas, Consulta(Given(asignatura), Absent, Absent))
  }

  function AsistenciasDeAsignatura(matriculas: seq<Matricula>, asistencias: seq<Asistencia>, asignatura: Id): seq<Asistencia>
  {
    AsistenciasDeConsulta(matriculas, asistencias, Consulta(Given(asignatura), Absent, Absent))
  }

  /** One row of the academic report: an offering, its grade average and its attendance percentage. */
  datatype FilaAcademica = FilaAcademica(asignatura: Id, promedio: nat, porcentaje: nat)

  /** The row of an offering: the rounded average of its grades (0 without
      grades) and the rounded percentage of present records among its
      records (0 without records). */
  function FilaDe(matriculas: seq<Matricula>, notas: seq<Nota>, asistencias: seq<Asistencia>, a: Asignatura): (r: FilaAcademica)
    ensures r.asignatura == a.id && r.porcentaje <= 10000
    ensures var ns := NotasDeAsignatura(matriculas, notas, a.id);
      && (ns == [] ==> r.promedio == 0)
      && (ns != [] ==> Redondeado(Sum(N.Valores(ns)), |ns|, r.promedio))
    ensures var rs := AsistenciasDeAsignatura(matriculas, asistencias, a.id);
      && (rs == [] ==> r.porcentaje == 0)
      && (rs != [] ==> Redondeado(10000 * Count(rs, A.EsPresente), |rs|, r.porcentaje))
  {
    A.ResumenAusentes(AsistenciasDeAsignatura(matriculas, asistencias, a.id));
    FilaAcademica(a.id, N.Promedio(NotasDeAsignatura(matriculas, notas, a.id)),
                  A.ResumenDe(AsistenciasDeAsignatura(matriculas, asistencias, a.id)).porcentaje)
  }

  /** The rows of the offerings `ofertas`, in order. */
  function Filas(matriculas: seq<Matricula>, notas: seq<Nota>, asistencias: seq<Asistencia>, ofertas: seq<Asignatura>)
    : (r: seq<FilaAcademica>)
    ensures |r| == |ofertas|
    ensures forall f :: f in r ==> exists a :: a in ofertas && f == FilaDe(matriculas, notas, asistencias, a)
    ensures forall a :: a in ofertas ==> FilaDe(matriculas, notas, asistencias, a) in r
  {
    if ofertas == [] then []
    else
      assert forall a :: a in ofertas <==> a == ofertas[0] || a in ofertas[1..];
      [FilaDe(matriculas, notas, asistencias, ofertas[0])] + Filas(matriculas, notas, asistencias, ofertas[1..])
  }

  /** `reportePorAsignaturas`: one row per offering of an active period, in
      table order, and none for any other offering. */
  function ReportePorAsignaturas(asignaturas: seq<Asignatura>, periodos: seq<Periodo>, matriculas: seq<Matricula>,
                                 notas: seq<Nota>, asistencias: seq<Asistencia>): (r: seq<FilaAcademica>)
    ensures |r| == Count(asignaturas, EnPeriodoActivo(periodos))
    ensures forall f :: f in r ==> exists a :: a in asignaturas && PeriodoActivo(periodos, a.periodo) && f == FilaDe(matriculas, notas, asistencias, a)
    ensures forall a :: a in asignaturas && PeriodoActivo(periodos, a.periodo) ==> FilaDe(matriculas, notas, asistencias, a) in r
  {
    CountIsFilterLength(asignaturas, EnPeriodoActivo(periodos));
    Filas(matriculas, notas, asistencias, Filter(asignaturas, EnPeriodoActivo(periodos)))
  }

  /** With valid grades, every offering's average in the academic report is
      0 (no grades) or a valid grade. */
  lemma AcademicoValido(asignaturas: seq<Asignatura>, periodos: seq<Periodo>, matriculas: seq<Matricula>,
                        notas: seq<Nota>, asistencias: seq<Asistencia>)
    requires forall n :: n in notas ==> NotaValida(n.nota)
    ensures forall f :: f in ReportePorAsignaturas(asignaturas, periodos, matriculas, notas, asistencias) ==>
      f.promedio == 0 || NotaValida(f.promedio)
  {
    forall f | f in ReportePorAsignaturas(asignaturas, periodos, matriculas, notas, asistencias)
      ensures f.promedio == 0 || NotaValida(f.promedio)
    {
      var a :| a in asignaturas && PeriodoActivo(periodos, a.periodo) && f == FilaDe(matriculas, notas, asistencias, a);
      var ns := NotasDeAsignatura(matriculas, notas, a.id);
      if ns != [] {
        N.PromedioValido(ns);
      }
    }
  }

  // ---------------------------------------------------------------------------
  // exportNotas and exportAsistencia

  /** `exportNotas` and `exportAsistencia`, which the controller leaves
      unimplemented: both answer 501 (not implemented) whatever the request. */
  function Exportar(): (r: Status)
    ensures r.Code() == 501
  {
    NotImplemented
  }
}
