/** The derived values of the `Estudiante` model: the general average, the
    general attendance, the full name and whether the student is active. */
module Estudiantes {
  import opened Common
  import opened Seqs
  import opened Rounding
  import opened Schema
  import N = Notas
  import A = Asistencias

  /** The per-enrolment average: `round(avg(nota), 1)` over the enrolment's
      grades, 0 when it has none. With valid grades it is positive exactly when
      the enrolment has a grade, so `filter(> 0)` drops the enrolments without
      grades. */
  function PromedioMatricula(notas: seq<Nota>, m: Matricula): (p: nat)
    ensures (forall n :: n in notas ==> n.matricula != m.id) ==> p == 0
    ensures (forall n :: n in notas && n.matricula == m.id ==> NotaValida(n.nota))
            ==> (p > 0 <==> exists n :: n in notas && n.matricula == m.id)
  {
    var ns := N.NotasDe(notas, m.id);
    var p := N.Promedio(ns);
    if ns != [] && (forall n :: n in notas && n.matricula == m.id ==> NotaValida(n.nota)) then
      assert N.Valores(ns)[0] == ns[0].nota;
      N.PromedioValido(ns);
      p
    else p
  }

  /** The per-enrolment attendance percentage, in hundredths: present records
      over all records, 0 without records; it is positive only if the
      enrolment has a present record. */
  function AsistenciaMatricula(asistencias: seq<Asistencia>, m: Matricula): (p: nat)
    ensures p <= 10000
    ensures p > 0 ==> exists a :: a in asistencias && a.matricula == m.id && a.presente
  {
    var registros := A.RegistrosDe(asistencias, m.id, A.Filtro(Absent, Absent, Absent));
    var resumen := A.ResumenDe(registros);
    A.ResumenAusentes(registros);
    if resumen.porcentaje > 0 then
      assert resumen.presentes > 0 by {
        if resumen.presentes == 0 {
          PositiveFactor(resumen.total, 2 * resumen.porcentaje - 1);
        }
      }
      var a :| a in registros && A.EsPresente(a);
      resumen.porcentaje
    else resumen.porcentaje
  }

  /** `filter(fn ($x) => $x > 0)`. */
  function Positivo(x: nat): bool { x > 0 }

  function Positivos(s: seq<nat>): (r: seq<nat>)
    ensures forall x :: x in r <==> x in s && x > 0
  {
    Filter(s, Positivo)
  }

  /** `round($xs->filter(> 0)->avg(), d)` with the values scaled so that the
      rounding is to units: 0 when no value is positive, otherwise the mean
      of the positive values rounded half up, between their least and their
      greatest. */
  function MediaPositiva(s: seq<nat>): (r: nat)
    ensures r == 0 <==> forall i :: 0 <= i < |s| ==> s[i] == 0
    ensures r > 0 ==> var p := Positivos(s);
      && Redondeado(Sum(p), |p|, r)
      && Min(p) <= r <= Max(p)
  {
    var p := Positivos(s);
    if p == [] then
      assert forall i :: 0 <= i < |s| ==> s[i] == 0 by {
        forall i | 0 <= i < |s| ensures s[i] == 0 {
          assert s[i] in s;
        }
      }
      0
    else
      MeanWithinMinMax(p);
      var r := RoundDiv(SumNat(p), |p|);
      assert r == MeanRounded(p);
      assert p[0] in s && p[0] > 0;
      assert r >= 1 by {
        assert Min(p) in p;
      }
      r
  }

  /** A value 0 (an enrolment with no grade, or no attendance) anywhere in
      the list leaves the mean unchanged. */
  lemma CeroNoCuenta(s: seq<nat>, t: seq<nat>)
    ensures MediaPositiva(s + [0] + t) == MediaPositiva(s + t)
  {
    FilterAppend(s + [0], t, Positivo);
    FilterAppend(s, [0], Positivo);
    FilterAppend(s, t, Positivo);
    assert Positivos([0]) == [];
    assert Positivos(s + [0] + t) == Positivos(s + t);
  }

  /** The per-enrolment averages of a list of enrolments, in order. */
  function Promedios(ms: seq<Matricula>, notas: seq<Nota>): (r: seq<nat>)
    ensures |r| == |ms|
    ensures forall i :: 0 <= i < |ms| ==> r[i] == PromedioMatricula(notas, ms[i])
  {
    seq(|ms|, i requires 0 <= i < |ms| => PromedioMatricula(notas, ms[i]))
  }

  /** The per-enrolment attendance percentages of a list of enrolments, in order. */
  function Asistencias(ms: seq<Matricula>, asistencias: seq<Asistencia>): (r: seq<nat>)
    ensures |r| == |ms|
    ensures forall i :: 0 <= i < |ms| ==> r[i] == AsistenciaMatricula(asistencias, ms[i]) && r[i] <= 10000
  {
    seq(|ms|, i requires 0 <= i < |ms| => AsistenciaMatricula(asistencias, ms[i]))
  }

  /** Every average in the list is 0 exactly when every enrolment's is. */
  lemma PromediosCero(ms: seq<Matricula>, notas: seq<Nota>)
    ensures MediaPositiva(Promedios(ms, notas)) == 0 <==> forall m :: m in ms ==> PromedioMatricula(notas, m) == 0
  {
    var v := Promedios(ms, notas);
    if forall i :: 0 <= i < |v| ==> v[i] == 0 {
      forall m | m in ms ensures PromedioMatricula(notas, m) == 0 {
        var i :| 0 <= i < |ms| && ms[i] == m;
        assert v[i] == 0;
      }
    }
  }

  /** Likewise for attendance; and the mean of percentages is a percentage. */
  lemma AsistenciasCero(ms: seq<Matricula>, asistencias: seq<Asistencia>)
    ensures MediaPositiva(Asistencias(ms, asistencias)) == 0 <==> forall m :: m in ms ==> AsistenciaMatricula(asistencias, m) == 0
    ensures MediaPositiva(Asistencias(ms, asistencias)) <= 10000
  {
    var v := Asistencias(ms, asistencias);
    if forall i :: 0 <= i < |v| ==> v[i] == 0 {
      forall m | m in ms ensures AsistenciaMatricula(asistencias, m) == 0 {
        var i :| 0 <= i < |ms| && ms[i] == m;
        assert v[i] == 0;
      }
    }
    var r := MediaPositiva(v);
    if r > 0 {
      var p := Positivos(v);
      assert Max(p) in v;
    }
  }

  /** `promedioGeneral`: 0 without enrolments; otherwise 0 when no
      enrolment has a positive average, else the mean of the positive
      averages rounded to tenths. The early return for no enrolments agrees
      with the general rule. */
  function PromedioGeneral(matriculas: seq<Matricula>, notas: seq<Nota>, estudiante: Id): (r: nat)
    ensures N.DelEstudiante(matriculas, estudiante) == [] ==> r == 0
    ensures r == 0 <==> forall m :: m in matriculas && m.estudiante == estudiante ==> PromedioMatricula(notas, m) == 0
    ensures r == MediaPositiva(Promedios(N.DelEstudiante(matriculas, estudiante), notas))
  {
    var ms := N.DelEstudiante(matriculas, estudiante);
    if ms == [] then 0
    else
      PromediosCero(ms, notas);
      MediaPositiva(Promedios(ms, notas))
  }

  /** `asistenciaGeneral`: the same rule over the attendance percentages,
      rounded to hundredths of a percent; the result is a percentage. */
  function AsistenciaGeneral(matriculas: seq<Matricula>, asistencias: seq<Asistencia>, estudiante: Id): (r: nat)
    ensures r <= 10000
    ensures N.DelEstudiante(matriculas, estudiante) == [] ==> r == 0
    ensures r == 0 <==> forall m :: m in matriculas && m.estudiante == estudiante ==> AsistenciaMatricula(asistencias, m) == 0
    ensures r == MediaPositiva(Asistencias(N.DelEstudiante(matriculas, estudiante), asistencias))
  {
    var ms := N.DelEstudiante(matriculas, estudiante);
    if ms == [] then 0
    else
      AsistenciasCero(ms, asistencias);
      MediaPositiva(Asistencias(ms, asistencias))
  }

  /** With valid grades, the general average is 0 exactly when none of the
      student's enrolments has a grade, and otherwise a valid grade. */
  lemma PromedioGeneralValido(matriculas: seq<Matricula>, notas: seq<Nota>, estudiante: Id)
    requires forall n :: n in notas ==> NotaValida(n.nota)
    ensures var r := PromedioGeneral(matriculas, notas, estudiante);
      && (r == 0 <==> forall m, n :: m in matriculas && m.estudiante == estudiante && n in notas ==> n.matricula != m.id)
      && (r > 0 ==> NotaValida(r))
  {
    var r := PromedioGeneral(matriculas, notas, estudiante);
    if r > 0 {
      var p := Positivos(Promedios(N.DelEstudiante(matriculas, estudiante), notas));
      assert Min(p) in p && Max(p) in p;
      forall x | x in p ensures NotaValida(x) {
        var v := Promedios(N.DelEstudiante(matriculas, estudiante), notas);
        var i :| 0 <= i < |v| && v[i] == x;
        var m := N.DelEstudiante(matriculas, estudiante)[i];
        N.PromedioValido(N.NotasDe(notas, m.id));
      }
    }
  }

  /** Adding an enrolment without grades does not move the general average. */
  lemma {:induction false} SinNotasNoCuenta(matriculas: seq<Matricula>, notas: seq<Nota>, estudiante: Id, m: Matricula)
    requires forall n :: n in notas ==> n.matricula != m.id
    ensures PromedioGeneral(matriculas + [m], notas, estudiante) == PromedioGeneral(matriculas, notas, estudiante)
  {
    var ms := N.DelEstudiante(matriculas, estudiante);
    FilterAppend(matriculas, [m], N.EsDelEstudiante(estudiante));
    if m.estudiante == estudiante {
      assert N.DelEstudiante(matriculas + [m], estudiante) == ms + [m];
      assert Promedios(ms + [m], notas) == Promedios(ms, notas) + [0];
      CeroNoCuenta(Promedios(ms, notas), []);
      assert Promedios(ms, notas) + [0] + [] == Promedios(ms, notas) + [0];
      assert Promedios(ms, notas) + [] == Promedios(ms, notas);
      if ms == [] {
        assert MediaPositiva([]) == 0;
      }
    } else {
      assert N.DelEstudiante(matriculas + [m], estudiante) == ms;
    }
  }

  /** How many whitespace characters `s` starts with. */
  function Inicio(s: string): (k: nat)
    ensures k <= |s|
    ensures forall i :: 0 <= i < k ==> Blanco(s[i])
    ensures k < |s| ==> !Blanco(s[k])
  {
    if s != [] && Blanco(s[0]) then 1 + Inicio(s[1..]) else 0
  }

  /** Where the trailing whitespace of `s` begins. */
  function Fin(s: string): (j: nat)
    ensures j <= |s|
    ensures forall i :: j <= i < |s| ==> Blanco(s[i])
    ensures j > 0 ==> !Blanco(s[j - 1])
  {
    if s != [] && Blanco(s[|s| - 1]) then Fin(s[..|s| - 1]) else |s|
  }

  /** `trim`: `ltrim` then `rtrim`. What is cut on either side is
      whitespace, and what is left neither starts nor ends with it; it is
      empty exactly when the input is all whitespace. */
  function Trim(s: string): (r: string)
    ensures var k := Inicio(s);
      && k + |r| <= |s| && r == s[k..k + |r|]
      && forall i :: k + |r| <= i < |s| ==> Blanco(s[i])
    ensures r != [] ==> !Blanco(r[0]) && !Blanco(r[|r| - 1])
    ensures r == [] <==> forall i :: 0 <= i < |s| ==> Blanco(s[i])
  {
    var k := Inicio(s);
    var t := s[k..];
    var r := t[..Fin(t)];
    assert forall i :: k + |r| <= i < |s| ==> s[i] == t[i - k];
    r
  }

  /** Trimming twice is trimming once. */
  lemma TrimIdempotente(s: string)
    ensures Trim(Trim(s)) == Trim(s)
  {
    TrimSinBordes(Trim(s));
  }

  /** A string that neither starts nor ends with whitespace is left as is. */
  lemma TrimSinBordes(s: string)
    requires s != [] ==> !Blanco(s[0]) && !Blanco(s[|s| - 1])
    ensures Trim(s) == s
  {
  }

  /** `nombreCompleto`: names and both surnames joined by single spaces,
      trimmed. */
  function NombreCompleto(e: Estudiante): (r: string)
    ensures r != [] ==> !Blanco(r[0]) && !Blanco(r[|r| - 1])
    ensures e.nombres != [] && e.apellidoMaterno != [] && !Blanco(e.nombres[0])
            && !Blanco(e.apellidoMaterno[|e.apellidoMaterno| - 1])
            ==> r == e.nombres + " " + e.apellidoPaterno + " " + e.apellidoMaterno
  {
    var s := e.nombres + " " + e.apellidoPaterno + " " + e.apellidoMaterno;
    if e.nombres != [] && e.apellidoMaterno != [] && !Blanco(e.nombres[0])
       && !Blanco(e.apellidoMaterno[|e.apellidoMaterno| - 1]) then
      assert s[0] == e.nombres[0] && s[|s| - 1] == e.apellidoMaterno[|e.apellidoMaterno| - 1];
      TrimSinBordes(s);
      Trim(s)
    else Trim(s)
  }

  /** Without a second surname the trailing space is cut: the full name is
      the names and the first surname. */
  lemma NombreSinMaterno(e: Estudiante)
    requires e.apellidoMaterno == [] && e.nombres != [] && e.apellidoPaterno != []
    requires !Blanco(e.nombres[0]) && !Blanco(e.apellidoPaterno[|e.apellidoPaterno| - 1])
    ensures NombreCompleto(e) == e.nombres + " " + e.apellidoPaterno
  {
    var s := e.nombres + " " + e.apellidoPaterno + " " + e.apellidoMaterno;
    var t := e.nombres + " " + e.apellidoPaterno;
    assert s == t + " " && s[0] == t[0];
    assert Inicio(s) == 0;
    assert s[..|s| - 1] == t;
    assert Fin(s) == Fin(t) == |t|;
  }

  /** `estaActivo`: the student has a state and its name is "Activo". */
  function EstaActivo(estados: seq<Estado>, e: Estudiante): (r: bool)
    ensures r ==> exists x :: x in estados && e.estado == Some(x.id) && x.nombre == "Activo"
    ensures e.estado.None? ==> !r
  {
    match e.estado
    case None => false
    case Some(k) =>
      match Find(estados, EstadoId, k)
      case None => false
      case Some(x) => x.nombre == "Activo"
  }

  /** With `id_estado` a key of `estados`, the converse holds too. */
  lemma EstaActivoSi(estados: seq<Estado>, e: Estudiante)
    requires Distinct(estados, EstadoId)
    ensures EstaActivo(estados, e) <==> exists x :: x in estados && e.estado == Some(x.id) && x.nombre == "Activo"
  {
    if x :| x in estados && e.estado == Some(x.id) && x.nombre == "Activo" {
      FindUnique(estados, EstadoId, x);
    }
  }
}
