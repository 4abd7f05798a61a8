/** The seat counter `cupo_disponible` of an offering, how enrolments and
    withdrawals move it, and the quantity they conserve: free seats plus
    enrolments. */
module Cupos {
  import opened Common
  import opened Schema

  /** The seat check `$asignatura->cupo_disponible <= 0` lets the enrolment
      through. PHP compares NULL with 0 as `false <= false`, so an offering
      whose counter is NULL never has a seat. */
  predicate HasSeat(a: Asignatura)
  {
    a.cupoDisponible.Some? && a.cupoDisponible.value > 0
  }

  /** `cupo_disponible + delta` as SQL evaluates it: NULL stays NULL. */
  function Shift(c: Option<int>, delta: int): Option<int>
  {
    if c.None? then None else Some(c.value + delta)
  }

  /** `increment('cupo_disponible')` (delta 1) or `decrement(...)` (delta -1)
      on the offering `id`: only that offering's counter moves. */
  function AdjustSeats(asignaturas: seq<Asignatura>, id: Id, delta: int): (r: seq<Asignatura>)
    ensures |r| == |asignaturas|
    ensures forall i :: 0 <= i < |r| ==> r[i] == asignaturas[i].(cupoDisponible := r[i].cupoDisponible)
    ensures forall i :: 0 <= i < |r| && asignaturas[i].id != id ==> r[i] == asignaturas[i]
  {
    seq(|asignaturas|, i requires 0 <= i < |asignaturas| =>
      var a := asignaturas[i];
      if a.id == id then a.(cupoDisponible := Shift(a.cupoDisponible, delta)) else a)
  }

  /** The counter of offering `id` (None when the offering is missing or its counter is NULL). */
  function Cupo(asignaturas: seq<Asignatura>, id: Id): Option<int>
  {
    match Find(asignaturas, AsignaturaId, id)
    case None => None
    case Some(a) => a.cupoDisponible
  }

  /** The number of enrolments in offering `id` (`$asignatura->matriculas()->count()`). */
  function Inscritos(matriculas: seq<Matricula>, id: Id): (n: nat)
    ensures n <= |matriculas|
    ensures n == 0 <==> forall m :: m in matriculas ==> m.asignatura != id
  {
    if matriculas == [] then 0
    else
      var rest := Inscritos(matriculas[1..], id);
      assert forall m :: m in matriculas <==> m == matriculas[0] || m in matriculas[1..];
      (if matriculas[0].asignatura == id then 1 else 0) + rest
  }

  /** Free seats plus enrolments of offering `id`: the capacity the counter
      started from. Every enrolment and withdrawal conserves it. */
  function Plazas(asignaturas: seq<Asignatura>, matriculas: seq<Matricula>, id: Id): Option<int>
  {
    Shift(Cupo(asignaturas, id), Inscritos(matriculas, id))
  }

  // Facts about AdjustSeats.

  /** Moving a counter keeps the set of offerings and their unique keys. */
  lemma AdjustSeatsKeys(asignaturas: seq<Asignatura>, id: Id, delta: int)
    ensures Keys(AdjustSeats(asignaturas, id, delta), AsignaturaId) == Keys(asignaturas, AsignaturaId)
    ensures Distinct(asignaturas, AsignaturaId) ==> Distinct(AdjustSeats(asignaturas, id, delta), AsignaturaId)
    ensures Distinct(asignaturas, Seccion) ==> Distinct(AdjustSeats(asignaturas, id, delta), Seccion)
  {
    var r := AdjustSeats(asignaturas, id, delta);
    assert forall i :: 0 <= i < |r| ==> r[i].id == asignaturas[i].id && Seccion(r[i]) == Seccion(asignaturas[i]);
    forall k | k in Keys(asignaturas, AsignaturaId)
      ensures k in Keys(r, AsignaturaId)
    {
      var x :| x in asignaturas && x.id == k;
      var i :| 0 <= i < |asignaturas| && asignaturas[i] == x;
      assert r[i] in r;
    }
    forall k | k in Keys(r, AsignaturaId)
      ensures k in Keys(asignaturas, AsignaturaId)
    {
      var x :| x in r && x.id == k;
      var i :| 0 <= i < |r| && r[i] == x;
      assert asignaturas[i] in asignaturas;
    }
  }

  /** The counter of `id` moves by `delta` (NULL stays NULL); every other counter stays. */
  lemma {:induction false} AdjustSeatsCupo(asignaturas: seq<Asignatura>, id: Id, delta: int, k: Id)
    requires Distinct(asignaturas, AsignaturaId)
    ensures Cupo(AdjustSeats(asignaturas, id, delta), k) == if k == id then Shift(Cupo(asignaturas, k), delta) else Cupo(asignaturas, k)
  {
    var r := AdjustSeats(asignaturas, id, delta);
    AdjustSeatsKeys(asignaturas, id, delta);
    if k in Keys(asignaturas, AsignaturaId) {
      var a := Find(asignaturas, AsignaturaId, k).value;
      var i :| 0 <= i < |asignaturas| && asignaturas[i] == a;
      assert r[i] in r;
      FindUnique(r, AsignaturaId, r[i]);
    }
  }

  /** Giving back the seat that was taken restores the offerings table exactly. */
  lemma SeatRoundTrip(asignaturas: seq<Asignatura>, id: Id)
    ensures AdjustSeats(AdjustSeats(asignaturas, id, -1), id, 1) == asignaturas
  {
  }

  /** A counter that is NULL or positive before a decrement is NULL or non-negative after it;
      an increment never makes a non-negative counter negative. */
  lemma AdjustSeatsNonNegative(asignaturas: seq<Asignatura>, id: Id, delta: int)
    requires forall a :: a in asignaturas && a.cupoDisponible.Some? ==> a.cupoDisponible.value >= 0
    requires delta < 0 ==> forall a :: a in asignaturas && a.id == id && a.cupoDisponible.Some? ==> a.cupoDisponible.value + delta >= 0
    ensures forall a :: a in AdjustSeats(asignaturas, id, delta) && a.cupoDisponible.Some? ==> a.cupoDisponible.value >= 0
  {
  }

  // Facts about Inscritos.

  lemma {:induction false} InscritosAppend(matriculas: seq<Matricula>, m: Matricula, id: Id)
    ensures Inscritos(matriculas + [m], id) == Inscritos(matriculas, id) + (if m.asignatura == id then 1 else 0)
  {
    if matriculas == [] {
      assert matriculas + [m] == [m];
    } else {
      assert (matriculas + [m])[1..] == matriculas[1..] + [m];
      InscritosAppend(matriculas[1..], m, id);
    }
  }

  /** Deleting one enrolment (by its id, in a table with unique ids) lowers
      its offering's count by one and no other. */
  lemma {:induction false} InscritosWithout(matriculas: seq<Matricula>, m: Matricula, id: Id)
    requires Distinct(matriculas, MatriculaId)
    requires m in matriculas
    ensures Inscritos(Without(matriculas, MatriculaId, {m.id}), id) == Inscritos(matriculas, id) - (if m.asignatura == id then 1 else 0)
  {
    var tail := matriculas[1..];
    assert Distinct(tail, MatriculaId) by {
      forall i, j | 0 <= i < j < |tail|
        ensures tail[i].id != tail[j].id
      {
        assert tail[i] == matriculas[i + 1] && tail[j] == matriculas[j + 1];
      }
    }
    if matriculas[0] == m {
      forall i | 0 <= i < |tail|
        ensures MatriculaId(tail[i]) !in {m.id}
      {
        assert tail[i] == matriculas[i + 1];
      }
      WithoutNone(tail, MatriculaId, {m.id});
      assert Without(matriculas, MatriculaId, {m.id}) == Without(tail, MatriculaId, {m.id});
    } else {
      var j :| 0 <= j < |matriculas| && matriculas[j] == m;
      assert j > 0 && tail[j - 1] == m;
      assert matriculas[0].id != m.id;
      InscritosWithout(tail, m, id);
      assert Without(matriculas, MatriculaId, {m.id}) == [matriculas[0]] + Without(tail, MatriculaId, {m.id});
      var w := Without(matriculas, MatriculaId, {m.id});
      assert w[0] == matriculas[0] && w[1..] == Without(tail, MatriculaId, {m.id});
    }
  }

  // Conservation of capacity.

  /** Enrolling in an offering takes one of its seats: free seats plus
      enrolments stay the same for every offering. */
  lemma TakeSeatConserves(asignaturas: seq<Asignatura>, matriculas: seq<Matricula>, m: Matricula, k: Id)
    requires Distinct(asignaturas, AsignaturaId)
    ensures Plazas(AdjustSeats(asignaturas, m.asignatura, -1), matriculas + [m], k) == Plazas(asignaturas, matriculas, k)
  {
    var c0, c1 := Cupo(asignaturas, k), Cupo(AdjustSeats(asignaturas, m.asignatura, -1), k);
    var n0, n1 := Inscritos(matriculas, k), Inscritos(matriculas + [m], k);
    AdjustSeatsCupo(asignaturas, m.asignatura, -1, k);
    InscritosAppend(matriculas, m, k);
    ShiftTransfer(c0, c1, n0, n1, k == m.asignatura, -1);
  }

  /** Deleting an enrolment gives its seat back: free seats plus enrolments
      stay the same for every offering. */
  lemma ReturnSeatConserves(asignaturas: seq<Asignatura>, matriculas: seq<Matricula>, m: Matricula, k: Id)
    requires Distinct(asignaturas, AsignaturaId)
    requires Distinct(matriculas, MatriculaId)
    requires m in matriculas
    ensures Plazas(AdjustSeats(asignaturas, m.asignatura, 1), Without(matriculas, MatriculaId, {m.id}), k) == Plazas(asignaturas, matriculas, k)
  {
    var adjusted := AdjustSeats(asignaturas, m.asignatura, 1);
    var w := Without(matriculas, MatriculaId, {m.id});
    var c0, c1 := Cupo(asignaturas, k), Cupo(adjusted, k);
    var n0, n1 := Inscritos(matriculas, k), Inscritos(w, k);
    AdjustSeatsCupo(asignaturas, m.asignatura, 1, k);
    InscritosWithout(matriculas, m, k);
    ShiftTransfer(c0, c1, n0, n1, k == m.asignatura, 1);
  }

  /** One unit moved between the enrolment count and the counter (`delta` is
      +1 when a seat comes back, -1 when one is taken) leaves their sum unchanged. */
  lemma ShiftTransfer(c0: Option<int>, c1: Option<int>, n0: nat, n1: nat, moved: bool, delta: int)
    requires c1 == if moved then Shift(c0, delta) else c0
    requires n1 + (if moved then delta else 0) == n0
    ensures Shift(c1, n1) == Shift(c0, n0)
  {
  }
}
