/** Vocabulary shared by every controller: optional values, partial updates,
    response statuses, and the authenticated caller with its ownership gate. */
module Common {

  /** Row identifiers (auto-increment primary keys) and calendar days. */
  type Id = int
  type Date = int

  /** A nullable column or an optional request parameter. */
  datatype Option<T> = None | Some(value: T)
  {
    /** PHP's `$x ?? $default`. */
    function Or(default: T): T
    {
      if None? then default else value
    }
  }

  /** A key of an update request: absent keeps the stored value, present replaces it. */
  datatype Field<T> = Keep | Set(value: T)
  {
    function Or(stored: T): T
    {
      match this
      case Keep => stored
      case Set(v) => v
    }
  }

  /** An optional query or body parameter as the controllers see it: not
      sent; sent as null (or as the empty string, which the request pipeline
      turns into null), where `$request->has` is already true; or sent with a
      value. */
  datatype Param<T> = Absent | Null | Given(value: T)
  {
    /** `$request->has(...)`: true for a key sent as null. */
    predicate Has()
    {
      !Absent?
    }

    /** `$request->get(..., $default)`: the default only when the key is
        absent; a key sent as null gives NULL. */
    function Valor(default: T): Option<T>
    {
      match this
      case Absent => Some(default)
      case Null => None
      case Given(v) => Some(v)
    }
  }

  /** `if ($request->has(p)) $query->where(col, $request->p)` on a NOT NULL
      column: no condition when the key is absent, `whereNull` (which no row
      passes) when it is null, equality otherwise. */
  predicate Coincide<T(==)>(p: Param<T>, x: T)
  {
    match p
    case Absent => true
    case Null => false
    case Given(v) => x == v
  }

  /** `if (has(desde) && has(hasta)) whereBetween(col, [desde, hasta])`:
      no condition unless both keys are sent, inclusive bounds, and a NULL
      bound matches no row. */
  predicate EntreFechas(desde: Param<Date>, hasta: Param<Date>, fecha: Date)
  {
    desde.Has() && hasta.Has() ==> desde.Given? && hasta.Given? && desde.value <= fecha <= hasta.value
  }

  /** The whitespace PHP's `trim` strips: space, tab, newline, carriage
      return, NUL and vertical tab. */
  predicate Blanco(c: char)
  {
    c == ' ' || c == '\t' || c == '\n' || c == '\r' || c == '\0' || c == '\U{000B}'
  }

  /** A string `required` accepts: the request pipeline trims every input
      string and turns the empty string into NULL, so a string that is empty
      or all whitespace fails `required` (and `string`, which refuses NULL). */
  predicate NoBlanco(s: string)
  {
    exists i :: 0 <= i < |s| && !Blanco(s[i])
  }

  /** The JSON responses' HTTP statuses. */
  datatype Status =
    | Ok              // 200
    | Created         // 201
    | BadRequest      // 400: duplicate, no seats, guard refused
    | Forbidden       // 403: a teacher acting on an offering they do not own
    | NotFound        // 404
    | Unprocessable   // 422: the request validator refused the input
    | ServerError     // 500: an exception (findOrFail on a missing row) was caught
    | NotImplemented  // 501
  {
    function Code(): int
    {
      match this
      case Ok => 200
      case Created => 201
      case BadRequest => 400
      case Forbidden => 403
      case NotFound => 404
      case Unprocessable => 422
      case ServerError => 500
      case NotImplemented => 501
    }
  }

  /** The authenticated user as the controllers see it: `id_rol` and `id_profesor`. */
  datatype Principal = Principal(rol: Id, profesor: Option<Id>)

  /** `id_rol` of the teacher role. */
  const ROL_PROFESOR: Id := 2

  /** The ownership gate every mutating action repeats: a teacher whose
      `id_profesor` differs from the offering's `id_profesor` is refused. */
  predicate Denied(user: Principal, owner: Option<Id>)
  {
    user.rol == ROL_PROFESOR && owner != user.profesor
  }
}
