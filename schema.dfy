/** The `cars` table of src/lib/supabase.js: its columns, their bounds, the four row-level-security
    policies, and INSERT, UPDATE and DELETE as PostgreSQL runs them for a PostgREST request. */
module Schema {
  import opened Wrappers
  import opened Collections

  /** A user id of the identity provider (`auth.uid()`). */
  type Uid = string
  /** Stands for the `UUID` primary key, whose value `gen_random_uuid()` supplies. */
  type RowId = nat
  /** Stands for `TIMESTAMP WITH TIME ZONE`; `now()` is passed in. */
  type Timestamp = int

  const CarIdMaxLength := 50
  const MakeMaxLength := 100
  const ModelMaxLength := 100
  /** The range of PostgreSQL's 32-bit `INTEGER`. */
  const IntegerMin := -0x8000_0000
  const IntegerMax := 0x7FFF_FFFF

  /** The columns a client writes: the `carData` object of the form. `NULL` is `None`. */
  datatype CarData = CarData(
    carId: string, make: string, model: string, year: int,
    imageUrl: Option<string>, userId: Option<Uid>)

  /** One stored row. `car_id`, `make`, `model` and `year` are `NOT NULL`; `image_url` and `user_id` may be `NULL`. */
  datatype Row = Row(
    id: RowId, carId: string, make: string, model: string, year: int,
    imageUrl: Option<string>, userId: Option<Uid>,
    createdAt: Timestamp, updatedAt: Timestamp)

  /** The errors PostgreSQL reports for these statements. */
  datatype DbError =
    | StringTooLong      // value too long for type character varying(n)
    | IntegerOutOfRange  // value out of range for type integer
    | PolicyViolation    // new row violates row-level security policy
    | UniqueViolation    // duplicate key value violates unique constraint

  /** The client-writable columns of a row. */
  function DataOf(r: Row): CarData {
    CarData(r.carId, r.make, r.model, r.year, r.imageUrl, r.userId)
  }

  /** The values fit their column types: `VARCHAR(50)`, `VARCHAR(100)`, `VARCHAR(100)`, `INTEGER`. */
  predicate FitsColumns(d: CarData) {
    && |d.carId| <= CarIdMaxLength
    && |d.make| <= MakeMaxLength
    && |d.model| <= ModelMaxLength
    && IntegerMin <= d.year <= IntegerMax
  }

  /** Assignment to `VARCHAR(n)` takes a string of at most `n` characters, and a longer one whose
      characters past the `n`-th are all spaces; any other string is too long. */
  predicate VarcharAccepts(s: string, n: nat) {
    |s| <= n || forall i :: n <= i < |s| ==> s[i] == ' '
  }

  /** The value `VARCHAR(n)` stores: the string itself, or its first `n` characters when only
      spaces follow them. */
  function VarcharValue(s: string, n: nat): (v: string)
    requires VarcharAccepts(s, n)
    ensures |v| <= n && |v| <= |s| && v == s[..|v|]
    ensures |v| == |s| || |v| == n
    ensures forall i :: |v| <= i < |s| ==> s[i] == ' '
  {
    if |s| <= n then s else s[..n]
  }

  /** The values can be assigned to their column types. */
  predicate Coercible(d: CarData) {
    && VarcharAccepts(d.carId, CarIdMaxLength)
    && VarcharAccepts(d.make, MakeMaxLength)
    && VarcharAccepts(d.model, ModelMaxLength)
    && IntegerMin <= d.year <= IntegerMax
  }

  /** The values as stored: space-padded text cut to its column's length, the rest unchanged. */
  function Coerce(d: CarData): (c: CarData)
    requires Coercible(d)
    ensures FitsColumns(c)
    ensures c.carId == VarcharValue(d.carId, CarIdMaxLength)
    ensures c.make == VarcharValue(d.make, MakeMaxLength)
    ensures c.model == VarcharValue(d.model, ModelMaxLength)
    ensures c.year == d.year && c.imageUrl == d.imageUrl && c.userId == d.userId
    ensures FitsColumns(d) ==> c == d
  {
    d.(carId := VarcharValue(d.carId, CarIdMaxLength),
       make := VarcharValue(d.make, MakeMaxLength),
       model := VarcharValue(d.model, ModelMaxLength))
  }

  /** The error raised while the values are coerced to the column types, in column order. */
  function CoercionError(d: CarData): (e: Option<DbError>)
    ensures e.None? <==> Coercible(d)
    ensures e == Some(StringTooLong) <==>
      !VarcharAccepts(d.carId, CarIdMaxLength) || !VarcharAccepts(d.make, MakeMaxLength)
      || !VarcharAccepts(d.model, ModelMaxLength)
    ensures e == Some(IntegerOutOfRange) <==>
      && VarcharAccepts(d.carId, CarIdMaxLength) && VarcharAccepts(d.make, MakeMaxLength)
      && VarcharAccepts(d.model, ModelMaxLength) && !(IntegerMin <= d.year <= IntegerMax)
  {
    if !VarcharAccepts(d.carId, CarIdMaxLength) || !VarcharAccepts(d.make, MakeMaxLength)
      || !VarcharAccepts(d.model, ModelMaxLength) then
      Some(StringTooLong)
    else if d.year < IntegerMin || IntegerMax < d.year then
      Some(IntegerOutOfRange)
    else
      None
  }

  /** `auth.uid() = user_id` under SQL's NULL semantics: it fails when either side is NULL.
      All four policies (SELECT, INSERT, UPDATE, DELETE) are this predicate. */
  predicate OwnerPolicy(caller: Option<Uid>, owner: Option<Uid>) {
    caller.Some? && owner == caller
  }

  predicate Owns(caller: Option<Uid>, r: Row) {
    OwnerPolicy(caller, r.userId)
  }

  /** The table's constraints: unique `id` (primary key), unique `car_id`, every value within its
      column type, and `created_at <= updated_at`. */
  predicate WellFormed(rows: seq<Row>) {
    && (forall i, j :: 0 <= i < j < |rows| ==> rows[i].id != rows[j].id && rows[i].carId != rows[j].carId)
    && (forall i :: 0 <= i < |rows| ==> FitsColumns(DataOf(rows[i])) && rows[i].createdAt <= rows[i].updatedAt)
  }

  predicate IdInUse(rows: seq<Row>, id: RowId) {
    exists i | 0 <= i < |rows| :: rows[i].id == id
  }

  predicate CarIdInUse(rows: seq<Row>, carId: string) {
    exists i | 0 <= i < |rows| :: rows[i].carId == carId
  }

  /** Some row other than the one with primary key `id` already has this `car_id`. */
  predicate CarIdInUseByOther(rows: seq<Row>, id: RowId, carId: string) {
    exists i | 0 <= i < |rows| :: rows[i].id != id && rows[i].carId == carId
  }

  /** A row the statement `... WHERE id = $id` reaches once the caller's policy has filtered the table. */
  predicate IsTarget(caller: Option<Uid>, id: RowId, r: Row) {
    r.id == id && Owns(caller, r)
  }

  predicate HasTarget(rows: seq<Row>, caller: Option<Uid>, id: RowId) {
    exists i | 0 <= i < |rows| :: IsTarget(caller, id, rows[i])
  }

  /** The rows the SELECT policy lets `caller` see, in table order. */
  function Visible(rows: seq<Row>, caller: Option<Uid>): (v: seq<Row>)
    ensures |v| <= |rows|
    ensures forall r :: r in v <==> r in rows && Owns(caller, r)
  {
    Filter(rows, (r: Row) => Owns(caller, r))
  }

  /** Position of the row with primary key `id`. */
  function IndexOf(rows: seq<Row>, id: RowId): (k: Option<nat>)
    ensures k.Some? ==> k.value < |rows| && rows[k.value].id == id
    ensures k.Some? ==> forall i :: 0 <= i < k.value ==> rows[i].id != id
    ensures k.None? <==> !IdInUse(rows, id)
  {
    if rows == [] then None
    else if rows[0].id == id then Some(0)
    else
      match IndexOf(rows[1..], id)
      case None => None
      case Some(j) => Some(j + 1)
  }

  /** In a well-formed table the row at `k` is the only one with its id. */
  lemma UniqueAt(rows: seq<Row>, k: nat, i: int)
    requires WellFormed(rows) && k < |rows|
    requires 0 <= i < |rows| && i != k
    ensures rows[i].id != rows[k].id && rows[i].carId != rows[k].carId
  {
  }

  /** `.select('*').eq('id', id).single()`: the one visible row with that id, or an error (`None`). */
  function SelectById(rows: seq<Row>, caller: Option<Uid>, id: RowId): (r: Option<Row>)
    requires WellFormed(rows)
    ensures r.Some? <==> HasTarget(rows, caller, id)
    ensures r.Some? ==> r.value in Visible(rows, caller) && r.value.id == id
  {
    match IndexOf(rows, id)
    case None => None
    case Some(k) =>
      if Owns(caller, rows[k]) then Some(rows[k])
      else
        assert forall i :: 0 <= i < |rows| && i != k ==> rows[i].id != id by {
          forall i | 0 <= i < |rows| && i != k ensures rows[i].id != id { UniqueAt(rows, k, i); }
        }
        None
  }

  /** The outcome of a write: the affected-row count or an error, and the table afterwards. */
  datatype Write = Write(result: Result<nat, DbError>, rows: seq<Row>)

  /** The row an INSERT stores: `id` from `gen_random_uuid()`, both timestamps from `now()`. */
  function NewRow(id: RowId, now: Timestamp, d: CarData): Row {
    Row(id, d.carId, d.make, d.model, d.year, d.imageUrl, d.userId, now, now)
  }

  /** `INSERT INTO cars` of one row: coercion, then the INSERT policy's `WITH CHECK`, then the
      unique indexes on `id` and `car_id`, which see the coerced `car_id`. */
  function InsertRow(rows: seq<Row>, caller: Option<Uid>, id: RowId, now: Timestamp, d: CarData): (w: Write)
    ensures w.result.Success? <==>
      Coercible(d) && OwnerPolicy(caller, d.userId) && !IdInUse(rows, id) && !CarIdInUse(rows, Coerce(d).carId)
    ensures w.result.Success? ==>
      Coercible(d) && w.result.value == 1 && w.rows == rows + [NewRow(id, now, Coerce(d))]
    ensures w.result.Failure? ==> w.rows == rows
    ensures !Coercible(d) ==> w.result == Failure(CoercionError(d).value)
    ensures w.result == Failure(PolicyViolation) <==> Coercible(d) && !OwnerPolicy(caller, d.userId)
    ensures w.result == Failure(UniqueViolation) <==>
      Coercible(d) && OwnerPolicy(caller, d.userId) && (IdInUse(rows, id) || CarIdInUse(rows, Coerce(d).carId))
    ensures WellFormed(rows) ==> WellFormed(w.rows)
  {
    if CoercionError(d).Some? then Write(Failure(CoercionError(d).value), rows)
    else
      var c := Coerce(d);
      if !OwnerPolicy(caller, c.userId) then Write(Failure(PolicyViolation), rows)
      else if IdInUse(rows, id) || CarIdInUse(rows, c.carId) then Write(Failure(UniqueViolation), rows)
      else Write(Success(1), rows + [NewRow(id, now, c)])
  }

  /** `UPDATE cars SET car_id, make, model, year, image_url, user_id`: no trigger touches
      `id`, `created_at` or `updated_at`. */
  function Apply(r: Row, d: CarData): (u: Row)
    ensures DataOf(u) == d
    ensures u.id == r.id && u.createdAt == r.createdAt && u.updatedAt == r.updatedAt
  {
    r.(carId := d.carId, make := d.make, model := d.model, year := d.year,
       imageUrl := d.imageUrl, userId := d.userId)
  }

  /** `UPDATE cars SET ... WHERE id = $id` for `caller`: coercion; then the rows the UPDATE policy's
      `USING` lets through (none is not an error); then the same policy as a check on the new row,
      which PostgreSQL applies when the policy has no `WITH CHECK`; then the unique index on `car_id`. */
  function UpdateRows(rows: seq<Row>, caller: Option<Uid>, id: RowId, d: CarData): (w: Write)
    requires WellFormed(rows)
    ensures w.result.Success? <==>
      Coercible(d) && (HasTarget(rows, caller, id) ==>
        OwnerPolicy(caller, d.userId) && !CarIdInUseByOther(rows, id, Coerce(d).carId))
    ensures w.result.Success? ==> w.result.value == if HasTarget(rows, caller, id) then 1 else 0
    ensures w.result.Failure? ==> w.rows == rows
    ensures !Coercible(d) ==> w.result == Failure(CoercionError(d).value)
    ensures w.result == Failure(PolicyViolation) <==>
      Coercible(d) && HasTarget(rows, caller, id) && !OwnerPolicy(caller, d.userId)
    ensures |w.rows| == |rows|
    ensures forall i :: 0 <= i < |rows| ==>
      w.rows[i] == if Coercible(d) && w.result.Success? && IsTarget(caller, id, rows[i])
        then Apply(rows[i], Coerce(d)) else rows[i]
    ensures forall i :: 0 <= i < |rows| ==> w.rows[i].userId == rows[i].userId
    ensures WellFormed(w.rows)
  {
    if CoercionError(d).Some? then Write(Failure(CoercionError(d).value), rows)
    else
      var c := Coerce(d);
      match IndexOf(rows, id)
      case None => Write(Success(0), rows)
      case Some(k) =>
        assert forall i :: 0 <= i < |rows| && i != k ==> rows[i].id != id by {
          forall i | 0 <= i < |rows| && i != k ensures rows[i].id != id { UniqueAt(rows, k, i); }
        }
        if !Owns(caller, rows[k]) then Write(Success(0), rows)
        else if !OwnerPolicy(caller, c.userId) then Write(Failure(PolicyViolation), rows)
        else if CarIdInUseByOther(rows, id, c.carId) then Write(Failure(UniqueViolation), rows)
        else
          var updated := rows[k := Apply(rows[k], c)];
          assert WellFormed(updated) by {
            forall i, j | 0 <= i < j < |updated|
              ensures updated[i].id != updated[j].id && updated[i].carId != updated[j].carId
            {
              if i != k && j != k { UniqueAt(rows, i, j); }
            }
          }
          Write(Success(1), updated)
  }

  /** Position `i` of a sequence with position `k` removed comes from position `Skip(i, k)`. */
  function Skip(i: nat, k: nat): nat {
    if i < k then i else i + 1
  }

  lemma RemoveAtIndex<T>(s: seq<T>, k: nat)
    requires k < |s|
    ensures |s[..k] + s[k + 1..]| == |s| - 1
    ensures forall i :: 0 <= i < |s| - 1 ==> (s[..k] + s[k + 1..])[i] == s[Skip(i, k)]
  {
  }

  /** Removing the row at `k` from a well-formed table keeps it well formed and drops exactly that row. */
  lemma RemoveAt(rows: seq<Row>, k: nat)
    requires WellFormed(rows) && k < |rows|
    ensures forall r :: r in rows[..k] + rows[k + 1..] <==> r in rows && r != rows[k]
    ensures WellFormed(rows[..k] + rows[k + 1..])
  {
    var rest := rows[..k] + rows[k + 1..];
    RemoveAtIndex(rows, k);
    forall r ensures r in rest <==> r in rows && r != rows[k] {
      if r in rows && r != rows[k] {
        var i :| 0 <= i < |rows| && rows[i] == r;
        assert rest[if i < k then i else i - 1] == r;
      }
      if r in rest {
        var i :| 0 <= i < |rest| && rest[i] == r;
        UniqueAt(rows, k, Skip(i, k));
      }
    }
    forall i, j | 0 <= i < j < |rest|
      ensures rest[i].id != rest[j].id && rest[i].carId != rest[j].carId
    {
      UniqueAt(rows, Skip(i, k), Skip(j, k));
    }
  }

  /** `DELETE FROM cars WHERE id = $id` for `caller`: removes the row the DELETE policy lets through,
      if any; deleting nothing is not an error. */
  function DeleteRows(rows: seq<Row>, caller: Option<Uid>, id: RowId): (w: Write)
    requires WellFormed(rows)
    ensures w.result == Success(if HasTarget(rows, caller, id) then 1 else 0)
    ensures |w.rows| == |rows| - w.result.value
    ensures forall r :: r in w.rows <==> r in rows && !IsTarget(caller, id, r)
    ensures !HasTarget(rows, caller, id) ==> w.rows == rows
    ensures WellFormed(w.rows)
  {
    match IndexOf(rows, id)
    case None => Write(Success(0), rows)
    case Some(k) =>
      assert forall i :: 0 <= i < |rows| && i != k ==> rows[i].id != id by {
        forall i | 0 <= i < |rows| && i != k ensures rows[i].id != id { UniqueAt(rows, k, i); }
      }
      if !Owns(caller, rows[k]) then Write(Success(0), rows)
      else
        var rest := rows[..k] + rows[k + 1..];
        RemoveAt(rows, k);
        Write(Success(1), rest)
  }

  /** A successful insert makes the new row visible to its owner, at the end of their rows, and to
      nobody else. */
  lemma InsertVisibility(rows: seq<Row>, caller: Option<Uid>, id: RowId, now: Timestamp, d: CarData, other: Option<Uid>)
    requires InsertRow(rows, caller, id, now, d).result.Success?
    ensures Visible(InsertRow(rows, caller, id, now, d).rows, caller) == Visible(rows, caller) + [NewRow(id, now, Coerce(d))]
    ensures other != caller ==> Visible(InsertRow(rows, caller, id, now, d).rows, other) == Visible(rows, other)
  {
    var row := NewRow(id, now, Coerce(d));
    FilterAppend(rows, [row], (r: Row) => Owns(caller, r));
    FilterAppend(rows, [row], (r: Row) => Owns(other, r));
  }

  /** An update by `caller` changes nothing another caller can see. */
  lemma UpdateInvisibleToOthers(rows: seq<Row>, caller: Option<Uid>, id: RowId, d: CarData, other: Option<Uid>)
    requires WellFormed(rows)
    requires other != caller
    ensures Visible(UpdateRows(rows, caller, id, d).rows, other) == Visible(rows, other)
  {
    var after := UpdateRows(rows, caller, id, d).rows;
    forall i | 0 <= i < |rows| && Owns(other, rows[i]) ensures rows[i] == after[i] {
      assert !IsTarget(caller, id, rows[i]);
    }
    FilterAgree(rows, after, (r: Row) => Owns(other, r));
  }

  /** A delete by `caller` changes nothing another caller can see. */
  lemma DeleteInvisibleToOthers(rows: seq<Row>, caller: Option<Uid>, id: RowId, other: Option<Uid>)
    requires WellFormed(rows)
    requires other != caller
    ensures Visible(DeleteRows(rows, caller, id).rows, other) == Visible(rows, other)
  {
    var p := (r: Row) => Owns(other, r);
    match IndexOf(rows, id)
    case None =>
    case Some(k) =>
      if Owns(caller, rows[k]) {
        assert DeleteRows(rows, caller, id).rows == rows[..k] + rows[k + 1..];
        FilterRemoveRejected(rows, k, p);
      }
  }

  /** The table the app manipulates, with the constraints of its schema as its invariant. */
  class CarsTable {
    var rows: seq<Row>

    ghost predicate Valid()
      reads this
    {
      WellFormed(rows)
    }

    constructor ()
      ensures Valid() && rows == []
    {
      rows := [];
    }

    method Insert(caller: Option<Uid>, id: RowId, now: Timestamp, d: CarData) returns (result: Result<nat, DbError>)
      requires Valid()
      modifies this
      ensures Valid()
      ensures Write(result, rows) == InsertRow(old(rows), caller, id, now, d)
    {
      var w := InsertRow(rows, caller, id, now, d);
      result, rows := w.result, w.rows;
    }

    method Update(caller: Option<Uid>, id: RowId, d: CarData) returns (result: Result<nat, DbError>)
      requires Valid()
      modifies this
      ensures Valid()
      ensures Write(result, rows) == UpdateRows(old(rows), caller, id, d)
    {
      var w := UpdateRows(rows, caller, id, d);
      result, rows := w.result, w.rows;
    }

    method Delete(caller: Option<Uid>, id: RowId) returns (result: Result<nat, DbError>)
      requires Valid()
      modifies this
      ensures Valid()
      ensures Write(result, rows) == DeleteRows(old(rows), caller, id)
    {
      var w := DeleteRows(rows, caller, id);
      result, rows := w.result, w.rows;
    }
  }
}
