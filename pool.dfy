/**
 * The `urls` table: rows kept in ascending `id` order (the AUTOINCREMENT
 * key), the email/handle classification of a `/gettoken` argument, the
 * "first unassigned row" query and the assignment UPDATE.
 */
module Pool {
  import opened Wrappers
  import opened Text

  /** The value SQLite's CURRENT_TIMESTAMP writes; supplied by the caller. */
  type Timestamp = string

  datatype Row = Row(id: int, url: string, email: Option<string>, handle: Option<string>, assignedAt: Option<Timestamp>)

  /** `assigned_at IS NULL`. */
  predicate Unassigned(row: Row) {
    row.assignedAt.None?
  }

  /** Rows are stored by strictly increasing `id`. */
  ghost predicate IdsIncreasing(rows: seq<Row>) {
    forall i, j :: 0 <= i < j < |rows| ==> rows[i].id < rows[j].id
  }

  /** Who a URL is recorded for: exactly one of the two is set. */
  datatype Target = Target(email: Option<string>, handle: Option<string>)

  /**
   * An argument that starts with '@' or has no '@' at all is a handle and is
   * normalised; any other argument is an email and is kept verbatim.
   */
  function Classify(input: string): (t: Target)
    requires input != []
    ensures t.handle.Some? != t.email.Some?
    ensures t.handle.Some? <==> input[0] == '@' || '@' !in input
    ensures t.handle.Some? ==> t.handle.value == Normalize(input)
    ensures t.email.Some? ==> t.email.value == input && input[0] != '@' && '@' in input[1..]
  {
    if input[0] == '@' || '@' !in input then Target(None, Some(Normalize(input)))
    else
      assert '@' in input[1..] by {
        var k :| 0 <= k < |input| && input[k] == '@';
        assert input[1..][k - 1] == '@';
      }
      Target(Some(input), None)
  }

  /** A recorded handle, given back to `/gettoken`, is classified as the same handle. */
  lemma ClassifyHandleStable(input: string)
    requires input != []
    requires Classify(input).handle.Some? && Classify(input).handle.value != []
    ensures Classify(Classify(input).handle.value) == Classify(input)
  {
    NormalizeIdempotent(input);
  }

  /** `SELECT id FROM urls WHERE assigned_at IS NULL ORDER BY id ASC LIMIT 1`, as a position. */
  function FirstUnassigned(rows: seq<Row>): (r: Option<nat>)
    ensures r.Some? ==> r.value < |rows| && Unassigned(rows[r.value])
    ensures r.Some? ==> forall j :: 0 <= j < r.value ==> !Unassigned(rows[j])
    ensures r.None? ==> forall j :: 0 <= j < |rows| ==> !Unassigned(rows[j])
  {
    if rows == [] then None
    else if Unassigned(rows[0]) then Some(0)
    else
      match FirstUnassigned(rows[1..])
      case None =>
        assert forall j :: 1 <= j < |rows| ==> rows[j] == rows[1..][j - 1];
        None
      case Some(k) =>
        assert forall j :: 1 <= j < |rows| ==> rows[j] == rows[1..][j - 1];
        Some(k + 1)
  }

  /** The row found is the unassigned one with the smallest `id`. */
  lemma FirstUnassignedHasSmallestId(rows: seq<Row>)
    requires IdsIncreasing(rows)
    requires FirstUnassigned(rows).Some?
    ensures forall j :: 0 <= j < |rows| && Unassigned(rows[j]) && j != FirstUnassigned(rows).value
              ==> rows[FirstUnassigned(rows).value].id < rows[j].id
  {
  }

  /** The number of rows whose `assigned_at` is NULL. */
  function CountUnassigned(rows: seq<Row>): nat
  {
    if rows == [] then 0
    else (if Unassigned(rows[0]) then 1 else 0) + CountUnassigned(rows[1..])
  }

  /** The pool is exhausted exactly when no row is unassigned. */
  lemma {:induction false} ExhaustedIffNoneFree(rows: seq<Row>)
    ensures FirstUnassigned(rows).None? <==> CountUnassigned(rows) == 0
  {
    if rows != [] {
      ExhaustedIffNoneFree(rows[1..]);
    }
  }

  /** Replacing one row changes the count by what that row contributed. */
  lemma {:induction false} CountUnassignedUpdate(rows: seq<Row>, i: nat, row: Row)
    requires i < |rows|
    ensures CountUnassigned(rows[i := row])
         == CountUnassigned(rows) - (if Unassigned(rows[i]) then 1 else 0) + (if Unassigned(row) then 1 else 0)
  {
    if i == 0 {
      assert rows[i := row][1..] == rows[1..];
    } else {
      assert rows[i := row][1..] == rows[1..][i - 1 := row];
      CountUnassignedUpdate(rows[1..], i - 1, row);
    }
  }

  /** `UPDATE urls SET handle = ?, email = ?, assigned_at = CURRENT_TIMESTAMP WHERE id = ?` on row `i`. */
  function Assign(rows: seq<Row>, i: nat, t: Target, at: Timestamp): (r: seq<Row>)
    requires i < |rows|
    ensures |r| == |rows|
  {
    rows[i := rows[i].(email := t.email, handle := t.handle, assignedAt := Some(at))]
  }

  /**
   * Assigning an unassigned row: that row keeps its id and URL and gets the
   * target and the timestamp; every other row, in particular every assigned
   * one, is unchanged; one unassigned row fewer remains; ids stay increasing.
   */
  lemma AssignEffect(rows: seq<Row>, i: nat, t: Target, at: Timestamp)
    requires i < |rows| && Unassigned(rows[i])
    ensures var r := Assign(rows, i, t, at);
      && r[i].id == rows[i].id && r[i].url == rows[i].url
      && r[i].email == t.email && r[i].handle == t.handle && r[i].assignedAt == Some(at)
      && (forall j :: 0 <= j < |rows| && j != i ==> r[j] == rows[j])
      && (forall j :: 0 <= j < |rows| && !Unassigned(rows[j]) ==> r[j] == rows[j])
      && CountUnassigned(r) == CountUnassigned(rows) - 1
      && (IdsIncreasing(rows) ==> IdsIncreasing(r))
  {
    CountUnassignedUpdate(rows, i, rows[i].(email := t.email, handle := t.handle, assignedAt := Some(at)));
  }
}
