/** The two tables of the queue database, the WHERE clauses the handlers
    use on `tokens`, and the effect of `UPDATE tokens SET token_number`. */
module Tables {
  import opened Sql

  /** A row of `places`. The primary key `id` is the key of the map that
      holds the rows; `kind` is the `type` column. */
  datatype Place = Place(
    name: string,
    kind: string,
    image: string,
    currentToken: Option<int>,
    lastIssuedToken: Option<int>)

  /** The value of a DATETIME column. */
  type Timestamp = nat

  /** A row of `tokens`. A row with a NULL `tokenNumber` is a pending
      request; `issued_at` is not modelled. */
  datatype TokenRow = TokenRow(
    id: nat,
    placeId: string,
    tokenNumber: Option<int>,
    servedAt: Option<Timestamp>)

  /** The whole database: both tables, and the AUTOINCREMENT counter that
      SQLite keeps for `tokens` (the largest id ever handed out). */
  datatype Database = Database(
    places: map<string, Place>,
    tokens: seq<TokenRow>,
    sequence: nat)

  /** The WHERE clauses the handlers put on `tokens`. */
  datatype Query =
    | ByPlace(placeId: string)      // place_id = ?
    | PendingFor(placeId: string)   // place_id = ? AND token_number IS NULL
    | IssuedFor(placeId: string)    // place_id = ? AND token_number IS NOT NULL

  predicate Matches(q: Query, row: TokenRow) {
    match q
    case ByPlace(p) => row.placeId == p
    case PendingFor(p) => row.placeId == p && row.tokenNumber.None?
    case IssuedFor(p) => row.placeId == p && row.tokenNumber.Some?
  }

  /** Row ids strictly increase in table order (AUTOINCREMENT). */
  ghost predicate IdsIncreasing(rows: seq<TokenRow>) {
    forall i, j :: 0 <= i < j < |rows| ==> rows[i].id < rows[j].id
  }

  /** The consistency the handlers keep: ids increase in table order, every
      id lies between 1 and the AUTOINCREMENT counter, and no row has a
      `served_at`. */
  ghost predicate Valid(t: Database) {
    && IdsIncreasing(t.tokens)
    && (forall i :: 0 <= i < |t.tokens| ==> 1 <= t.tokens[i].id <= t.sequence)
    && (forall i :: 0 <= i < |t.tokens| ==> t.tokens[i].servedAt.None?)
  }

  /** `SELECT * FROM tokens WHERE q`, in table order. */
  function Select(rows: seq<TokenRow>, q: Query): (r: seq<TokenRow>)
    ensures |r| <= |rows|
    ensures forall i :: 0 <= i < |r| ==> Matches(q, r[i])
  {
    if rows == [] then []
    else (if Matches(q, rows[0]) then [rows[0]] else []) + Select(rows[1..], q)
  }

  /** Only rows of the table are selected. */
  lemma {:induction false} SelectSound(rows: seq<TokenRow>, q: Query, x: TokenRow)
    requires x in Select(rows, q)
    ensures x in rows && Matches(q, x)
  {
    if x != rows[0] {
      SelectSound(rows[1..], q, x);
    }
  }

  /** Every matching row is selected. */
  lemma {:induction false} SelectComplete(rows: seq<TokenRow>, q: Query, x: TokenRow)
    requires x in rows && Matches(q, x)
    ensures x in Select(rows, q)
  {
    if rows[0] != x {
      SelectComplete(rows[1..], q, x);
    }
  }

  /** A selection holds only rows of the table, so a bound on the
      table's ids bounds the selection's. */
  lemma {:induction false} SelectIdsAbove(rows: seq<TokenRow>, q: Query, bound: int)
    requires forall i :: 0 <= i < |rows| ==> bound < rows[i].id
    ensures forall k :: 0 <= k < |Select(rows, q)| ==> bound < Select(rows, q)[k].id
  {
    if rows != [] {
      SelectIdsAbove(rows[1..], q, bound);
    }
  }

  /** The selection keeps table order. */
  lemma {:induction false} SelectKeepsOrder(rows: seq<TokenRow>, q: Query)
    requires IdsIncreasing(rows)
    ensures IdsIncreasing(Select(rows, q))
  {
    if rows != [] {
      SelectKeepsOrder(rows[1..], q);
      SelectIdsAbove(rows[1..], q, rows[0].id);
    }
  }

  /** A selection holds exactly the matching rows of the table. */
  lemma SelectMembers(rows: seq<TokenRow>, q: Query)
    ensures forall x :: x in Select(rows, q) <==> x in rows && Matches(q, x)
  {
    forall x ensures x in Select(rows, q) <==> x in rows && Matches(q, x) {
      if x in Select(rows, q) {
        SelectSound(rows, q, x);
      }
      if x in rows && Matches(q, x) {
        SelectComplete(rows, q, x);
      }
    }
  }

  /** A selection is exactly the matching rows, in table order. */
  lemma SelectExactly(rows: seq<TokenRow>, q: Query)
    requires IdsIncreasing(rows)
    ensures forall x :: x in Select(rows, q) <==> x in rows && Matches(q, x)
    ensures IdsIncreasing(Select(rows, q))
  {
    SelectMembers(rows, q);
    SelectKeepsOrder(rows, q);
  }

  /** Selecting from a concatenation selects from each part. */
  lemma {:induction false} SelectAppend(a: seq<TokenRow>, b: seq<TokenRow>, q: Query)
    ensures Select(a + b, q) == Select(a, q) + Select(b, q)
  {
    if a == [] {
      assert a + b == b;
    } else {
      assert (a + b)[1..] == a[1..] + b;
      SelectAppend(a[1..], b, q);
    }
  }

  /** The pending rows and the numbered rows of a place split its rows:
      together they hold every row of the place once, and no row is in
      both. */
  lemma {:induction false} PendingIssuedPartition(rows: seq<TokenRow>, p: string)
    ensures multiset(Select(rows, PendingFor(p))) + multiset(Select(rows, IssuedFor(p)))
         == multiset(Select(rows, ByPlace(p)))
    ensures forall x :: !(x in Select(rows, PendingFor(p)) && x in Select(rows, IssuedFor(p)))
  {
    if rows != [] {
      PendingIssuedPartition(rows[1..], p);
    }
  }

  /** `UPDATE tokens SET token_number = n WHERE id = id`: every row with that
      id gets the number, whatever it held before; every other row, and the
      table's order and length, stay as they were. */
  function SetTokenNumber(rows: seq<TokenRow>, id: int, n: int): (r: seq<TokenRow>)
    ensures |r| == |rows|
    ensures forall i :: 0 <= i < |rows| && rows[i].id != id ==> r[i] == rows[i]
    ensures forall i :: 0 <= i < |rows| && rows[i].id == id ==>
              r[i] == rows[i].(tokenNumber := Some(n))
  {
    if rows == [] then []
    else
      var head := if rows[0].id == id then rows[0].(tokenNumber := Some(n)) else rows[0];
      [head] + SetTokenNumber(rows[1..], id, n)
  }
}
