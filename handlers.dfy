/** What each route handler of the server does to the tables, one request
    at a time, as a function from the tables before to the tables after. */
module Handlers {
  import opened Sql
  import opened Tables

  /** `this.lastID` after `INSERT INTO tokens`: AUTOINCREMENT hands out one
      more than the largest id it ever handed out. */
  function NewRowId(t: Database): (id: nat)
    ensures id > t.sequence
    ensures Valid(t) ==> forall i :: 0 <= i < |t.tokens| ==> t.tokens[i].id < id
  {
    t.sequence + 1
  }

  /** POST /api/places/:id/request: `INSERT INTO tokens (place_id,
      token_number) VALUES (?, NULL)`. The place is not looked up. */
  function Request(t: Database, placeId: string): (r: Database)
    ensures r.places == t.places
    ensures |r.tokens| == |t.tokens| + 1 && r.tokens[..|t.tokens|] == t.tokens
    ensures r.tokens[|t.tokens|] == TokenRow(r.sequence, placeId, None, None)
    ensures r.sequence == NewRowId(t)
  {
    var row := TokenRow(NewRowId(t), placeId, None, None);
    t.(tokens := t.tokens + [row], sequence := NewRowId(t))
  }

  /** The tables after an approval, and the number the route answers with. */
  datatype Approval = Approval(tables: Database, token: int)

  /** POST /api/places/:id/approve: read the place's `lastIssuedToken`, add
      one, write it to the token row `requestId` and to the place. Nothing
      checks that the row is pending or belongs to the place. */
  function Approve(t: Database, placeId: string, requestId: int): (a: Approval)
    requires placeId in t.places
    ensures a.tables.places.Keys == t.places.Keys
  {
    var place := t.places[placeId];
    var newToken := OrZero(place.lastIssuedToken) + 1;
    var tokens := SetTokenNumber(t.tokens, requestId, newToken);
    var places := t.places[placeId := place.(lastIssuedToken := Some(newToken))];
    Approval(t.(tokens := tokens, places := places), newToken)
  }

  /** PUT /api/places/:id/next: `UPDATE places SET currentToken =
      COALESCE(currentToken, 0) + 1 WHERE id = ?`. No row matches a missing
      place, and nothing compares the counter with `lastIssuedToken`. */
  function Next(t: Database, placeId: string): (r: Database)
    ensures r.places.Keys == t.places.Keys
  {
    if placeId in t.places then
      var place := t.places[placeId];
      t.(places := t.places[placeId := place.(currentToken := Some(OrZero(place.currentToken) + 1))])
    else t
  }

  /** GET /api/places/:id/requests: the place's rows whose number is
      NULL. */
  function PendingRequests(t: Database, placeId: string): (r: seq<TokenRow>)
    ensures forall x :: x in r <==> x in t.tokens && x.placeId == placeId && x.tokenNumber.None?
  {
    SelectMembers(t.tokens, PendingFor(placeId));
    Select(t.tokens, PendingFor(placeId))
  }

  /** GET /api/places/:id/tokens: the place's rows that carry a number. */
  function TokenHistory(t: Database, placeId: string): (r: seq<TokenRow>)
    ensures forall x :: x in r <==> x in t.tokens && x.placeId == placeId && x.tokenNumber.Some?
  {
    SelectMembers(t.tokens, IssuedFor(placeId));
    Select(t.tokens, IssuedFor(placeId))
  }

  // ---------------------------------------------------------------------
  // Request

  /** A request appends exactly one row, for that place, with a NULL
      number and a fresh id above every id already in the table; the
      places and every earlier row are unchanged, and the tables stay
      consistent. */
  lemma RequestAppends(t: Database, placeId: string)
    requires Valid(t)
    ensures var r := Request(t, placeId);
      && |r.tokens| == |t.tokens| + 1
      && r.tokens[..|t.tokens|] == t.tokens
      && r.tokens[|t.tokens|] == TokenRow(NewRowId(t), placeId, None, None)
      && r.places == t.places
      && Valid(r)
    ensures forall i :: 0 <= i < |t.tokens| ==> t.tokens[i].id < NewRowId(t)
  {
  }

  /** After a request, the place's pending list is the old one followed by
      the new row, every other place's pending list is unchanged, and no
      history changes. */
  lemma {:induction false} RequestPending(t: Database, placeId: string, other: string)
    ensures PendingRequests(Request(t, placeId), placeId)
         == PendingRequests(t, placeId) + [TokenRow(NewRowId(t), placeId, None, None)]
    ensures other != placeId ==> PendingRequests(Request(t, placeId), other) == PendingRequests(t, other)
    ensures TokenHistory(Request(t, placeId), other) == TokenHistory(t, other)
  {
    var row := TokenRow(NewRowId(t), placeId, None, None);
    SelectAppend(t.tokens, [row], PendingFor(placeId));
    SelectAppend(t.tokens, [row], PendingFor(other));
    SelectAppend(t.tokens, [row], IssuedFor(other));
  }

  // ---------------------------------------------------------------------
  // Approve

  /** Approval returns `(lastIssuedToken, or 0 if NULL) + 1`, writes it to
      the place's `lastIssuedToken` and to every row with id `requestId`,
      and changes nothing else: not `currentToken`, not the other columns of
      the place, not another place, not another row, not the AUTOINCREMENT
      counter. */
  lemma ApproveEffect(t: Database, placeId: string, requestId: int)
    requires placeId in t.places
    ensures var a := Approve(t, placeId, requestId);
      && a.token == OrZero(t.places[placeId].lastIssuedToken) + 1
      && a.tables.places[placeId] == t.places[placeId].(lastIssuedToken := Some(a.token))
      && (forall p :: p in t.places && p != placeId ==> a.tables.places[p] == t.places[p])
      && |a.tables.tokens| == |t.tokens|
      && (forall i :: 0 <= i < |t.tokens| && t.tokens[i].id != requestId ==>
            a.tables.tokens[i] == t.tokens[i])
      && (forall i :: 0 <= i < |t.tokens| && t.tokens[i].id == requestId ==>
            a.tables.tokens[i] == t.tokens[i].(tokenNumber := Some(a.token)))
      && a.tables.sequence == t.sequence
  {
  }

  /** Approval keeps the tables consistent. */
  lemma ApprovePreservesValid(t: Database, placeId: string, requestId: int)
    requires placeId in t.places && Valid(t)
    ensures Valid(Approve(t, placeId, requestId).tables)
  {
  }

  /** Approving an id that no row has leaves the tokens table as it was, yet
      the place's counter still advances. */
  lemma ApproveMissingRow(t: Database, placeId: string, requestId: int)
    requires placeId in t.places
    requires forall i :: 0 <= i < |t.tokens| ==> t.tokens[i].id != requestId
    ensures Approve(t, placeId, requestId).tables.tokens == t.tokens
    ensures OrZero(Approve(t, placeId, requestId).tables.places[placeId].lastIssuedToken)
         == OrZero(t.places[placeId].lastIssuedToken) + 1
  {
    var a := Approve(t, placeId, requestId);
    assert a.tables.tokens == t.tokens by {
      forall i | 0 <= i < |t.tokens| ensures a.tables.tokens[i] == t.tokens[i] {
      }
    }
  }

  /** Approving the same id twice is not refused: the counter advances by
      two, the second answer is one more than the first, and the row's
      number is overwritten with the second answer. */
  lemma ApproveTwice(t: Database, placeId: string, requestId: int, i: int)
    requires placeId in t.places
    requires 0 <= i < |t.tokens| && t.tokens[i].id == requestId
    ensures var first := Approve(t, placeId, requestId);
      var second := Approve(first.tables, placeId, requestId);
      && second.token == first.token + 1
      && second.tables.places[placeId].lastIssuedToken
           == Some(OrZero(t.places[placeId].lastIssuedToken) + 2)
      && second.tables.tokens[i].tokenNumber == Some(second.token)
  {
  }

  /** Approval is not limited to the place's own pending rows: a row of
      another place gets this place's number and joins the other place's
      history, while the other place's counter stays where it was. */
  lemma ApproveForeignRow(t: Database, placeId: string, requestId: int, i: int)
    requires placeId in t.places
    requires 0 <= i < |t.tokens| && t.tokens[i].id == requestId
    ensures var a := Approve(t, placeId, requestId);
      var q := t.tokens[i].placeId;
      && a.tables.tokens[i] in TokenHistory(a.tables, q)
      && a.tables.tokens[i].tokenNumber == Some(a.token)
      && (q != placeId && q in t.places ==> a.tables.places[q] == t.places[q])
  {
    var a := Approve(t, placeId, requestId);
    SelectComplete(a.tables.tokens, IssuedFor(t.tokens[i].placeId), a.tables.tokens[i]);
  }

  /** `count` approvals in a row at one place, with the answers in order. */
  datatype Approvals = Approvals(tables: Database, tokens: seq<int>)

  function ApproveAll(t: Database, placeId: string, requestIds: seq<int>): (r: Approvals)
    requires placeId in t.places
    ensures placeId in r.tables.places
    ensures |r.tokens| == |requestIds|
    decreases |requestIds|
  {
    if requestIds == [] then Approvals(t, [])
    else
      var n := |requestIds| - 1;
      var before := ApproveAll(t, placeId, requestIds[..n]);
      var a := Approve(before.tables, placeId, requestIds[n]);
      Approvals(a.tables, before.tokens + [a.token])
  }

  /** Successive approvals at one place answer with consecutive numbers
      starting one above the place's `lastIssuedToken`, which ends that
      many higher. */
  lemma {:induction false} ApproveAllConsecutive(t: Database, placeId: string, requestIds: seq<int>)
    requires placeId in t.places
    ensures var r := ApproveAll(t, placeId, requestIds);
      && (forall j :: 0 <= j < |requestIds| ==>
            r.tokens[j] == OrZero(t.places[placeId].lastIssuedToken) + j + 1)
      && OrZero(r.tables.places[placeId].lastIssuedToken)
           == OrZero(t.places[placeId].lastIssuedToken) + |requestIds|
      && r.tables.places[placeId].currentToken == t.places[placeId].currentToken
    decreases |requestIds|
  {
    if requestIds != [] {
      var n := |requestIds| - 1;
      var before := ApproveAll(t, placeId, requestIds[..n]);
      ApproveAllConsecutive(t, placeId, requestIds[..n]);
      var a := Approve(before.tables, placeId, requestIds[n]);
      assert ApproveAll(t, placeId, requestIds).tokens == before.tokens + [a.token];
    }
  }


  // ---------------------------------------------------------------------
  // Next

  /** Next sets the place's `currentToken` to `(currentToken, or 0 if NULL)
      + 1` and changes nothing else; for a missing place it changes
      nothing. */
  lemma NextEffect(t: Database, placeId: string)
    ensures var r := Next(t, placeId);
      && r.tokens == t.tokens && r.sequence == t.sequence
      && (forall p :: p in t.places && p != placeId ==> r.places[p] == t.places[p])
      && (placeId in t.places ==>
            r.places[placeId] == t.places[placeId].(currentToken := Some(OrZero(t.places[placeId].currentToken) + 1)))
      && (placeId !in t.places ==> r == t)
  {
  }

  /** Next does not stop at `lastIssuedToken`: from a place whose current
      token has caught up with the last issued one, it moves past it. So
      `currentToken <= lastIssuedToken` is not an invariant. */
  lemma NextOvertakesLastIssued(t: Database, placeId: string)
    requires placeId in t.places
    requires OrZero(t.places[placeId].currentToken) >= OrZero(t.places[placeId].lastIssuedToken)
    ensures OrZero(Next(t, placeId).places[placeId].currentToken)
          > OrZero(Next(t, placeId).places[placeId].lastIssuedToken)
  {
  }

  // ---------------------------------------------------------------------
  // Every operation

  /** The state-changing routes. */
  datatype Op =
    | RequestOp(placeId: string)
    | ApproveOp(placeId: string, requestId: int)
    | NextOp(placeId: string)

  /** An approval of a missing place crashes the handler, so it is not a
      step the server can take. */
  predicate Enabled(t: Database, op: Op) {
    op.ApproveOp? ==> op.placeId in t.places
  }

  function Apply(t: Database, op: Op): (r: Database)
    requires Enabled(t, op)
    ensures r.places.Keys == t.places.Keys
  {
    match op
    case RequestOp(p) => Request(t, p)
    case ApproveOp(p, id) => Approve(t, p, id).tables
    case NextOp(p) => Next(t, p)
  }

  /** No route adds or removes a place, so whether an approval is enabled
      depends only on the ids of the places present at the start. */
  ghost predicate AllEnabled(t: Database, ops: seq<Op>) {
    forall i :: 0 <= i < |ops| ==> ops[i].ApproveOp? ==> ops[i].placeId in t.places
  }

  function Run(t: Database, ops: seq<Op>): (r: Database)
    requires AllEnabled(t, ops)
    ensures r.places.Keys == t.places.Keys
    decreases |ops|
  {
    if ops == [] then t
    else
      var n := |ops| - 1;
      var before := Run(t, ops[..n]);
      assert Enabled(before, ops[n]);
      Apply(before, ops[n])
  }

  /** One step never lowers a place's `lastIssuedToken` and keeps the
      tables consistent: ids increase, stay within the AUTOINCREMENT
      counter, and `served_at` stays NULL. */
  lemma StepMonotone(t: Database, op: Op, p: string)
    requires Enabled(t, op) && Valid(t) && p in t.places
    ensures OrZero(t.places[p].lastIssuedToken) <= OrZero(Apply(t, op).places[p].lastIssuedToken)
    ensures Valid(Apply(t, op))
  {
    match op
    case RequestOp(q) => RequestAppends(t, q);
    case ApproveOp(q, id) => ApprovePreservesValid(t, q, id);
    case NextOp(q) =>
  }

  /** Under every sequence of routes, `lastIssuedToken` never decreases and
      the tables stay consistent; in particular no route ever writes
      `served_at`. */
  lemma {:induction false} RunMonotone(t: Database, ops: seq<Op>, p: string)
    requires AllEnabled(t, ops) && Valid(t) && p in t.places
    ensures OrZero(t.places[p].lastIssuedToken) <= OrZero(Run(t, ops).places[p].lastIssuedToken)
    ensures Valid(Run(t, ops))
    ensures forall i :: 0 <= i < |Run(t, ops).tokens| ==> Run(t, ops).tokens[i].servedAt.None?
    decreases |ops|
  {
    if ops != [] {
      var n := |ops| - 1;
      assert AllEnabled(t, ops[..n]);
      RunMonotone(t, ops[..n], p);
      StepMonotone(Run(t, ops[..n]), ops[n], p);
    }
  }

  // ---------------------------------------------------------------------
  // Approvals among other routes

  /** How many steps of ops approve a request at place p. */
  function ApprovalCount(ops: seq<Op>, p: string): (n: nat)
    ensures n <= |ops|
    decreases |ops|
  {
    if ops == [] then 0
    else
      var n := |ops| - 1;
      ApprovalCount(ops[..n], p) + (if ops[n].ApproveOp? && ops[n].placeId == p then 1 else 0)
  }

  /** The answers of the approvals at place p while ops run, in order. */
  function ApprovalAnswers(t: Database, ops: seq<Op>, p: string): (r: seq<int>)
    requires AllEnabled(t, ops)
    ensures |r| == ApprovalCount(ops, p)
    decreases |ops|
  {
    if ops == [] then []
    else
      var n := |ops| - 1;
      var earlier := ApprovalAnswers(t, ops[..n], p);
      if ops[n].ApproveOp? && ops[n].placeId == p then
        earlier + [Approve(Run(t, ops[..n]), p, ops[n].requestId).token]
      else earlier
  }

  /** One step raises place p's `lastIssuedToken` by exactly one when it
      approves at p, and otherwise leaves it as it was, whatever place the
      step is for. An approval at p answers with the raised value. */
  lemma StepLastIssued(t: Database, op: Op, p: string)
    requires Enabled(t, op) && p in t.places
    ensures OrZero(Apply(t, op).places[p].lastIssuedToken)
         == OrZero(t.places[p].lastIssuedToken) + (if op.ApproveOp? && op.placeId == p then 1 else 0)
    ensures op.ApproveOp? && op.placeId == p ==>
              Approve(t, p, op.requestId).token == OrZero(Apply(t, op).places[p].lastIssuedToken)
  {
  }

  /** Under any mix of requests, approvals and `next` calls at any places,
      the approvals at p answer last+1, last+2, ..., in order, and p's
      `lastIssuedToken` ends one higher per approval at p. */
  lemma {:induction false} RunApprovalsConsecutive(t: Database, ops: seq<Op>, p: string)
    requires AllEnabled(t, ops) && p in t.places
    ensures var answers := ApprovalAnswers(t, ops, p);
      && (forall j :: 0 <= j < |answers| ==> answers[j] == OrZero(t.places[p].lastIssuedToken) + j + 1)
      && OrZero(Run(t, ops).places[p].lastIssuedToken) == OrZero(t.places[p].lastIssuedToken) + |answers|
    decreases |ops|
  {
    if ops != [] {
      var n := |ops| - 1;
      RunApprovalsConsecutive(t, ops[..n], p);
      StepLastIssued(Run(t, ops[..n]), ops[n], p);
    }
  }

  /** A fresh place (counter 0 or NULL) hands out 1, 2, ..., k to its k
      approvals, whatever requests, `next` calls and other places' routes
      run in between. */
  lemma FreshPlaceCountsFromOne(t: Database, ops: seq<Op>, p: string)
    requires AllEnabled(t, ops) && p in t.places && OrZero(t.places[p].lastIssuedToken) == 0
    ensures |ApprovalAnswers(t, ops, p)| == ApprovalCount(ops, p)
    ensures forall j :: 0 <= j < ApprovalCount(ops, p) ==> ApprovalAnswers(t, ops, p)[j] == j + 1
  {
    RunApprovalsConsecutive(t, ops, p);
  }

  /** Request, approve it, request again, approve that one: at a fresh
      place the two approvals answer 1 and then 2, and the two new rows
      carry those numbers. */
  lemma RequestApproveTwice(t: Database, p: string)
    requires Valid(t) && p in t.places && OrZero(t.places[p].lastIssuedToken) == 0
    ensures var first := Request(t, p);
      var a1 := Approve(first, p, NewRowId(t));
      var second := Request(a1.tables, p);
      var a2 := Approve(second, p, NewRowId(a1.tables));
      && a1.token == 1 && a2.token == 2
      && a2.tables.tokens[|t.tokens|].tokenNumber == Some(1)
      && a2.tables.tokens[|t.tokens| + 1].tokenNumber == Some(2)
  {
    var first := Request(t, p);
    RequestAppends(t, p);
    var a1 := Approve(first, p, NewRowId(t));
    ApprovePreservesValid(first, p, NewRowId(t));
    var second := Request(a1.tables, p);
    RequestAppends(a1.tables, p);
    var a2 := Approve(second, p, NewRowId(a1.tables));
    assert a2.tables.tokens[|t.tokens|].id == NewRowId(t) < NewRowId(a1.tables);
  }
}
