/** The server's shared database handle: the two tables and the
    AUTOINCREMENT counter, changed in place by the route handlers. */
module Server {
  import opened Sql
  import opened Tables
  import opened Seed
  import Handlers

  class QueueDb {
    var places: map<string, Place>
    var tokens: seq<TokenRow>
    var sequence: nat

    /** The tables as a value. */
    function Snapshot(): Database
      reads this
    {
      Database(places, tokens, sequence)
    }

    ghost predicate Valid()
      reads this
    {
      Tables.Valid(Snapshot())
    }

    /** Opening `queue.db` and running the seed block. The file may hold
        the tables of an earlier run (`prior`); the seed deletes every row
        of both tables and inserts the 18 seed places. `DELETE FROM tokens`
        does not reset SQLite's AUTOINCREMENT counter, so new ids keep
        counting from the earlier run. */
    constructor Seed(prior: Database, base: string)
      requires Tables.Valid(prior)
      ensures Valid()
      ensures forall i :: 0 <= i < |prior.tokens| ==> prior.tokens[i].id <= sequence
      ensures places == SeedPlaces(base) && tokens == [] && sequence == prior.sequence
      ensures SeededTable(base, places)
    {
      places, tokens, sequence := prior.places, prior.tokens, prior.sequence;
      new;
      Reseed(base);
    }

    /** The seed block: `DELETE FROM places`, `DELETE FROM tokens`, then the
        hospital loop and the hotel loop. */
    method Reseed(base: string)
      modifies this
      ensures places == SeedPlaces(base) && SeededTable(base, places)
      ensures tokens == [] && sequence == old(sequence)
    {
      places := map[];
      tokens := [];
      InsertKind(base, Hospital);
      ghost var hospitals := places;
      InsertKind(base, Hotel);
      SeedLoopsResult(base, hospitals, places);
    }

    /** One seed loop: `for (let i = 1; i <= 9; i++)` runs the prepared
        insert for the i-th place of kind k. */
    method InsertKind(base: string, k: Kind)
      modifies this
      ensures places == InsertAll(old(places), SeedIds(k), SeedRows(base, k))
      ensures tokens == old(tokens) && sequence == old(sequence)
    {
      ghost var start := places;
      for i := 1 to PerKind + 1
        invariant places == InsertAll(start, SeedIds(k)[..i - 1], SeedRows(base, k)[..i - 1])
        invariant tokens == old(tokens) && sequence == old(sequence)
      {
        InsertStep(start, SeedIds(k), SeedRows(base, k), i);
        assert SeedIds(k)[i - 1] == SeedId(k, i) && SeedRows(base, k)[i - 1] == SeedRow(base, k, i);
        places := InsertPlace(places, SeedId(k, i), SeedRow(base, k, i));
      }
      assert SeedIds(k)[..PerKind] == SeedIds(k);
      assert SeedRows(base, k)[..PerKind] == SeedRows(base, k);
    }

    /** GET /api/places: every place. */
    method ListPlaces() returns (rows: map<string, Place>)
      ensures rows.Keys == places.Keys
      ensures forall id :: id in rows ==> rows[id] == places[id]
    {
      rows := places;
    }

    /** GET /api/places/:id: the place with that id, or not found. */
    method GetPlace(id: string) returns (r: Option<Place>)
      ensures r.Some? <==> id in places
      ensures r.Some? ==> r.value == places[id]
    {
      if id in places {
        r := Some(places[id]);
      } else {
        r := None;
      }
    }

    /** POST /api/places/:id/request: insert a pending row and answer with
        its id. */
    method RequestToken(placeId: string) returns (requestId: nat)
      requires Valid()
      modifies this
      ensures Valid()
      ensures Snapshot() == Handlers.Request(old(Snapshot()), placeId)
      ensures requestId == Handlers.NewRowId(old(Snapshot()))
      ensures tokens == old(tokens) + [TokenRow(requestId, placeId, None, None)]
      ensures forall i :: 0 <= i < |old(tokens)| ==> old(tokens)[i].id < requestId
      ensures places == old(places) && sequence == requestId
    {
      ghost var before := Snapshot();
      sequence := sequence + 1;
      tokens := tokens + [TokenRow(sequence, placeId, None, None)];
      requestId := sequence;
      Handlers.RequestAppends(before, placeId);
    }

    /** GET /api/places/:id/requests: exactly the rows of the place whose
        number is NULL, in table order. */
    method ListRequests(placeId: string) returns (rows: seq<TokenRow>)
      requires Valid()
      ensures forall x :: x in rows <==> x in tokens && x.placeId == placeId && x.tokenNumber.None?
      ensures IdsIncreasing(rows)
    {
      rows := Select(tokens, PendingFor(placeId));
      SelectExactly(tokens, PendingFor(placeId));
    }

    /** POST /api/places/:id/approve: read the counter, add one, write the
        result to the row `requestId` and to the place, and answer with it. */
    method Approve(placeId: string, requestId: int) returns (token: int)
      requires Valid() && placeId in places
      modifies this
      ensures Valid()
      ensures Snapshot() == Handlers.Approve(old(Snapshot()), placeId, requestId).tables
      ensures token == OrZero(old(places[placeId].lastIssuedToken)) + 1
      ensures places == old(places)[placeId := old(places[placeId]).(lastIssuedToken := Some(token))]
      ensures tokens == SetTokenNumber(old(tokens), requestId, token)
      ensures sequence == old(sequence)
    {
      ghost var before := Snapshot();
      var place := places[placeId];
      var newToken := OrZero(place.lastIssuedToken) + 1;
      tokens := SetTokenNumber(tokens, requestId, newToken);
      places := places[placeId := place.(lastIssuedToken := Some(newToken))];
      token := newToken;
      Handlers.ApprovePreservesValid(before, placeId, requestId);
      assert Snapshot() == Handlers.Approve(before, placeId, requestId).tables;
    }

    /** PUT /api/places/:id/next: advance the place's current token. */
    method Next(placeId: string)
      requires Valid()
      modifies this
      ensures Valid()
      ensures Snapshot() == Handlers.Next(old(Snapshot()), placeId)
      ensures placeId in old(places) ==>
                places == old(places)[placeId := old(places[placeId]).(currentToken := Some(OrZero(old(places[placeId].currentToken)) + 1))]
      ensures placeId !in old(places) ==> places == old(places)
      ensures tokens == old(tokens) && sequence == old(sequence)
    {
      if placeId in places {
        var place := places[placeId];
        places := places[placeId := place.(currentToken := Some(OrZero(place.currentToken) + 1))];
      }
    }

    /** GET /api/places/:id/tokens: exactly the rows of the place that carry
        a number, in table order. */
    method TokenHistory(placeId: string) returns (rows: seq<TokenRow>)
      requires Valid()
      ensures forall x :: x in rows <==> x in tokens && x.placeId == placeId && x.tokenNumber.Some?
      ensures IdsIncreasing(rows)
    {
      rows := Select(tokens, IssuedFor(placeId));
      SelectExactly(tokens, IssuedFor(placeId));
    }
  }

  /** Straight after the seed, at any seeded place: the first approval
      answers 1, and the first `next` moves `currentToken` to 1 while
      `lastIssuedToken` is still 0. */
  lemma SeededFirstSteps(base: string, sequence: nat, id: string, requestId: int)
    requires id in SeedPlaces(base)
    ensures Handlers.Approve(Database(SeedPlaces(base), [], sequence), id, requestId).token == 1
    ensures var t := Handlers.Next(Database(SeedPlaces(base), [], sequence), id);
      t.places[id].currentToken == Some(1) && t.places[id].lastIssuedToken == Some(0)
  {
    var t := Database(SeedPlaces(base), [], sequence);
    assert CountersZero(t.places[id]);
    Handlers.NextEffect(t, id);
  }
}
