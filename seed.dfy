/** The seed rows `db.js` inserts into `places` on every start. */
module Seed {
  import opened Sql
  import opened Tables

  /** The image host prefix of the deployed seed. The model takes the
      prefix as a parameter `base`: the seed only ever puts it in front of
      the image path. */
  const BaseImageUrl: string := "https://magenta-cascaron-cdb5f6.netlify.app/catalogpics"

  /** Each seed loop runs `for (let i = 1; i <= 9; i++)`. */
  const PerKind: nat := 9

  /** The two seeded kinds of place. */
  datatype Kind = Hospital | Hotel {
    /** The `type` column, also the prefix of the id. */
    function Label(): string {
      match this
      case Hospital => "hospital"
      case Hotel => "hotel"
    }
    /** The first word of the display name. */
    function Title(): string {
      match this
      case Hospital => "Hospital"
      case Hotel => "Hotel"
    }
    /** The image path between the host prefix and the number. */
    function ImagePath(): string {
      match this
      case Hospital => "/hospitals/hospital"
      case Hotel => "/hotels/hotel"
    }
  }

  /** `${i}` for the loop counter, which is a single decimal digit. */
  function Decimal(i: int): (s: string)
    requires 1 <= i <= PerKind
    ensures |s| == 1 && '1' <= s[0] <= '9'
  {
    [(48 + i) as char]
  }

  /** `hospital-${i}` or `hotel-${i}`. */
  function SeedId(k: Kind, i: int): string
    requires 1 <= i <= PerKind
  {
    k.Label() + "-" + Decimal(i)
  }

  /** The row `stmt.run` inserts for the i-th place of kind k; the
      statement fixes both counters at 0. */
  function SeedRow(base: string, k: Kind, i: int): (row: Place)
    requires 1 <= i <= PerKind
    ensures row.kind == k.Label() && CountersZero(row)
  {
    Place(k.Title() + " " + Decimal(i), k.Label(),
          base + k.ImagePath() + Decimal(i) + ".jpg", Some(0), Some(0))
  }

  /** Two seed ids are equal only when kind and number are. */
  lemma SeedIdInjective(k: Kind, i: int, l: Kind, j: int)
    requires 1 <= i <= PerKind && 1 <= j <= PerKind
    ensures SeedId(k, i) == SeedId(l, j) <==> k == l && i == j
  {
    if SeedId(k, i) == SeedId(l, j) {
      var n := |k.Label()| + 1;
      assert SeedId(k, i)[n] == Decimal(i)[0];
      assert SeedId(l, j)[n] == Decimal(j)[0];
    }
  }

  /** The ids the loop for kind k inserts, in insertion order. */
  function SeedIds(k: Kind): (ids: seq<string>)
    ensures |ids| == PerKind
    ensures forall j :: 0 <= j < PerKind ==> ids[j] == SeedId(k, j + 1)
  {
    seq(PerKind, j requires 0 <= j < PerKind => SeedId(k, j + 1))
  }

  /** The rows the loop for kind k inserts, in insertion order. */
  function SeedRows(base: string, k: Kind): (rows: seq<Place>)
    ensures |rows| == PerKind
    ensures forall j :: 0 <= j < PerKind ==> rows[j] == SeedRow(base, k, j + 1)
  {
    seq(PerKind, j requires 0 <= j < PerKind => SeedRow(base, k, j + 1))
  }

  /** No id occurs twice in ids. */
  ghost predicate NoDuplicates(ids: seq<string>) {
    forall i, j :: 0 <= i < j < |ids| ==> ids[i] != ids[j]
  }

  /** `INSERT INTO places ...` against the primary key on `id`. A new id
      gets its row. The seed never inserts an id twice into the table it
      has just emptied (`InsertAllGrows`), so the clash branch, which leaves
      the table as it was, is never taken; what the driver would do there
      is not part of this model. */
  function InsertPlace(places: map<string, Place>, id: string, row: Place): (r: map<string, Place>)
    ensures r.Keys == places.Keys + {id}
    ensures r[id] == if id in places then places[id] else row
    ensures forall key :: key in places ==> r[key] == places[key]
  {
    if id in places then places else places[id := row]
  }

  /** The table after `stmt.run` has inserted ids[j] with rows[j] for every
      j in order. */
  function InsertAll(places: map<string, Place>, ids: seq<string>, rows: seq<Place>): (r: map<string, Place>)
    requires |ids| == |rows|
    ensures forall key :: key in places ==> key in r && r[key] == places[key]
    decreases |ids|
  {
    if ids == [] then places
    else
      var n := |ids| - 1;
      InsertPlace(InsertAll(places, ids[..n], rows[..n]), ids[n], rows[n])
  }

  /** The inserts add exactly the given keys. */
  lemma {:induction false} InsertAllKeys(places: map<string, Place>, ids: seq<string>, rows: seq<Place>)
    requires |ids| == |rows|
    ensures forall key :: key in InsertAll(places, ids, rows) <==> key in places || key in ids
  {
    if ids != [] {
      var n := |ids| - 1;
      InsertAllKeys(places, ids[..n], rows[..n]);
      assert ids == ids[..n] + [ids[n]];
    }
  }

  /** One turn of a seed loop: the table after i inserts is the table after
      i - 1 inserts with the i-th row inserted. */
  lemma InsertStep(start: map<string, Place>, ids: seq<string>, rows: seq<Place>, i: int)
    requires |ids| == |rows| && 1 <= i <= |ids|
    ensures InsertAll(start, ids[..i], rows[..i])
         == InsertPlace(InsertAll(start, ids[..i - 1], rows[..i - 1]), ids[i - 1], rows[i - 1])
  {
    assert ids[..i][..i - 1] == ids[..i - 1];
    assert rows[..i][..i - 1] == rows[..i - 1];
  }

  /** With distinct ids, none of them already present, every insert
      succeeds, so the table grows by one row per id. */
  lemma {:induction false} InsertAllGrows(places: map<string, Place>, ids: seq<string>, rows: seq<Place>)
    requires |ids| == |rows|
    requires NoDuplicates(ids)
    requires forall i :: 0 <= i < |ids| ==> ids[i] !in places
    ensures |InsertAll(places, ids, rows)| == |places| + |ids|
  {
    if ids != [] {
      var n := |ids| - 1;
      var prefix := ids[..n];
      assert NoDuplicates(prefix) by {
        forall i, j | 0 <= i < j < n ensures prefix[i] != prefix[j] {
          assert prefix[i] == ids[i] && prefix[j] == ids[j];
        }
      }
      assert forall i :: 0 <= i < n ==> prefix[i] !in places by {
        forall i | 0 <= i < n ensures prefix[i] !in places {
          assert prefix[i] == ids[i];
        }
      }
      InsertAllGrows(places, prefix, rows[..n]);
      InsertAllKeys(places, prefix, rows[..n]);
      assert ids[n] !in prefix by {
        forall i | 0 <= i < n ensures prefix[i] != ids[n] {
          assert prefix[i] == ids[i];
        }
      }
    }
  }

  /** With distinct ids, none of them already present, ids[i] ends up
      holding rows[i]. */
  lemma {:induction false} InsertAllRow(places: map<string, Place>, ids: seq<string>, rows: seq<Place>, i: int)
    requires |ids| == |rows| && 0 <= i < |ids|
    requires NoDuplicates(ids)
    requires forall j :: 0 <= j < |ids| ==> ids[j] !in places
    ensures ids[i] in InsertAll(places, ids, rows) && InsertAll(places, ids, rows)[ids[i]] == rows[i]
  {
    var n := |ids| - 1;
    var prefix := ids[..n];
    InsertAllKeys(places, prefix, rows[..n]);
    assert ids[n] !in prefix by {
      forall j | 0 <= j < n ensures prefix[j] != ids[n] {
        assert prefix[j] == ids[j];
      }
    }
    if i < n {
      assert NoDuplicates(prefix) by {
        forall a, b | 0 <= a < b < n ensures prefix[a] != prefix[b] {
          assert prefix[a] == ids[a] && prefix[b] == ids[b];
        }
      }
      assert forall j :: 0 <= j < n ==> prefix[j] !in places by {
        forall j | 0 <= j < n ensures prefix[j] !in places {
          assert prefix[j] == ids[j];
        }
      }
      InsertAllRow(places, prefix, rows[..n], i);
      assert prefix[i] == ids[i] && rows[..n][i] == rows[i];
    }
  }

  /** The loop for one kind inserts nine distinct ids. */
  lemma SeedIdsDistinct(k: Kind)
    ensures NoDuplicates(SeedIds(k))
  {
    forall i, j | 0 <= i < j < PerKind ensures SeedIds(k)[i] != SeedIds(k)[j] {
      SeedIdInjective(k, i + 1, k, j + 1);
    }
  }

  /** No hotel id is a hospital id. */
  lemma SeedKindsDisjoint(i: int, j: int)
    requires 0 <= i < PerKind && 0 <= j < PerKind
    ensures SeedIds(Hospital)[i] != SeedIds(Hotel)[j]
  {
    SeedIdInjective(Hospital, i + 1, Hotel, j + 1);
  }

  /** The places table after both loops of the seed, starting from the
      emptied table: every place starts with both counters at 0. */
  function SeedPlaces(base: string): (r: map<string, Place>)
    ensures forall id :: id in r ==> CountersZero(r[id])
  {
    var empty: map<string, Place> := map[];
    var hospitals := InsertAll(empty, SeedIds(Hospital), SeedRows(base, Hospital));
    InsertAllCountersZero(empty, SeedIds(Hospital), SeedRows(base, Hospital));
    InsertAllCountersZero(hospitals, SeedIds(Hotel), SeedRows(base, Hotel));
    InsertAll(hospitals, SeedIds(Hotel), SeedRows(base, Hotel))
  }

  /** After the hospital loop, no hotel id is present yet. */
  lemma HotelsFresh(base: string)
    ensures forall j :: 0 <= j < PerKind ==>
              SeedIds(Hotel)[j] !in InsertAll(map[], SeedIds(Hospital), SeedRows(base, Hospital))
  {
    var empty: map<string, Place> := map[];
    InsertAllKeys(empty, SeedIds(Hospital), SeedRows(base, Hospital));
    forall j | 0 <= j < PerKind
      ensures SeedIds(Hotel)[j] !in InsertAll(empty, SeedIds(Hospital), SeedRows(base, Hospital))
    {
      forall i | 0 <= i < PerKind ensures SeedIds(Hospital)[i] != SeedIds(Hotel)[j] {
        SeedKindsDisjoint(i, j);
      }
    }
  }

  /** The seed leaves exactly 18 places. */
  lemma SeedPlacesCount(base: string)
    ensures |SeedPlaces(base)| == 2 * PerKind
  {
    var empty: map<string, Place> := map[];
    SeedIdsDistinct(Hospital);
    InsertAllGrows(empty, SeedIds(Hospital), SeedRows(base, Hospital));
    SeedIdsDistinct(Hotel);
    HotelsFresh(base);
    InsertAllGrows(InsertAll(empty, SeedIds(Hospital), SeedRows(base, Hospital)), SeedIds(Hotel), SeedRows(base, Hotel));
  }

  /** The ids of the seeded places are `hospital-1` to `hospital-9` and
      `hotel-1` to `hotel-9`, and no others. */
  lemma SeedPlacesIds(base: string)
    ensures forall id :: id in SeedPlaces(base) <==> id in SeedIds(Hospital) || id in SeedIds(Hotel)
  {
    var empty: map<string, Place> := map[];
    InsertAllKeys(empty, SeedIds(Hospital), SeedRows(base, Hospital));
    InsertAllKeys(InsertAll(empty, SeedIds(Hospital), SeedRows(base, Hospital)), SeedIds(Hotel), SeedRows(base, Hotel));
  }

  /** The i-th hospital and the i-th hotel hold their display name, type,
      image and zero counters. */
  lemma SeedPlacesRow(base: string, k: Kind, i: int)
    requires 1 <= i <= PerKind
    ensures SeedId(k, i) in SeedPlaces(base) && SeedPlaces(base)[SeedId(k, i)] == SeedRow(base, k, i)
  {
    var empty: map<string, Place> := map[];
    var hospitals := InsertAll(empty, SeedIds(Hospital), SeedRows(base, Hospital));
    assert SeedIds(k)[i - 1] == SeedId(k, i);
    if k == Hospital {
      SeedIdsDistinct(Hospital);
      InsertAllRow(empty, SeedIds(Hospital), SeedRows(base, Hospital), i - 1);
    } else {
      SeedIdsDistinct(Hotel);
      HotelsFresh(base);
      InsertAllRow(hospitals, SeedIds(Hotel), SeedRows(base, Hotel), i - 1);
    }
  }

  /** Both counters of a row are 0. */
  predicate CountersZero(p: Place) {
    p.currentToken == Some(0) && p.lastIssuedToken == Some(0)
  }

  /** Inserting rows whose counters are 0 into a table whose counters are 0
      leaves every counter at 0. */
  lemma {:induction false} InsertAllCountersZero(places: map<string, Place>, ids: seq<string>, rows: seq<Place>)
    requires |ids| == |rows|
    requires forall key :: key in places ==> CountersZero(places[key])
    requires forall j :: 0 <= j < |rows| ==> CountersZero(rows[j])
    ensures forall key :: key in InsertAll(places, ids, rows) ==> CountersZero(InsertAll(places, ids, rows)[key])
  {
    if ids != [] {
      var n := |ids| - 1;
      InsertAllCountersZero(places, ids[..n], rows[..n]);
    }
  }

  /** Everything the seed promises about a places table: 18 rows, the
      i-th hospital and hotel holding their seeded rows, all counters 0. */
  ghost predicate SeededTable(base: string, places: map<string, Place>) {
    && |places| == 2 * PerKind
    && (forall i :: 1 <= i <= PerKind ==>
          SeedId(Hospital, i) in places && places[SeedId(Hospital, i)] == SeedRow(base, Hospital, i) &&
          SeedId(Hotel, i) in places && places[SeedId(Hotel, i)] == SeedRow(base, Hotel, i))
    && (forall id :: id in places ==> CountersZero(places[id]))
  }

  /** The seed's places table is as promised. */
  lemma SeedPlacesFacts(base: string)
    ensures SeededTable(base, SeedPlaces(base))
  {
    SeedPlacesCount(base);
    SeedPlacesIds(base);
    forall i | 1 <= i <= PerKind
      ensures SeedId(Hospital, i) in SeedPlaces(base) && SeedPlaces(base)[SeedId(Hospital, i)] == SeedRow(base, Hospital, i)
      ensures SeedId(Hotel, i) in SeedPlaces(base) && SeedPlaces(base)[SeedId(Hotel, i)] == SeedRow(base, Hotel, i)
    {
      SeedPlacesRow(base, Hospital, i);
      SeedPlacesRow(base, Hotel, i);
    }
  }

  /** With the deployed image host, the i-th place of kind k shows the
      deployed picture `catalogpics/hospitals/hospital<i>.jpg` or
      `catalogpics/hotels/hotel<i>.jpg`. */
  lemma DeployedSeedImage(k: Kind, i: int)
    requires 1 <= i <= PerKind
    ensures SeedId(k, i) in SeedPlaces(BaseImageUrl)
    ensures SeedPlaces(BaseImageUrl)[SeedId(k, i)].image == BaseImageUrl + k.ImagePath() + Decimal(i) + ".jpg"
  {
    SeedPlacesRow(BaseImageUrl, k, i);
  }

  /** The table the hospital loop and then the hotel loop leave, starting
      from the emptied table, is the seed's places table, with everything
      promised of it. */
  lemma SeedLoopsResult(base: string, hospitals: map<string, Place>, places: map<string, Place>)
    requires hospitals == InsertAll(map[], SeedIds(Hospital), SeedRows(base, Hospital))
    requires places == InsertAll(hospitals, SeedIds(Hotel), SeedRows(base, Hotel))
    ensures places == SeedPlaces(base) && SeededTable(base, places)
  {
    SeedPlacesFacts(base);
  }
}
