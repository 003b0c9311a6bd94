/**
 * The favorites API: `GET` lists the table newest first, `POST` upserts one
 * row keyed by `imdbID`, `DELETE` removes the row named by the `imdbID`
 * query parameter. The table is the Prisma `favorite` model, held here as a
 * map from `imdbID` to row.
 */
module FavoritesRoute {

  import opened Wrappers
  import opened Http

  const MsgMissingFields: string := "Missing imdbID/Title"
  const MsgMissingId: string := "Missing imdbID"

  /** One row of the favorites table; `kind` is the `type` column, `createdAt` a timestamp. */
  datatype Favorite = Favorite(imdbID: string, title: string, poster: Option<string>, year: Option<string>,
                               kind: Option<string>, createdAt: int)

  type FavoriteMap = map<string, Favorite>

  /** A string field of the JSON body: left out (`undefined`), `null`, or a string. */
  datatype Field = Absent | Null | Text(text: string)

  /** `const { imdbID, Title, Poster, Year, Type } = body`. */
  datatype FavoriteBody = FavoriteBody(imdbID: Field, title: Field, poster: Field, year: Field, kind: Field)

  /** A field is truthy when it is a non-empty string. */
  predicate Truthy(f: Field) {
    f.Text? && f.text != ""
  }

  /** The guard `!imdbID || !Title` is false. */
  predicate HasKeyFields(body: FavoriteBody) {
    Truthy(body.imdbID) && Truthy(body.title)
  }

  /** The column a field sets on create: `undefined` and `null` both leave it null. */
  function OnCreate(f: Field): (v: Option<string>)
    ensures v.Some? <==> f.Text?
    ensures f.Text? ==> v == Some(f.text)
  {
    if f.Text? then Some(f.text) else None
  }

  /** The column after an update: `undefined` leaves it as it was, `null` clears it. */
  function OnUpdate(f: Field, current: Option<string>): (v: Option<string>)
    ensures f.Absent? ==> v == current
    ensures f.Null? ==> v.None?
    ensures f.Text? ==> v == Some(f.text)
  {
    match f
    case Absent => current
    case Null => None
    case Text(s) => Some(s)
  }

  /** What the handlers answer; `Crash` is an uncaught exception, which Next.js turns into a bare 500. */
  datatype Reply = Saved(row: Favorite) | Deleted | Failed(status: int, error: string) | Crash

  /** Every row sits under its own `imdbID`: the unique key of the table. */
  ghost predicate KeyedById(rows: FavoriteMap) {
    forall k | k in rows :: rows[k].imdbID == k
  }

  /**
   * `prisma.favorite.upsert({where: {imdbID}, create, update})` for a body that
   * passed the guard: a new id gets a row stamped `now`; an existing row takes
   * the new title and the poster, year and type the body names, keeping its
   * `createdAt`. No other row changes.
   */
  function Upsert(rows: FavoriteMap, body: FavoriteBody, now: int): (r: FavoriteMap)
    requires HasKeyFields(body)
    ensures r.Keys == rows.Keys + {body.imdbID.text}
    ensures forall k | k in rows && k != body.imdbID.text :: r[k] == rows[k]
    ensures KeyedById(rows) ==> KeyedById(r)
    ensures var row := r[body.imdbID.text];
            && row.imdbID == body.imdbID.text && row.title == body.title.text
            && row.createdAt == (if body.imdbID.text in rows then rows[body.imdbID.text].createdAt else now)
  {
    var id := body.imdbID.text;
    var row :=
      if id in rows then
        var old_ := rows[id];
        Favorite(id, body.title.text, OnUpdate(body.poster, old_.poster), OnUpdate(body.year, old_.year),
                 OnUpdate(body.kind, old_.kind), old_.createdAt)
      else
        Favorite(id, body.title.text, OnCreate(body.poster), OnCreate(body.year), OnCreate(body.kind), now);
    rows[id := row]
  }

  /** Posting the same body twice leaves the table as posting it once, whatever the second clock reading. */
  lemma {:induction false} UpsertIdempotent(rows: FavoriteMap, body: FavoriteBody, now: int, later: int)
    requires HasKeyFields(body)
    ensures Upsert(Upsert(rows, body, now), body, later) == Upsert(rows, body, now)
  {
    var once := Upsert(rows, body, now);
    var twice := Upsert(once, body, later);
    var id := body.imdbID.text;
    assert twice[id] == once[id];
    assert twice.Keys == once.Keys;
  }

  /** A new row stores exactly the posted fields; `undefined` and `null` both store null. */
  lemma UpsertCreates(rows: FavoriteMap, body: FavoriteBody, now: int)
    requires HasKeyFields(body) && body.imdbID.text !in rows
    ensures Upsert(rows, body, now)[body.imdbID.text]
            == Favorite(body.imdbID.text, body.title.text, OnCreate(body.poster), OnCreate(body.year), OnCreate(body.kind), now)
  {
  }

  /** An existing row takes the posted title, poster, year and type, and keeps its id and `createdAt`. */
  lemma UpsertUpdates(rows: FavoriteMap, body: FavoriteBody, now: int)
    requires HasKeyFields(body) && body.imdbID.text in rows
    ensures var id := body.imdbID.text;
            Upsert(rows, body, now)[id]
            == Favorite(id, body.title.text, OnUpdate(body.poster, rows[id].poster), OnUpdate(body.year, rows[id].year),
                        OnUpdate(body.kind, rows[id].kind), rows[id].createdAt)
  {
  }

  /** Creating a row and then deleting it restores the table. */
  lemma {:induction false} UpsertThenRemove(rows: FavoriteMap, body: FavoriteBody, now: int)
    requires HasKeyFields(body)
    ensures Upsert(rows, body, now) - {body.imdbID.text} == rows - {body.imdbID.text}
  {
    var id := body.imdbID.text;
    assert (Upsert(rows, body, now) - {id}).Keys == (rows - {id}).Keys;
  }

  /** Newest first: `orderBy: {createdAt: "desc"}`. */
  predicate NewestFirst(xs: seq<Favorite>) {
    forall p, q | 0 <= p < q < |xs| :: xs[p].createdAt >= xs[q].createdAt
  }

  /** No two rows of the listing share an `imdbID`. */
  predicate DistinctIds(xs: seq<Favorite>) {
    forall p, q | 0 <= p < q < |xs| :: xs[p].imdbID != xs[q].imdbID
  }

  /** Places `f` in a newest-first listing, before the rows no newer than it. */
  function InsertNewestFirst(xs: seq<Favorite>, f: Favorite): (r: seq<Favorite>)
    ensures multiset(r) == multiset(xs) + multiset{f}
  {
    if xs == [] || xs[0].createdAt <= f.createdAt then
      [f] + xs
    else
      assert xs == [xs[0]] + xs[1..];
      [xs[0]] + InsertNewestFirst(xs[1..], f)
  }

  /** The listing after an insertion holds one more row: the old ones and `f`. */
  lemma {:induction false} InsertMembers(xs: seq<Favorite>, f: Favorite)
    ensures |InsertNewestFirst(xs, f)| == |xs| + 1
    ensures forall g :: g in InsertNewestFirst(xs, f) <==> g in xs || g == f
  {
    var r := InsertNewestFirst(xs, f);
    assert |multiset(r)| == |multiset(xs)| + 1;
    forall g ensures g in r <==> g in xs || g == f {
      assert g in r <==> g in multiset(r);
      assert g in xs <==> g in multiset(xs);
    }
  }

  /** Inserting into a newest-first listing keeps it newest first. */
  lemma {:induction false} InsertKeepsNewestFirst(xs: seq<Favorite>, f: Favorite)
    requires NewestFirst(xs)
    ensures NewestFirst(InsertNewestFirst(xs, f))
  {
    if xs != [] && xs[0].createdAt > f.createdAt {
      var rest := InsertNewestFirst(xs[1..], f);
      InsertKeepsNewestFirst(xs[1..], f);
      InsertMembers(xs[1..], f);
      forall q | 0 <= q < |rest| ensures rest[q].createdAt <= xs[0].createdAt {
        assert rest[q] in rest;
        if rest[q] != f {
          var k :| 0 <= k < |xs[1..]| && xs[1..][k] == rest[q];
          assert xs[k + 1] == rest[q];
        }
      }
      var r := [xs[0]] + rest;
      assert forall q | 1 <= q < |r| :: r[q] == rest[q - 1];
    }
  }

  /** Inserting a row whose id is new keeps the ids of the listing distinct. */
  lemma {:induction false} InsertKeepsIdsDistinct(xs: seq<Favorite>, f: Favorite)
    requires DistinctIds(xs)
    requires forall i | 0 <= i < |xs| :: xs[i].imdbID != f.imdbID
    ensures DistinctIds(InsertNewestFirst(xs, f))
  {
    if xs == [] || xs[0].createdAt <= f.createdAt {
      var r := [f] + xs;
      assert forall q | 1 <= q < |r| :: r[q] == xs[q - 1];
    } else {
      var rest := InsertNewestFirst(xs[1..], f);
      InsertKeepsIdsDistinct(xs[1..], f);
      InsertMembers(xs[1..], f);
      forall q | 0 <= q < |rest| ensures rest[q].imdbID != xs[0].imdbID {
        assert rest[q] in rest;
        if rest[q] != f {
          var k :| 0 <= k < |xs[1..]| && xs[1..][k] == rest[q];
          assert xs[k + 1] == rest[q];
        }
      }
      var r := [xs[0]] + rest;
      assert forall q | 1 <= q < |r| :: r[q] == rest[q - 1];
    }
  }

  /** The favorites table the route reads and writes through Prisma. */
  class FavoritesTable {

    var rows: FavoriteMap

    ghost predicate Valid()
      reads this
    {
      KeyedById(rows)
    }

    constructor ()
      ensures Valid() && rows == map[]
    {
      rows := map[];
    }

    /** `GET()`: every row exactly once, newest first. */
    method Get() returns (listing: seq<Favorite>)
      requires Valid()
      ensures NewestFirst(listing)
      ensures DistinctIds(listing)
      ensures |listing| == |rows|
      ensures forall f :: f in listing <==> f in rows.Values
    {
      listing := [];
      var remaining := rows.Keys;
      while remaining != {}
        invariant remaining <= rows.Keys
        invariant NewestFirst(listing) && DistinctIds(listing)
        invariant |listing| + |remaining| == |rows.Keys|
        invariant forall f | f in listing :: f.imdbID in rows && rows[f.imdbID] == f && f.imdbID !in remaining
        invariant forall k | k in rows && k !in remaining :: rows[k] in listing
        decreases |remaining|
      {
        var k :| k in remaining;
        InsertMembers(listing, rows[k]);
        InsertKeepsNewestFirst(listing, rows[k]);
        InsertKeepsIdsDistinct(listing, rows[k]);
        listing := InsertNewestFirst(listing, rows[k]);
        assert |remaining - {k}| == |remaining| - 1;
        remaining := remaining - {k};
      }
      assert |rows.Keys| == |rows|;
    }

    /**
     * `POST(req)`: an unparseable body throws; a body without a truthy
     * `imdbID` or `Title` is a 400 and changes nothing; otherwise the row is
     * upserted and returned, unless the upsert itself throws (`storeFailure`),
     * which leaves the table as it was.
     */
    method Post(body: Option<FavoriteBody>, now: int, storeFailure: bool) returns (reply: Reply)
      requires Valid()
      modifies this
      ensures Valid()
      ensures body.None? ==> reply == Crash && rows == old(rows)
      ensures body.Some? && !HasKeyFields(body.value)
              ==> reply == Failed(StatusBadRequest, MsgMissingFields) && rows == old(rows)
      ensures body.Some? && HasKeyFields(body.value) && storeFailure ==> reply == Crash && rows == old(rows)
      ensures body.Some? && HasKeyFields(body.value) && !storeFailure
              ==> rows == Upsert(old(rows), body.value, now) && reply == Saved(rows[body.value.imdbID.text])
    {
      if body.None? {
        return Crash;
      }
      var b := body.value;
      if !HasKeyFields(b) {
        return Failed(StatusBadRequest, MsgMissingFields);
      }
      if storeFailure {
        return Crash;
      }
      rows := Upsert(rows, b, now);
      reply := Saved(rows[b.imdbID.text]);
    }

    /**
     * `DELETE(req)`: a missing or empty `imdbID` parameter is a 400; an id
     * with no row makes Prisma's `delete` throw, and so does a failing store
     * (`storeFailure`); otherwise exactly that row goes and the reply is
     * `{ok: true}`.
     */
    method Delete(imdbIDParam: Option<string>, storeFailure: bool) returns (reply: Reply)
      requires Valid()
      modifies this
      ensures Valid()
      ensures imdbIDParam.None? || imdbIDParam.value == ""
              ==> reply == Failed(StatusBadRequest, MsgMissingId) && rows == old(rows)
      ensures imdbIDParam.Some? && imdbIDParam.value != "" && (imdbIDParam.value !in old(rows) || storeFailure)
              ==> reply == Crash && rows == old(rows)
      ensures imdbIDParam.Some? && imdbIDParam.value != "" && imdbIDParam.value in old(rows) && !storeFailure
              ==> reply == Deleted && rows == old(rows) - {imdbIDParam.value}
    {
      if imdbIDParam.None? || imdbIDParam.value == "" {
        return Failed(StatusBadRequest, MsgMissingId);
      }
      var id := imdbIDParam.value;
      if id !in rows || storeFailure {
        return Crash;
      }
      rows := rows - {id};
      reply := Deleted;
    }
  }
}
