/**
 * The home page's logic: poster URL normalisation, the de-duplication of
 * search results through a JavaScript `Map` keyed by `imdbID`, the search
 * handler with its blank-query guard, and the effect that fills the
 * home-page rows from per-title lookups.
 */
module HomePage {

  import opened Wrappers
  import opened JsStrings

  /** The inline SVG placeholder: `"data:image/svg+xml;utf8," + encodeURIComponent(svg)`. */
  const DataUriHeader: string := "data:image/svg+xml;utf8,"
  /** `encodeURIComponent` of the 300x450 SVG with a dark `#111` rectangle. */
  const EncodedPlaceholderSvg: string :=
    "%0A%20%20%3Csvg%20xmlns%3D%22http%3A%2F%2Fwww.w3.org%2F2000%2Fsvg%22%20width%3D%22300%22%20height%3D%22450%22%3E%0A%20%20%20%20%3Crect%20width%3D%22100%25%22%20height%3D%22100%25%22%20fill%3D%22%23111%22%2F%3E%0A%20%20%3C%2Fsvg%3E%0A"
  const NoPosterDataUri: string := DataUriHeader + EncodedPlaceholderSvg

  const NotAvailable: string := "N/A"
  const HttpScheme: string := "http://"
  const HttpsScheme: string := "https://"

  /** A poster value that stands for "no poster": undefined, empty or "N/A". */
  predicate IsMissingPoster(poster: Option<string>) {
    poster.None? || poster.value == "" || poster.value == NotAvailable
  }

  /** `normalizePosterUrl(poster)`. */
  function NormalizePosterUrl(poster: Option<string>): (url: string)
    ensures IsMissingPoster(poster) ==> url == NoPosterDataUri
    ensures !IsMissingPoster(poster) && StartsWith(poster.value, HttpScheme)
            ==> url == HttpsScheme + poster.value[|HttpScheme|..]
    ensures !IsMissingPoster(poster) && !StartsWith(poster.value, HttpScheme) ==> url == poster.value
    ensures !IsMissingPoster(Some(url)) && !StartsWith(url, HttpScheme)
  {
    if IsMissingPoster(poster) then
      assert NoPosterDataUri[0] == DataUriHeader[0] != HttpScheme[0];
      NoPosterDataUri
    else if StartsWith(poster.value, HttpScheme) then
      ReplaceFirstOfPrefix(poster.value, HttpScheme, HttpsScheme);
      SubstitutionOfPlain(HttpsScheme, HttpScheme, [], poster.value[|HttpScheme|..]);
      var url := ReplaceFirst(poster.value, HttpScheme, HttpsScheme);
      assert url[4] == 's' != HttpScheme[4];
      url
    else
      poster.value
  }

  /** Normalising a normalised poster URL changes nothing. */
  lemma NormalizePosterUrlIdempotent(poster: Option<string>)
    ensures NormalizePosterUrl(Some(NormalizePosterUrl(poster))) == NormalizePosterUrl(poster)
  {
  }

  /** One element of OMDb's `Search` array. */
  datatype SearchItem = SearchItem(imdbID: string, title: string, year: string, poster: string, kind: Option<string>)

  /** Some item carries this id. */
  predicate HasId(items: seq<SearchItem>, id: string) {
    exists i | 0 <= i < |items| :: items[i].imdbID == id
  }

  /** The ids of `items + [x]` are those of `items` and `x`'s. */
  lemma {:induction false} HasIdSnoc(items: seq<SearchItem>, x: SearchItem, id: string)
    ensures HasId(items + [x], id) <==> HasId(items, id) || id == x.imdbID
  {
    var all := items + [x];
    if HasId(all, id) && id != x.imdbID {
      var i :| 0 <= i < |all| && all[i].imdbID == id;
      assert items[i].imdbID == id;
    }
    if HasId(items, id) {
      var i :| 0 <= i < |items| && items[i].imdbID == id;
      assert all[i].imdbID == id;
    }
    if id == x.imdbID {
      assert all[|items|].imdbID == id;
    }
  }

  /** The index of the first item with this id. */
  function FirstIndex(items: seq<SearchItem>, id: string): (i: nat)
    requires HasId(items, id)
    ensures i < |items| && items[i].imdbID == id
    ensures forall j | 0 <= j < i :: items[j].imdbID != id
  {
    if items[0].imdbID == id then 0
    else
      assert HasId(items[1..], id) by {
        var k :| 0 <= k < |items| && items[k].imdbID == id;
        assert items[1..][k - 1].imdbID == id;
      }
      1 + FirstIndex(items[1..], id)
  }

  /** The index of the last item with this id. */
  function LastIndex(items: seq<SearchItem>, id: string): (i: nat)
    requires HasId(items, id)
    ensures i < |items| && items[i].imdbID == id
    ensures forall j | i < j < |items| :: items[j].imdbID != id
  {
    var n := |items|;
    if items[n - 1].imdbID == id then n - 1
    else
      assert HasId(items[..n - 1], id) by {
        assert items == items[..n - 1] + [items[n - 1]];
        HasIdSnoc(items[..n - 1], items[n - 1], id);
      }
      LastIndex(items[..n - 1], id)
  }

  /** The entries of a JavaScript `Map` in insertion order. */
  type Entries = seq<(string, SearchItem)>

  /** No key occurs twice, as in any `Map`. */
  predicate DistinctKeys(entries: Entries) {
    forall p, q | 0 <= p < q < |entries| :: entries[p].0 != entries[q].0
  }

  predicate HasKey(entries: Entries, key: string) {
    exists p | 0 <= p < |entries| :: entries[p].0 == key
  }

  /** `map.set(key, value)`: an existing key keeps its place and takes the new value; a new key goes last. */
  function MapSet(entries: Entries, key: string, value: SearchItem): (r: Entries)
    requires DistinctKeys(entries)
    ensures DistinctKeys(r)
    ensures HasKey(entries, key) ==> |r| == |entries|
    ensures !HasKey(entries, key) ==> |r| == |entries| + 1 && r[|entries|] == (key, value)
    ensures forall p | 0 <= p < |entries| :: r[p] == if entries[p].0 == key then (key, value) else entries[p]
  {
    if HasKey(entries, key) then
      seq(|entries|, p requires 0 <= p < |entries| => if entries[p].0 == key then (key, value) else entries[p])
    else
      entries + [(key, value)]
  }

  /** After `map.set(key, value)` the keys are the old ones and `key`. */
  lemma {:induction false} MapSetHasKey(entries: Entries, key: string, value: SearchItem, k: string)
    requires DistinctKeys(entries)
    ensures HasKey(MapSet(entries, key, value), k) <==> HasKey(entries, k) || k == key
  {
    var r := MapSet(entries, key, value);
    if HasKey(entries, k) {
      var p :| 0 <= p < |entries| && entries[p].0 == k;
      assert r[p].0 == k;
    }
    if k == key && !HasKey(entries, key) {
      assert r[|entries|].0 == key;
    }
    if k == key && HasKey(entries, key) {
      var p :| 0 <= p < |entries| && entries[p].0 == key;
      assert r[p].0 == key;
    }
    if HasKey(r, k) && k != key {
      var p :| 0 <= p < |r| && r[p].0 == k;
      assert p < |entries| && entries[p].0 == k;
    }
  }

  /** `new Map(items.map(m => [m.imdbID, m]))`: each item is set in turn, under its id. */
  function MapOfItems(items: seq<SearchItem>): (r: Entries)
    ensures DistinctKeys(r)
    ensures forall p | 0 <= p < |r| :: r[p].0 == r[p].1.imdbID
  {
    if items == [] then []
    else
      var last := items[|items| - 1];
      MapSet(MapOfItems(items[..|items| - 1]), last.imdbID, last)
  }

  /** The keys of the map are exactly the ids of the items. */
  lemma {:induction false} MapOfItemsKeys(items: seq<SearchItem>, id: string)
    ensures HasKey(MapOfItems(items), id) <==> HasId(items, id)
  {
    if items != [] {
      var n := |items|;
      var prefix := items[..n - 1];
      var last := items[n - 1];
      assert items == prefix + [last];
      MapOfItemsKeys(prefix, id);
      MapSetHasKey(MapOfItems(prefix), last.imdbID, last, id);
      HasIdSnoc(prefix, last, id);
    }
  }

  /** Appending one item moves no first occurrence of an id already present. */
  lemma {:induction false} FirstIndexSnoc(items: seq<SearchItem>, x: SearchItem, id: string)
    requires HasId(items, id)
    ensures HasId(items + [x], id) && FirstIndex(items + [x], id) == FirstIndex(items, id)
  {
    HasIdSnoc(items, x, id);
    var i := FirstIndex(items, id);
    assert (items + [x])[i].imdbID == id;
    var i' := FirstIndex(items + [x], id);
    assert !(i < i') && !(i' < i);
  }

  /** An id first seen in the appended item first occurs there. */
  lemma {:induction false} FirstIndexNew(items: seq<SearchItem>, x: SearchItem)
    requires !HasId(items, x.imdbID)
    ensures HasId(items + [x], x.imdbID) && FirstIndex(items + [x], x.imdbID) == |items|
  {
    HasIdSnoc(items, x, x.imdbID);
  }

  /** After appending `x`, the last occurrence of `x`'s id is `x`; other ids keep their last occurrence. */
  lemma {:induction false} LastIndexSnoc(items: seq<SearchItem>, x: SearchItem, id: string)
    requires HasId(items + [x], id)
    ensures id == x.imdbID ==> LastIndex(items + [x], id) == |items|
    ensures id != x.imdbID ==> HasId(items, id) && LastIndex(items + [x], id) == LastIndex(items, id)
  {
    HasIdSnoc(items, x, id);
    var all := items + [x];
    var i' := LastIndex(all, id);
    if id != x.imdbID {
      assert i' < |items| && items[i'].imdbID == id;
      var i := LastIndex(items, id);
      assert !(i < i') && !(i' < i);
    }
  }

  /** The map keeps the ids in the order of their first occurrence. */
  lemma {:induction false} MapOfItemsFirstOrder(items: seq<SearchItem>, p: nat, q: nat)
    requires p < q < |MapOfItems(items)|
    ensures var r := MapOfItems(items);
            HasId(items, r[p].0) && HasId(items, r[q].0) && FirstIndex(items, r[p].0) < FirstIndex(items, r[q].0)
  {
    var n := |items|;
    var prefix := items[..n - 1];
    var last := items[n - 1];
    assert items == prefix + [last];
    var before := MapOfItems(prefix);
    var r := MapOfItems(items);
    assert r == MapSet(before, last.imdbID, last);
    assert r[p].0 == before[p].0 && HasKey(before, before[p].0);
    MapOfItemsKeys(prefix, before[p].0);
    FirstIndexSnoc(prefix, last, before[p].0);
    if q < |before| {
      MapOfItemsFirstOrder(prefix, p, q);
      assert r[q].0 == before[q].0 && HasKey(before, before[q].0);
      MapOfItemsKeys(prefix, before[q].0);
      FirstIndexSnoc(prefix, last, before[q].0);
    } else {
      assert !HasKey(before, last.imdbID) && q == |before|;
      assert r[q] == (last.imdbID, last);
      MapOfItemsKeys(prefix, last.imdbID);
      FirstIndexNew(prefix, last);
    }
  }

  /** Each key of the map carries the last item with that id: a later `set` overwrites in place. */
  lemma {:induction false} MapOfItemsLastWins(items: seq<SearchItem>)
    ensures var r := MapOfItems(items);
            forall p | 0 <= p < |r| :: HasId(items, r[p].0) && r[p].1 == items[LastIndex(items, r[p].0)]
  {
    if items != [] {
      var n := |items|;
      var prefix := items[..n - 1];
      var last := items[n - 1];
      assert items == prefix + [last];
      MapOfItemsLastWins(prefix);
      var before := MapOfItems(prefix);
      var r := MapOfItems(items);
      forall p | 0 <= p < |r| ensures HasId(items, r[p].0) && r[p].1 == items[LastIndex(items, r[p].0)] {
        var k := r[p].0;
        assert HasKey(r, k);
        MapOfItemsKeys(items, k);
        LastIndexSnoc(prefix, last, k);
        if k != last.imdbID {
          assert p < |before| && r[p] == before[p];
          assert HasKey(before, k);
          MapOfItemsKeys(prefix, k);
          var j := LastIndex(prefix, k);
          assert items[j] == prefix[j];
        } else {
          assert r[p] == (last.imdbID, last);
          assert items[n - 1] == last;
        }
      }
    }
  }

  /** `Array.from(new Map(items.map(m => [m.imdbID, m])).values())`. */
  function Dedup(items: seq<SearchItem>): seq<SearchItem> {
    var entries := MapOfItems(items);
    seq(|entries|, p requires 0 <= p < |entries| => entries[p].1)
  }

  /** The search results carry each id of the reply exactly once, and no other id. */
  lemma {:induction false} DedupIds(items: seq<SearchItem>)
    ensures var r := Dedup(items);
            && (forall p, q | 0 <= p < q < |r| :: r[p].imdbID != r[q].imdbID)
            && (forall id :: HasId(r, id) <==> HasId(items, id))
  {
    var entries := MapOfItems(items);
    var r := Dedup(items);
    forall id ensures HasId(r, id) <==> HasId(items, id) {
      MapOfItemsKeys(items, id);
      if HasId(r, id) {
        var p :| 0 <= p < |r| && r[p].imdbID == id;
        assert entries[p].0 == id;
      }
      if HasKey(entries, id) {
        var p :| 0 <= p < |entries| && entries[p].0 == id;
        assert r[p].imdbID == id;
      }
    }
  }

  /** The search results keep the first-occurrence order of ids and show the last item for each id. */
  lemma {:induction false} DedupOrder(items: seq<SearchItem>)
    ensures var r := Dedup(items);
            && (forall p, q | 0 <= p < q < |r| ::
                  HasId(items, r[p].imdbID) && HasId(items, r[q].imdbID)
                  && FirstIndex(items, r[p].imdbID) < FirstIndex(items, r[q].imdbID))
            && (forall p | 0 <= p < |r| :: HasId(items, r[p].imdbID) && r[p] == items[LastIndex(items, r[p].imdbID)])
  {
    MapOfItemsLastWins(items);
    var entries := MapOfItems(items);
    var r := Dedup(items);
    assert |r| == |entries|;
    forall p | 0 <= p < |r| ensures r[p] == entries[p].1 && r[p].imdbID == entries[p].0 {
    }
    forall p, q | 0 <= p < q < |r|
      ensures HasId(items, r[p].imdbID) && HasId(items, r[q].imdbID)
      ensures FirstIndex(items, r[p].imdbID) < FirstIndex(items, r[q].imdbID)
    {
      assert r[p].imdbID == entries[p].0 && r[q].imdbID == entries[q].0;
      MapOfItemsFirstOrder(items, p, q);
    }
  }

  /** One title as the home rows show it. */
  datatype MovieCard = MovieCard(imdbID: string, title: Option<string>, year: Option<string>, poster: Option<string>,
                                 genre: Option<string>, imdbRating: Option<string>)

  /** The JSON body of `/api/movies/<id>`. */
  datatype MovieData = MovieData(title: Option<string>, year: Option<string>, poster: Option<string>,
                                 genre: Option<string>, imdbRating: Option<string>)

  /** What the lookup request gave: a thrown error (network or parse), or the status and the parsed body (None when empty or null). */
  datatype LookupReply = LookupThrew | LookupReply(ok: bool, data: Option<MovieData>)

  /** `fetchMovieById(imdbID)` given the reply to its request: null unless the reply is ok with a body. */
  function FetchMovieById(imdbID: string, reply: LookupReply): (card: Option<MovieCard>)
    ensures card.Some? <==> reply.LookupReply? && reply.ok && reply.data.Some?
    ensures card.Some? ==>
              var d := reply.data.value;
              card.value == MovieCard(imdbID, d.title, d.year, d.poster, d.genre, d.imdbRating)
  {
    match reply
    case LookupThrew => None
    case LookupReply(ok, data) =>
      if !ok || data.None? then None
      else
        var d := data.value;
        Some(MovieCard(imdbID, d.title, d.year, d.poster, d.genre, d.imdbRating))
  }

  /** `xs.filter(Boolean)` on a list of possibly-null values. */
  function Present<T(!new)>(xs: seq<Option<T>>): (r: seq<T>)
    ensures |r| <= |xs|
    ensures forall x :: x in r <==> Some(x) in xs
  {
    if xs == [] then []
    else
      var rest := Present(xs[1..]);
      assert forall y | y in xs[1..] :: y in xs;
      assert forall y | y in xs && y != xs[0] :: y in xs[1..];
      (if xs[0].Some? then [xs[0].value] else []) + rest
  }

  /** Filtering distributes over concatenation: the survivors keep their relative order. */
  lemma {:induction false} PresentAppend<T(!new)>(xs: seq<Option<T>>, ys: seq<Option<T>>)
    ensures Present(xs + ys) == Present(xs) + Present(ys)
  {
    if xs != [] {
      assert (xs + ys)[0] == xs[0];
      assert (xs + ys)[1..] == xs[1..] + ys;
      PresentAppend(xs[1..], ys);
      var head := if xs[0].Some? then [xs[0].value] else [];
      assert Present(xs + ys) == head + Present(xs[1..] + ys);
      assert Present(xs) == head + Present(xs[1..]);
    } else {
      assert xs + ys == ys;
    }
  }

  /** The lookups of a row, in the order of its ids: `row.ids.map(fetchMovieById)`. */
  function Lookups(ids: seq<string>, lookup: string -> LookupReply): (r: seq<Option<MovieCard>>)
    ensures |r| == |ids|
    ensures forall i | 0 <= i < |ids| :: r[i] == FetchMovieById(ids[i], lookup(ids[i]))
  {
    seq(|ids|, i requires 0 <= i < |ids| => FetchMovieById(ids[i], lookup(ids[i])))
  }

  /** One home row: the titles whose lookup succeeded, in id order. */
  function HomeRow(ids: seq<string>, lookup: string -> LookupReply): seq<MovieCard> {
    Present(Lookups(ids, lookup))
  }

  /**
   * A row is built id by id: splitting the ids splits the row, a failed
   * lookup contributes nothing and a successful one contributes its card.
   */
  lemma {:induction false} HomeRowAppend(ids: seq<string>, ids': seq<string>, lookup: string -> LookupReply)
    ensures HomeRow(ids + ids', lookup) == HomeRow(ids, lookup) + HomeRow(ids', lookup)
    ensures |ids| == 1 ==>
              HomeRow(ids, lookup) == match FetchMovieById(ids[0], lookup(ids[0])) case None => [] case Some(card) => [card]
  {
    assert Lookups(ids + ids', lookup) == Lookups(ids, lookup) + Lookups(ids', lookup);
    PresentAppend(Lookups(ids, lookup), Lookups(ids', lookup));
    if |ids| == 1 {
      assert Lookups(ids, lookup)[1..] == [];
    }
  }

  /** One of the fixed home rows. */
  datatype Row = Row(title: string, ids: seq<string>)

  const Rows: seq<Row> := [
    Row("Trending Now", ["tt1375666", "tt0468569", "tt0133093", "tt4154796", "tt0111161", "tt0120737", "tt0816692", "tt0109830", "tt7286456", "tt2911666"]),
    Row("Action", ["tt2911666", "tt4154796", "tt1877830", "tt4154756", "tt0478970", "tt0103064", "tt0120815", "tt0110413"]),
    Row("Comedy", ["tt0107048", "tt0088763", "tt0103772", "tt0112384", "tt0110912", "tt0120888"]),
    Row("Sci-Fi", ["tt0816692", "tt0133093", "tt0080684", "tt0076759", "tt0120915", "tt1630029"]),
    Row("Drama", ["tt0111161", "tt0109830", "tt0068646", "tt0120689", "tt0114369", "tt0167260"])
  ]

  /** The row titles are pairwise different, so each row gets its own entry. */
  lemma RowTitlesDistinct()
    ensures forall i, j | 0 <= i < j < |Rows| :: Rows[i].title != Rows[j].title
  {
    assert Rows[0].title[0] == 'T' && Rows[1].title[0] == 'A' && Rows[2].title[0] == 'C';
    assert Rows[3].title[0] == 'S' && Rows[4].title[0] == 'D';
  }

  /** `(searchParams.get("q") || "").trim()`. */
  function UrlQuery(param: Option<string>): (q: string)
    ensures q == Trim(param.GetOr(""))
    ensures IsTrimmed(q)
  {
    Trim(param.GetOr(""))
  }

  /** What the search request gave: a thrown error (network or parse), or the status, `error` and `Search` fields. */
  datatype SearchOutcome = SearchThrew | SearchReply(ok: bool, error: Option<string>, search: Option<seq<SearchItem>>)

  const MsgSearchFailed: string := "Search failed"
  /** The message for a search that threw: the failure message with a hint appended. */
  const MsgSearchThrew: string := MsgSearchFailed + ". Check console / network."

  /** The loop of the home-rows effect: `rowData[row.title] = ...` for each row in turn. */
  method FillRows(rows: seq<Row>, lookup: string -> LookupReply) returns (rowData: map<string, seq<MovieCard>>)
    requires forall i, j | 0 <= i < j < |rows| :: rows[i].title != rows[j].title
    ensures rowData.Keys == set i | 0 <= i < |rows| :: rows[i].title
    ensures forall i | 0 <= i < |rows| :: rowData[rows[i].title] == HomeRow(rows[i].ids, lookup)
  {
    rowData := map[];
    var i := 0;
    while i < |rows|
      invariant 0 <= i <= |rows|
      invariant rowData.Keys == set j | 0 <= j < i :: rows[j].title
      invariant forall j | 0 <= j < i :: rowData[rows[j].title] == HomeRow(rows[j].ids, lookup)
    {
      rowData := rowData[rows[i].title := HomeRow(rows[i].ids, lookup)];
      i := i + 1;
    }
  }

  /** The state of the home page component. */
  class Home {

    var q: string
    var loading: bool
    var results: seq<SearchItem>
    var error: string
    /** The queries `router.push` was given, as `/?q=<query>`, oldest first. */
    var pushed: seq<string>
    var homeLoading: bool
    var homeRows: map<string, seq<MovieCard>>

    constructor (urlQ: string)
      ensures q == urlQ && !loading && results == [] && error == "" && pushed == []
      ensures !homeLoading && homeRows == map[]
    {
      q := urlQ;
      loading := false;
      results := [];
      error := "";
      pushed := [];
      homeLoading := false;
      homeRows := map[];
    }

    /**
     * `search(query?)`: a query that is blank after trimming does nothing at
     * all; otherwise navigate, request the search, and show the de-duplicated
     * results or the error.
     */
    method Search(query: Option<string>, outcome: SearchOutcome) returns (requested: Option<string>)
      modifies this
      ensures requested.None? <==> Trim(query.GetOr(old(q))) == ""
      ensures requested.None? ==> && loading == old(loading) && results == old(results) && error == old(error)
                                  && pushed == old(pushed)
      ensures requested.Some? ==> requested.value == Trim(query.GetOr(old(q)))
                                  && Searched(requested.value, outcome, old(pushed))
      ensures q == old(q) && homeLoading == old(homeLoading) && homeRows == old(homeRows)
    {
      var q0 := q;
      var finalQuery := Trim(query.GetOr(q0));
      if finalQuery == "" {
        return None;
      }
      requested := Some(finalQuery);
      RunSearch(finalQuery, outcome);
    }

    /**
     * The page after searching for `finalQuery`: one more navigation, the
     * de-duplicated results of an ok reply, or no results and the error text
     * of a failed reply or a thrown error; `loading` is false either way.
     */
    ghost predicate Searched(finalQuery: string, outcome: SearchOutcome, pushed0: seq<string>)
      reads this`pushed, this`loading, this`results, this`error
    {
      && pushed == pushed0 + [finalQuery]
      && !loading
      && (outcome.SearchThrew? ==> results == [] && error == MsgSearchThrew)
      && (outcome.SearchReply? && !outcome.ok ==> results == [] && error == ErrorText(outcome.error, MsgSearchFailed))
      && (outcome.SearchReply? && outcome.ok ==> results == Dedup(outcome.search.GetOr([])) && error == "")
    }

    /** The body of `search` past the blank-query guard. */
    method RunSearch(finalQuery: string, outcome: SearchOutcome)
      modifies this
      ensures Searched(finalQuery, outcome, old(pushed))
      ensures q == old(q) && homeLoading == old(homeLoading) && homeRows == old(homeRows)
    {
      pushed := pushed + [finalQuery];
      loading := true;
      error := "";
      match outcome {
        case SearchThrew =>
          results := [];
          error := MsgSearchThrew;
        case SearchReply(ok, err, search) =>
          if !ok {
            results := [];
            error := ErrorText(err, MsgSearchFailed);
          } else {
            results := Dedup(search.GetOr([]));
          }
      }
      loading := false;
    }

    /**
     * The URL-change effect, run whenever `urlQ` (the trimmed `q` parameter,
     * `UrlQuery`) changes: the input takes it, and a non-empty one is searched
     * at once (navigating to the same query again).
     */
    method OnUrlChange(urlQ: string, outcome: SearchOutcome) returns (requested: Option<string>)
      requires IsTrimmed(urlQ)
      modifies this
      ensures q == urlQ
      ensures requested == if urlQ == "" then None else Some(urlQ)
      ensures requested.None? ==> && loading == old(loading) && results == old(results) && error == old(error)
                                  && pushed == old(pushed)
      ensures requested.Some? ==> Searched(urlQ, outcome, old(pushed))
      ensures homeLoading == old(homeLoading) && homeRows == old(homeRows)
    {
      q := urlQ;
      if urlQ == "" {
        return None;
      }
      TrimOfTrimmed(urlQ);
      requested := Search(Some(urlQ), outcome);
    }

    /**
     * The home-rows effect: with a non-empty URL query it does nothing;
     * otherwise every row's title maps to the row built from its lookups.
     */
    method LoadHomeRows(urlQ: string, lookup: string -> LookupReply)
      modifies this
      ensures urlQ != "" ==> unchanged(this)
      ensures urlQ == "" ==> homeRows.Keys == (set i | 0 <= i < |Rows| :: Rows[i].title) && !homeLoading
      ensures urlQ == "" ==> forall i | 0 <= i < |Rows| :: homeRows[Rows[i].title] == HomeRow(Rows[i].ids, lookup)
      ensures q == old(q) && loading == old(loading) && results == old(results) && error == old(error)
      ensures pushed == old(pushed)
    {
      if urlQ != "" {
        return;
      }
      homeLoading := true;
      RowTitlesDistinct();
      var rowData := FillRows(Rows, lookup);
      homeRows := rowData;
      homeLoading := false;
    }
  }
}
