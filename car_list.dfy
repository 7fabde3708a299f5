/** src/components/CarList.jsx: the filtered, newest-first list of the caller's cars, the list of
    makes for the filter box, and delete-then-refetch. */
module CarList {
  import opened Wrappers
  import opened Text
  import opened Collections
  import opened Schema
  import opened Query

  /** The `.or(...)` filter of the search box: `car_id`, `make` or `model` ILIKE `%term%`.
      An empty term adds no filter. */
  predicate MatchesSearch(r: Row, term: string) {
    var pattern := "%" + term + "%";
    term == "" || ILike(r.carId, pattern) || ILike(r.make, pattern) || ILike(r.model, pattern)
  }

  /** The `.eq('make', filterMake)` filter; an empty make adds no filter. */
  predicate MatchesMake(r: Row, make: string) {
    make == "" || r.make == make
  }

  /** The whole `WHERE` clause of `fetchCars` as PostgreSQL evaluates it for `caller`:
      the SELECT policy AND the search filter AND the make filter. */
  function Criteria(caller: Option<Uid>, term: string, make: string): Row -> bool {
    (r: Row) => Owns(caller, r) && MatchesSearch(r, term) && MatchesMake(r, make)
  }

  /** The rows `fetchCars` receives. */
  function ListCars(rows: seq<Row>, caller: Option<Uid>, term: string, make: string): (cars: seq<Row>)
    ensures NewestFirst(cars)
    ensures multiset(cars) == multiset(Filter(rows, Criteria(caller, term, make)))
    ensures forall r :: r in cars <==>
      r in rows && Owns(caller, r) && MatchesSearch(r, term) && MatchesMake(r, make)
  {
    var matching := Filter(rows, Criteria(caller, term, make));
    var cars := OrderByCreatedDesc(matching);
    assert forall r :: r in cars <==> r in matching by {
      forall r ensures r in cars <==> r in matching { assert r in multiset(cars) <==> r in multiset(matching); }
    }
    cars
  }

  /** With a search term that holds no wildcard, a row is listed iff one of its three text columns
      contains the term, ignoring ASCII case, and it passes the make filter. */
  lemma SearchIsSubstring(rows: seq<Row>, caller: Option<Uid>, term: string, make: string, r: Row)
    requires term != "" && LiteralTerm(term)
    ensures r in ListCars(rows, caller, term, make) <==>
      && r in rows && Owns(caller, r)
      && (|| Contains(Lower(r.carId), Lower(term))
          || Contains(Lower(r.make), Lower(term))
          || Contains(Lower(r.model), Lower(term)))
      && MatchesMake(r, make)
  {
    ILikeIsSubstring(r.carId, term);
    ILikeIsSubstring(r.make, term);
    ILikeIsSubstring(r.model, term);
  }

  /** With no search term and no make, the list holds every visible row. */
  lemma NoFilterListsAll(rows: seq<Row>, caller: Option<Uid>)
    ensures multiset(ListCars(rows, caller, "", "")) == multiset(Visible(rows, caller))
  {
    FilterEquivalent(rows, Criteria(caller, "", ""), (r: Row) => Owns(caller, r));
  }

  /** After a delete the refreshed list never shows the deleted id, whatever the filters. */
  lemma DeletedIdNotListed(rows: seq<Row>, caller: Option<Uid>, id: RowId, term: string, make: string)
    requires WellFormed(rows)
    ensures forall r :: r in ListCars(DeleteRows(rows, caller, id).rows, caller, term, make) ==> r.id != id
  {
    var after := DeleteRows(rows, caller, id).rows;
    forall r | r in ListCars(after, caller, term, make) ensures r.id != id {
      assert r in after && Owns(caller, r);
      assert !IsTarget(caller, id, r);
    }
  }

  /** The state of the list page. */
  class Page {
    var cars: seq<Row>
    var makes: seq<string>
    var searchTerm: string
    var filterMake: string
    var loading: bool

    constructor ()
      ensures cars == [] && makes == [] && searchTerm == "" && filterMake == "" && loading
    {
      cars, makes, searchTerm, filterMake, loading := [], [], "", "", true;
    }

    /** `fetchCars`, also run by the search and filter buttons. */
    method FetchCars(table: CarsTable, caller: Option<Uid>)
      modifies this
      ensures cars == ListCars(table.rows, caller, searchTerm, filterMake)
      ensures !loading
      ensures makes == old(makes) && searchTerm == old(searchTerm) && filterMake == old(filterMake)
    {
      cars := ListCars(table.rows, caller, searchTerm, filterMake);
      loading := false;
    }

    /** `fetchMakes`. */
    method FetchMakes(table: CarsTable, caller: Option<Uid>)
      modifies this`makes
      ensures makes == UniqueMakes(table.rows, caller)
    {
      makes := UniqueMakes(table.rows, caller);
    }

    /** `deleteCar`: nothing happens unless the confirmation is accepted; then the row is deleted
        and the list is fetched again, so the id is no longer listed. */
    method DeleteCar(table: CarsTable, caller: Option<Uid>, id: RowId, confirmed: bool)
      requires table.Valid()
      modifies this, table
      ensures table.Valid()
      ensures !confirmed ==> table.rows == old(table.rows) && cars == old(cars) && loading == old(loading)
      ensures confirmed ==> table.rows == DeleteRows(old(table.rows), caller, id).rows
      ensures confirmed ==> cars == ListCars(table.rows, caller, searchTerm, filterMake) && !loading
      ensures confirmed ==> forall r :: r in cars ==> r.id != id
      ensures makes == old(makes) && searchTerm == old(searchTerm) && filterMake == old(filterMake)
    {
      if !confirmed {
        return;
      }
      ghost var before := table.rows;
      var result := table.Delete(caller, id);
      FetchCars(table, caller);
      DeletedIdNotListed(before, caller, id, searchTerm, filterMake);
    }
  }
}
