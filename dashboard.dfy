/** src/components/Dashboard.jsx: the three figures of the dashboard, computed from three queries
    and written once with `setStats`. */
module Dashboard {
  import opened Wrappers
  import opened Text
  import opened Collections
  import opened Schema
  import opened Query

  /** How many rows "Recent Additions" shows (`.limit(5)`). */
  const RecentLimit := 5

  datatype Stats = Stats(totalCars: nat, recentCars: seq<Row>, makes: seq<string>)

  /** The `setStats` call: a query that gave no data falls back to 0 or to an empty list. */
  function Summarize(count: Option<nat>, recent: Option<seq<Row>>, makeRows: Option<seq<string>>): (s: Stats)
    ensures count.None? ==> s.totalCars == 0
    ensures count.Some? ==> s.totalCars == count.value
    ensures recent.None? ==> s.recentCars == []
    ensures recent.Some? ==> s.recentCars == recent.value
    ensures makeRows.None? ==> s.makes == []
    ensures makeRows.Some? ==> forall m :: m in s.makes <==> m in makeRows.value
    ensures NoDuplicates(s.makes)
  {
    Stats(count.GetOr(0), recent.GetOr([]), Distinct(makeRows.GetOr([])))
  }

  /** `.select('*').order('created_at', { ascending: false }).limit(5)` as `caller`: the
      min(5, n) newest of the caller's n rows, newest first. */
  function RecentCars(rows: seq<Row>, caller: Option<Uid>): (recent: seq<Row>)
    ensures |recent| == if |Visible(rows, caller)| < RecentLimit then |Visible(rows, caller)| else RecentLimit
    ensures NewestFirst(recent)
    ensures multiset(recent) <= multiset(Visible(rows, caller))
    ensures forall r, o :: r in recent && o in Visible(rows, caller) && o !in recent ==>
      r.createdAt >= o.createdAt
  {
    var v := Visible(rows, caller);
    var sorted := OrderByCreatedDesc(v);
    LimitOfNewest(v, sorted, RecentLimit);
    Limit(sorted, RecentLimit)
  }

  /** `fetchDashboardData` as `caller`: the exact count, the five newest rows and the distinct
      makes; every query returns data, so no fallback applies. */
  function DashboardData(rows: seq<Row>, caller: Option<Uid>): (s: Stats)
    ensures s.totalCars == |Visible(rows, caller)|
    ensures s.recentCars == RecentCars(rows, caller)
    ensures StrictlyAscending(s.makes)
    ensures forall m :: m in s.makes <==> exists r :: r in rows && Owns(caller, r) && r.make == m
  {
    var makeRows := MakesQuery(rows, caller);
    DistinctOfAscending(makeRows);
    Summarize(Some(|Visible(rows, caller)|), Some(RecentCars(rows, caller)), Some(makeRows))
  }

  /** The "Unique Makes" figure is the number of different makes among the caller's rows. */
  lemma UniqueMakesFigure(rows: seq<Row>, caller: Option<Uid>)
    ensures |DashboardData(rows, caller).makes| == |set r | r in Visible(rows, caller) :: r.make|
  {
    var ms := DashboardData(rows, caller).makes;
    var v := Visible(rows, caller);
    assert NoDuplicates(ms) by {
      forall i, j | 0 <= i < j < |ms| ensures ms[i] != ms[j] {
        assert LexLt(ms[i], ms[j]);
      }
    }
    var b := set r | r in v :: r.make;
    forall m ensures m in ms <==> m in b {
      if m in ms {
        var r :| r in rows && Owns(caller, r) && r.make == m;
        assert r in v;
      }
      if m in b {
        var r :| r in v && r.make == m;
        assert r in rows && Owns(caller, r);
      }
    }
    ListingCardinality(ms, b);
  }
}
