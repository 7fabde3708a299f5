/** The parts of a PostgREST query the components use: `ilike` patterns, `order(...)`, `limit(n)`,
    and the `.select('make').order('make')` list of makes. */
module Query {
  import opened Wrappers
  import opened Text
  import opened Collections
  import opened Schema

  // ----- ILIKE -------------------------------------------------------------------------------

  /** A character that the pattern matcher treats specially: `%` and its PostgREST alias `*`
      match any run of characters, `_` matches any one character. */
  predicate IsWildcard(c: char) {
    c == '%' || c == '*' || c == '_'
  }

  /** The LIKE match of the whole of `s` against pattern `p`. */
  predicate LikeMatch(p: string, s: string)
    decreases |p| + |s|
  {
    if p == [] then s == []
    else if p[0] == '%' || p[0] == '*' then LikeMatch(p[1..], s) || (s != [] && LikeMatch(p, s[1..]))
    else s != [] && (p[0] == '_' || p[0] == s[0]) && LikeMatch(p[1..], s[1..])
  }

  /** `column ILIKE pattern`, with ASCII case folding of both sides. */
  predicate ILike(s: string, p: string) {
    LikeMatch(Lower(p), Lower(s))
  }

  /** A search term with no wildcard character and no backslash (LIKE's default escape), which
      `ilike.%term%` matches literally. */
  predicate LiteralTerm(t: string) {
    forall i :: 0 <= i < |t| ==> !IsWildcard(t[i]) && t[i] != '\\'
  }

  lemma {:induction false} LikeAnyMatchesAll(s: string)
    ensures LikeMatch("%", s)
    decreases |s|
  {
    if s != [] {
      LikeAnyMatchesAll(s[1..]);
    }
  }

  /** A literal pattern followed by `%` matches exactly the strings it is a prefix of. */
  lemma {:induction false} LikePrefix(t: string, u: string)
    requires LiteralTerm(t)
    ensures LikeMatch(t + "%", u) <==> |t| <= |u| && u[..|t|] == t
    decreases |t|
  {
    if t == [] {
      assert t + "%" == "%";
      LikeAnyMatchesAll(u);
    } else {
      assert (t + "%")[0] == t[0];
      assert (t + "%")[1..] == t[1..] + "%";
      if u != [] {
        LikePrefix(t[1..], u[1..]);
        assert |t| <= |u| && u[..|t|] == t <==> t[0] == u[0] && |t[1..]| <= |u[1..]| && u[1..][..|t[1..]|] == t[1..] by {
          if |t| <= |u| && u[..|t|] == t {
            assert u[1..][..|t[1..]|] == u[..|t|][1..];
          }
          if t[0] == u[0] && |t[1..]| <= |u[1..]| && u[1..][..|t[1..]|] == t[1..] {
            assert u[..|t|] == [u[0]] + u[1..][..|t[1..]|];
            assert t == [t[0]] + t[1..];
          }
        }
      }
    }
  }

  /** A leading `%` lets the rest of the pattern match any suffix. */
  lemma {:induction false} LikeLeadingAny(q: string, s: string)
    ensures LikeMatch("%" + q, s) <==> exists i | 0 <= i <= |s| :: LikeMatch(q, s[i..])
    decreases |s|
  {
    var p := "%" + q;
    assert p[0] == '%' && p[1..] == q;
    if s == [] {
      assert s[0..] == s;
    } else {
      LikeLeadingAny(q, s[1..]);
      if LikeMatch(p, s) {
        if LikeMatch(q, s) {
          assert s[0..] == s;
        } else {
          var j :| 0 <= j <= |s[1..]| && LikeMatch(q, s[1..][j..]);
          assert s[1..][j..] == s[j + 1..];
        }
      }
      if exists i | 0 <= i <= |s| :: LikeMatch(q, s[i..]) {
        var i :| 0 <= i <= |s| && LikeMatch(q, s[i..]);
        if i == 0 {
          assert s[0..] == s;
        } else {
          assert s[1..][i - 1..] == s[i..];
        }
      }
    }
  }

  /** For a literal term, `ilike.%term%` is case-insensitive substring search. */
  lemma LikeContains(t: string, s: string)
    requires LiteralTerm(t)
    ensures LikeMatch("%" + t + "%", s) <==> Contains(s, t)
  {
    assert "%" + t + "%" == "%" + (t + "%");
    LikeLeadingAny(t + "%", s);
    forall i | 0 <= i <= |s|
      ensures LikeMatch(t + "%", s[i..]) <==> OccursAt(s, t, i)
    {
      LikePrefix(t, s[i..]);
      if |t| <= |s[i..]| {
        assert s[i..][..|t|] == s[i..i + |t|];
      }
    }
  }

  lemma LowerLiteral(t: string)
    requires LiteralTerm(t)
    ensures LiteralTerm(Lower(t))
  {
  }

  /** The `ilike` filter of the search box, `column.ilike.%term%`, matches exactly the columns that
      contain the term, ignoring ASCII case, whenever the term holds no wildcard. */
  lemma ILikeIsSubstring(column: string, t: string)
    requires LiteralTerm(t)
    ensures ILike(column, "%" + t + "%") <==> Contains(Lower(column), Lower(t))
  {
    LowerAppend("%" + t, "%");
    LowerAppend("%", t);
    assert Lower("%") == "%";
    LowerLiteral(t);
    LikeContains(Lower(t), Lower(column));
  }

  // ----- order('created_at', { ascending: false }) ------------------------------------------

  predicate NewestFirst(s: seq<Row>) {
    forall i, j :: 0 <= i < j < |s| ==> s[i].createdAt >= s[j].createdAt
  }

  /** A row at least as new as every row of a newest-first list can go in front of it. */
  lemma PrependNewest(x: Row, s: seq<Row>)
    requires NewestFirst(s)
    requires forall j :: 0 <= j < |s| ==> s[j].createdAt <= x.createdAt
    ensures NewestFirst([x] + s)
  {
    var res := [x] + s;
    assert forall j :: 0 < j < |res| ==> res[j] == s[j - 1];
  }

  /** A bound on every row of two pieces bounds every row of a list made of them. */
  lemma NewestBound(res: seq<Row>, t: seq<Row>, r: Row, c: int)
    requires multiset(res) == multiset(t) + multiset{r}
    requires r.createdAt <= c && forall j :: 0 <= j < |t| ==> t[j].createdAt <= c
    ensures forall j :: 0 <= j < |res| ==> res[j].createdAt <= c
  {
    forall j | 0 <= j < |res| ensures res[j].createdAt <= c {
      assert res[j] in multiset(res);
      if res[j] != r {
        assert res[j] in multiset(t);
        var k :| 0 <= k < |t| && t[k] == res[j];
      }
    }
  }

  function InsertNewest(r: Row, s: seq<Row>): (res: seq<Row>)
    requires NewestFirst(s)
    ensures NewestFirst(res)
    ensures multiset(res) == multiset(s) + multiset{r} && |res| == |s| + 1
  {
    if s == [] || r.createdAt >= s[0].createdAt then
      PrependNewest(r, s);
      [r] + s
    else
      var rest := InsertNewest(r, s[1..]);
      assert s == [s[0]] + s[1..];
      NewestBound(rest, s[1..], r, s[0].createdAt);
      PrependNewest(s[0], rest);
      [s[0]] + rest
  }

  /** The rows in newest-first order; rows with equal `created_at` may come in any order in
      PostgreSQL, and nothing below depends on the order this function gives them. */
  function OrderByCreatedDesc(s: seq<Row>): (res: seq<Row>)
    ensures NewestFirst(res)
    ensures multiset(res) == multiset(s) && |res| == |s|
  {
    if s == [] then []
    else
      assert s == [s[0]] + s[1..];
      InsertNewest(s[0], OrderByCreatedDesc(s[1..]))
  }

  /** In a newest-first list, every row of a prefix is at least as new as every row outside it. */
  lemma PrefixIsNewest(s: seq<Row>, k: nat, r: Row, o: Row)
    requires NewestFirst(s) && k <= |s|
    requires r in s[..k] && o in s && o !in s[..k]
    ensures r.createdAt >= o.createdAt
  {
    var i :| 0 <= i < k && s[..k][i] == r;
    var j :| 0 <= j < |s| && s[j] == o;
  }

  /** `.limit(n)`: at most the first `n` rows. */
  function Limit<T>(s: seq<T>, n: nat): (r: seq<T>)
    ensures |r| == if |s| < n then |s| else n
    ensures r == s[..|r|]
  {
    if |s| < n then s else s[..n]
  }

  /** The first `n` rows of a newest-first ordering of `v` are newest first, come from `v`, and are
      each at least as new as every row of `v` left out. */
  lemma LimitOfNewest(v: seq<Row>, s: seq<Row>, n: nat)
    requires NewestFirst(s) && multiset(s) == multiset(v)
    ensures NewestFirst(Limit(s, n))
    ensures multiset(Limit(s, n)) <= multiset(v)
    ensures forall r, o :: r in Limit(s, n) && o in v && o !in Limit(s, n) ==> r.createdAt >= o.createdAt
  {
    var top := Limit(s, n);
    assert s == top + s[|top|..];
    forall r, o | r in top && o in v && o !in top
      ensures r.createdAt >= o.createdAt
    {
      assert o in multiset(v);
      PrefixIsNewest(s, |top|, r, o);
    }
  }

  // ----- .select('make').order('make') ------------------------------------------------------

  predicate Ascending(s: seq<string>) {
    forall i, j :: 0 <= i < j < |s| ==> LexLe(s[i], s[j])
  }

  predicate StrictlyAscending(s: seq<string>) {
    forall i, j :: 0 <= i < j < |s| ==> LexLt(s[i], s[j])
  }

  /** A string below or equal to every string of an ascending list can go in front of it. */
  lemma PrependAscending(x: string, s: seq<string>)
    requires Ascending(s)
    requires forall j :: 0 <= j < |s| ==> LexLe(x, s[j])
    ensures Ascending([x] + s)
  {
    var res := [x] + s;
    assert forall j :: 0 < j < |res| ==> res[j] == s[j - 1];
  }

  /** A lower bound on every string of two pieces bounds every string of a list made of them. */
  lemma AscendingBound(res: seq<string>, t: seq<string>, m: string, c: string)
    requires multiset(res) == multiset(t) + multiset{m}
    requires LexLe(c, m) && forall j :: 0 <= j < |t| ==> LexLe(c, t[j])
    ensures forall j :: 0 <= j < |res| ==> LexLe(c, res[j])
  {
    forall j | 0 <= j < |res| ensures LexLe(c, res[j]) {
      assert res[j] in multiset(res);
      if res[j] != m {
        assert res[j] in multiset(t);
        var k :| 0 <= k < |t| && t[k] == res[j];
      }
    }
  }

  function InsertAscending(m: string, s: seq<string>): (res: seq<string>)
    requires Ascending(s)
    ensures Ascending(res)
    ensures multiset(res) == multiset(s) + multiset{m}
  {
    if s == [] || LexLe(m, s[0]) then
      assert forall j :: 0 <= j < |s| ==> LexLe(m, s[j]) by {
        forall j | 0 < j < |s| ensures LexLe(m, s[j]) { LexLeTransitive(m, s[0], s[j]); }
      }
      PrependAscending(m, s);
      [m] + s
    else
      LexLeTotal(m, s[0]);
      var rest := InsertAscending(m, s[1..]);
      assert s == [s[0]] + s[1..];
      AscendingBound(rest, s[1..], m, s[0]);
      PrependAscending(s[0], rest);
      [s[0]] + rest
  }

  /** The strings in ascending code-point order. */
  function OrderAscending(s: seq<string>): (res: seq<string>)
    ensures Ascending(res)
    ensures multiset(res) == multiset(s)
  {
    if s == [] then []
    else
      assert s == [s[0]] + s[1..];
      InsertAscending(s[0], OrderAscending(s[1..]))
  }

  /** The `make` column of each row. */
  function Makes(rows: seq<Row>): (ms: seq<string>)
    ensures |ms| == |rows|
    ensures forall i :: 0 <= i < |rows| ==> ms[i] == rows[i].make
  {
    seq(|rows|, i requires 0 <= i < |rows| => rows[i].make)
  }

  /** `.from('cars').select('make').order('make')` as `caller`. */
  function MakesQuery(rows: seq<Row>, caller: Option<Uid>): (ms: seq<string>)
    ensures Ascending(ms)
    ensures forall m :: m in ms <==> exists r :: r in rows && Owns(caller, r) && r.make == m
  {
    var v := Visible(rows, caller);
    var ms := OrderAscending(Makes(v));
    assert forall m :: m in ms <==> m in Makes(v) by {
      forall m ensures m in ms <==> m in Makes(v) { assert m in multiset(ms) <==> m in multiset(Makes(v)); }
    }
    assert forall m :: m in Makes(v) <==> exists r :: r in v && r.make == m by {
      forall m ensures m in Makes(v) <==> exists r :: r in v && r.make == m {
        if m in Makes(v) {
          var i :| 0 <= i < |v| && Makes(v)[i] == m;
          assert v[i] in v;
        }
        if exists r :: r in v && r.make == m {
          var r :| r in v && r.make == m;
          var i :| 0 <= i < |v| && v[i] == r;
          assert Makes(v)[i] == m;
        }
      }
    }
    ms
  }

  /** Removing repeated values from an ascending list leaves a strictly ascending one:
      `[...new Set(makes)]` over the `order('make')` result. */
  lemma {:induction false} DistinctOfAscending(s: seq<string>)
    requires Ascending(s)
    ensures StrictlyAscending(Distinct(s))
    decreases |s|
  {
    if s != [] {
      var init := s[..|s| - 1];
      var last := s[|s| - 1];
      assert Ascending(init);
      DistinctOfAscending(init);
      var d := Distinct(init);
      if last !in d {
        forall i | 0 <= i < |d| ensures LexLt(d[i], last) {
          assert d[i] in init;
          var k :| 0 <= k < |init| && init[k] == d[i];
          assert LexLe(s[k], s[|s| - 1]);
        }
        assert Distinct(s) == d + [last];
      }
    }
  }

  /** `[...new Set(data.map(car => car.make))]` over the makes query: strictly ascending, hence
      free of repeats, and holding exactly the makes of the caller's rows. */
  function UniqueMakes(rows: seq<Row>, caller: Option<Uid>): (ms: seq<string>)
    ensures StrictlyAscending(ms)
    ensures NoDuplicates(ms)
    ensures forall m :: m in ms <==> exists r :: r in rows && Owns(caller, r) && r.make == m
  {
    var sorted := MakesQuery(rows, caller);
    DistinctOfAscending(sorted);
    Distinct(sorted)
  }
}
