/**
 * The `apps` table of the registry database: one row per launcher
 * basename, with an auto-incremented id. The table is a value (`Table`)
 * for specifications and a `Database` object whose methods change it in
 * place, as the SQLite connection does.
 */
module Registry {
  import opened Options
  import opened Text
  import opened Files

  /** The fields `_parse_and_store` hands to `upsert_app`. */
  datatype AppData = AppData(
    basename: string,
    fullPath: FilePath,
    appName: string,
    appComment: Option<string>,
    appExec: Option<string>,
    isCustomized: bool)

  /** One row of the `apps` table; `id` is the INTEGER PRIMARY KEY AUTOINCREMENT column. */
  datatype AppRow = AppRow(
    id: nat,
    basename: string,
    fullPath: FilePath,
    appName: string,
    appComment: Option<string>,
    appExec: Option<string>,
    isCustomized: bool)

  /** The table keyed by its UNIQUE `basename` column, and the next id AUTOINCREMENT hands out. */
  datatype Table = Table(rows: map<string, AppRow>, nextId: nat)

  /** Every row sits under its own basename, and ids are unique and already handed out. */
  ghost predicate WellFormed(t: Table) {
    && (forall b :: b in t.rows ==> t.rows[b].basename == b && t.rows[b].id < t.nextId)
    && (forall b, c :: b in t.rows && c in t.rows && b != c ==> t.rows[b].id != t.rows[c].id)
  }

  /** The row carries exactly the fields an upsert of `d` writes. */
  predicate Carries(r: AppRow, d: AppData) {
    && r.basename == d.basename
    && r.fullPath == d.fullPath
    && r.appName == d.appName
    && r.appComment == d.appComment
    && r.appExec == d.appExec
    && r.isCustomized == d.isCustomized
  }

  /** The two rows agree on everything but `is_customized`. */
  predicate SameButStatus(r: AppRow, s: AppRow) {
    r.(isCustomized := s.isCustomized) == s
  }

  /**
   * `INSERT ... ON CONFLICT(basename) DO UPDATE SET ...`: a new basename gets
   * a fresh id; an existing one keeps its id and has every other column overwritten.
   */
  function Upsert(t: Table, d: AppData): (t': Table)
    ensures WellFormed(t) ==> WellFormed(t')
    ensures t'.rows.Keys == t.rows.Keys + {d.basename}
    ensures Carries(t'.rows[d.basename], d)
    ensures d.basename in t.rows ==> t'.rows[d.basename].id == t.rows[d.basename].id
    ensures d.basename in t.rows ==> t'.nextId == t.nextId
    ensures d.basename !in t.rows ==> t'.nextId > t.nextId && t'.rows[d.basename].id == t.nextId
    ensures forall b :: b in t.rows && b != d.basename ==> t'.rows[b] == t.rows[b]
  {
    var b := d.basename;
    var id := if b in t.rows then t.rows[b].id else t.nextId;
    var n := if b in t.rows then t.nextId else t.nextId + 1;
    var t' := Table(t.rows[b := AppRow(id, b, d.fullPath, d.appName, d.appComment, d.appExec, d.isCustomized)], n);
    assert WellFormed(t) ==> WellFormed(t') by {
      if WellFormed(t) { WellFormedAfterPut(t, t'.rows[b], n); }
    }
    assert t'.rows.Keys == t.rows.Keys + {b};
    t'
  }

  /** A new basename adds exactly one row; an existing one leaves the row count as it was. */
  lemma UpsertRowCount(t: Table, d: AppData)
    ensures |Upsert(t, d).rows| == if d.basename in t.rows then |t.rows| else |t.rows| + 1
  {
    var t' := Upsert(t, d);
    if d.basename in t.rows {
      assert t'.rows.Keys == t.rows.Keys;
    } else {
      assert t'.rows.Keys == t.rows.Keys + {d.basename};
    }
  }

  /** Putting a row under its own basename keeps the table well formed when its id is not another row's. */
  lemma WellFormedAfterPut(t: Table, r: AppRow, n: nat)
    requires WellFormed(t)
    requires t.nextId <= n && r.id < n
    requires r.basename in t.rows ==> r.id == t.rows[r.basename].id
    requires r.basename !in t.rows ==> r.id == t.nextId
    ensures WellFormed(Table(t.rows[r.basename := r], n))
  {
  }

  /** `UPDATE apps SET is_customized = v WHERE basename = b`: a no-op when no row has that basename. */
  function SetStatus(t: Table, b: string, v: bool): (t': Table)
    ensures WellFormed(t) ==> WellFormed(t')
    ensures t'.rows.Keys == t.rows.Keys && t'.nextId == t.nextId
    ensures b in t.rows ==> t'.rows[b].isCustomized == v && SameButStatus(t'.rows[b], t.rows[b])
    ensures forall c :: c in t.rows && c != b ==> t'.rows[c] == t.rows[c]
    ensures b !in t.rows ==> t' == t
  {
    if b in t.rows then Table(t.rows[b := t.rows[b].(isCustomized := v)], t.nextId) else t
  }

  /** A value of the table sits under its own basename. */
  lemma RowOfValue(t: Table, x: AppRow)
    requires WellFormed(t)
    requires x in t.rows.Values
    ensures x.basename in t.rows && t.rows[x.basename] == x
  {
    var b :| b in t.rows && t.rows[b] == x;
  }

  // ---------------------------------------------------------------------------
  // The listing order: `ORDER BY app_name COLLATE NOCASE`, ties in rowid order.

  predicate RowLess(x: AppRow, y: AppRow) {
    || LexLess(Fold(x.appName), Fold(y.appName))
    || (Fold(x.appName) == Fold(y.appName) && x.id < y.id)
  }

  lemma RowLessIrreflexive(x: AppRow)
    ensures !RowLess(x, x)
  {
    LexLessIrreflexive(Fold(x.appName));
  }

  lemma RowLessTransitive(x: AppRow, y: AppRow, z: AppRow)
    requires RowLess(x, y) && RowLess(y, z)
    ensures RowLess(x, z)
  {
    var a, b, c := Fold(x.appName), Fold(y.appName), Fold(z.appName);
    if LexLess(a, b) && LexLess(b, c) { LexLessTransitive(a, b, c); }
  }

  lemma RowLessTotal(x: AppRow, y: AppRow)
    requires x.id != y.id
    ensures RowLess(x, y) || RowLess(y, x)
  {
    if Fold(x.appName) != Fold(y.appName) { LexLessTotal(Fold(x.appName), Fold(y.appName)); }
  }

  lemma RowLessAsymmetric(x: AppRow, y: AppRow)
    requires RowLess(x, y)
    ensures !RowLess(y, x)
  {
    if RowLess(y, x) {
      RowLessTransitive(x, y, x);
      RowLessIrreflexive(x);
    }
  }

  ghost predicate StrictlySorted(s: seq<AppRow>) {
    forall i, j :: 0 <= i < j < |s| ==> RowLess(s[i], s[j])
  }

  ghost predicate DistinctIds(S: set<AppRow>) {
    forall x, y :: x in S && y in S && x != y ==> x.id != y.id
  }

  /** Insertion of a row into a sorted listing at its place. */
  function Insert(s: seq<AppRow>, x: AppRow): (r: seq<AppRow>)
    requires StrictlySorted(s)
    requires forall y :: y in s ==> y.id != x.id
    ensures StrictlySorted(r)
    ensures forall y :: y in r <==> y in s || y == x
    ensures |r| == |s| + 1
  {
    if s == [] then [x]
    else if RowLess(x, s[0]) then
      forall j | 0 <= j < |s| ensures RowLess(x, s[j]) {
        if j > 0 { RowLessTransitive(x, s[0], s[j]); }
      }
      [x] + s
    else
      RowLessTotal(x, s[0]);
      var rest := Insert(s[1..], x);
      assert forall y :: y in rest ==> RowLess(s[0], y) by {
        forall y | y in rest ensures RowLess(s[0], y) {
          if y != x { var j :| 0 <= j < |s[1..]| && s[1..][j] == y; assert s[j + 1] == y; }
        }
      }
      [s[0]] + rest
  }

  /** Some sorted sequence holding exactly the rows of `S`. */
  ghost function SortedOf(S: set<AppRow>): (r: seq<AppRow>)
    requires DistinctIds(S)
    ensures StrictlySorted(r)
    ensures forall y :: y in r <==> y in S
    decreases S
  {
    if S == {} then []
    else
      var x :| x in S;
      Insert(SortedOf(S - {x}), x)
  }

  lemma ValuesHaveDistinctIds(t: Table)
    requires WellFormed(t)
    ensures DistinctIds(t.rows.Values)
  {
    forall x, y | x in t.rows.Values && y in t.rows.Values && x != y ensures x.id != y.id {
      RowOfValue(t, x);
      RowOfValue(t, y);
    }
  }

  /** What `SELECT * FROM apps ORDER BY app_name COLLATE NOCASE` returns. */
  ghost function Listing(t: Table): (r: seq<AppRow>)
    requires WellFormed(t)
    ensures StrictlySorted(r)
    ensures forall y :: y in r <==> y in t.rows.Values
  {
    ValuesHaveDistinctIds(t);
    SortedOf(t.rows.Values)
  }

  lemma HeadIsMember(s: seq<AppRow>)
    requires s != []
    ensures s[0] in s
  {
  }

  /** A sorted listing is fixed by the rows it holds. */
  lemma {:induction false} SortedUnique(a: seq<AppRow>, b: seq<AppRow>)
    requires StrictlySorted(a) && StrictlySorted(b)
    requires forall y :: y in a <==> y in b
    ensures a == b
    decreases |a|
  {
    if a == [] {
      if b != [] {
        HeadIsMember(b);
        assert false;
      }
    } else if b == [] {
      HeadIsMember(a);
      assert false;
    } else {
      if a[0] != b[0] {
        assert a[0] in b;
        var i :| 0 <= i < |b| && b[i] == a[0];
        assert b[0] in a;
        var j :| 0 <= j < |a| && a[j] == b[0];
        RowLessAsymmetric(a[0], b[0]);
        assert false;
      }
      forall y ensures y in a[1..] <==> y in b[1..] {
        if y in a[1..] {
          var k :| 1 <= k < |a| && a[k] == y;
          RowLessIrreflexive(a[0]);
          assert y in b && y != b[0];
          var m :| 0 <= m < |b| && b[m] == y;
          assert y == b[1..][m - 1];
        }
        if y in b[1..] {
          var k :| 1 <= k < |b| && b[k] == y;
          RowLessIrreflexive(b[0]);
          assert y in a && y != a[0];
          var m :| 0 <= m < |a| && a[m] == y;
          assert y == a[1..][m - 1];
        }
      }
      SortedUnique(a[1..], b[1..]);
      assert a == [a[0]] + a[1..] && b == [b[0]] + b[1..];
    }
  }

  // ---------------------------------------------------------------------------
  // `SELECT * FROM apps WHERE app_name LIKE '%q%' LIMIT 1`: a full scan in rowid order.

  /** `r` is the first row, in rowid order, whose name contains `q` (or `None` when none does). */
  ghost predicate IsFirstMatch(t: Table, q: string, r: Option<AppRow>) {
    match r
    case None => forall b :: b in t.rows ==> !LikeContains(t.rows[b].appName, q)
    case Some(x) =>
      && x.basename in t.rows && t.rows[x.basename] == x
      && LikeContains(x.appName, q)
      && forall b :: b in t.rows && LikeContains(t.rows[b].appName, q) ==> x.id <= t.rows[b].id
  }

  lemma FirstMatchUnique(t: Table, q: string, r: Option<AppRow>, s: Option<AppRow>)
    requires WellFormed(t)
    requires IsFirstMatch(t, q, r) && IsFirstMatch(t, q, s)
    ensures r == s
  {
  }

  /** The first match among the basenames in `keys`. */
  ghost function FirstMatchAmong(rows: map<string, AppRow>, keys: set<string>, q: string): (r: Option<string>)
    requires keys <= rows.Keys
    ensures r.None? ==> forall b :: b in keys ==> !LikeContains(rows[b].appName, q)
    ensures r.Some? ==> r.value in keys && LikeContains(rows[r.value].appName, q)
    ensures r.Some? ==> forall b :: b in keys && LikeContains(rows[b].appName, q) ==> rows[r.value].id <= rows[b].id
    decreases keys
  {
    if keys == {} then None
    else
      var k :| k in keys;
      var rest := FirstMatchAmong(rows, keys - {k}, q);
      if LikeContains(rows[k].appName, q) && (rest.None? || rows[k].id < rows[rest.value].id) then Some(k)
      else rest
  }

  ghost function FirstMatch(t: Table, q: string): (r: Option<AppRow>)
    requires WellFormed(t)
    ensures IsFirstMatch(t, q, r)
  {
    match FirstMatchAmong(t.rows, t.rows.Keys, q)
    case None => None
    case Some(k) => Some(t.rows[k])
  }

  // ---------------------------------------------------------------------------

  /** The registry database connection and its `apps` table. */
  class Database {
    var rows: map<string, AppRow>
    var nextId: nat

    function Snapshot(): Table
      reads this
    {
      Table(rows, nextId)
    }

    ghost predicate Valid()
      reads this
    {
      WellFormed(Snapshot())
    }

    /** Opening the database file: `CREATE TABLE IF NOT EXISTS` keeps a stored table as it is. */
    constructor (stored: Table)
      requires WellFormed(stored)
      ensures Valid() && Snapshot() == stored
    {
      rows := stored.rows;
      nextId := stored.nextId;
    }

    method UpsertApp(d: AppData)
      requires Valid()
      modifies this
      ensures Valid()
      ensures Snapshot() == Upsert(old(Snapshot()), d)
    {
      var b := d.basename;
      var id := if b in rows then rows[b].id else nextId;
      var n := if b in rows then nextId else nextId + 1;
      rows, nextId := rows[b := AppRow(id, b, d.fullPath, d.appName, d.appComment, d.appExec, d.isCustomized)], n;
      assert Snapshot() == Upsert(old(Snapshot()), d);
    }

    /** Every row, ordered by name compared without ASCII case. */
    method GetApps() returns (apps: seq<AppRow>)
      requires Valid()
      ensures StrictlySorted(apps)
      ensures forall y :: y in apps <==> y in rows.Values
      ensures apps == Listing(Snapshot())
    {
      apps := [];
      var todo := rows.Keys;
      while todo != {}
        invariant todo <= rows.Keys
        invariant StrictlySorted(apps)
        invariant forall y :: y in apps <==> y in rows.Values && y.basename !in todo
        decreases todo
      {
        var b :| b in todo;
        var x := rows[b];
        forall y | y in apps ensures y.id != x.id {
          RowOfValue(Snapshot(), y);
        }
        forall y | y in rows.Values ensures y.basename == b ==> y == x {
          RowOfValue(Snapshot(), y);
        }
        apps := Insert(apps, x);
        todo := todo - {b};
      }
      SortedUnique(apps, Listing(Snapshot()));
    }

    /** The first row, in rowid order, whose name contains `q` without regard to ASCII case. */
    method FindApp(q: string) returns (r: Option<AppRow>)
      requires Valid()
      ensures IsFirstMatch(Snapshot(), q, r)
      ensures r == FirstMatch(Snapshot(), q)
    {
      r := None;
      var todo := rows.Keys;
      while todo != {}
        invariant todo <= rows.Keys
        invariant r.None? ==> forall b :: b in rows && b !in todo ==> !LikeContains(rows[b].appName, q)
        invariant r.Some? ==> && r.value.basename in rows && r.value.basename !in todo
                              && rows[r.value.basename] == r.value
                              && LikeContains(r.value.appName, q)
        invariant r.Some? ==> forall b :: b in rows && b !in todo && LikeContains(rows[b].appName, q) ==> r.value.id <= rows[b].id
        decreases todo
      {
        var b :| b in todo;
        var x := rows[b];
        if LikeContains(x.appName, q) && (r.None? || x.id < r.value.id) {
          r := Some(x);
        }
        todo := todo - {b};
      }
      FirstMatchUnique(Snapshot(), q, r, FirstMatch(Snapshot(), q));
    }

    method UpdateCustomizedStatus(b: string, v: bool)
      requires Valid()
      modifies this
      ensures Valid()
      ensures Snapshot() == SetStatus(old(Snapshot()), b, v)
    {
      if b in rows {
        rows := rows[b := rows[b].(isCustomized := v)];
      }
    }
  }
}
