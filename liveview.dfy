/**
 * The live view of the terminal interface: the canonical application list
 * `apps`, the filtered table on screen, and `displayed_keys`, which maps each
 * visible row back to the canonical index of its application. The search
 * pattern is an opaque predicate on application names.
 */
module LiveView {
  import opened Options
  import opened Text
  import opened Files
  import opened Registry
  import opened Discovery
  import opened Reconcile

  /** One `DataTable` row: visible "ID" column, status column, name, comment and the row key. */
  datatype TableRow = TableRow(shownId: string, customized: bool, name: string, comment: string, key: string)

  // ---------------------------------------------------------------------------
  // Specification functions.

  /** The canonical indices below `n` of the applications whose name the pattern matches, in list order. */
  function MatchingUpTo(apps: seq<AppRow>, matches: string -> bool, n: nat): (m: seq<nat>)
    requires n <= |apps|
    ensures forall j :: 0 <= j < |m| ==> m[j] < n && matches(apps[m[j]].appName)
    ensures forall j, k :: 0 <= j < k < |m| ==> m[j] < m[k]
    ensures forall i :: 0 <= i < n && matches(apps[i].appName) ==> i in m
  {
    if n == 0 then []
    else MatchingUpTo(apps, matches, n - 1) + (if matches(apps[n - 1].appName) then [n - 1] else [])
  }

  /** The canonical indices of the applications whose name the pattern matches, in list order. */
  function MatchingIndices(apps: seq<AppRow>, matches: string -> bool): (m: seq<nat>)
    ensures forall j :: 0 <= j < |m| ==> m[j] < |apps| && matches(apps[m[j]].appName)
    ensures forall j, k :: 0 <= j < k < |m| ==> m[j] < m[k]
    ensures forall i :: 0 <= i < |apps| && matches(apps[i].appName) ==> i in m
  {
    MatchingUpTo(apps, matches, |apps|)
  }

  /** The row keys: each canonical index written as a decimal string. */
  function KeysOf(m: seq<nat>): seq<string> {
    seq(|m|, j requires 0 <= j < |m| => NatToString(m[j]))
  }

  /** The row added for the `j`-th match: label `j + 1`, key the canonical index. */
  function DisplayRow(j: nat, app: AppRow, original: nat): TableRow {
    TableRow(NatToString(j + 1), app.isCustomized, app.appName,
             if app.appComment.Some? then app.appComment.value else "", NatToString(original))
  }

  function RowsOf(apps: seq<AppRow>, m: seq<nat>): seq<TableRow>
    requires forall j :: 0 <= j < |m| ==> m[j] < |apps|
  {
    seq(|m|, j requires 0 <= j < |m| => DisplayRow(j, apps[m[j]], m[j]))
  }

  /** The key under the cursor, when the cursor is on a displayed row. */
  function SelectedKey(keys: seq<string>, cursor: int): Option<string> {
    if 0 <= cursor < |keys| then Some(keys[cursor]) else None
  }

  /** `list.index`: the first position holding `x`. */
  function FirstIndex(s: seq<string>, x: string): (i: nat)
    requires x in s
    ensures i < |s| && s[i] == x
    ensures forall j :: 0 <= j < i ==> s[j] != x
  {
    if s[0] == x then 0 else 1 + FirstIndex(s[1..], x)
  }

  /**
   * Where the cursor ends after the table is refilled with `keys`: on the
   * previously selected key if it is still shown, else on the first row if
   * any, else where it was.
   */
  function CursorAfter(prev: Option<string>, keys: seq<string>, cursor: int): (c: int)
    ensures prev.Some? && prev.value in keys ==> 0 <= c < |keys| && keys[c] == prev.value
    ensures !(prev.Some? && prev.value in keys) && keys != [] ==> c == 0
    ensures !(prev.Some? && prev.value in keys) && keys == [] ==> c == cursor
  {
    if prev.Some? && prev.value in keys then FirstIndex(keys, prev.value)
    else if keys != [] then 0
    else cursor
  }

  /**
   * `_get_app_by_original_index`: `apps[int(s)]`, where a negative index
   * counts from the end, and nothing for a non-integer or out-of-range string.
   */
  function AppByOriginalIndex(apps: seq<AppRow>, s: string): (r: Option<AppRow>)
    ensures r.Some? <==> ParseInt(s).Some? && -|apps| <= ParseInt(s).value < |apps|
    ensures r.Some? ==> r.value in apps
  {
    match ParseInt(s)
    case None => None
    case Some(v) =>
      if 0 <= v < |apps| then Some(apps[v])
      else if -|apps| <= v < 0 then Some(apps[|apps| + v])
      else None
  }

  // ---------------------------------------------------------------------------
  // Properties of the specification functions.

  /** Canonical indices are at least the visible position, so a key never names an earlier application. */
  lemma {:induction false} MatchingIndicesAtLeast(apps: seq<AppRow>, matches: string -> bool, j: nat)
    requires j < |MatchingIndices(apps, matches)|
    ensures MatchingIndices(apps, matches)[j] >= j
  {
    var m := MatchingIndices(apps, matches);
    if j > 0 {
      MatchingIndicesAtLeast(apps, matches, j - 1);
    }
  }

  /** With every name matching, the matching indices below `n` are all of `0 .. n - 1` in order. */
  lemma {:induction false} AllMatchIdentity(apps: seq<AppRow>, matches: string -> bool, n: nat)
    requires n <= |apps|
    requires forall i :: 0 <= i < |apps| ==> matches(apps[i].appName)
    ensures |MatchingUpTo(apps, matches, n)| == n
    ensures forall j :: 0 <= j < n ==> MatchingUpTo(apps, matches, n)[j] == j
  {
    if n > 0 {
      AllMatchIdentity(apps, matches, n - 1);
    }
  }

  /** With every name matching, row `j` carries key `j` but shows ID `j + 1`: the two never agree. */
  lemma AllMatchShownIdsAndKeys(apps: seq<AppRow>, matches: string -> bool, j: nat)
    requires forall i :: 0 <= i < |apps| ==> matches(apps[i].appName)
    requires j < |apps|
    ensures var m := MatchingIndices(apps, matches);
      j < |m| &&
      var r := RowsOf(apps, m)[j];
      r.key == NatToString(j) && r.shownId == NatToString(j + 1) && r.key != r.shownId
  {
    AllMatchIdentity(apps, matches, |apps|);
    if NatToString(j) == NatToString(j + 1) {
      NatToStringInjective(j, j + 1);
    }
  }

  /** A key is displayed exactly when its application is in the list and matches. */
  lemma KeyDisplayedIff(apps: seq<AppRow>, matches: string -> bool, i: nat)
    ensures NatToString(i) in KeysOf(MatchingIndices(apps, matches)) <==> i < |apps| && matches(apps[i].appName)
  {
    var m := MatchingIndices(apps, matches);
    var keys := KeysOf(m);
    if NatToString(i) in keys {
      var j :| 0 <= j < |keys| && keys[j] == NatToString(i);
      NatToStringInjective(m[j], i);
    }
    if i < |apps| && matches(apps[i].appName) {
      var j :| 0 <= j < |m| && m[j] == i;
      assert keys[j] == NatToString(i);
    }
  }

  /** The displayed keys are pairwise distinct, so a key names one visible row. */
  lemma KeysDistinct(apps: seq<AppRow>, matches: string -> bool)
    ensures var keys := KeysOf(MatchingIndices(apps, matches));
      forall j, k :: 0 <= j < k < |keys| ==> keys[j] != keys[k]
  {
    var m := MatchingIndices(apps, matches);
    forall j, k | 0 <= j < k < |m| ensures NatToString(m[j]) != NatToString(m[k]) {
      if NatToString(m[j]) == NatToString(m[k]) {
        NatToStringInjective(m[j], m[k]);
      }
    }
  }

  /** The key of a canonical index looks up that index, and nothing past the end. */
  lemma AppByKey(apps: seq<AppRow>, i: nat)
    ensures AppByOriginalIndex(apps, NatToString(i)) == (if i < |apps| then Some(apps[i]) else None)
  {
    ParseIntNatToString(i);
  }

  /**
   * The key of visible row `j` names, through both the live view's lookup
   * and the core's identifier resolution, the matching application that
   * row shows; so toggling acts on that application and not on the row number.
   */
  lemma ToggleTargetsShownApp(t: Table, matches: string -> bool, j: nat)
    requires WellFormed(t)
    requires j < |MatchingIndices(Listing(t), matches)|
    ensures var apps := Listing(t);
      var m := MatchingIndices(apps, matches);
      var key := KeysOf(m)[j];
      && AppByOriginalIndex(apps, key) == Some(apps[m[j]])
      && Resolve(t, key) == Some(apps[m[j]])
      && RowsOf(apps, m)[j].name == apps[m[j]].appName
      && matches(apps[m[j]].appName)
  {
    var m := MatchingIndices(Listing(t), matches);
    AppByKey(Listing(t), m[j]);
    ClassifyNatToString(m[j]);
  }

  /**
   * Refiltering the same list keeps the cursor on the same application
   * whenever that application still matches.
   */
  lemma CursorFollowsApp(apps: seq<AppRow>, matches: string -> bool, i: nat, cursor: int)
    requires i < |apps| && matches(apps[i].appName)
    ensures var keys := KeysOf(MatchingIndices(apps, matches));
      var c := CursorAfter(Some(NatToString(i)), keys, cursor);
      0 <= c < |keys| && AppByOriginalIndex(apps, keys[c]) == Some(apps[i])
  {
    KeyDisplayedIff(apps, matches, i);
    AppByKey(apps, i);
  }

  /**
   * After the table is refilled, the cursor is on a row exactly when some
   * application matches, and the key under it names a matching application,
   * so the toggle's lookup cannot miss.
   */
  lemma SelectionAfterFilter(apps: seq<AppRow>, matches: string -> bool, prev: Option<string>, cursor: int)
    ensures var keys := KeysOf(MatchingIndices(apps, matches));
      var sel := SelectedKey(keys, CursorAfter(prev, keys, cursor));
      && (sel.Some? <==> exists i :: 0 <= i < |apps| && matches(apps[i].appName))
      && (sel.Some? ==>
            var app := AppByOriginalIndex(apps, sel.value);
            app.Some? && matches(app.value.appName))
  {
    var m := MatchingIndices(apps, matches);
    var keys := KeysOf(m);
    var c := CursorAfter(prev, keys, cursor);
    if exists i :: 0 <= i < |apps| && matches(apps[i].appName) {
      var i :| 0 <= i < |apps| && matches(apps[i].appName);
      assert i in m;
    }
    if 0 <= c < |keys| {
      AppByKey(apps, m[c]);
    }
  }

  // ---------------------------------------------------------------------------
  // The two loops of `filter_apps`.

  /** The first loop: collect the canonical index of every matching application. */
  method MatchedApps(apps: seq<AppRow>, matches: string -> bool) returns (matched: seq<nat>)
    ensures matched == MatchingIndices(apps, matches)
  {
    matched := [];
    var index := 0;
    while index < |apps|
      invariant 0 <= index <= |apps|
      invariant matched == MatchingUpTo(apps, matches, index)
    {
      if matches(apps[index].appName) {
        matched := matched + [index];
      }
      index := index + 1;
    }
  }

  /** The second loop: one table row and one displayed key per match, in match order. */
  method AddRows(apps: seq<AppRow>, matched: seq<nat>) returns (keys: seq<string>, table: seq<TableRow>)
    requires forall j :: 0 <= j < |matched| ==> matched[j] < |apps|
    ensures keys == KeysOf(matched)
    ensures table == RowsOf(apps, matched)
  {
    keys := [];
    table := [];
    for j := 0 to |matched|
      invariant |keys| == j && |table| == j
      invariant forall k :: 0 <= k < j ==> keys[k] == NatToString(matched[k])
      invariant forall k :: 0 <= k < j ==> table[k] == DisplayRow(k, apps[matched[k]], matched[k])
    {
      var key := NatToString(matched[j]);
      table := table + [DisplayRow(j, apps[matched[j]], matched[j])];
      keys := keys + [key];
    }
  }

  // ---------------------------------------------------------------------------
  // The interface state.

  class Tui {
    const db: Database
    const fs: FileSystem
    const cfg: Config
    var apps: seq<AppRow>
    var displayedKeys: seq<string>
    var rows: seq<TableRow>
    var cursorRow: int

    ghost predicate Valid()
      reads this, db
    {
      db.Valid() && |rows| == |displayedKeys|
    }

    /** The key under the cursor, if the cursor is on a displayed row. */
    function Selected(): Option<string>
      reads this
    {
      SelectedKey(displayedKeys, cursorRow)
    }

    /** The application the cursor's key names in `apps`. */
    function SelectedApp(): Option<AppRow>
      reads this
    {
      if Selected().Some? then AppByOriginalIndex(apps, Selected().value) else None
    }

    /** A fresh interface: nothing loaded yet, an empty table with the cursor on row 0. */
    constructor (db: Database, fs: FileSystem, cfg: Config)
      requires db.Valid()
      ensures Valid()
      ensures this.db == db && this.fs == fs && this.cfg == cfg
      ensures apps == [] && displayedKeys == [] && rows == [] && cursorRow == 0
    {
      this.db := db;
      this.fs := fs;
      this.cfg := cfg;
      apps := [];
      displayedKeys := [];
      rows := [];
      cursorRow := 0;
    }

    /**
     * `filter_apps`: refill the table with the matching applications, each
     * keyed by its canonical index, and restore the cursor by key.
     */
    method FilterApps(matches: string -> bool)
      requires Valid()
      modifies this
      ensures Valid()
      ensures apps == old(apps)
      ensures displayedKeys == KeysOf(MatchingIndices(apps, matches))
      ensures rows == RowsOf(apps, MatchingIndices(apps, matches))
      ensures cursorRow == CursorAfter(old(Selected()), displayedKeys, old(cursorRow))
    {
      var current: Option<string> := None;
      if 0 <= cursorRow < |displayedKeys| {
        current := Some(displayedKeys[cursorRow]);
      }

      var matched := MatchedApps(apps, matches);
      displayedKeys, rows := AddRows(apps, matched);

      if current.Some? && current.value in displayedKeys {
        cursorRow := FirstIndex(displayedKeys, current.value);
      } else if displayedKeys != [] {
        cursorRow := 0;
      }
    }

    /** `action_refresh_table`: reload the sorted listing and refilter with the current pattern. */
    method RefreshTable(matches: string -> bool)
      requires Valid()
      modifies this
      ensures Valid()
      ensures apps == Listing(db.Snapshot())
      ensures displayedKeys == KeysOf(MatchingIndices(apps, matches))
      ensures rows == RowsOf(apps, MatchingIndices(apps, matches))
      ensures cursorRow == CursorAfter(old(Selected()), displayedKeys, old(cursorRow))
    {
      apps := db.GetApps();
      FilterApps(matches);
    }

    /**
     * `action_toggle_setting`: through the key of the cursor's row, unset a
     * customized application or set one that is not, passing the key as the
     * identifier; after a success, refresh and put the cursor back on the
     * same row number when the table is still that long. `None` means
     * nothing was attempted.
     */
    method ToggleSetting(matches: string -> bool) returns (out: Option<Outcome>)
      requires Valid()
      modifies this, db, fs
      ensures Valid()
      ensures out.None? <==> old(SelectedApp()).None?
      ensures out.None? ==> unchanged(this, db, fs)
      ensures out.Some? ==>
        var key := old(Selected()).value;
        var app := old(SelectedApp()).value;
        Step(db.Snapshot(), fs.State(), out.value) ==
          if app.isCustomized then UnsetStep(old(db.Snapshot()), old(fs.State()), cfg, key)
          else SetStep(old(db.Snapshot()), old(fs.State()), cfg, key)
      ensures out.Some? && !out.value.Done? ==> unchanged(this)
      ensures out.Some? && out.value.Done? ==>
        && apps == Listing(db.Snapshot())
        && displayedKeys == KeysOf(MatchingIndices(apps, matches))
        && rows == RowsOf(apps, MatchingIndices(apps, matches))
        && cursorRow == if old(cursorRow) < |rows| then old(cursorRow)
                        else CursorAfter(old(Selected()), displayedKeys, old(cursorRow))
    {
      if !(0 <= cursorRow < |displayedKeys|) {
        return None;
      }
      var key := displayedKeys[cursorRow];
      var app := AppByOriginalIndex(apps, key);
      if app.None? {
        return None;
      }
      var result := ApplyToggle(key, app.value.isCustomized, matches);
      out := Some(result);
    }

    /**
     * The branch of `action_toggle_setting` once the cursor's key has named
     * an application: unset or set through the key, then, on success,
     * refresh and restore the cursor row.
     */
    method ApplyToggle(key: string, customized: bool, matches: string -> bool) returns (result: Outcome)
      requires Valid() && Selected() == Some(key)
      modifies this, db, fs
      ensures Valid()
      ensures Step(db.Snapshot(), fs.State(), result) ==
        if customized then UnsetStep(old(db.Snapshot()), old(fs.State()), cfg, key)
        else SetStep(old(db.Snapshot()), old(fs.State()), cfg, key)
      ensures !result.Done? ==> unchanged(this)
      ensures result.Done? ==>
        && apps == Listing(db.Snapshot())
        && displayedKeys == KeysOf(MatchingIndices(apps, matches))
        && rows == RowsOf(apps, MatchingIndices(apps, matches))
        && cursorRow == if old(cursorRow) < |rows| then old(cursorRow)
                        else CursorAfter(Some(key), displayedKeys, old(cursorRow))
    {
      if customized {
        result := UnsetNvidia(db, fs, cfg, key);
      } else {
        result := SetNvidia(db, fs, cfg, key);
      }
      if result.Done? {
        var row := cursorRow;
        RefreshTable(matches);
        if row < |rows| {
          cursorRow := row;
        }
      }
    }
  }
}
