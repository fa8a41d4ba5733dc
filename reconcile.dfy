/**
 * Override reconciliation: resolving an identifier against the registry,
 * and the `set_nvidia` / `unset_nvidia` operations over the filesystem and
 * the registry, each a method proved against a step function (`SetStep`,
 * `UnsetStep`) about which the idempotence facts are lemmas.
 */
module Reconcile {
  import opened Options
  import opened Text
  import opened Files
  import opened Registry
  import opened Desktop
  import opened Discovery

  /** How `_find_app_by_identifier` reads an identifier: all digits is a 0-based position. */
  datatype Identifier = ByPosition(index: nat) | ByName(query: string)

  function Classify(ident: string): (r: Identifier)
    ensures r.ByPosition? <==> IsDigits(ident)
    ensures r.ByPosition? ==> ParseInt(ident) == Some(r.index as int)
    ensures r.ByName? ==> r.query == ident
  {
    if IsDigits(ident) then ByPosition(DigitsValue(ident)) else ByName(ident)
  }

  /** The decimal form of an index, as the live view passes it, is read as that position. */
  lemma ClassifyNatToString(n: nat)
    ensures Classify(NatToString(n)) == ByPosition(n)
  {
    ParseIntNatToString(n);
  }

  /** The row `_find_app_by_identifier` returns for `ident`, or `None`. */
  ghost function Resolve(t: Table, ident: string): Option<AppRow>
    requires WellFormed(t)
  {
    match Classify(ident)
    case ByPosition(n) => var l := Listing(t); if n < |l| then Some(l[n]) else None
    case ByName(q) => FirstMatch(t, q)
  }

  /** A resolved row is the table's row for its basename. */
  lemma ResolveInTable(t: Table, ident: string)
    requires WellFormed(t)
    requires Resolve(t, ident).Some?
    ensures var x := Resolve(t, ident).value; x.basename in t.rows && t.rows[x.basename] == x
  {
    if Classify(ident).ByPosition? {
      RowOfValue(t, Resolve(t, ident).value);
    }
  }

  /** Positions index the current name-sorted listing from 0; a name resolves to its first match. */
  lemma ResolveMeaning(t: Table, ident: string)
    requires WellFormed(t)
    ensures IsDigits(ident) ==>
      var l := Listing(t);
      var n := DigitsValue(ident);
      Resolve(t, ident) == (if n < |l| then Some(l[n]) else None)
    ensures !IsDigits(ident) ==> IsFirstMatch(t, ident, Resolve(t, ident))
  {
  }

  /** The resolver, reading the registry through its queries. */
  method FindAppByIdentifier(db: Database, ident: string) returns (app: Option<AppRow>)
    requires db.Valid()
    ensures app == Resolve(db.Snapshot(), ident)
    ensures app.Some? ==> app.value.basename in db.rows && db.rows[app.value.basename] == app.value
  {
    if IsDigits(ident) {
      var index := DigitsValue(ident);
      var apps := db.GetApps();
      if 0 <= index < |apps| {
        app := Some(apps[index]);
        RowOfValue(db.Snapshot(), apps[index]);
      } else {
        app := None;
      }
    } else {
      app := db.FindApp(ident);
    }
  }

  // ---------------------------------------------------------------------------
  // Outcomes and steps.

  /** The error half of the `(name, err)` pair. */
  datatype Failure =
    | NotFound(identifier: string)
    | InvalidDefinition(path: FilePath)
    | NotCustomized(appName: string)

  /**
   * What an override operation ends in: the application name on success, a
   * reported failure, or an exception that escapes (`set_nvidia` does not
   * catch a parse error in the source file).
   */
  datatype Outcome = Done(appName: string) | Failed(failure: Failure) | Raised(path: FilePath)

  datatype Step = Step(table: Table, disk: Disk, outcome: Outcome)

  /** The sections `parser.read` produced from what it found (nothing, for a missing file). */
  function SourceSections(c: Option<Content>): map<string, map<string, string>> {
    if c.Some? && c.value.Entries? then c.value.sections else map[]
  }

  /** `set_nvidia` as a function of the registry and the disk. */
  ghost function SetStep(t: Table, d: Disk, cfg: Config, ident: string): Step
    requires WellFormed(t)
  {
    match Resolve(t, ident)
    case None => Step(t, d, Failed(NotFound(ident)))
    case Some(app) =>
      var src := Lookup(d, app.fullPath);
      if src == Some(Malformed) then Step(t, d, Raised(app.fullPath))
      else
        var s := SourceSections(src);
        if DesktopEntry !in s then Step(t, d, Failed(InvalidDefinition(app.fullPath)))
        else
          var d' := WriteFile(d, CustomPath(cfg, app.basename), Entries(WithGpuFlag(s)));
          Step(ScanTable(SetStatus(t, app.basename, true), d', cfg), d', Done(app.appName))
  }

  /** `unset_nvidia` as a function of the registry and the disk. */
  ghost function UnsetStep(t: Table, d: Disk, cfg: Config, ident: string): Step
    requires WellFormed(t)
  {
    match Resolve(t, ident)
    case None => Step(t, d, Failed(NotFound(ident)))
    case Some(app) =>
      var custom := CustomPath(cfg, app.basename);
      if custom in d.files then Step(SetStatus(t, app.basename, false), RemoveFile(d, custom), Done(app.appName))
      else Step(t, d, Failed(NotCustomized(app.appName)))
  }

  /** `_refresh_desktop_database`: a best-effort external command whose failure is ignored. */
  method RefreshDesktopDatabase() {
  }

  method SetNvidia(db: Database, fs: FileSystem, cfg: Config, ident: string) returns (out: Outcome)
    requires db.Valid()
    modifies db, fs
    ensures db.Valid()
    ensures Step(db.Snapshot(), fs.State(), out) == SetStep(old(db.Snapshot()), old(fs.State()), cfg, ident)
  {
    var app := FindAppByIdentifier(db, ident);
    if app.None? {
      return Failed(NotFound(ident));
    }
    var original := app.value.fullPath;
    var custom := CustomPath(cfg, app.value.basename);
    var content := fs.Read(original);
    if content == Some(Malformed) {
      return Raised(original);
    }
    var sections := SourceSections(content);
    if DesktopEntry !in sections {
      return Failed(InvalidDefinition(original));
    }
    fs.Write(custom, Entries(WithGpuFlag(sections)));
    db.UpdateCustomizedStatus(app.value.basename, true);
    RefreshDesktopDatabase();
    var _ := ScanApps(db, fs, cfg);
    out := Done(app.value.appName);
  }

  method UnsetNvidia(db: Database, fs: FileSystem, cfg: Config, ident: string) returns (out: Outcome)
    requires db.Valid()
    modifies db, fs
    ensures db.Valid()
    ensures Step(db.Snapshot(), fs.State(), out) == UnsetStep(old(db.Snapshot()), old(fs.State()), cfg, ident)
  {
    var app := FindAppByIdentifier(db, ident);
    if app.None? {
      return Failed(NotFound(ident));
    }
    var custom := CustomPath(cfg, app.value.basename);
    var appName := app.value.appName;
    var exists_ := fs.Exists(custom);
    if exists_ {
      fs.Unlink(custom);
      db.UpdateCustomizedStatus(app.value.basename, false);
      RefreshDesktopDatabase();
      out := Done(appName);
    } else {
      out := Failed(NotCustomized(appName));
    }
  }

  // ---------------------------------------------------------------------------
  // Properties of the steps.

  /** The identifier resolves and the resolved row's file reads with a `[Desktop Entry]`. */
  ghost predicate SetApplies(t: Table, d: Disk, ident: string)
    requires WellFormed(t)
  {
    && Resolve(t, ident).Some?
    && Lookup(d, Resolve(t, ident).value.fullPath) != Some(Malformed)
    && DesktopEntry in SourceSections(Lookup(d, Resolve(t, ident).value.fullPath))
  }

  /**
   * `set_nvidia`'s results: it fails without touching anything unless the
   * identifier resolves to a row whose file has a `[Desktop Entry]`; then it
   * writes the override and returns the name it resolved.
   */
  lemma SetStepOutcomes(t: Table, d: Disk, cfg: Config, ident: string)
    requires WellFormed(t)
    ensures var st := SetStep(t, d, cfg, ident);
      && WellFormed(st.table)
      && (!st.outcome.Done? ==> st.table == t && st.disk == d)
      && (Resolve(t, ident).None? ==> st.outcome == Failed(NotFound(ident)))
      && (st.outcome.Done? <==> SetApplies(t, d, ident))
  {
  }

  /**
   * A successful set returns the resolved name and writes the source with
   * the GPU flag on to the override path.
   */
  lemma SetStepWrites(t: Table, d: Disk, cfg: Config, ident: string)
    requires WellFormed(t)
    requires SetApplies(t, d, ident)
    ensures var st := SetStep(t, d, cfg, ident);
      var app := Resolve(t, ident).value;
      var custom := CustomPath(cfg, app.basename);
      var src := SourceSections(Lookup(d, app.fullPath));
      && DesktopEntry in src
      && st.outcome == Done(app.appName)
      && st.disk == WriteFile(d, custom, Entries(WithGpuFlag(src)))
      && GetBoolean(WithGpuFlag(src)[DesktopEntry], GpuKey) == Bool(true)
  {
    var app := Resolve(t, ident).value;
    var src := SourceSections(Lookup(d, app.fullPath));
    var d1 := WriteFile(d, CustomPath(cfg, app.basename), Entries(WithGpuFlag(src)));
    assert SetStep(t, d, cfg, ident) == Step(ScanTable(SetStatus(t, app.basename, true), d1, cfg), d1, Done(app.appName));
    GpuFlagReadsTrue(src);
  }

  /** A successful set keeps every row of the registry. */
  lemma SetKeepsRows(t: Table, d: Disk, cfg: Config, ident: string)
    requires WellFormed(t)
    requires SetApplies(t, d, ident)
    ensures t.rows.Keys <= SetStep(t, d, cfg, ident).table.rows.Keys
  {
    var app := Resolve(t, ident).value;
    var src := SourceSections(Lookup(d, app.fullPath));
    var d1 := WriteFile(d, CustomPath(cfg, app.basename), Entries(WithGpuFlag(src)));
    var t0 := SetStatus(t, app.basename, true);
    assert SetStep(t, d, cfg, ident) == Step(ScanTable(t0, d1, cfg), d1, Done(app.appName));
    ScanKeepsRows(t0, d1, cfg);
  }

  /** No file under the user root, other than the override path itself, is named `b`. */
  ghost predicate NoShadow(d: Disk, cfg: Config, b: string) {
    forall p :: p in d.files && p.name == b && Under(p.dir, cfg.userRoot) ==> p == CustomPath(cfg, b)
  }

  /** Once the override is written, the next scan resolves its basename to the override. */
  lemma OverrideResolves(d: Disk, cfg: Config, b: string, c: Content)
    requires NoShadow(d, cfg, b)
    ensures var d' := WriteFile(d, CustomPath(cfg, b), c);
      && (b in Definitive(d', cfg).paths <==> IsDesktop(b))
      && (IsDesktop(b) ==> Definitive(d', cfg).paths[b] == CustomPath(cfg, b))
  {
    var custom := CustomPath(cfg, b);
    var d' := WriteFile(d, custom, c);
    assert custom in Walk(d', cfg.userRoot);
    DefinitiveKeys(d', cfg, b);
    if IsDesktop(b) {
      UserRootWins(d', cfg, custom);
    } else {
      assert b !in Definitive(d', cfg).paths;
    }
  }

  /**
   * A fresh override loses to a file of the same name in a subdirectory of
   * the user root: the walk meets the override first and that file later,
   * so the later assignment decides the basename.
   */
  lemma ShadowResolves(d: Disk, cfg: Config, b: string, c: Content, s: FilePath)
    requires CustomPath(cfg, b) !in d.order
    requires s in d.order && s in d.files && s.name == b && IsDesktop(b) && Below(s.dir, cfg.userRoot)
    requires forall p :: p in d.files && p.name == b && Under(p.dir, cfg.userRoot) ==> p == s
    ensures var d' := WriteFile(d, CustomPath(cfg, b), c);
      b in Definitive(d', cfg).paths && Definitive(d', cfg).paths[b] == s
  {
    var custom := CustomPath(cfg, b);
    var d' := WriteFile(d, custom, c);
    var k := SubdirStart(d.order, cfg.userRoot);
    var back := WalkOf(d.order[k..], d'.files, cfg.userRoot);
    NewFileWalkedFirst(d, custom, c, cfg.userRoot, s);
    UserWalkTailDecides(d', cfg, WalkOf(d.order[..k], d'.files, cfg.userRoot) + [custom], back, s);
  }

  /**
   * A set whose fresh override is shadowed by a user-root subdirectory file
   * of the same name that does not ask for the GPU succeeds, yet leaves the
   * row pointing at that file and not marked customized.
   */
  lemma SetUnderShadowLeavesRowPlain(t: Table, d: Disk, cfg: Config, ident: string, s: FilePath)
    requires WellFormed(t)
    requires SetApplies(t, d, ident)
    requires CustomPath(cfg, Resolve(t, ident).value.basename) !in d.order
    requires var b := Resolve(t, ident).value.basename;
      && s in d.order && s in d.files && s.name == b && IsDesktop(b) && Below(s.dir, cfg.userRoot)
      && (forall p :: p in d.files && p.name == b && Under(p.dir, cfg.userRoot) ==> p == s)
    requires var e := ParseEntry(s.name, s, Lookup(d, s), cfg.userRoot); e.Some? && !e.value.isCustomized
    ensures var st := SetStep(t, d, cfg, ident);
      var b := Resolve(t, ident).value.basename;
      && st.outcome.Done?
      && b in st.table.rows
      && st.table.rows[b].fullPath == s
      && !st.table.rows[b].isCustomized
  {
    var app := Resolve(t, ident).value;
    var b := app.basename;
    var custom := CustomPath(cfg, b);
    var src := SourceSections(Lookup(d, app.fullPath));
    var c := Entries(WithGpuFlag(src));
    var d1 := WriteFile(d, custom, c);
    var t0 := SetStatus(t, b, true);
    assert SetStep(t, d, cfg, ident) == Step(ScanTable(t0, d1, cfg), d1, Done(app.appName));
    ShadowResolves(d, cfg, b, c, s);
    assert Lookup(d1, s) == Lookup(d, s);
    ScanTableRow(t0, d1, cfg, b);
  }

  /**
   * The scan after writing the override: the row of `b`, already marked
   * customized, stays marked, and either points at the override or is kept.
   */
  lemma ScanAfterOverride(t0: Table, d: Disk, cfg: Config, b: string, src: map<string, map<string, string>>)
    requires DesktopEntry in src
    requires NoShadow(d, cfg, b)
    requires b in t0.rows && t0.rows[b].isCustomized
    ensures var d1 := WriteFile(d, CustomPath(cfg, b), Entries(WithGpuFlag(src)));
      var t1 := ScanTable(t0, d1, cfg);
      && b in t1.rows
      && t1.rows[b].isCustomized
      && (t1.rows[b].fullPath == CustomPath(cfg, b) || t1.rows[b] == t0.rows[b])
  {
    var custom := CustomPath(cfg, b);
    var c := Entries(WithGpuFlag(src));
    var d1 := WriteFile(d, custom, c);
    OverrideResolves(d, cfg, b, c);
    ScanTableRow(t0, d1, cfg, b);
    if IsDesktop(b) {
      assert Lookup(d1, custom) == Some(c);
      OverrideEntry(b, src, custom, cfg.userRoot);
    }
  }

  /**
   * After a successful set, with no other user file of that basename, the
   * row is marked customized; when the override is a storable entry the row
   * points at it, otherwise it keeps its other columns.
   */
  lemma SetMarksCustomized(t: Table, d: Disk, cfg: Config, ident: string)
    requires WellFormed(t)
    requires SetApplies(t, d, ident)
    requires NoShadow(d, cfg, Resolve(t, ident).value.basename)
    ensures var st := SetStep(t, d, cfg, ident);
      var b := Resolve(t, ident).value.basename;
      && b in t.rows
      && b in st.table.rows
      && st.table.rows[b].isCustomized
      && (st.table.rows[b].fullPath == CustomPath(cfg, b) || SameButStatus(st.table.rows[b], t.rows[b]))
  {
    var app := Resolve(t, ident).value;
    var b := app.basename;
    ResolveInTable(t, ident);
    var src := SourceSections(Lookup(d, app.fullPath));
    var c := Entries(WithGpuFlag(src));
    var d1 := WriteFile(d, CustomPath(cfg, b), c);
    var t0 := SetStatus(t, b, true);
    assert SetStep(t, d, cfg, ident) == Step(ScanTable(t0, d1, cfg), d1, Done(app.appName));
    ScanAfterOverride(t0, d, cfg, b, src);
  }

  /**
   * What the second set reads is the override or the untouched source; both
   * give the same sections to write, and writing them again changes nothing.
   */
  lemma SecondWriteSame(d: Disk, cfg: Config, b: string, srcPath: FilePath, p: FilePath)
    requires Lookup(d, srcPath) != Some(Malformed)
    requires DesktopEntry in SourceSections(Lookup(d, srcPath))
    requires p == CustomPath(cfg, b) || p == srcPath
    ensures var src := SourceSections(Lookup(d, srcPath));
      var c := Entries(WithGpuFlag(src));
      var d1 := WriteFile(d, CustomPath(cfg, b), c);
      var again := SourceSections(Lookup(d1, p));
      && Lookup(d1, p) != Some(Malformed)
      && DesktopEntry in again
      && WithGpuFlag(again) == WithGpuFlag(src)
      && WriteFile(d1, CustomPath(cfg, b), Entries(WithGpuFlag(again))) == d1
  {
    var src := SourceSections(Lookup(d, srcPath));
    var custom := CustomPath(cfg, b);
    var c := Entries(WithGpuFlag(src));
    var d1 := WriteFile(d, custom, c);
    WithGpuFlagIdempotent(src);
    if p == custom {
      assert Lookup(d1, p) == Some(c);
    } else {
      assert Lookup(d1, p) == Lookup(d, srcPath);
    }
    assert d1.files[custom := c] == d1.files;
  }

  /**
   * The second set, on the state the first one left: it resolves to the row
   * of `b`, reads the same sections, and its write, flag update and rescan
   * change nothing.
   */
  lemma SecondSetChangesNothing(t0: Table, d: Disk, cfg: Config, ident: string, b: string, srcPath: FilePath)
    requires WellFormed(t0)
    requires Lookup(d, srcPath) != Some(Malformed)
    requires DesktopEntry in SourceSections(Lookup(d, srcPath))
    requires var c := Entries(WithGpuFlag(SourceSections(Lookup(d, srcPath))));
      var t1 := ScanTable(t0, WriteFile(d, CustomPath(cfg, b), c), cfg);
      && WellFormed(t1)
      && Resolve(t1, ident).Some? && Resolve(t1, ident).value.basename == b
      && b in t1.rows
      && t1.rows[b].isCustomized
      && (t1.rows[b].fullPath == CustomPath(cfg, b) || t1.rows[b].fullPath == srcPath)
    ensures var c := Entries(WithGpuFlag(SourceSections(Lookup(d, srcPath))));
      var d1 := WriteFile(d, CustomPath(cfg, b), c);
      var t1 := ScanTable(t0, d1, cfg);
      var s2 := SetStep(t1, d1, cfg, ident);
      s2.outcome.Done? && s2.table == t1 && s2.disk == d1
  {
    var c := Entries(WithGpuFlag(SourceSections(Lookup(d, srcPath))));
    var d1 := WriteFile(d, CustomPath(cfg, b), c);
    var t1 := ScanTable(t0, d1, cfg);
    SecondWriteSame(d, cfg, b, srcPath, t1.rows[b].fullPath);
    ScanIdempotent(t0, d1, cfg);
    SetAtFixedPoint(t1, d1, cfg, ident, b);
  }

  /**
   * A set on a state where the row is already customized, the write would
   * rewrite the same content and a rescan changes nothing, succeeds and
   * changes nothing.
   */
  lemma SetAtFixedPoint(t1: Table, d1: Disk, cfg: Config, ident: string, b: string)
    requires WellFormed(t1)
    requires Resolve(t1, ident).Some? && Resolve(t1, ident).value.basename == b
    requires b in t1.rows && t1.rows[b].isCustomized
    requires var p := t1.rows[b].fullPath;
      && Lookup(d1, p) != Some(Malformed)
      && DesktopEntry in SourceSections(Lookup(d1, p))
      && WriteFile(d1, CustomPath(cfg, b), Entries(WithGpuFlag(SourceSections(Lookup(d1, p))))) == d1
    requires ScanTable(t1, d1, cfg) == t1
    ensures SetStep(t1, d1, cfg, ident) == Step(t1, d1, Done(t1.rows[b].appName))
  {
    ResolveInTable(t1, ident);
    assert SetStatus(t1, b, true) == t1 by {
      assert t1.rows[b := t1.rows[b].(isCustomized := true)] == t1.rows;
    }
  }

  /**
   * Setting twice gives the state of setting once, provided the identifier
   * still names the same basename after the first call and no other user
   * file carries that basename.
   */
  lemma SetTwiceSameState(t: Table, d: Disk, cfg: Config, ident: string)
    requires WellFormed(t)
    requires SetApplies(t, d, ident)
    requires NoShadow(d, cfg, Resolve(t, ident).value.basename)
    requires var s1 := SetStep(t, d, cfg, ident);
      WellFormed(s1.table) && Resolve(s1.table, ident).Some? &&
      Resolve(s1.table, ident).value.basename == Resolve(t, ident).value.basename
    ensures var s1 := SetStep(t, d, cfg, ident);
      var s2 := SetStep(s1.table, s1.disk, cfg, ident);
      s2.outcome.Done? && s2.table == s1.table && s2.disk == s1.disk
  {
    var app := Resolve(t, ident).value;
    var b := app.basename;
    ResolveInTable(t, ident);
    var src := SourceSections(Lookup(d, app.fullPath));
    var d1 := WriteFile(d, CustomPath(cfg, b), Entries(WithGpuFlag(src)));
    var t0 := SetStatus(t, b, true);
    assert SetStep(t, d, cfg, ident) == Step(ScanTable(t0, d1, cfg), d1, Done(app.appName));
    ScanAfterOverride(t0, d, cfg, b, src);
    SecondSetChangesNothing(t0, d, cfg, ident, b, app.fullPath);
  }

  /**
   * `unset_nvidia`'s results: it fails without touching anything unless the
   * override file exists; then it deletes it, clears the flag of that row
   * only, and leaves its path as it was (no rescan).
   */
  lemma UnsetStepOutcomes(t: Table, d: Disk, cfg: Config, ident: string)
    requires WellFormed(t)
    ensures var st := UnsetStep(t, d, cfg, ident);
      && (!st.outcome.Done? ==> st.table == t && st.disk == d)
      && (Resolve(t, ident).None? ==> st.outcome == Failed(NotFound(ident)))
      && (Resolve(t, ident).Some? ==>
            var app := Resolve(t, ident).value;
            var custom := CustomPath(cfg, app.basename);
            && (custom !in d.files <==> st.outcome == Failed(NotCustomized(app.appName)))
            && (st.outcome.Done? ==>
                  && st.outcome.appName == app.appName
                  && custom !in st.disk.files
                  && (forall q :: q != custom ==> Lookup(st.disk, q) == Lookup(d, q))
                  && st.table.rows.Keys == t.rows.Keys
                  && app.basename in st.table.rows
                  && !st.table.rows[app.basename].isCustomized
                  && st.table.rows[app.basename].fullPath == app.fullPath
                  && (forall c :: c in t.rows && c != app.basename ==> st.table.rows[c] == t.rows[c])))
  {
    if Resolve(t, ident).Some? {
      ResolveInTable(t, ident);
    }
  }

  /** The flag-flipped copy of a listing, entry by entry. */
  function FlipIn(l: seq<AppRow>, b: string, v: bool): (m: seq<AppRow>)
    ensures |m| == |l|
    ensures forall i :: 0 <= i < |l| ==> SameButStatus(m[i], l[i]) && m[i].basename == l[i].basename
    ensures forall i :: 0 <= i < |l| ==> (m[i] == l[i] || l[i].basename == b)
  {
    seq(|l|, i requires 0 <= i < |l| => if l[i].basename == b then l[i].(isCustomized := v) else l[i])
  }

  lemma FlipSorted(l: seq<AppRow>, b: string, v: bool)
    requires StrictlySorted(l)
    ensures StrictlySorted(FlipIn(l, b, v))
  {
    var m := FlipIn(l, b, v);
    forall i, j | 0 <= i < j < |m| ensures RowLess(m[i], m[j]) {
      assert RowLess(l[i], l[j]);
    }
  }

  lemma FlipMembersIn(t: Table, b: string, v: bool, y: AppRow)
    requires WellFormed(t)
    requires y in FlipIn(Listing(t), b, v)
    ensures y in SetStatus(t, b, v).rows.Values
  {
    var l := Listing(t);
    var m := FlipIn(l, b, v);
    var i :| 0 <= i < |m| && m[i] == y;
    RowOfValue(t, l[i]);
    assert SetStatus(t, b, v).rows[l[i].basename] == y;
  }

  lemma FlipMembersOut(t: Table, b: string, v: bool, y: AppRow)
    requires WellFormed(t)
    requires y in SetStatus(t, b, v).rows.Values
    ensures y in FlipIn(Listing(t), b, v)
  {
    var t' := SetStatus(t, b, v);
    var l := Listing(t);
    var c :| c in t'.rows && t'.rows[c] == y;
    assert t.rows[c] in t.rows.Values;
    var i :| 0 <= i < |l| && l[i] == t.rows[c];
    assert FlipIn(l, b, v)[i] == y;
  }

  lemma FlipMembers(t: Table, b: string, v: bool)
    requires WellFormed(t)
    ensures var m := FlipIn(Listing(t), b, v);
      forall y :: y in m <==> y in SetStatus(t, b, v).rows.Values
  {
    forall y ensures y in FlipIn(Listing(t), b, v) <==> y in SetStatus(t, b, v).rows.Values {
      if y in FlipIn(Listing(t), b, v) { FlipMembersIn(t, b, v, y); }
      if y in SetStatus(t, b, v).rows.Values { FlipMembersOut(t, b, v, y); }
    }
  }

  /** Flipping one row's flag maps the listing entry by entry. */
  lemma ListingIgnoresStatus(t: Table, b: string, v: bool)
    requires WellFormed(t)
    ensures |Listing(SetStatus(t, b, v))| == |Listing(t)|
    ensures forall i :: 0 <= i < |Listing(t)| ==> SameButStatus(Listing(SetStatus(t, b, v))[i], Listing(t)[i])
  {
    FlipSorted(Listing(t), b, v);
    FlipMembers(t, b, v);
    SortedUnique(FlipIn(Listing(t), b, v), Listing(SetStatus(t, b, v)));
  }

  /** Changing a row's flag does not change which row a name query finds first, up to that flag. */
  lemma FirstMatchIgnoresStatus(t: Table, b: string, v: bool, q: string)
    requires WellFormed(t)
    ensures var t' := SetStatus(t, b, v);
      && (FirstMatch(t', q).Some? <==> FirstMatch(t, q).Some?)
      && (FirstMatch(t, q).Some? ==> FirstMatch(t', q).value.basename == FirstMatch(t, q).value.basename)
  {
    var t' := SetStatus(t, b, v);
    var r := FirstMatch(t, q);
    var r' := if r.Some? then Some(t'.rows[r.value.basename]) else None;
    forall c | c in t'.rows ensures t'.rows[c].appName == t.rows[c].appName && t'.rows[c].id == t.rows[c].id {
    }
    assert IsFirstMatch(t', q, r');
    FirstMatchUnique(t', q, r', FirstMatch(t', q));
  }

  /** Changing a row's flag does not change which basename an identifier resolves to. */
  lemma ResolveIgnoresStatus(t: Table, b: string, v: bool, ident: string)
    requires WellFormed(t)
    ensures var t' := SetStatus(t, b, v);
      && (Resolve(t', ident).Some? <==> Resolve(t, ident).Some?)
      && (Resolve(t, ident).Some? ==> Resolve(t', ident).value.basename == Resolve(t, ident).value.basename)
  {
    match Classify(ident)
    case ByPosition(n) =>
      ListingIgnoresStatus(t, b, v);
    case ByName(q) =>
      FirstMatchIgnoresStatus(t, b, v, q);
  }

  /** Unsetting twice: the second call reports that the application was not customized and changes nothing. */
  lemma UnsetTwiceReportsNotCustomized(t: Table, d: Disk, cfg: Config, ident: string)
    requires WellFormed(t)
    requires UnsetStep(t, d, cfg, ident).outcome.Done?
    ensures var s1 := UnsetStep(t, d, cfg, ident);
      WellFormed(s1.table) &&
      var s2 := UnsetStep(s1.table, s1.disk, cfg, ident);
      s2.outcome.Failed? && s2.outcome.failure.NotCustomized? && s2.table == s1.table && s2.disk == s1.disk
  {
    var app := Resolve(t, ident).value;
    ResolveIgnoresStatus(t, app.basename, false, ident);
  }

  /**
   * Set then unset, on an identifier that still names the same basename:
   * the override is gone and the row is no longer marked customized.
   */
  lemma SetThenUnset(t: Table, d: Disk, cfg: Config, ident: string)
    requires WellFormed(t)
    requires SetApplies(t, d, ident)
    requires var s1 := SetStep(t, d, cfg, ident);
      WellFormed(s1.table) && Resolve(s1.table, ident).Some? &&
      Resolve(s1.table, ident).value.basename == Resolve(t, ident).value.basename
    ensures var s1 := SetStep(t, d, cfg, ident);
      var s2 := UnsetStep(s1.table, s1.disk, cfg, ident);
      var b := Resolve(t, ident).value.basename;
      && s2.outcome.Done?
      && CustomPath(cfg, b) !in s2.disk.files
      && b in s2.table.rows && !s2.table.rows[b].isCustomized
  {
    var s1 := SetStep(t, d, cfg, ident);
    SetStepWrites(t, d, cfg, ident);
    SetKeepsRows(t, d, cfg, ident);
    ResolveInTable(s1.table, ident);
  }

  /**
   * Unset does not rescan: a row that pointed at its override still points
   * at the deleted file, so setting it again reads nothing and reports an
   * invalid definition until some later scan repairs the path.
   */
  lemma SetAfterUnsetReadsRemovedOverride(t: Table, d: Disk, cfg: Config, ident: string)
    requires WellFormed(t)
    requires UnsetStep(t, d, cfg, ident).outcome.Done?
    requires Resolve(t, ident).value.fullPath == CustomPath(cfg, Resolve(t, ident).value.basename)
    ensures var s1 := UnsetStep(t, d, cfg, ident);
      WellFormed(s1.table) &&
      var s2 := SetStep(s1.table, s1.disk, cfg, ident);
      && s2.outcome == Failed(InvalidDefinition(CustomPath(cfg, Resolve(t, ident).value.basename)))
      && s2.table == s1.table && s2.disk == s1.disk
  {
    var app := Resolve(t, ident).value;
    var s1 := UnsetStep(t, d, cfg, ident);
    UnsetStepOutcomes(t, d, cfg, ident);
    ResolveIgnoresStatus(t, app.basename, false, ident);
    ResolveInTable(s1.table, ident);
    assert Lookup(s1.disk, CustomPath(cfg, app.basename)) == None;
  }
}
