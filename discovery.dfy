/**
 * Discovery (`scan_apps`): walk the system roots and then the user root,
 * map each `.desktop` basename to the last file seen with that name, then
 * parse each chosen file and upsert what it yields into the registry.
 */
module Discovery {
  import opened Options
  import opened Text
  import opened Files
  import opened Registry
  import opened Desktop

  /** Where to look: the system roots, lowest precedence first, and the user root. */
  datatype Config = Config(systemRoots: seq<string>, userRoot: string)

  const SystemRoots: seq<string> := [
    "/usr/share/applications",
    "/usr/local/share/applications",
    "/var/lib/snapd/desktop/applications",
    "/var/lib/flatpak/exports/share/applications"
  ]

  /** The configuration of the program, for a user whose home directory is `home`. */
  function Standard(home: string): Config {
    Config(SystemRoots, home + "/.local/share/applications")
  }

  /** The override file for a basename: that name inside the user root. */
  function CustomPath(cfg: Config, basename: string): FilePath {
    FilePath(cfg.userRoot, basename)
  }

  predicate IsDesktop(name: string) {
    EndsWith(name, DesktopSuffix)
  }

  /**
   * The `definitive_apps` dictionary: its keys in insertion order, and the
   * path each key maps to.
   */
  datatype Resolution = Resolution(order: seq<string>, paths: map<string, FilePath>)

  /** Keys are listed once each, in insertion order; each maps to a `.desktop` file of that name. */
  ghost predicate Consistent(r: Resolution) {
    && (forall i, j :: 0 <= i < j < |r.order| ==> r.order[i] != r.order[j])
    && (forall b :: b in r.order <==> b in r.paths)
    && (forall b :: b in r.paths ==> r.paths[b].name == b && IsDesktop(b))
  }

  /** `if file.endswith(".desktop"): definitive_apps[file] = path`. */
  function Assign(r: Resolution, p: FilePath): Resolution {
    if IsDesktop(p.name) then
      Resolution(if p.name in r.paths then r.order else r.order + [p.name], r.paths[p.name := p])
    else r
  }

  /** Assigning every file of `files` in turn. */
  function AssignAll(r: Resolution, files: seq<FilePath>): (r': Resolution)
    requires Consistent(r)
    ensures Consistent(r')
    ensures r.paths.Keys <= r'.paths.Keys
  {
    if files == [] then r else Assign(AssignAll(r, files[..|files| - 1]), files[|files| - 1])
  }

  /** The concatenated walks of the given system roots, in root order. */
  function SystemWalks(d: Disk, roots: seq<string>): seq<FilePath> {
    if roots == [] then [] else SystemWalks(d, roots[..|roots| - 1]) + Walk(d, roots[|roots| - 1])
  }

  /** The files scanned, in the order `scan_apps` visits them: the system roots, then the user root. */
  function AllWalks(d: Disk, cfg: Config): seq<FilePath> {
    SystemWalks(d, cfg.systemRoots) + Walk(d, cfg.userRoot)
  }

  const Empty := Resolution([], map[])

  /** The `definitive_apps` dictionary after both walking loops. */
  function Definitive(d: Disk, cfg: Config): (r: Resolution)
    ensures Consistent(r)
  {
    AssignAll(Empty, AllWalks(d, cfg))
  }

  lemma {:induction false} AssignAllAppend(r: Resolution, a: seq<FilePath>, b: seq<FilePath>)
    requires Consistent(r)
    ensures AssignAll(r, a + b) == AssignAll(AssignAll(r, a), b)
    decreases |b|
  {
    if b == [] {
      assert a + b == a;
    } else {
      assert (a + b)[..|a + b| - 1] == a + b[..|b| - 1];
      AssignAllAppend(r, a, b[..|b| - 1]);
    }
  }

  /** A basename is mapped after the walk exactly when it was mapped before or a `.desktop` file of that name was walked. */
  lemma {:induction false} AssignAllKeys(r: Resolution, files: seq<FilePath>, b: string)
    requires Consistent(r)
    ensures b in AssignAll(r, files).paths <==> b in r.paths || exists p :: p in files && p.name == b && IsDesktop(b)
  {
    if files != [] {
      var init := files[..|files| - 1];
      AssignAllKeys(r, init, b);
      assert files == init + [files[|files| - 1]];
      if exists p :: p in files && p.name == b && IsDesktop(b) {
        var p :| p in files && p.name == b && IsDesktop(b);
        if p != files[|files| - 1] { assert p in init; }
      }
    }
  }

  /** A basename that none of `files` carries keeps what it was mapped to. */
  lemma {:induction false} AssignAllUntouched(r: Resolution, files: seq<FilePath>, b: string)
    requires Consistent(r)
    requires forall p :: p in files ==> p.name != b
    ensures b in AssignAll(r, files).paths <==> b in r.paths
    ensures b in r.paths ==> AssignAll(r, files).paths[b] == r.paths[b]
  {
    if files != [] {
      AssignAllUntouched(r, files[..|files| - 1], b);
    }
  }

  /** A basename that some `.desktop` file of `files` carries is mapped to one of those files. */
  lemma {:induction false} AssignAllFromFiles(r: Resolution, files: seq<FilePath>, b: string)
    requires Consistent(r)
    requires exists p :: p in files && p.name == b && IsDesktop(b)
    ensures b in AssignAll(r, files).paths
    ensures AssignAll(r, files).paths[b] in files && AssignAll(r, files).paths[b].name == b
  {
    var init := files[..|files| - 1];
    var last := files[|files| - 1];
    assert files == init + [last];
    if last.name != b {
      var p :| p in files && p.name == b && IsDesktop(b);
      assert p in init;
      AssignAllFromFiles(r, init, b);
    }
  }

  /** When a `.desktop` file named `b` lies in the last stretch of a walk, that stretch decides `b`. */
  lemma LastStretchDecides(r: Resolution, front: seq<FilePath>, back: seq<FilePath>, s: FilePath)
    requires Consistent(r)
    requires s in back && IsDesktop(s.name)
    ensures s.name in AssignAll(r, front + back).paths
    ensures var q := AssignAll(r, front + back).paths[s.name]; q in back && q.name == s.name
  {
    AssignAllAppend(r, front, back);
    AssignAllFromFiles(AssignAll(r, front), back, s.name);
  }

  /** A `.desktop` file in the last stretch of the user root's walk decides its basename, from within that stretch. */
  lemma UserWalkTailDecides(d: Disk, cfg: Config, front: seq<FilePath>, back: seq<FilePath>, s: FilePath)
    requires Walk(d, cfg.userRoot) == front + back
    requires s in back && IsDesktop(s.name)
    ensures s.name in Definitive(d, cfg).paths
    ensures var q := Definitive(d, cfg).paths[s.name]; q in back && q.name == s.name
  {
    var sys := SystemWalks(d, cfg.systemRoots);
    assert AllWalks(d, cfg) == (sys + front) + back;
    LastStretchDecides(Empty, sys + front, back, s);
  }

  /**
   * User precedence: a basename with a `.desktop` file under the user root
   * resolves to a file under the user root, whatever the system roots hold.
   */
  lemma UserRootWins(d: Disk, cfg: Config, p: FilePath)
    requires p in Walk(d, cfg.userRoot) && IsDesktop(p.name)
    ensures p.name in Definitive(d, cfg).paths
    ensures var q := Definitive(d, cfg).paths[p.name];
      q.name == p.name && q in d.files && Under(q.dir, cfg.userRoot)
  {
    var sys := SystemWalks(d, cfg.systemRoots);
    AssignAllAppend(Empty, sys, Walk(d, cfg.userRoot));
    AssignAllFromFiles(AssignAll(Empty, sys), Walk(d, cfg.userRoot), p.name);
  }

  lemma {:induction false} SystemWalksSplit(d: Disk, roots: seq<string>, k: nat)
    requires k <= |roots|
    ensures SystemWalks(d, roots) == SystemWalks(d, roots[..k]) + SystemWalks(d, roots[k..])
    decreases |roots|
  {
    if k < |roots| {
      var init := roots[..|roots| - 1];
      SystemWalksSplit(d, init, k);
      assert init[..k] == roots[..k];
      assert roots[k..] == init[k..] + [roots[|roots| - 1]];
      var tail := roots[k..];
      assert tail[..|tail| - 1] == init[k..];
    } else {
      assert roots[..k] == roots;
    }
  }

  lemma {:induction false} SystemWalksMembers(d: Disk, roots: seq<string>, p: FilePath)
    ensures p in SystemWalks(d, roots) <==> exists i :: 0 <= i < |roots| && p in Walk(d, roots[i])
  {
    if roots != [] {
      var init := roots[..|roots| - 1];
      SystemWalksMembers(d, init, p);
      if p in SystemWalks(d, init) {
        var i :| 0 <= i < |init| && p in Walk(d, init[i]);
        assert roots[i] == init[i];
      }
      if exists i :: 0 <= i < |roots| && p in Walk(d, roots[i]) {
        var i :| 0 <= i < |roots| && p in Walk(d, roots[i]);
        if i < |init| { assert init[i] == roots[i]; }
      }
    }
  }

  /** The walks split around system root `k`: the roots before it, it, and everything after it. */
  lemma AllWalksAround(d: Disk, cfg: Config, k: nat)
    requires k < |cfg.systemRoots|
    ensures var roots := cfg.systemRoots;
      AllWalks(d, cfg) == (SystemWalks(d, roots[..k]) + Walk(d, roots[k])) + (SystemWalks(d, roots[k + 1..]) + Walk(d, cfg.userRoot))
  {
    var roots := cfg.systemRoots;
    var upTo := roots[..k + 1];
    assert upTo[..|upTo| - 1] == roots[..k];
    SystemWalksSplit(d, roots, k + 1);
  }

  /** No file walked after system root `k` carries the basename `b`. */
  lemma LaterWalksMiss(d: Disk, cfg: Config, k: nat, b: string)
    requires k < |cfg.systemRoots|
    requires forall j, q :: k < j < |cfg.systemRoots| && q in Walk(d, cfg.systemRoots[j]) ==> q.name != b
    requires forall q :: q in Walk(d, cfg.userRoot) ==> q.name != b
    ensures forall q :: q in SystemWalks(d, cfg.systemRoots[k + 1..]) + Walk(d, cfg.userRoot) ==> q.name != b
  {
    var later := cfg.systemRoots[k + 1..];
    forall q | q in SystemWalks(d, later) ensures q.name != b {
      SystemWalksMembers(d, later, q);
      var i :| 0 <= i < |later| && q in Walk(d, later[i]);
      assert later[i] == cfg.systemRoots[k + 1 + i];
    }
  }

  /**
   * System precedence: a basename absent from the user root resolves to a
   * file of the last system root that has a `.desktop` file of that name.
   */
  lemma LastSystemRootWins(d: Disk, cfg: Config, k: nat, p: FilePath)
    requires k < |cfg.systemRoots|
    requires p in Walk(d, cfg.systemRoots[k]) && IsDesktop(p.name)
    requires forall j, q :: k < j < |cfg.systemRoots| && q in Walk(d, cfg.systemRoots[j]) ==> q.name != p.name
    requires forall q :: q in Walk(d, cfg.userRoot) ==> q.name != p.name
    ensures p.name in Definitive(d, cfg).paths
    ensures var q := Definitive(d, cfg).paths[p.name];
      q.name == p.name && q in Walk(d, cfg.systemRoots[k])
  {
    var roots := cfg.systemRoots;
    var b := p.name;
    var before, at := SystemWalks(d, roots[..k]), Walk(d, roots[k]);
    var after := SystemWalks(d, roots[k + 1..]) + Walk(d, cfg.userRoot);
    AllWalksAround(d, cfg, k);
    LaterWalksMiss(d, cfg, k, b);
    var mid := AssignAll(Empty, before);
    AssignAllFromFiles(mid, at, b);
    AssignAllUntouched(AssignAll(mid, at), after, b);
    AssignAllAppend(Empty, before, at);
    AssignAllAppend(Empty, before + at, after);
  }

  /**
   * The scan counts every distinct `.desktop` basename it walked over,
   * stored or not, and nothing else.
   */
  lemma DefinitiveKeys(d: Disk, cfg: Config, b: string)
    ensures b in Definitive(d, cfg).paths <==> IsDesktop(b) && exists p :: p in AllWalks(d, cfg) && p.name == b
  {
    AssignAllKeys(Empty, AllWalks(d, cfg), b);
  }

  lemma {:induction false} DistinctLength(s: seq<string>, S: set<string>)
    requires forall i, j :: 0 <= i < j < |s| ==> s[i] != s[j]
    requires forall b :: b in s <==> b in S
    ensures |s| == |S|
    decreases |s|
  {
    if s != [] {
      var last := s[|s| - 1];
      var init := s[..|s| - 1];
      assert last !in init;
      forall b ensures b in init <==> b in S - {last} {
        if b in s && b != last { var i :| 0 <= i < |s| && s[i] == b; assert init[i] == b; }
      }
      DistinctLength(init, S - {last});
    }
  }

  /** The keys, in insertion order, number as many as the distinct basenames. */
  lemma OrderCountsKeys(r: Resolution)
    requires Consistent(r)
    ensures |r.order| == |r.paths|
  {
    DistinctLength(r.order, r.paths.Keys);
  }

  // ---------------------------------------------------------------------------
  // Storing the parsed entries.

  /** What `_parse_and_store` upserts for the keys `keys` of `r`, in order (skipped files give nothing). */
  function StoredOf(r: Resolution, keys: seq<string>, d: Disk, userRoot: string): (ds: seq<AppData>)
    requires forall b :: b in keys ==> b in r.paths
    ensures forall x :: x in ds ==> x.basename in keys
    ensures forall x :: x in ds ==> Some(x) == ParseEntry(x.basename, r.paths[x.basename], Lookup(d, r.paths[x.basename]), userRoot)
    ensures forall b :: b in keys && ParseEntry(b, r.paths[b], Lookup(d, r.paths[b]), userRoot).Some? ==> exists x :: x in ds && x.basename == b
    ensures (forall i, j :: 0 <= i < j < |keys| ==> keys[i] != keys[j]) ==> UniqueBasenames(ds)
  {
    if keys == [] then []
    else
      var init := keys[..|keys| - 1];
      var b := keys[|keys| - 1];
      var rest := StoredOf(r, init, d, userRoot);
      assert keys == init + [b];
      match ParseEntry(b, r.paths[b], Lookup(d, r.paths[b]), userRoot)
      case None => rest
      case Some(x) => rest + [x]
  }

  predicate UniqueBasenames(ds: seq<AppData>) {
    forall i, j :: 0 <= i < j < |ds| ==> ds[i].basename != ds[j].basename
  }

  /** Everything `scan_apps` upserts, in the order it upserts it. */
  function Stored(d: Disk, cfg: Config): (ds: seq<AppData>)
    ensures UniqueBasenames(ds)
  {
    var r := Definitive(d, cfg);
    StoredOf(r, r.order, d, cfg.userRoot)
  }

  /** Upserting every entry of `ds` in turn. */
  function UpsertAll(t: Table, ds: seq<AppData>): (t': Table)
    ensures WellFormed(t) ==> WellFormed(t')
  {
    if ds == [] then t else Upsert(UpsertAll(t, ds[..|ds| - 1]), ds[|ds| - 1])
  }

  /** The registry after `_parse_and_store` has run on the first `i` resolved basenames, in resolution order. */
  function Scanned(t: Table, r: Resolution, i: nat, d: Disk, userRoot: string): (t': Table)
    requires Consistent(r) && i <= |r.order|
    ensures WellFormed(t) ==> WellFormed(t')
  {
    if i == 0 then t
    else
      var b := r.order[i - 1];
      StoreStep(Scanned(t, r, i - 1, d, userRoot), b, r.paths[b], d, userRoot)
  }

  /** The registry after `scan_apps`: every resolved basename parsed and stored, in resolution order. */
  function ScanTable(t: Table, d: Disk, cfg: Config): (t': Table)
    ensures WellFormed(t) ==> WellFormed(t')
  {
    var r := Definitive(d, cfg);
    Scanned(t, r, |r.order|, d, cfg.userRoot)
  }

  lemma {:induction false} ScannedIsUpsertAll(t: Table, r: Resolution, i: nat, d: Disk, userRoot: string)
    requires Consistent(r) && i <= |r.order|
    ensures Scanned(t, r, i, d, userRoot) == UpsertAll(t, StoredOf(r, r.order[..i], d, userRoot))
  {
    if i > 0 {
      ScannedIsUpsertAll(t, r, i - 1, d, userRoot);
      StoreOneMore(t, r, d, userRoot, i - 1);
    }
  }

  /** The scan upserts the list of everything it stores, one entry after the other. */
  lemma ScanTableIsUpsertAll(t: Table, d: Disk, cfg: Config)
    ensures ScanTable(t, d, cfg) == UpsertAll(t, Stored(d, cfg))
  {
    var r := Definitive(d, cfg);
    ScannedIsUpsertAll(t, r, |r.order|, d, cfg.userRoot);
    assert r.order[..|r.order|] == r.order;
  }

  /** Whether some entry of `ds` is for the basename `b`. */
  predicate Names(ds: seq<AppData>, b: string) {
    exists i :: 0 <= i < |ds| && ds[i].basename == b
  }

  /** Upserting adds the rows it names and removes none. */
  lemma {:induction false} UpsertAllKeys(t: Table, ds: seq<AppData>, b: string)
    ensures b in UpsertAll(t, ds).rows <==> b in t.rows || Names(ds, b)
  {
    if ds != [] {
      var init, last := ds[..|ds| - 1], ds[|ds| - 1];
      UpsertAllKeys(t, init, b);
      assert b in UpsertAll(t, ds).rows <==> b in UpsertAll(t, init).rows || b == last.basename;
      NamesSplit(ds, b);
    }
  }

  lemma NamesSplit(ds: seq<AppData>, b: string)
    requires ds != []
    ensures Names(ds, b) <==> Names(ds[..|ds| - 1], b) || b == ds[|ds| - 1].basename
  {
    var init := ds[..|ds| - 1];
    if Names(init, b) {
      var i :| 0 <= i < |init| && init[i].basename == b;
      assert ds[i] == init[i];
    }
    if Names(ds, b) && b != ds[|ds| - 1].basename {
      var i :| 0 <= i < |ds| && ds[i].basename == b;
      assert i < |init|;
      assert init[i] == ds[i];
    }
  }

  /** Upserting keeps the id of every row already present. */
  lemma {:induction false} UpsertAllKeepsIds(t: Table, ds: seq<AppData>, b: string)
    requires b in t.rows
    ensures b in UpsertAll(t, ds).rows && UpsertAll(t, ds).rows[b].id == t.rows[b].id
  {
    if ds != [] {
      UpsertAllKeepsIds(t, ds[..|ds| - 1], b);
    }
  }

  /** A row that no upserted entry names is left as it was. */
  lemma {:induction false} UpsertAllUntouched(t: Table, ds: seq<AppData>, b: string)
    requires b in t.rows
    requires forall x :: x in ds ==> x.basename != b
    ensures b in UpsertAll(t, ds).rows && UpsertAll(t, ds).rows[b] == t.rows[b]
  {
    if ds != [] {
      UpsertAllUntouched(t, ds[..|ds| - 1], b);
      assert ds[|ds| - 1] in ds;
    }
  }

  /** With distinct basenames, every entry upserted is in the table afterwards as written. */
  lemma {:induction false} UpsertAllCarries(t: Table, ds: seq<AppData>)
    requires UniqueBasenames(ds)
    ensures forall x :: x in ds ==> x.basename in UpsertAll(t, ds).rows && Carries(UpsertAll(t, ds).rows[x.basename], x)
  {
    if ds != [] {
      var init := ds[..|ds| - 1];
      var last := ds[|ds| - 1];
      UpsertAllCarries(t, init);
      forall x | x in ds ensures x.basename in UpsertAll(t, ds).rows && Carries(UpsertAll(t, ds).rows[x.basename], x) {
        if x != last {
          var i :| 0 <= i < |ds| && ds[i] == x;
          assert i < |ds| - 1 && init[i] == x;
        }
      }
    }
  }

  /** Upserting what the table already carries changes nothing. */
  lemma {:induction false} UpsertAllNoChange(t: Table, ds: seq<AppData>)
    requires forall x :: x in ds ==> x.basename in t.rows && Carries(t.rows[x.basename], x)
    ensures UpsertAll(t, ds) == t
  {
    if ds != [] {
      var init := ds[..|ds| - 1];
      var x := ds[|ds| - 1];
      UpsertAllNoChange(t, init);
      assert t.rows[x.basename := t.rows[x.basename]] == t.rows;
    }
  }

  /**
   * What a scan does to one basename: a winning file that parses is stored
   * (an existing row keeps its id); any other basename keeps its row, or
   * its absence.
   */
  lemma ScanTableRow(t: Table, d: Disk, cfg: Config, b: string)
    ensures var t' := ScanTable(t, d, cfg);
      var r := Definitive(d, cfg);
      if b in r.paths && ParseEntry(b, r.paths[b], Lookup(d, r.paths[b]), cfg.userRoot).Some? then
        && b in t'.rows
        && Some(t'.rows[b]) == (var x := ParseEntry(b, r.paths[b], Lookup(d, r.paths[b]), cfg.userRoot).value;
                                Some(AppRow(t'.rows[b].id, b, x.fullPath, x.appName, x.appComment, x.appExec, x.isCustomized)))
        && (b in t.rows ==> t'.rows[b].id == t.rows[b].id)
      else
        && (b in t'.rows <==> b in t.rows)
        && (b in t.rows ==> t'.rows[b] == t.rows[b])
  {
    ScanTableIsUpsertAll(t, d, cfg);
    var r := Definitive(d, cfg);
    if b in r.paths && ParseEntry(b, r.paths[b], Lookup(d, r.paths[b]), cfg.userRoot).Some? {
      UpsertAllStoresRow(t, d, cfg, b);
    } else {
      UpsertAllSkipsRow(t, d, cfg, b);
    }
  }

  lemma UpsertAllStoresRow(t: Table, d: Disk, cfg: Config, b: string)
    requires var r := Definitive(d, cfg);
      b in r.paths && ParseEntry(b, r.paths[b], Lookup(d, r.paths[b]), cfg.userRoot).Some?
    ensures var t' := UpsertAll(t, Stored(d, cfg));
      var r := Definitive(d, cfg);
      var x := ParseEntry(b, r.paths[b], Lookup(d, r.paths[b]), cfg.userRoot).value;
      && b in t'.rows
      && Carries(t'.rows[b], x)
      && (b in t.rows ==> t'.rows[b].id == t.rows[b].id)
  {
    var ds := Stored(d, cfg);
    UpsertAllCarries(t, ds);
    if b in t.rows { UpsertAllKeepsIds(t, ds, b); }
    var x :| x in ds && x.basename == b;
  }

  lemma UpsertAllSkipsRow(t: Table, d: Disk, cfg: Config, b: string)
    requires var r := Definitive(d, cfg);
      !(b in r.paths && ParseEntry(b, r.paths[b], Lookup(d, r.paths[b]), cfg.userRoot).Some?)
    ensures var t' := UpsertAll(t, Stored(d, cfg));
      && (b in t'.rows <==> b in t.rows)
      && (b in t.rows ==> t'.rows[b] == t.rows[b])
  {
    var ds := Stored(d, cfg);
    UpsertAllKeys(t, ds, b);
    if b in t.rows {
      assert !Names(ds, b);
      UpsertAllUntouched(t, ds, b);
    }
  }

  /** Scanning an unchanged disk a second time changes nothing. */
  lemma ScanIdempotent(t: Table, d: Disk, cfg: Config)
    ensures ScanTable(ScanTable(t, d, cfg), d, cfg) == ScanTable(t, d, cfg)
  {
    var ds := Stored(d, cfg);
    ScanTableIsUpsertAll(t, d, cfg);
    ScanTableIsUpsertAll(ScanTable(t, d, cfg), d, cfg);
    UpsertAllCarries(t, ds);
    UpsertAllNoChange(ScanTable(t, d, cfg), ds);
  }

  /** The scan never removes a row, in particular not the row of a file that left the disk. */
  lemma ScanKeepsRows(t: Table, d: Disk, cfg: Config)
    ensures t.rows.Keys <= ScanTable(t, d, cfg).rows.Keys
  {
    ScanTableIsUpsertAll(t, d, cfg);
    forall b | b in t.rows ensures b in ScanTable(t, d, cfg).rows {
      UpsertAllKeys(t, Stored(d, cfg), b);
    }
  }

  // ---------------------------------------------------------------------------
  // The scan itself.

  /** One walk's inner loop: `definitive_apps[file] = path` for every `.desktop` file. */
  method AssignFiles(order: seq<string>, paths: map<string, FilePath>, files: seq<FilePath>)
    returns (order': seq<string>, paths': map<string, FilePath>)
    requires Consistent(Resolution(order, paths))
    ensures Resolution(order', paths') == AssignAll(Resolution(order, paths), files)
  {
    order', paths' := order, paths;
    for j := 0 to |files|
      invariant Resolution(order', paths') == AssignAll(Resolution(order, paths), files[..j])
    {
      var p := files[j];
      assert files[..j + 1][..j] == files[..j];
      if EndsWith(p.name, DesktopSuffix) {
        if p.name !in paths' {
          order' := order' + [p.name];
        }
        paths' := paths'[p.name := p];
      }
    }
    assert files[..|files|] == files;
  }

  /** The two walking loops of `scan_apps`: system roots in order, then the user root. */
  method CollectDefinitive(fs: FileSystem, cfg: Config) returns (defs: Resolution)
    ensures defs == Definitive(fs.State(), cfg)
    ensures Consistent(defs)
  {
    var d := fs.State();
    var roots := cfg.systemRoots;
    var order: seq<string>, paths: map<string, FilePath> := [], map[];
    for r := 0 to |roots|
      invariant Resolution(order, paths) == AssignAll(Empty, SystemWalks(d, roots[..r]))
    {
      var files := Walk(d, roots[r]);
      assert roots[..r + 1][..r] == roots[..r];
      AssignAllAppend(Empty, SystemWalks(d, roots[..r]), files);
      order, paths := AssignFiles(order, paths, files);
    }
    assert roots[..|roots|] == roots;
    var files := Walk(d, cfg.userRoot);
    AssignAllAppend(Empty, SystemWalks(d, roots), files);
    order, paths := AssignFiles(order, paths, files);
    defs := Resolution(order, paths);
  }

  /** The table after `_parse_and_store` on `basename` at `path`: upserted with what the file yields, or unchanged. */
  function StoreStep(t: Table, basename: string, path: FilePath, d: Disk, userRoot: string): Table {
    match ParseEntry(basename, path, Lookup(d, path), userRoot)
    case None => t
    case Some(x) => Upsert(t, x)
  }

  /** `_parse_and_store`: upsert what the file yields, or nothing; it never fails. */
  method ParseAndStore(db: Database, fs: FileSystem, userRoot: string, basename: string, path: FilePath)
    requires db.Valid()
    modifies db
    ensures db.Valid()
    ensures db.Snapshot() == StoreStep(old(db.Snapshot()), basename, path, fs.State(), userRoot)
  {
    var content := fs.Read(path);
    var entry := ParseEntry(basename, path, content, userRoot);
    if entry.Some? {
      db.UpsertApp(entry.value);
    }
  }

  lemma StoreOneMore(t: Table, r: Resolution, d: Disk, userRoot: string, i: nat)
    requires Consistent(r) && i < |r.order|
    ensures var b := r.order[i];
      var before := UpsertAll(t, StoredOf(r, r.order[..i], d, userRoot));
      UpsertAll(t, StoredOf(r, r.order[..i + 1], d, userRoot)) == StoreStep(before, b, r.paths[b], d, userRoot)
  {
    assert r.order[..i + 1][..i] == r.order[..i];
    var b := r.order[i];
    var prev := StoredOf(r, r.order[..i], d, userRoot);
    match ParseEntry(b, r.paths[b], Lookup(d, r.paths[b]), userRoot)
    case None =>
    case Some(x) => assert (prev + [x])[..|prev|] == prev;
  }

  /** The second half of `scan_apps`: `_parse_and_store` on every resolved basename, in resolution order. */
  method StoreAll(db: Database, fs: FileSystem, defs: Resolution, userRoot: string)
    requires db.Valid() && Consistent(defs)
    modifies db
    ensures db.Valid()
    ensures db.Snapshot() == Scanned(old(db.Snapshot()), defs, |defs.order|, fs.State(), userRoot)
  {
    ghost var t0 := db.Snapshot();
    for i := 0 to |defs.order|
      invariant db.Valid()
      invariant db.Snapshot() == Scanned(t0, defs, i, fs.State(), userRoot)
    {
      var b := defs.order[i];
      ParseAndStore(db, fs, userRoot, b, defs.paths[b]);
    }
  }

  /** `scan_apps`: store every resolved launcher and report how many basenames were found. */
  method ScanApps(db: Database, fs: FileSystem, cfg: Config) returns (count: nat)
    requires db.Valid()
    modifies db
    ensures db.Valid()
    ensures db.Snapshot() == ScanTable(old(db.Snapshot()), fs.State(), cfg)
    ensures count == |Definitive(fs.State(), cfg).paths|
  {
    var defs := CollectDefinitive(fs, cfg);
    StoreAll(db, fs, defs, cfg.userRoot);
    OrderCountsKeys(defs);
    count := |defs.order|;
  }
}
