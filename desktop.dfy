/**
 * Launcher (`.desktop`) entries: the keep/skip decision `_parse_and_store`
 * makes for one parsed file, the INI boolean rule it relies on, and the
 * override content `set_nvidia` writes.
 */
module Desktop {
  import opened Options
  import opened Text
  import opened Files
  import opened Registry

  const DesktopEntry := "Desktop Entry"
  const GpuKey := "PrefersNonDefaultGPU"
  const DesktopSuffix := ".desktop"

  /** `getboolean(key, fallback=False)`: a boolean, or the `ValueError` it raises. */
  datatype BoolValue = Bool(b: bool) | NotBoolean

  /** The INI boolean words, compared without ASCII case; a missing key reads as false. */
  function GetBoolean(e: map<string, string>, key: string): (r: BoolValue)
    ensures key !in e ==> r == Bool(false)
    ensures key in e && Fold(e[key]) == "true" ==> r == Bool(true)
    ensures key in e && Fold(e[key]) == "" ==> r == NotBoolean
  {
    if key !in e then Bool(false)
    else
      var v := Fold(e[key]);
      if v in {"1", "yes", "true", "on"} then Bool(true)
      else if v in {"0", "no", "false", "off"} then Bool(false)
      else NotBoolean
  }

  /** `entry.get(key)`. */
  function Get(e: map<string, string>, key: string): Option<string> {
    if key in e then Some(e[key]) else None
  }

  /** The `[Desktop Entry]` section of what `parser.read` produced, if there is one. */
  function EntrySection(content: Option<Content>): Option<map<string, string>> {
    match content
    case Some(Entries(s)) => if DesktopEntry in s then Some(s[DesktopEntry]) else None
    case _ => None
  }

  /**
   * What `_parse_and_store` stores for the file `path` chosen for `basename`
   * (`None`: it stores nothing). Every exception the Python code swallows
   * is a `None` here: a malformed file and a non-boolean flag that is read.
   */
  function ParseEntry(basename: string, path: FilePath, content: Option<Content>, userRoot: string): (r: Option<AppData>)
    ensures EntrySection(content).None? ==> r.None?
    ensures r.Some? ==>
      var e := EntrySection(content).value;
      && "Name" in e && e["Name"] != ""
      && GetBoolean(e, "NoDisplay") == Bool(false)
      && r.value == AppData(basename, path, e["Name"], Get(e, "Comment"), Get(e, "Exec"),
                            path.dir == userRoot || GetBoolean(e, GpuKey) == Bool(true))
    ensures r.None? && EntrySection(content).Some? ==>
      var e := EntrySection(content).value;
      || "Name" !in e || e["Name"] == ""
      || GetBoolean(e, "NoDisplay") != Bool(false)
      || (path.dir != userRoot && GetBoolean(e, GpuKey) == NotBoolean)
  {
    match EntrySection(content)
    case None => None
    case Some(e) =>
      if "Name" !in e || e["Name"] == "" then None
      else match GetBoolean(e, "NoDisplay")
        case NotBoolean => None
        case Bool(hidden) =>
          if hidden then None
          else
            var inUserDir := path.dir == userRoot;
            if inUserDir then Some(AppData(basename, path, e["Name"], Get(e, "Comment"), Get(e, "Exec"), true))
            else match GetBoolean(e, GpuKey)
              case NotBoolean => None
              case Bool(flag) => Some(AppData(basename, path, e["Name"], Get(e, "Comment"), Get(e, "Exec"), flag))
  }

  /** The sections `set_nvidia` writes: the source's, with `PrefersNonDefaultGPU=true` in `[Desktop Entry]`. */
  function WithGpuFlag(s: map<string, map<string, string>>): (s': map<string, map<string, string>>)
    requires DesktopEntry in s
    ensures s'.Keys == s.Keys
    ensures forall k :: k in s && k != DesktopEntry ==> s'[k] == s[k]
    ensures s'[DesktopEntry].Keys == s[DesktopEntry].Keys + {GpuKey}
    ensures s'[DesktopEntry][GpuKey] == "true"
    ensures forall k :: k in s[DesktopEntry] && k != GpuKey ==> s'[DesktopEntry][k] == s[DesktopEntry][k]
  {
    s[DesktopEntry := s[DesktopEntry][GpuKey := "true"]]
  }

  /** In the written override the GPU flag reads as true. */
  lemma GpuFlagReadsTrue(s: map<string, map<string, string>>)
    requires DesktopEntry in s
    ensures GetBoolean(WithGpuFlag(s)[DesktopEntry], GpuKey) == Bool(true)
  {
    assert Fold("true") == "true";
  }

  /** Setting the flag on an override already carrying it changes nothing. */
  lemma WithGpuFlagIdempotent(s: map<string, map<string, string>>)
    requires DesktopEntry in s
    ensures WithGpuFlag(WithGpuFlag(s)) == WithGpuFlag(s)
  {
    var t := WithGpuFlag(s);
    assert t[DesktopEntry][GpuKey := "true"] == t[DesktopEntry];
    assert t[DesktopEntry := t[DesktopEntry]] == t;
  }

  /**
   * An override file in the user directory is stored exactly when its source
   * would pass the name and NoDisplay tests, with the source's name, comment
   * and command, and always as customized.
   */
  lemma {:induction false} OverrideEntry(b: string, src: map<string, map<string, string>>, custom: FilePath, userRoot: string)
    requires DesktopEntry in src
    requires custom.dir == userRoot
    ensures var e := src[DesktopEntry];
      var r := ParseEntry(b, custom, Some(Entries(WithGpuFlag(src))), userRoot);
      && (r.Some? <==> "Name" in e && e["Name"] != "" && GetBoolean(e, "NoDisplay") == Bool(false))
      && (r.Some? ==> r.value == AppData(b, custom, e["Name"], Get(e, "Comment"), Get(e, "Exec"), true))
  {
    var e := src[DesktopEntry];
    var e' := WithGpuFlag(src)[DesktopEntry];
    assert EntrySection(Some(Entries(WithGpuFlag(src)))) == Some(e');
    assert ("Name" in e' <==> "Name" in e) && ("Name" in e ==> e'["Name"] == e["Name"]);
    assert GetBoolean(e', "NoDisplay") == GetBoolean(e, "NoDisplay");
    assert Get(e', "Comment") == Get(e, "Comment") && Get(e', "Exec") == Get(e, "Exec");
  }
}
