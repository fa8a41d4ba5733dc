/**
 * The filesystem as the scanner and the override operations see it:
 * launcher files already parsed into sections, and the order in which a
 * directory walk (`os.walk`) enumerates them.
 */
module Files {
  import opened Options
  import opened Text

  /** A file path as `pathlib.Path` splits it: the parent directory and the file name. */
  datatype FilePath = FilePath(dir: string, name: string)

  /**
   * A launcher file after INI parsing: its sections, each a key/value map,
   * or `Malformed` when reading or parsing it raises (bad syntax, bad encoding).
   */
  datatype Content =
    | Entries(sections: map<string, map<string, string>>)
    | Malformed

  /**
   * The files on disk, and the enumeration order a directory walk follows.
   * `order` may mention paths that no longer exist; walks skip them.
   */
  datatype Disk = Disk(files: map<FilePath, Content>, order: seq<FilePath>)

  /** `dir` is a subdirectory of `parent`, at any depth. */
  predicate Below(dir: string, parent: string) {
    IsPrefix(parent + "/", dir)
  }

  /** `dir` is `root` itself or one of its subdirectories, as `os.walk(root)` reports them. */
  predicate Under(dir: string, root: string) {
    dir == root || Below(dir, root)
  }

  /** The files `os.walk(root)` yields, in walk order; a missing root yields nothing. */
  function Walk(d: Disk, root: string): (w: seq<FilePath>)
    ensures forall p :: p in w <==> p in d.order && p in d.files && Under(p.dir, root)
  {
    WalkOf(d.order, d.files, root)
  }

  function WalkOf(order: seq<FilePath>, files: map<FilePath, Content>, root: string): (w: seq<FilePath>)
    ensures forall p :: p in w <==> p in order && p in files && Under(p.dir, root)
  {
    if order == [] then []
    else
      var rest := WalkOf(order[..|order| - 1], files, root);
      var p := order[|order| - 1];
      assert order == order[..|order| - 1] + [p];
      if p in files && Under(p.dir, root) then rest + [p] else rest
  }

  /** What `parser.read(path)` sees: the content, or nothing for a missing file. */
  function Lookup(d: Disk, p: FilePath): Option<Content> {
    if p in d.files then Some(d.files[p]) else None
  }

  /**
   * Where a walk that lists a directory's own files before descending puts
   * a new file of `dir`: ahead of the first entry lying in a subdirectory of
   * `dir`, or at the end when there is none.
   */
  function SubdirStart(order: seq<FilePath>, dir: string): (k: nat)
    ensures k <= |order|
    ensures forall i :: 0 <= i < k ==> !Below(order[i].dir, dir)
    ensures k < |order| ==> Below(order[k].dir, dir)
  {
    if order == [] || Below(order[0].dir, dir) then 0
    else
      var k := 1 + SubdirStart(order[1..], dir);
      assert forall i :: 1 <= i < k ==> order[i] == order[1..][i - 1];
      k
  }

  /**
   * Opening `p` for writing and writing `c`. An existing entry keeps its
   * place in the walk; a new file is walked after the files already listed
   * before its directory's subdirectories and before every file in them,
   * as the top-down `os.walk` lists a directory's files before descending.
   */
  function WriteFile(d: Disk, p: FilePath, c: Content): (d': Disk)
    ensures d'.files == d.files[p := c]
    ensures p in d'.order
    ensures forall q :: q in d.order ==> q in d'.order
    ensures forall q :: q in d'.order ==> q in d.order || q == p
    ensures p in d.order ==> d'.order == d.order
    ensures p !in d.order ==>
      var k := SubdirStart(d.order, p.dir);
      d'.order == d.order[..k] + [p] + d.order[k..]
  {
    if p in d.order then Disk(d.files[p := c], d.order)
    else
      var k := SubdirStart(d.order, p.dir);
      assert d.order == d.order[..k] + d.order[k..];
      Disk(d.files[p := c], d.order[..k] + [p] + d.order[k..])
  }

  /** A walk over two stretches of the order is the walk of the first followed by that of the second. */
  lemma {:induction false} WalkOfAppend(a: seq<FilePath>, b: seq<FilePath>, files: map<FilePath, Content>, root: string)
    ensures WalkOf(a + b, files, root) == WalkOf(a, files, root) + WalkOf(b, files, root)
    decreases |b|
  {
    if b == [] {
      assert a + b == a;
    } else {
      var init := b[..|b| - 1];
      assert (a + b)[..|a + b| - 1] == a + init;
      WalkOfAppend(a, init, files, root);
    }
  }

  /** The walk of any root over a new file's order splits around the new file. */
  lemma WalkAroundNewFile(d: Disk, p: FilePath, c: Content, root: string)
    requires p !in d.order && Under(p.dir, root)
    ensures var d' := WriteFile(d, p, c);
      var k := SubdirStart(d.order, p.dir);
      Walk(d', root) == WalkOf(d.order[..k], d'.files, root) + [p] + WalkOf(d.order[k..], d'.files, root)
  {
    var d' := WriteFile(d, p, c);
    var k := SubdirStart(d.order, p.dir);
    var A, B := d.order[..k], d.order[k..];
    WalkOfAppend(A + [p], B, d'.files, root);
    WalkOfAppend(A, [p], d'.files, root);
    assert [p][..0] == [];
  }

  /** Every listed file in a subdirectory of `dir` lies from `SubdirStart` on. */
  lemma SubdirFilesAfterStart(order: seq<FilePath>, dir: string, s: FilePath)
    requires s in order && Below(s.dir, dir)
    ensures s in order[SubdirStart(order, dir)..]
  {
    var k := SubdirStart(order, dir);
    var i :| 0 <= i < |order| && order[i] == s;
    assert order[k..][i - k] == s;
  }

  /**
   * A file in a subdirectory of a new file's directory is walked after it:
   * the walk of any root splits around the new file, and the part after it
   * holds every such file and only files that were already on disk.
   */
  lemma NewFileWalkedFirst(d: Disk, p: FilePath, c: Content, root: string, s: FilePath)
    requires p !in d.order && Under(p.dir, root)
    requires s in d.order && s in d.files && Below(s.dir, p.dir) && Under(s.dir, root)
    ensures var d' := WriteFile(d, p, c);
      var k := SubdirStart(d.order, p.dir);
      var back := WalkOf(d.order[k..], d'.files, root);
      && Walk(d', root) == WalkOf(d.order[..k], d'.files, root) + [p] + back
      && s in back
      && forall q :: q in back ==> q in d.files && Under(q.dir, root)
  {
    var d' := WriteFile(d, p, c);
    var B := d.order[SubdirStart(d.order, p.dir)..];
    WalkAroundNewFile(d, p, c, root);
    SubdirFilesAfterStart(d.order, p.dir, s);
    forall q | q in WalkOf(B, d'.files, root) ensures q in d.files {
      assert q in d.order;
    }
  }

  /** `Path.unlink()`. */
  function RemoveFile(d: Disk, p: FilePath): (d': Disk)
    ensures p !in d'.files
    ensures forall q :: q != p ==> Lookup(d', q) == Lookup(d, q)
    ensures d'.order == d.order
  {
    Disk(d.files - {p}, d.order)
  }

  /** The mutable filesystem the override operations act on. */
  class FileSystem {
    var files: map<FilePath, Content>
    var order: seq<FilePath>

    function State(): Disk
      reads this
    {
      Disk(files, order)
    }

    constructor (d: Disk)
      ensures State() == d
    {
      files := d.files;
      order := d.order;
    }

    /** `Path.exists()`. */
    method Exists(p: FilePath) returns (b: bool)
      ensures b <==> p in files
    {
      b := p in files;
    }

    method Read(p: FilePath) returns (c: Option<Content>)
      ensures c == Lookup(State(), p)
    {
      c := if p in files then Some(files[p]) else None;
    }

    method Write(p: FilePath, c: Content)
      modifies this
      ensures State() == WriteFile(old(State()), p, c)
    {
      if p !in order {
        var k := SubdirStart(order, p.dir);
        order := order[..k] + [p] + order[k..];
      }
      files := files[p := c];
    }

    /** `Path.unlink()`, which raises on a missing file; callers check `Exists` first. */
    method Unlink(p: FilePath)
      requires p in files
      modifies this
      ensures State() == RemoveFile(old(State()), p)
    {
      files := files - {p};
    }
  }
}
