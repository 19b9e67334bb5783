/**
 * The output tree: an abstract filesystem, `create_symlink`, `os.makedirs`
 * and the per-language loop of `_process_media_file` that publishes one link
 * per language.
 */
module Links {
  import opened Text

  /** A non-directory entry: a symbolic link, or anything else (a regular file, say). */
  datatype Entry = Link(target: string) | Other

  /** Non-directory entries by path, and the set of directories. */
  datatype Disk = Disk(fs: map<string, Entry>, dirs: set<string>)

  /** No path is both a directory and another kind of entry. */
  predicate WellFormed(d: Disk)
  {
    d.fs.Keys !! d.dirs
  }

  /**
   * `os.path.exists`, as far as the outcome of the worker goes: a path that
   * names an entry, or a directory, also when written with a trailing `/`.
   */
  predicate Exists(d: Disk, p: string)
  {
    || p in d.fs
    || p in d.dirs
    || (|p| > 0 && p[|p| - 1] == '/' && p[..|p| - 1] in d.dirs)
  }

  /**
   * `create_symlink(src, dest)`: nothing when `dest` exists; otherwise a link
   * to `src`, unless the system refuses it (the error is caught and the disk is
   * left as it was). `refused` names the paths at which the system refuses to
   * create anything (permissions, a read-only filesystem).
   */
  function Symlink(d: Disk, src: string, dest: string, refused: set<string>): Disk
  {
    if Exists(d, dest) || dest in refused then d
    else d.(fs := d.fs[dest := Link(src)])
  }

  /** Some ancestor of `p`, the part before one of its `/`, is a non-directory entry. */
  predicate UnderNonDirectory(d: Disk, p: string)
  {
    exists k :: 0 < k < |p| && p[k] == '/' && p[..k] in d.fs
  }

  /**
   * When `os.makedirs(dir, exist_ok=True)` raises: `dir` is not already a
   * directory, and it is an existing non-directory, or lies below one, or the
   * system refuses to create it.
   */
  predicate MakeDirsRaises(d: Disk, dir: string, refused: set<string>)
  {
    dir !in d.dirs && (dir in d.fs || UnderNonDirectory(d, dir) || dir in refused)
  }

  datatype MadeDir = Made(disk: Disk) | Raised

  /** `os.makedirs(dir, exist_ok=True)`: afterwards `dir` is a directory, unless it raised. */
  function MakeDirs(d: Disk, dir: string, refused: set<string>): MadeDir
  {
    if MakeDirsRaises(d, dir, refused) then Raised else Made(d.(dirs := d.dirs + {dir}))
  }

  /** The outcome of the per-language loop: finished, or stopped by `os.makedirs` raising at `dir`. */
  datatype Publication = Published(disk: Disk) | Blocked(disk: Disk, dir: string)

  function LangDir(base: string, lang: string): string
  {
    Join(base, lang)
  }

  function LinkPath(base: string, lang: string, name: string): string
  {
    Join(LangDir(base, lang), name)
  }

  /** A link path is never another language's directory when languages are single components. */
  lemma LinkPathNotLangDir(base: string, l: string, l': string, name: string)
    requires '/' !in l'
    ensures LinkPath(base, l, name) != LangDir(base, l')
  {
    var a, b := LinkPath(base, l, name), LangDir(base, l');
    if |a| == |b| {
      var k := |base| + 1 + |l|;
      assert a[k] == '/';
      assert b[k] == l'[|l|];
      assert l'[|l|] in l';
    }
  }

  /** Different languages have different link paths. */
  lemma LinkPathsDiffer(base: string, l: string, l': string, name: string)
    ensures l != l' ==> LinkPath(base, l, name) != LinkPath(base, l', name)
  {
    if l != l' {
      var a, b := LinkPath(base, l, name), LinkPath(base, l', name);
      if |l| == |l'| {
        var i :| 0 <= i < |l| && l[i] != l'[i];
        assert a[|base| + 1 + i] == l[i];
        assert b[|base| + 1 + i] == l'[i];
      }
    }
  }

  /** The loop over the languages, in the order the list gives them. */
  function Publish(d: Disk, base: string, langs: seq<string>, name: string, src: string, refused: set<string>): Publication
    decreases |langs|
  {
    if langs == [] then Published(d)
    else
      var dir := LangDir(base, langs[0]);
      match MakeDirs(d, dir, refused)
      case Raised => Blocked(d, dir)
      case Made(d1) =>
        Publish(Symlink(d1, src, Join(dir, name), refused), base, langs[1..], name, src, refused)
  }

  function PublishedDisk(r: Publication): Disk
  {
    match r
    case Published(d) => d
    case Blocked(d, _) => d
  }

  /** The disk only grows: entries already there keep their contents, directories stay. */
  predicate Grows(d: Disk, d': Disk)
  {
    && d.dirs <= d'.dirs
    && (forall p :: p in d.fs ==> p in d'.fs && d'.fs[p] == d.fs[p])
  }

  lemma ExistsGrows(d: Disk, d': Disk, p: string)
    requires Grows(d, d') && Exists(d, p)
    ensures Exists(d', p)
  {
  }

  /**
   * What the loop changes: every entry already present is left as it was, every
   * directory stays; a new entry is a link to `src` at one language's link path,
   * and a new directory is one language's directory.
   */
  lemma {:induction false} PublishFrame(d: Disk, base: string, langs: seq<string>, name: string, src: string, refused: set<string>)
    requires WellFormed(d)
    ensures var d' := PublishedDisk(Publish(d, base, langs, name, src, refused));
      && WellFormed(d')
      && Grows(d, d')
      && (forall p :: p in d'.fs && p !in d.fs ==>
            d'.fs[p] == Link(src) && p !in refused && exists l :: l in langs && p == LinkPath(base, l, name))
      && (forall x :: x in d'.dirs && x !in d.dirs ==> exists l :: l in langs && x == LangDir(base, l))
    decreases |langs|
  {
    if langs != [] {
      var dir := LangDir(base, langs[0]);
      if !MakeDirsRaises(d, dir, refused) {
        var d1 := d.(dirs := d.dirs + {dir});
        var d2 := Symlink(d1, src, Join(dir, name), refused);
        PublishFrame(d2, base, langs[1..], name, src, refused);
        var d' := PublishedDisk(Publish(d2, base, langs[1..], name, src, refused));
        assert PublishedDisk(Publish(d, base, langs, name, src, refused)) == d';
        forall p | p in d'.fs && p !in d.fs
          ensures d'.fs[p] == Link(src) && p !in refused && exists l :: l in langs && p == LinkPath(base, l, name)
        {
          if p in d2.fs {
            assert p == LinkPath(base, langs[0], name);
          } else {
            var l :| l in langs[1..] && p == LinkPath(base, l, name);
            assert l in langs;
          }
        }
        forall x | x in d'.dirs && x !in d.dirs
          ensures exists l :: l in langs && x == LangDir(base, l)
        {
          if x !in d2.dirs {
            var l :| l in langs[1..] && x == LangDir(base, l);
            assert l in langs;
          }
        }
      }
    }
  }

  /** With a language free of `/`, every `/` of its directory before the last lies inside `base`. */
  lemma LangDirAncestorInBase(base: string, l: string, k: nat)
    requires '/' !in l
    requires k < |LangDir(base, l)| && LangDir(base, l)[k] == '/'
    ensures k <= |base|
  {
  }

  /**
   * A link added for one language changes for no language's directory
   * whether `os.makedirs` raises there.
   */
  lemma MakeDirsRaisesAfterLink(d: Disk, base: string, l0: string, l: string, name: string, src: string, refused: set<string>)
    requires '/' !in l
    ensures var d' := d.(fs := d.fs[LinkPath(base, l0, name) := Link(src)]);
      MakeDirsRaises(d', LangDir(base, l), refused) <==> MakeDirsRaises(d, LangDir(base, l), refused)
  {
    var d', x, y := d.(fs := d.fs[LinkPath(base, l0, name) := Link(src)]), LangDir(base, l), LinkPath(base, l0, name);
    LinkPathNotLangDir(base, l0, l, name);
    if UnderNonDirectory(d', x) {
      var k :| 0 < k < |x| && x[k] == '/' && x[..k] in d'.fs;
      LangDirAncestorInBase(base, l, k);
      assert |x[..k]| < |y|;
    }
  }

  /**
   * The loop stops exactly when `os.makedirs` raises for some language's
   * directory on the disk as it was, and then it names such a directory.
   */
  lemma {:induction false} PublishBlockedExactly(d: Disk, base: string, langs: seq<string>, name: string, src: string, refused: set<string>)
    requires forall k :: k in langs ==> '/' !in k
    ensures var r := Publish(d, base, langs, name, src, refused);
      && (r.Blocked? <==> exists l :: l in langs && MakeDirsRaises(d, LangDir(base, l), refused))
      && (r.Blocked? ==> MakeDirsRaises(d, r.dir, refused) && exists l :: l in langs && r.dir == LangDir(base, l))
    decreases |langs|
  {
    if langs != [] {
      var dir := LangDir(base, langs[0]);
      if !MakeDirsRaises(d, dir, refused) {
        var d1 := d.(dirs := d.dirs + {dir});
        var d2 := Symlink(d1, src, Join(dir, name), refused);
        PublishBlockedExactly(d2, base, langs[1..], name, src, refused);
        forall l | l in langs
          ensures MakeDirsRaises(d2, LangDir(base, l), refused) <==> MakeDirsRaises(d, LangDir(base, l), refused)
        {
          MakeDirsRaisesAfterLink(d1, base, langs[0], l, name, src, refused);
        }
        if exists l :: l in langs && MakeDirsRaises(d, LangDir(base, l), refused) {
          var l :| l in langs && MakeDirsRaises(d, LangDir(base, l), refused);
          assert l in langs[1..];
        }
        var r := Publish(d2, base, langs[1..], name, src, refused);
        if r.Blocked? {
          var l :| l in langs[1..] && r.dir == LangDir(base, l);
          assert l in langs;
        }
      }
    }
  }

  /**
   * Fan-out: when the loop finishes, every language has its directory, and
   * its link path exists unless the system refused to create it.
   */
  lemma {:induction false} PublishFansOut(d: Disk, base: string, langs: seq<string>, name: string, src: string, refused: set<string>)
    requires WellFormed(d)
    requires Publish(d, base, langs, name, src, refused).Published?
    ensures var d' := Publish(d, base, langs, name, src, refused).disk;
      forall l :: l in langs ==>
        && LangDir(base, l) in d'.dirs
        && (Exists(d', LinkPath(base, l, name)) || LinkPath(base, l, name) in refused)
    decreases |langs|
  {
    if langs != [] {
      var dir := LangDir(base, langs[0]);
      var d1 := d.(dirs := d.dirs + {dir});
      var d2 := Symlink(d1, src, Join(dir, name), refused);
      PublishFansOut(d2, base, langs[1..], name, src, refused);
      PublishFrame(d2, base, langs[1..], name, src, refused);
      var d' := Publish(d2, base, langs[1..], name, src, refused).disk;
      if Join(dir, name) !in refused {
        ExistsGrows(d2, d', Join(dir, name));
      }
      forall l | l in langs
        ensures LangDir(base, l) in d'.dirs
        ensures Exists(d', LinkPath(base, l, name)) || LinkPath(base, l, name) in refused
      {
        if l != langs[0] { assert l in langs[1..]; }
      }
    }
  }

  /**
   * A link path that was free before the loop, that the system does not refuse
   * and that no other language's directory takes, ends up a link to the source.
   * Languages and the name are single path components here, as the worker's are.
   */
  lemma {:induction false} PublishLinksFreePaths(d: Disk, base: string, langs: seq<string>, name: string, src: string, refused: set<string>, l: string)
    requires WellFormed(d)
    requires Publish(d, base, langs, name, src, refused).Published?
    requires forall k :: k in langs ==> '/' !in k
    requires '/' !in name && name != ""
    requires l in langs && !Exists(d, LinkPath(base, l, name)) && LinkPath(base, l, name) !in refused
    ensures var d' := Publish(d, base, langs, name, src, refused).disk;
      LinkPath(base, l, name) in d'.fs && d'.fs[LinkPath(base, l, name)] == Link(src)
    decreases |langs|
  {
    var dest := LinkPath(base, l, name);
    var dir := LangDir(base, langs[0]);
    var d1 := d.(dirs := d.dirs + {dir});
    var d2 := Symlink(d1, src, Join(dir, name), refused);
    PublishFrame(d2, base, langs[1..], name, src, refused);
    LinkPathNotLangDir(base, l, langs[0], name);
    assert dest[|dest| - 1] == name[|name| - 1];
    if l == langs[0] {
      assert d2.fs[dest] == Link(src);
    } else {
      assert l in langs[1..];
      LinkPathsDiffer(base, l, langs[0], name);
      assert !Exists(d2, dest);
      PublishLinksFreePaths(d2, base, langs[1..], name, src, refused, l);
    }
  }

  /**
   * Where every language already has its directory and its link path exists
   * or is refused, the loop changes nothing.
   */
  lemma {:induction false} PublishNoop(d: Disk, base: string, langs: seq<string>, name: string, src: string, refused: set<string>)
    requires forall l :: l in langs ==>
      LangDir(base, l) in d.dirs && (Exists(d, LinkPath(base, l, name)) || LinkPath(base, l, name) in refused)
    ensures Publish(d, base, langs, name, src, refused) == Published(d)
    decreases |langs|
  {
    if langs != [] {
      var dir := LangDir(base, langs[0]);
      assert d.(dirs := d.dirs + {dir}) == d;
      assert Symlink(d, src, Join(dir, name), refused) == d;
      forall l | l in langs[1..] ensures l in langs { }
      PublishNoop(d, base, langs[1..], name, src, refused);
    }
  }

  /**
   * Running the loop a second time over its own result changes nothing, in
   * whatever order it meets the languages: every directory is there and every
   * link path exists or stays refused.
   */
  lemma PublishIdempotent(d: Disk, base: string, langs: seq<string>, langs': seq<string>, name: string, src: string, refused: set<string>)
    requires WellFormed(d)
    requires Publish(d, base, langs, name, src, refused).Published?
    requires forall l :: l in langs' ==> l in langs
    ensures var d' := Publish(d, base, langs, name, src, refused).disk;
      Publish(d', base, langs', name, src, refused) == Published(d')
  {
    PublishFansOut(d, base, langs, name, src, refused);
    PublishNoop(Publish(d, base, langs, name, src, refused).disk, base, langs', name, src, refused);
  }
}
