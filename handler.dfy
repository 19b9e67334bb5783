/**
 * `MediaFileHandler`: the dispatcher that filters creation events and
 * submits unseen media files, and the worker that publishes one link per
 * audio language and then records the file in the persisted cache.
 *
 * The thread pool is a queue of submitted paths (`pending`) that workers take
 * from one at a time. The cache file is the value `saved` (None when there is
 * no file); the filesystem is a `Disk`.
 */
module Handler {
  import opened Wrappers
  import opened Text
  import opened Media
  import opened Sanitizer
  import opened Links

  /** Processed files by source path, as the JSON cache file holds them. */
  type Cache = map<string, bool>

  /** `load_cache`: the saved map, or an empty one when there is no cache file. */
  function LoadCache(saved: Option<Cache>): Cache
  {
    match saved
    case None => map[]
    case Some(c) => c
  }

  /** The two output roots. */
  datatype Roots = Roots(movies: string, shows: string)

  /** The output root for a source path: `/movies/` is tested before `/shows/`. */
  function Route(roots: Roots, path: string): Option<string>
  {
    if Contains(path, "/movies/") then Some(roots.movies)
    else if Contains(path, "/shows/") then Some(roots.shows)
    else None
  }

  /** How one run of the worker ended. */
  datatype Outcome =
    | ParseFailed              // the container parser raised
    | NoLanguages              // no tagged audio language
    | UnknownCategory          // neither `/movies/` nor `/shows/` in the path
    | DirectoryBlocked(dir: string)  // `os.makedirs` raised at `dir`
    | Done                     // links published, file cached and saved

  /** What the worker reads and changes: the cache, the cache file, the disk. */
  datatype Store = Store(cache: Cache, saved: Option<Cache>, disk: Disk)

  /** The link name the worker uses for a source path. */
  function LinkName(path: string): string
  {
    Clean(Basename(path))
  }

  /** One run of `_process_media_file` on `path`, given its audio languages in iteration order. */
  function Process(s: Store, roots: Roots, path: string, langs: seq<string>, refused: set<string>): (Store, Outcome)
  {
    if langs == [] then (s, NoLanguages)
    else match Route(roots, path)
      case None => (s, UnknownCategory)
      case Some(base) =>
        match Publish(s.disk, base, langs, LinkName(path), path, refused)
        case Blocked(d, dir) => (s.(disk := d), DirectoryBlocked(dir))
        case Published(d) =>
          var c := s.cache[path := true];
          (Store(c, Some(c), d), Done)
  }

  /** A path under both `/movies/` and `/shows/` goes to the movies root. */
  lemma RoutePrefersMovies(roots: Roots, path: string)
    requires Contains(path, "/movies/")
    ensures Route(roots, path) == Some(roots.movies)
  {
  }

  /** Without languages, or without a category, the worker changes nothing. */
  lemma ProcessSkipsLeaveStore(s: Store, roots: Roots, path: string, langs: seq<string>, refused: set<string>)
    requires langs == [] || Route(roots, path).None?
    ensures Process(s, roots, path, langs, refused).0 == s
    ensures Process(s, roots, path, langs, refused).1 == if langs == [] then NoLanguages else UnknownCategory
  {
  }

  /**
   * When the category's output root is a regular file, `os.makedirs` raises
   * for the first language: the run stops there and the file stays uncached.
   */
  lemma ProcessStopsBelowFile(s: Store, roots: Roots, path: string, langs: seq<string>, refused: set<string>)
    requires langs != [] && Route(roots, path).Some?
    requires var base := Route(roots, path).value;
      base != [] && base in s.disk.fs && LangDir(base, langs[0]) !in s.disk.dirs
    ensures var (s', outcome) := Process(s, roots, path, langs, refused);
      && outcome == DirectoryBlocked(LangDir(Route(roots, path).value, langs[0]))
      && s'.cache == s.cache && s'.saved == s.saved && s'.disk == s.disk
  {
    var base, dir := Route(roots, path).value, LangDir(Route(roots, path).value, langs[0]);
    assert dir[..|base|] == base && dir[|base|] == '/';
    assert UnderNonDirectory(s.disk, dir);
  }

  /** The link name is one path component: the basename has no `/` and cleaning keeps it so. */
  lemma LinkNameIsComponent(path: string)
    ensures '/' !in LinkName(path)
  {
    CleanKeepsSlashFree(Basename(path));
  }

  /** A media file ends with the last letter or digit of its extension, in either case. */
  lemma MediaFileLastChar(path: string)
    requires IsMediaFile(path)
    ensures path != []
    ensures var c := path[|path| - 1]; c == '4' || c == 'v' || c == 'V' || c == 'i' || c == 'I'
  {
    MediaFileByLastFour(path);
    var c := path[|path| - 1];
    assert FoldChar(c) == Lower(path[|path| - 4..])[3];
  }

  /** A media file's link name is never empty: the extension's last character survives cleaning. */
  lemma MediaLinkNameNotEmpty(path: string)
    requires IsMediaFile(path)
    ensures LinkName(path) != []
  {
    MediaFileLastChar(path);
    LinkNameNotEmpty(path);
  }

  /** A path ending in a character other than `/`, `-` or whitespace has a non-empty link name. */
  lemma LinkNameNotEmpty(path: string)
    requires path != []
    requires var c := path[|path| - 1]; c != '/' && c != '-' && !IsSpace(c)
    ensures LinkName(path) != []
  {
    var b := Basename(path);
    assert LastIs(b, path[|path| - 1]) by { BasenameKeepsLastChar(path); }
    CleanNotEmpty(b);
  }

  /**
   * Whatever the outcome, the worker only adds to the disk: entries that were
   * there keep their contents, directories stay, and every new entry is a link
   * to the source at one language's link path.
   */
  lemma ProcessOnlyAddsLinks(s: Store, roots: Roots, path: string, langs: seq<string>, refused: set<string>)
    requires WellFormed(s.disk)
    ensures var s' := Process(s, roots, path, langs, refused).0;
      && WellFormed(s'.disk)
      && Grows(s.disk, s'.disk)
      && (forall p :: p in s'.disk.fs && p !in s.disk.fs ==> s'.disk.fs[p] == Link(path))
  {
    var s' := Process(s, roots, path, langs, refused).0;
    if langs != [] && Route(roots, path).Some? {
      var base, name := Route(roots, path).value, LinkName(path);
      PublishFrame(s.disk, base, langs, name, path, refused);
      assert s'.disk == PublishedDisk(Publish(s.disk, base, langs, name, path, refused));
    } else {
      assert s' == s;
    }
  }

  /**
   * A finished run: the file is marked processed, the cache file holds the
   * whole cache, every language has its directory under the category's root,
   * and its link path exists unless the system refused the link.
   */
  lemma ProcessDone(s: Store, roots: Roots, path: string, langs: seq<string>, refused: set<string>)
    requires WellFormed(s.disk)
    requires Process(s, roots, path, langs, refused).1 == Done
    ensures var s' := Process(s, roots, path, langs, refused).0;
      && langs != [] && Route(roots, path).Some?
      && s'.cache == s.cache[path := true]
      && s'.saved == Some(s'.cache)
      && LoadCache(s'.saved)[path]
      && forall l :: l in langs ==>
           var base := Route(roots, path).value;
           && LangDir(base, l) in s'.disk.dirs
           && (Exists(s'.disk, LinkPath(base, l, LinkName(path))) || LinkPath(base, l, LinkName(path)) in refused)
  {
    PublishFansOut(s.disk, Route(roots, path).value, langs, LinkName(path), path, refused);
  }

  /**
   * In a finished run with plain language names and a non-empty link name,
   * every link path that was free and is not refused now links to the source.
   */
  lemma ProcessDoneLinksFreePaths(s: Store, roots: Roots, path: string, langs: seq<string>, refused: set<string>, l: string)
    requires WellFormed(s.disk)
    requires Process(s, roots, path, langs, refused).1 == Done
    requires forall k :: k in langs ==> '/' !in k
    requires LinkName(path) != ""
    requires l in langs
    requires var base := Route(roots, path).value;
      !Exists(s.disk, LinkPath(base, l, LinkName(path))) && LinkPath(base, l, LinkName(path)) !in refused
    ensures var s', dest := Process(s, roots, path, langs, refused).0, LinkPath(Route(roots, path).value, l, LinkName(path));
      dest in s'.disk.fs && s'.disk.fs[dest] == Link(path)
  {
    LinkNameIsComponent(path);
    PublishLinksFreePaths(s.disk, Route(roots, path).value, langs, LinkName(path), path, refused, l);
  }

  /**
   * A second run of the worker on the same file after a finished one changes
   * nothing, in whatever order it meets the languages: so two queued events
   * for one path give one set of links and one cache entry.
   */
  lemma ProcessIdempotent(s: Store, roots: Roots, path: string, langs: seq<string>, langs': seq<string>, refused: set<string>)
    requires WellFormed(s.disk)
    requires Process(s, roots, path, langs, refused).1 == Done
    requires langs' != [] && forall l :: l in langs' ==> l in langs
    ensures var s' := Process(s, roots, path, langs, refused).0;
      Process(s', roots, path, langs', refused) == (s', Done)
  {
    PublishIdempotent(s.disk, Route(roots, path).value, langs, langs', LinkName(path), path, refused);
    var s' := Process(s, roots, path, langs, refused).0;
    assert s'.cache[path := true] == s'.cache;
  }

  class MediaFileHandler {
    const roots: Roots
    /** The in-memory cache. */
    var cache: Cache
    /** The cache file: None while there is none. */
    var saved: Option<Cache>
    /** The filesystem: non-directory entries and directories. */
    var fs: map<string, Entry>
    var dirs: set<string>
    /** Paths submitted to the pool whose worker has not run yet. */
    var pending: seq<string>

    /** The disk is well formed, and the cache file always reads back as the cache. */
    ghost predicate Valid()
      reads this
    {
      WellFormed(Disk(fs, dirs)) && LoadCache(saved) == cache
    }

    function State(): Store
      reads this
    {
      Store(cache, saved, Disk(fs, dirs))
    }

    /** The handler as `main` builds it: the cache is loaded from whatever cache file there is. */
    constructor (roots: Roots, saved: Option<Cache>, disk: Disk)
      requires WellFormed(disk)
      ensures Valid()
      ensures this.roots == roots && this.saved == saved && cache == LoadCache(saved)
      ensures fs == disk.fs && dirs == disk.dirs && pending == []
    {
      this.roots := roots;
      this.saved := saved;
      cache := LoadCache(saved);
      fs := disk.fs;
      dirs := disk.dirs;
      pending := [];
    }

    /** `on_created`: directories and non-media paths are ignored; media files go to `process_file`. */
    method OnCreated(path: string, isDirectory: bool)
      modifies this`pending
      ensures pending == old(pending) + if !isDirectory && IsMediaFile(path) && path !in cache then [path] else []
    {
      if !isDirectory && IsMediaFile(path) {
        ProcessFile(path);
      }
    }

    /** `process_file`: submits the path unless the cache has it; the cache itself is not touched. */
    method ProcessFile(path: string)
      modifies this`pending
      ensures pending == old(pending) + if path in cache then [] else [path]
    {
      if path !in cache {
        pending := pending + [path];
      }
    }

    /** `create_symlink`. */
    method CreateSymlink(src: string, dest: string, refused: set<string>)
      requires Valid()
      modifies this`fs
      ensures Valid()
      ensures Disk(fs, dirs) == Symlink(old(Disk(fs, dirs)), src, dest, refused)
    {
      var present := Exists(Disk(fs, dirs), dest);
      if !present && dest !in refused {
        fs := fs[dest := Link(src)];
      }
    }

    /** `save_cache`: the cache file is rewritten with the whole cache. */
    method SaveCache()
      modifies this`saved
      ensures saved == Some(cache)
    {
      saved := Some(cache);
    }

    /**
     * `_process_media_file`. `parsed` is what the container parser returns
     * (None when it raises); `langs` is the order in which the language set is
     * iterated.
     */
    method ProcessMediaFile(path: string, parsed: Option<seq<Track>>, refused: set<string>)
      returns (outcome: Outcome, ghost langs: seq<string>)
      requires Valid()
      modifies this`cache, this`saved, this`fs, this`dirs
      ensures Valid()
      ensures parsed.None? ==> outcome == ParseFailed && State() == old(State())
      ensures parsed.Some? ==>
        && NoDuplicates(langs)
        && (forall l :: l in langs <==> l in AudioLanguages(parsed.value))
        && (State(), outcome) == Process(old(State()), roots, path, langs, refused)
    {
      langs := [];
      if parsed.None? {
        return ParseFailed, langs;
      }
      var languages := ExtractAudioLanguages(parsed.value);
      langs := languages;
      if |languages| == 0 {
        return NoLanguages, langs;
      }
      var route := Route(roots, path);
      if route.None? {
        return UnknownCategory, langs;
      }
      var base := route.value;
      var cleaned := Clean(Basename(path));
      ghost var start := Disk(fs, dirs);
      var i := 0;
      while i < |languages|
        invariant 0 <= i <= |languages|
        invariant Valid()
        invariant cache == old(cache) && saved == old(saved)
        invariant Publish(Disk(fs, dirs), base, languages[i..], cleaned, path, refused)
               == Publish(start, base, languages, cleaned, path, refused)
      {
        var langDir := Join(base, languages[i]);
        var made := MakeDirs(Disk(fs, dirs), langDir, refused);
        if made.Raised? {
          return DirectoryBlocked(langDir), langs;
        }
        dirs := made.disk.dirs;
        CreateSymlink(path, Join(langDir, cleaned), refused);
        assert languages[i..][1..] == languages[i + 1..];
        i := i + 1;
      }
      cache := cache[path := true];
      SaveCache();
      outcome := Done;
    }

    /** A worker takes the oldest submitted path and runs `_process_media_file` on it. */
    method RunNext(parsed: Option<seq<Track>>, refused: set<string>) returns (outcome: Option<Outcome>, ghost langs: seq<string>)
      requires Valid()
      modifies this`cache, this`saved, this`fs, this`dirs, this`pending
      ensures Valid()
      ensures old(pending) == [] ==> outcome == None && State() == old(State()) && pending == []
      ensures old(pending) != [] ==> pending == old(pending)[1..] && outcome.Some?
      ensures old(pending) != [] && parsed.None? ==> outcome == Some(ParseFailed) && State() == old(State())
      ensures old(pending) != [] && parsed.Some? ==>
        && NoDuplicates(langs)
        && (forall l :: l in langs <==> l in AudioLanguages(parsed.value))
        && (State(), outcome.value) == Process(old(State()), roots, old(pending)[0], langs, refused)
    {
      langs := [];
      if pending == [] {
        return None, langs;
      }
      var path := pending[0];
      pending := pending[1..];
      var o;
      o, langs := ProcessMediaFile(path, parsed, refused);
      outcome := Some(o);
    }
  }

  /**
   * The cache is read when a path is submitted but written only by the worker,
   * so two creation events for one path, both before its worker runs, queue
   * it twice.
   */
  method DuplicateEvents(h: MediaFileHandler, path: string)
    requires IsMediaFile(path) && path !in h.cache
    modifies h
    ensures h.pending == old(h.pending) + [path, path]
    ensures h.State() == old(h.State())
  {
    h.OnCreated(path, false);
    h.OnCreated(path, false);
  }
}
