/**
 * `traverse_directory` (src/main.rs:110-126) over an abstract file tree, and
 * the driver of `main` (src/main.rs:138-140).
 *
 * A directory's listing is a sequence of entries in the order `read_dir`
 * returns them. Observed(cfg, dir, entries) is the sequence of `observe`
 * calls the walk makes; ObservedAreSelectedFiles relates it to an
 * independent description: all regular files of the tree, in depth-first
 * order, filtered by "accepted, and no ignored directory on the way".
 */
module Walker {
  import opened Wrappers
  import opened Text
  import opened Matcher
  import opened LineCounting

  /** One directory entry. */
  datatype Entry =
    /** A directory and its listing. */
    | Dir(name: string, children: seq<Entry>)
    /** A directory whose own listing (`read_dir`) fails. */
    | UnlistableDir(name: string)
    /** A regular file; its content is None when `read_to_string` fails (permissions, not UTF-8). */
    | File(name: string, content: Option<string>)
    /** Neither a directory nor a regular file: a symbolic link, a device, a socket, a FIFO. */
    | Other(name: string)
    /** An entry whose listing item or file type could not be read. */
    | Unreadable

  /** `Path::join` of a directory path and a basename. */
  function JoinPath(dir: string, name: string): string {
    if |dir| > 0 && dir[|dir| - 1] == '/' then dir + name else dir + "/" + name
  }

  /** The `observe` calls the walk of a listing makes, in order. */
  function Observed(cfg: Config, dir: string, entries: seq<Entry>): seq<Observation>
    decreases entries
  {
    if entries == [] then []
    else ObservedEntry(cfg, dir, entries[0]) + Observed(cfg, dir, entries[1..])
  }

  /** The `observe` calls made for one entry of the directory `dir`. */
  function ObservedEntry(cfg: Config, dir: string, e: Entry): seq<Observation>
    decreases e
  {
    match e
    case Dir(name, children) =>
      if !IsIgnored(cfg, name) then Observed(cfg, JoinPath(dir, name), children) else []
    case UnlistableDir(_) => []
    case File(name, content) =>
      if IsAccepted(cfg, name) then [Observation(JoinPath(dir, name), content)] else []
    case Other(_) => []
    case Unreadable => []
  }

  /**
   * Every directory the walk descends into can be listed; `read_dir(..).unwrap()`
   * panics otherwise (src/main.rs:111).
   */
  predicate Listable(cfg: Config, entries: seq<Entry>)
    decreases entries
  {
    forall k :: 0 <= k < |entries| ==> ListableEntry(cfg, entries[k])
  }

  predicate ListableEntry(cfg: Config, e: Entry)
    decreases e
  {
    match e
    case Dir(name, children) => !IsIgnored(cfg, name) ==> Listable(cfg, children)
    case UnlistableDir(name) => IsIgnored(cfg, name)
    case _ => true
  }

  lemma ObservedPrefix(cfg: Config, dir: string, entries: seq<Entry>, i: nat)
    requires i < |entries|
    ensures Observed(cfg, dir, entries[..i + 1]) == Observed(cfg, dir, entries[..i]) + ObservedEntry(cfg, dir, entries[i])
    decreases i
  {
    if i == 0 {
      assert entries[..1][1..] == [];
    } else {
      assert entries[..i + 1][1..] == entries[1..][..i];
      assert entries[..i][1..] == entries[1..][..i - 1];
      ObservedPrefix(cfg, dir, entries[1..], i - 1);
    }
  }

  lemma RecordedStep(cfg: Config, dir: string, entries: seq<Entry>, i: nat)
    requires i < |entries|
    ensures Recorded(Observed(cfg, dir, entries[..i + 1])) ==
      Recorded(Observed(cfg, dir, entries[..i])) + Recorded(ObservedEntry(cfg, dir, entries[i]))
  {
    ObservedPrefix(cfg, dir, entries, i);
    RecordedAppend(Observed(cfg, dir, entries[..i]), ObservedEntry(cfg, dir, entries[i]));
  }

  /** Regrouping a concatenation; stated on its own so the walk's loop step stays cheap. */
  lemma AppendAssociates<T>(a: seq<T>, b: seq<T>, c: seq<T>)
    ensures (a + b) + c == a + (b + c)
  {
  }

  /**
   * The walk: each entry in listing order (src/main.rs:112), a directory
   * walked completely before its later siblings. `entries` is what
   * `read_dir(root_dir)` lists; the panic of its `unwrap` on a directory below
   * that cannot be listed is excluded by Listable. The depth is passed down as
   * the program does, and not otherwise used.
   */
  method TraverseDirectory(rootDir: string, entries: seq<Entry>, depth: nat, cfg: Config, journal: LineCounter)
    requires Listable(cfg, entries)
    requires journal.Valid()
    modifies journal
    ensures journal.Valid()
    ensures journal.perFileLog == old(journal.perFileLog) + Recorded(Observed(cfg, rootDir, entries))
    ensures journal.totalLine == old(journal.totalLine) + SumLines(Recorded(Observed(cfg, rootDir, entries)))
    decreases entries
  {
    for i := 0 to |entries|
      invariant journal.Valid()
      invariant journal.perFileLog == old(journal.perFileLog) + Recorded(Observed(cfg, rootDir, entries[..i]))
    {
      ghost var done := Recorded(Observed(cfg, rootDir, entries[..i]));
      VisitEntry(rootDir, entries[i], depth, cfg, journal);
      RecordedStep(cfg, rootDir, entries, i);
      AppendAssociates(old(journal.perFileLog), done, Recorded(ObservedEntry(cfg, rootDir, entries[i])));
    }
    assert entries[..|entries|] == entries;
    SumLinesAppend(old(journal.perFileLog), Recorded(Observed(cfg, rootDir, entries)));
  }

  /**
   * The loop body of `traverse_directory` (src/main.rs:113-123) for one entry
   * of `dir`: a directory whose basename is not ignored is walked, an accepted
   * regular file is handed to the journal, everything else is passed over.
   */
  method VisitEntry(dir: string, e: Entry, depth: nat, cfg: Config, journal: LineCounter)
    requires ListableEntry(cfg, e)
    requires journal.Valid()
    modifies journal
    ensures journal.Valid()
    ensures journal.perFileLog == old(journal.perFileLog) + Recorded(ObservedEntry(cfg, dir, e))
    decreases e
  {
    match e {
      case Dir(name, children) =>
        if !IsIgnored(cfg, name) {
          TraverseDirectory(JoinPath(dir, name), children, depth + 1, cfg, journal);
        }
      case UnlistableDir(_) =>
      case File(name, content) =>
        if IsAccepted(cfg, name) {
          journal.Observe(JoinPath(dir, name), content);
        }
      case Other(_) =>
      case Unreadable =>
    }
  }

  /**
   * `main` after loading the configuration: count the tree under ".", then
   * sort the log. `rootListing` is the listing of "."; listing it must succeed.
   */
  method Run(ignoreItems: seq<Option<string>>, acceptItems: seq<Option<string>>, rootListing: Option<seq<Entry>>)
    returns (lc: LineCounter)
    requires AllLiteral(ignoreItems) && AllLiteral(acceptItems)
    requires rootListing.Some? && Listable(NewConfig(ignoreItems, acceptItems), rootListing.value)
    ensures lc.Valid()
    ensures var log := Recorded(Observed(NewConfig(ignoreItems, acceptItems), ".", rootListing.value));
      lc.perFileLog == SortByLines(log) && lc.totalLine == SumLines(log)
  {
    var config := NewConfig(ignoreItems, acceptItems);
    ghost var log := Recorded(Observed(config, ".", rootListing.value));
    lc := new LineCounter();
    TraverseDirectory(".", rootListing.value, 0, config, lc);
    assert lc.perFileLog == log && lc.totalLine == SumLines(log);
    lc.Summary();
  }

  // ---------------------------------------------------------------------------
  // An independent description of what the walk observes

  /** A regular file of the tree, with the basenames of the directories between the walk's root and it. */
  datatype FileSite = FileSite(dirs: seq<string>, path: string, name: string, content: Option<string>)

  /** Every regular file reachable through listable directories, in depth-first listing order. */
  function Files(dir: string, dirs: seq<string>, entries: seq<Entry>): seq<FileSite>
    decreases entries
  {
    if entries == [] then []
    else FilesOf(dir, dirs, entries[0]) + Files(dir, dirs, entries[1..])
  }

  function FilesOf(dir: string, dirs: seq<string>, e: Entry): seq<FileSite>
    decreases e
  {
    match e
    case Dir(name, children) => Files(JoinPath(dir, name), dirs + [name], children)
    case File(name, content) => [FileSite(dirs, JoinPath(dir, name), name, content)]
    case _ => []
  }

  /** A file the walk should hand to the journal: accepted, and under no ignored directory. */
  predicate Selected(cfg: Config, f: FileSite) {
    IsAccepted(cfg, f.name) && forall k :: 0 <= k < |f.dirs| ==> !IsIgnored(cfg, f.dirs[k])
  }

  /** The selected files, as the `observe` calls they give, in order. */
  function SelectedObservations(cfg: Config, sites: seq<FileSite>): seq<Observation> {
    if sites == [] then []
    else
      var first := if Selected(cfg, sites[0]) then [Observation(sites[0].path, sites[0].content)] else [];
      first + SelectedObservations(cfg, sites[1..])
  }

  lemma {:induction false} SelectedObservationsAppend(cfg: Config, a: seq<FileSite>, b: seq<FileSite>)
    ensures SelectedObservations(cfg, a + b) == SelectedObservations(cfg, a) + SelectedObservations(cfg, b)
  {
    if a == [] {
      assert a + b == b;
    } else {
      assert (a + b)[1..] == a[1..] + b;
      SelectedObservationsAppend(cfg, a[1..], b);
    }
  }

  lemma {:induction false} SelectedObservationsNone(cfg: Config, sites: seq<FileSite>)
    requires forall k :: 0 <= k < |sites| ==> !Selected(cfg, sites[k])
    ensures SelectedObservations(cfg, sites) == []
  {
    if sites != [] {
      SelectedObservationsNone(cfg, sites[1..]);
    }
  }

  /** Every file found below a listing carries that listing's directory names as a prefix. */
  lemma {:induction false} FilesUnder(dir: string, dirs: seq<string>, entries: seq<Entry>)
    ensures forall k :: 0 <= k < |Files(dir, dirs, entries)| ==>
      |dirs| <= |Files(dir, dirs, entries)[k].dirs| && Files(dir, dirs, entries)[k].dirs[..|dirs|] == dirs
    decreases entries
  {
    if entries != [] {
      FilesOfUnder(dir, dirs, entries[0]);
      FilesUnder(dir, dirs, entries[1..]);
    }
  }

  lemma {:induction false} FilesOfUnder(dir: string, dirs: seq<string>, e: Entry)
    ensures forall k :: 0 <= k < |FilesOf(dir, dirs, e)| ==>
      |dirs| <= |FilesOf(dir, dirs, e)[k].dirs| && FilesOf(dir, dirs, e)[k].dirs[..|dirs|] == dirs
    decreases e
  {
    match e
    case Dir(name, children) =>
      var sites := Files(JoinPath(dir, name), dirs + [name], children);
      FilesUnder(JoinPath(dir, name), dirs + [name], children);
      forall k | 0 <= k < |sites| ensures sites[k].dirs[..|dirs|] == dirs {
        assert sites[k].dirs[..|dirs|] == sites[k].dirs[..|dirs| + 1][..|dirs|];
      }
    case File(name, content) =>
      assert FilesOf(dir, dirs, e)[0].dirs == dirs;
    case _ =>
  }

  /**
   * Below directories none of which is ignored, the walk observes exactly the
   * selected files, each once, in depth-first listing order.
   */
  lemma {:induction false} ObservedIsSelected(cfg: Config, dir: string, dirs: seq<string>, entries: seq<Entry>)
    requires forall k :: 0 <= k < |dirs| ==> !IsIgnored(cfg, dirs[k])
    ensures Observed(cfg, dir, entries) == SelectedObservations(cfg, Files(dir, dirs, entries))
    decreases entries
  {
    if entries != [] {
      ObservedEntryIsSelected(cfg, dir, dirs, entries[0]);
      ObservedIsSelected(cfg, dir, dirs, entries[1..]);
      SelectedObservationsAppend(cfg, FilesOf(dir, dirs, entries[0]), Files(dir, dirs, entries[1..]));
    }
  }

  lemma {:induction false} ObservedEntryIsSelected(cfg: Config, dir: string, dirs: seq<string>, e: Entry)
    requires forall k :: 0 <= k < |dirs| ==> !IsIgnored(cfg, dirs[k])
    ensures ObservedEntry(cfg, dir, e) == SelectedObservations(cfg, FilesOf(dir, dirs, e))
    decreases e
  {
    match e
    case Dir(name, children) =>
      var sub := JoinPath(dir, name);
      if IsIgnored(cfg, name) {
        var sites := Files(sub, dirs + [name], children);
        FilesUnder(sub, dirs + [name], children);
        forall k | 0 <= k < |sites| ensures !Selected(cfg, sites[k]) {
          assert sites[k].dirs[..|dirs| + 1] == dirs + [name];
          assert sites[k].dirs[|dirs|] == name;
        }
        SelectedObservationsNone(cfg, sites);
      } else {
        ObservedIsSelected(cfg, sub, dirs + [name], children);
      }
    case File(name, content) =>
      var sites := FilesOf(dir, dirs, e);
      assert sites == [FileSite(dirs, JoinPath(dir, name), name, content)];
      assert sites[1..] == [];
    case _ =>
  }

  /**
   * `traverse_directory` calls `observe` exactly on the accepted regular files
   * that have no ignored directory between them and the root, in depth-first
   * listing order; the root itself is never tested against the ignore pattern.
   */
  lemma ObservedAreSelectedFiles(cfg: Config, root: string, entries: seq<Entry>)
    ensures Observed(cfg, root, entries) == SelectedObservations(cfg, Files(root, [], entries))
  {
    ObservedIsSelected(cfg, root, [], entries);
  }

  /** The accepted regular files listed directly in a directory, as `observe` calls. */
  function TopLevelObservations(cfg: Config, dir: string, entries: seq<Entry>): seq<Observation> {
    if entries == [] then []
    else
      var e := entries[0];
      var first := if e.File? && IsAccepted(cfg, e.name) then [Observation(JoinPath(dir, e.name), e.content)] else [];
      first + TopLevelObservations(cfg, dir, entries[1..])
  }

  /** With an empty ignore list every subdirectory is ignored: only the root's own files are observed. */
  lemma {:induction false} EmptyIgnoreListStaysAtRoot(
    ignoreItems: seq<Option<string>>, cfg: Config, root: string, entries: seq<Entry>)
    requires cfg.ignores == IgnorePattern(ignoreItems)
    requires StringItems(ignoreItems) == []
    ensures Observed(cfg, root, entries) == TopLevelObservations(cfg, root, entries)
  {
    if entries != [] {
      if entries[0].Dir? {
        EmptyIgnoreListIgnoresAll(ignoreItems, cfg, entries[0].name);
      }
      EmptyIgnoreListStaysAtRoot(ignoreItems, cfg, root, entries[1..]);
    }
  }
}
