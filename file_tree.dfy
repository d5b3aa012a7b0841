/**
 * The directory walk shared by both sequential finders (1/fd2.cpp and
 * fd/src/fd.cpp): a depth-bounded pre-order traversal that skips ignored
 * entries, reports the entries whose file name matches the pattern, and
 * catches a listing error per directory.
 *
 * The file system is a tree value. A directory's listing either completes or
 * throws after yielding some entries; the two finders differ only in how an
 * entry is judged ignored and how its name is matched, which are parameters.
 */
module FileTree {

  datatype Node =
    | File(name: string)
    | Dir(name: string, listing: Listing)

  /** What `directory_iterator` yields for a directory: all its entries, or some
      entries followed by a `filesystem_error` (none at all when opening fails). */
  datatype Listing =
    | Listed(entries: seq<Node>)
    | Unreadable(before: seq<Node>)

  /** One line of output: a matching path on standard output, or the
      "Error accessing" diagnostic on standard error. */
  datatype Report = Found(path: string) | AccessError(dir: string)

  /** How a walk judges entries: `ignored` sees an entry's full path, `matches`
      its file name; `maxDepth == -1` means unlimited depth. */
  datatype Config = Config(ignored: string -> bool, matches: string -> bool, maxDepth: int)

  /** `dir / name` as `std::filesystem::path`'s `operator/` builds it for a relative
      file name on POSIX: the separator is added only when `dir` has a file name,
      that is when it is neither empty nor already ends in `/`. */
  function Join(dir: string, name: string): string
  {
    if dir == [] || dir[|dir| - 1] == '/' then dir + name else dir + "/" + name
  }

  /** The joined path starts with `dir` and ends with `name`, with one separator
      between them exactly when `dir` has none at its end. */
  lemma JoinShape(dir: string, name: string)
    ensures var r := Join(dir, name);
      r[..|dir|] == dir && |dir| <= |r| - |name| && r[|r| - |name|..] == name &&
      (|r| == |dir| + |name| + 1 <==> dir != [] && dir[|dir| - 1] != '/') &&
      (|r| == |dir| + |name| + 1 ==> r[|dir|] == '/') &&
      (|r| == |dir| + |name| || |r| == |dir| + |name| + 1)
  {
  }

  /** A trailing separator on the directory does not change the joined path:
      `src/` and `src` give the same entry paths. */
  lemma JoinTrailingSeparator(dir: string, name: string)
    requires dir != [] && dir[|dir| - 1] != '/'
    ensures Join(dir + "/", name) == Join(dir, name)
  {
    assert (dir + "/")[|dir + "/"| - 1] == '/';
  }

  /** The joins of a directory with and without a trailing separator, and of the root. */
  lemma JoinExamples()
    ensures Join("src/", "a.cpp") == "src/a.cpp"
    ensures Join("src", "a.cpp") == "src/a.cpp"
    ensures Join("/", "etc") == "/etc"
  {
  }

  function EntriesOf(l: Listing): seq<Node>
  {
    match l
    case Listed(entries) => entries
    case Unreadable(before) => before
  }

  /** The recursion test `max_depth == -1 || current_depth < max_depth`. */
  predicate Descends(cfg: Config, depth: int)
  {
    cfg.maxDepth == -1 || depth < cfg.maxDepth
  }

  /** `fd_search(dir, ..., current_depth = depth)`: the reports of one call. */
  function Walk(cfg: Config, dir: string, l: Listing, depth: int): seq<Report>
    decreases l, 1
  {
    match l
    case Listed(entries) => WalkEntries(cfg, dir, entries, depth)
    case Unreadable(before) => WalkEntries(cfg, dir, before, depth) + [AccessError(dir)]
  }

  /** The body of the `for` loop over a directory's entries. */
  function WalkEntries(cfg: Config, dir: string, entries: seq<Node>, depth: int): seq<Report>
    decreases entries, 0
  {
    if entries == [] then []
    else
      var e := entries[0];
      var path := Join(dir, e.name);
      var here :=
        if cfg.ignored(path) then []
        else
          (if cfg.matches(e.name) then [Found(path)] else []) +
          (if e.Dir? && Descends(cfg, depth) then Walk(cfg, path, e.listing, depth + 1) else []);
      here + WalkEntries(cfg, dir, entries[1..], depth)
  }

  /** The walk of a list of entries is the walks of its parts, one after the other:
      what one entry yields never depends on its siblings. */
  lemma {:induction false} WalkEntriesAppend(cfg: Config, dir: string, a: seq<Node>, b: seq<Node>, depth: int)
    ensures WalkEntries(cfg, dir, a + b, depth) == WalkEntries(cfg, dir, a, depth) + WalkEntries(cfg, dir, b, depth)
  {
    if a == [] {
      assert a + b == b;
    } else {
      assert (a + b)[0] == a[0];
      assert (a + b)[1..] == a[1..] + b;
      WalkEntriesAppend(cfg, dir, a[1..], b, depth);
    }
  }

  /** An ignored entry contributes nothing: it is neither matched nor descended into,
      so removing it from the listing leaves the output as it was. */
  lemma IgnoredEntryContributesNothing(cfg: Config, dir: string, pre: seq<Node>, e: Node, post: seq<Node>, depth: int)
    requires cfg.ignored(Join(dir, e.name))
    ensures WalkEntries(cfg, dir, pre + [e] + post, depth) == WalkEntries(cfg, dir, pre + post, depth)
  {
    WalkEntriesAppend(cfg, dir, pre + [e], post, depth);
    WalkEntriesAppend(cfg, dir, pre, [e], depth);
    WalkEntriesAppend(cfg, dir, pre, post, depth);
    assert [e][1..] == [];
  }

  /** A listing error in a subdirectory is local: the parent keeps what it reported
      before that entry, gets what the subdirectory listed before failing plus one
      diagnostic, and goes on with the entries after it. */
  lemma ListingErrorIsLocal(cfg: Config, dir: string, pre: seq<Node>, name: string, before: seq<Node>,
                            post: seq<Node>, depth: int)
    requires !cfg.ignored(Join(dir, name)) && !cfg.matches(name) && Descends(cfg, depth)
    ensures WalkEntries(cfg, dir, pre + [Dir(name, Unreadable(before))] + post, depth)
         == WalkEntries(cfg, dir, pre, depth)
            + WalkEntries(cfg, Join(dir, name), before, depth + 1) + [AccessError(Join(dir, name))]
            + WalkEntries(cfg, dir, post, depth)
  {
    var e := Dir(name, Unreadable(before));
    var path := Join(dir, name);
    WalkEntriesAppend(cfg, dir, pre + [e], post, depth);
    WalkEntriesAppend(cfg, dir, pre, [e], depth);
    UnreadableEntry(cfg, dir, name, before, depth);
    Regroup(WalkEntries(cfg, dir, pre, depth), WalkEntries(cfg, path, before, depth + 1),
            [AccessError(path)], WalkEntries(cfg, dir, post, depth));
  }

  /** The walk of an unreadable subdirectory entry on its own. */
  lemma UnreadableEntry(cfg: Config, dir: string, name: string, before: seq<Node>, depth: int)
    requires !cfg.ignored(Join(dir, name)) && !cfg.matches(name) && Descends(cfg, depth)
    ensures WalkEntries(cfg, dir, [Dir(name, Unreadable(before))], depth)
         == WalkEntries(cfg, Join(dir, name), before, depth + 1) + [AccessError(Join(dir, name))]
  {
    assert [Dir(name, Unreadable(before))][1..] == [];
  }

  lemma Regroup(a: seq<Report>, b: seq<Report>, x: seq<Report>, c: seq<Report>)
    ensures a + (b + x) + c == a + b + x + c
  {
  }

  /** With `max_depth == 0` nothing below the start directory is visited: every
      report of its entry loop names an immediate, matching entry of it. */
  lemma {:induction false} DepthZeroIsFlat(cfg: Config, dir: string, entries: seq<Node>)
    requires cfg.maxDepth == 0
    ensures forall r :: r in WalkEntries(cfg, dir, entries, 0) ==>
              exists e :: e in entries && r == Found(Join(dir, e.name)) && cfg.matches(e.name)
  {
    if entries != [] {
      DepthZeroIsFlat(cfg, dir, entries[1..]);
      var e := entries[0];
      forall r | r in WalkEntries(cfg, dir, entries, 0)
        ensures exists e :: e in entries && r == Found(Join(dir, e.name)) && cfg.matches(e.name)
      {
        if r !in WalkEntries(cfg, dir, entries[1..], 0) {
          assert r == Found(Join(dir, e.name));
        } else {
          var e' :| e' in entries[1..] && r == Found(Join(dir, e'.name)) && cfg.matches(e'.name);
          assert e' in entries;
        }
      }
    }
  }

  // ---------------------------------------------------------------------------
  // An independent description of the output: enumerate every entry of the
  // whole tree in pre-order, ignoring the pruning, and keep an entry's report
  // exactly when the walk would have reached and accepted it.

  /** A report the walk could make, with what it takes to make it: none of the
      paths in `guards` (the entry itself and the directories above it) ignored,
      the entry reached at call depth `depth`, and for a match, a matching `name`. */
  datatype Candidate = Candidate(report: Report, name: string, isMatch: bool, guards: seq<string>, depth: int)

  /** All candidates of the tree below `l`, in pre-order, each entry before its subtree. */
  function Enumerate(dir: string, l: Listing, depth: int, guards: seq<string>): seq<Candidate>
    decreases l, 1
  {
    match l
    case Listed(entries) => EnumerateEntries(dir, entries, depth, guards)
    case Unreadable(before) =>
      EnumerateEntries(dir, before, depth, guards) + [Candidate(AccessError(dir), "", false, guards, depth)]
  }

  function EnumerateEntries(dir: string, entries: seq<Node>, depth: int, guards: seq<string>): seq<Candidate>
    decreases entries, 0
  {
    if entries == [] then []
    else
      var e := entries[0];
      var path := Join(dir, e.name);
      [Candidate(Found(path), e.name, true, guards + [path], depth)] +
      (if e.Dir? then Enumerate(path, e.listing, depth + 1, guards + [path]) else []) +
      EnumerateEntries(dir, entries[1..], depth, guards)
  }

  /** Whether a walk started at depth `start` makes the report of `c`. */
  predicate Reported(cfg: Config, start: int, c: Candidate)
  {
    (forall g :: g in c.guards ==> !cfg.ignored(g)) &&
    (c.depth == start || Descends(cfg, c.depth - 1)) &&
    (c.isMatch ==> cfg.matches(c.name))
  }

  function Keep(cfg: Config, start: int, cs: seq<Candidate>): seq<Report>
  {
    if cs == [] then []
    else (if Reported(cfg, start, cs[0]) then [cs[0].report] else []) + Keep(cfg, start, cs[1..])
  }

  lemma {:induction false} KeepAppend(cfg: Config, start: int, a: seq<Candidate>, b: seq<Candidate>)
    ensures Keep(cfg, start, a + b) == Keep(cfg, start, a) + Keep(cfg, start, b)
  {
    if a == [] {
      assert a + b == b;
    } else {
      assert (a + b)[0] == a[0];
      assert (a + b)[1..] == a[1..] + b;
      KeepAppend(cfg, start, a[1..], b);
    }
  }

  /** When no candidate of `cs` is reported, `Keep` is empty. */
  lemma {:induction false} KeepNone(cfg: Config, start: int, cs: seq<Candidate>)
    requires forall i :: 0 <= i < |cs| ==> !Reported(cfg, start, cs[i])
    ensures Keep(cfg, start, cs) == []
  {
    if cs != [] {
      KeepNone(cfg, start, cs[1..]);
    }
  }

  /** Every candidate below `l` carries the guards it was given and lies at least
      as deep as `depth`. */
  lemma {:induction false} EnumerateShape(dir: string, l: Listing, depth: int, guards: seq<string>)
    ensures forall c :: c in Enumerate(dir, l, depth, guards) ==>
              c.depth >= depth && |c.guards| >= |guards| && c.guards[..|guards|] == guards
    decreases l, 1
  {
    match l
    case Listed(entries) => EnumerateEntriesShape(dir, entries, depth, guards);
    case Unreadable(before) => EnumerateEntriesShape(dir, before, depth, guards);
  }

  lemma {:induction false} EnumerateEntriesShape(dir: string, entries: seq<Node>, depth: int, guards: seq<string>)
    ensures forall c :: c in EnumerateEntries(dir, entries, depth, guards) ==>
              c.depth >= depth && |c.guards| >= |guards| && c.guards[..|guards|] == guards
    decreases entries, 0
  {
    if entries != [] {
      var e := entries[0];
      var path := Join(dir, e.name);
      var g := guards + [path];
      assert g[..|guards|] == guards;
      if e.Dir? {
        EnumerateShape(path, e.listing, depth + 1, g);
        forall c | c in Enumerate(path, e.listing, depth + 1, g)
          ensures c.guards[..|guards|] == guards
        {
          assert c.guards[..|g|][..|guards|] == guards;
        }
      }
      EnumerateEntriesShape(dir, entries[1..], depth, guards);
    }
  }

  /** A subtree the walk does not enter -- its directory ignored, or too deep --
      has no reported candidate. */
  lemma SubtreeNotReported(cfg: Config, start: int, dir: string, l: Listing, depth: int, guards: seq<string>)
    requires start < depth
    requires (exists g :: g in guards && cfg.ignored(g)) || !Descends(cfg, depth - 1)
    ensures Keep(cfg, start, Enumerate(dir, l, depth, guards)) == []
  {
    var cs := Enumerate(dir, l, depth, guards);
    EnumerateShape(dir, l, depth, guards);
    forall i | 0 <= i < |cs| ensures !Reported(cfg, start, cs[i]) {
      var c := cs[i];
      assert c in cs;
      if exists g :: g in guards && cfg.ignored(g) {
        var g :| g in guards && cfg.ignored(g);
        var k :| 0 <= k < |guards| && guards[k] == g;
        assert c.guards[..|guards|][k] == g;
        assert g in c.guards;
      }
    }
    KeepNone(cfg, start, cs);
  }

  /** Pruning while walking is the same as enumerating the whole tree and keeping
      what passes: the walk's output is that filter of the pre-order enumeration,
      reports and order alike. The guards are the directories already passed on the
      way down, none of them ignored. */
  lemma {:induction false} WalkIsFilteredEnumeration(cfg: Config, start: int, dir: string, l: Listing,
                                                     depth: int, guards: seq<string>)
    requires start <= depth
    requires forall g :: g in guards ==> !cfg.ignored(g)
    requires depth == start || Descends(cfg, depth - 1)
    ensures Walk(cfg, dir, l, depth) == Keep(cfg, start, Enumerate(dir, l, depth, guards))
    decreases l, 1
  {
    match l
    case Listed(entries) =>
      EntriesAreFilteredEnumeration(cfg, start, dir, entries, depth, guards);
    case Unreadable(before) =>
      EntriesAreFilteredEnumeration(cfg, start, dir, before, depth, guards);
      var err := Candidate(AccessError(dir), "", false, guards, depth);
      KeepAppend(cfg, start, EnumerateEntries(dir, before, depth, guards), [err]);
      assert Keep(cfg, start, [err]) == [AccessError(dir)];
  }

  lemma {:induction false} EntriesAreFilteredEnumeration(cfg: Config, start: int, dir: string, entries: seq<Node>,
                                                         depth: int, guards: seq<string>)
    requires start <= depth
    requires forall g :: g in guards ==> !cfg.ignored(g)
    requires depth == start || Descends(cfg, depth - 1)
    ensures WalkEntries(cfg, dir, entries, depth) == Keep(cfg, start, EnumerateEntries(dir, entries, depth, guards))
    decreases entries, 0
  {
    if entries != [] {
      var e := entries[0];
      var path := Join(dir, e.name);
      var g := guards + [path];
      var self := [Candidate(Found(path), e.name, true, g, depth)];
      var below := if e.Dir? then Enumerate(path, e.listing, depth + 1, g) else [];
      var rest := EnumerateEntries(dir, entries[1..], depth, guards);
      assert EnumerateEntries(dir, entries, depth, guards) == self + below + rest;
      KeepAppend(cfg, start, self + below, rest);
      KeepAppend(cfg, start, self, below);
      EntriesAreFilteredEnumeration(cfg, start, dir, entries[1..], depth, guards);
      assert path in g;
      if cfg.ignored(path) {
        assert !Reported(cfg, start, self[0]);
        if e.Dir? {
          SubtreeNotReported(cfg, start, path, e.listing, depth + 1, g);
        }
      } else {
        assert forall x :: x in g ==> !cfg.ignored(x);
        assert Keep(cfg, start, self) == (if cfg.matches(e.name) then [Found(path)] else []);
        if e.Dir? {
          if Descends(cfg, depth) {
            WalkIsFilteredEnumeration(cfg, start, path, e.listing, depth + 1, g);
          } else {
            SubtreeNotReported(cfg, start, path, e.listing, depth + 1, g);
          }
        }
      }
    }
  }
}
