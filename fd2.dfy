/**
 * The RE2-based finder (1/fd2.cpp): ignore rules are ignore-file lines translated
 * by `glob_to_regex` and kept only when RE2 accepts them; a rule ignores a path
 * when it matches somewhere inside the path string.
 */
module Fd2 {
  import opened Wrappers
  import GlobUtils
  import FileTree
  import opened IgnoreFile

  /** The rules the lines of an ignore file yield, in file order: every line that
      is not skipped, translated, and kept only if its translation compiles. */
  function RulesOf(re2: Engine, lines: seq<string>): seq<string>
  {
    if lines == [] then []
    else
      var line := lines[|lines| - 1];
      var rules := RulesOf(re2, lines[..|lines| - 1]);
      if Skipped(line) then rules
      else
        var regex := GlobUtils.Translation(line);
        if re2.compiles(regex) then rules + [regex] else rules
  }

  /** Lines are processed independently and in order: the rules of a file are the
      rules of its first part followed by those of the rest. */
  lemma {:induction false} RulesOfAppend(re2: Engine, a: seq<string>, b: seq<string>)
    ensures RulesOf(re2, a + b) == RulesOf(re2, a) + RulesOf(re2, b)
    decreases |b|
  {
    if b == [] {
      assert a + b == a;
    } else {
      var ab := a + b;
      var init := b[..|b| - 1];
      var line := b[|b| - 1];
      assert ab[..|ab| - 1] == a + init;
      assert ab[|ab| - 1] == line;
      RulesOfAppend(re2, a, init);
      if !Skipped(line) && re2.compiles(GlobUtils.Translation(line)) {
        var regex := GlobUtils.Translation(line);
        assert RulesOf(re2, a) + RulesOf(re2, init) + [regex] == RulesOf(re2, a) + (RulesOf(re2, init) + [regex]);
      }
    }
  }

  /** What a single line contributes. */
  lemma RuleOfLine(re2: Engine, line: string)
    ensures RulesOf(re2, [line]) ==
            if Skipped(line) || !re2.compiles(GlobUtils.Translation(line)) then []
            else [GlobUtils.Translation(line)]
  {
    assert [line][..0] == [];
  }

  /** A line whose translation RE2 rejects is dropped, and the lines around it
      still yield their rules. */
  lemma InvalidLineDropped(re2: Engine, before: seq<string>, line: string, after: seq<string>)
    requires !Skipped(line) && !re2.compiles(GlobUtils.Translation(line))
    ensures RulesOf(re2, before + [line] + after) == RulesOf(re2, before) + RulesOf(re2, after)
  {
    RulesOfAppend(re2, before + [line], after);
    RulesOfAppend(re2, before, [line]);
    RuleOfLine(re2, line);
  }

  /** A rule is exactly the translation of some line that is not skipped and whose
      translation compiles. */
  lemma {:induction false} RulesOfMembership(re2: Engine, lines: seq<string>, r: string)
    ensures r in RulesOf(re2, lines) <==>
            exists i :: 0 <= i < |lines| && !Skipped(lines[i]) &&
                        re2.compiles(GlobUtils.Translation(lines[i])) && r == GlobUtils.Translation(lines[i])
    decreases |lines|
  {
    if lines != [] {
      var init := lines[..|lines| - 1];
      RulesOfMembership(re2, init, r);
      if r in RulesOf(re2, lines) && r !in RulesOf(re2, init) {
        assert r == GlobUtils.Translation(lines[|lines| - 1]);
      }
      if exists i :: 0 <= i < |lines| && !Skipped(lines[i]) &&
                     re2.compiles(GlobUtils.Translation(lines[i])) && r == GlobUtils.Translation(lines[i]) {
        var i :| 0 <= i < |lines| && !Skipped(lines[i]) &&
                 re2.compiles(GlobUtils.Translation(lines[i])) && r == GlobUtils.Translation(lines[i]);
        if i < |lines| - 1 {
          assert init[i] == lines[i];
        }
      }
    }
  }

  /** `load_gitignore_rules(dir)`: `file` is the ignore file's lines, or `None`
      when it cannot be opened. */
  method LoadRules(re2: Engine, file: Option<seq<string>>) returns (rules: seq<string>)
    ensures file.None? ==> rules == []
    ensures file.Some? ==> rules == RulesOf(re2, file.value)
  {
    rules := [];
    if file.None? {
      return;
    }
    var lines := file.value;
    var i := 0;
    while i < |lines|
      invariant 0 <= i <= |lines|
      invariant rules == RulesOf(re2, lines[..i])
    {
      var line := lines[i];
      assert lines[..i + 1][..i] == lines[..i];
      if !Skipped(line) {
        var regex := GlobUtils.GlobToRegex(line);
        if re2.compiles(regex) {
          rules := rules + [regex];
        }
      }
      i := i + 1;
    }
    assert lines[..|lines|] == lines;
  }

  /** Some rule matches somewhere inside `path`. */
  predicate Ignored(re2: Engine, rules: seq<string>, path: string)
  {
    exists i :: 0 <= i < |rules| && re2.partialMatch(rules[i], path)
  }

  /** `is_ignored(path, rules)`: tries the rules in order and stops at the first match,
      on the path string itself; the `string_view` the source binds to the temporary
      `path.string()` is not modelled. */
  method IsIgnored(re2: Engine, path: string, rules: seq<string>) returns (ignored: bool)
    ensures ignored <==> exists i :: 0 <= i < |rules| && re2.partialMatch(rules[i], path)
    ensures rules == [] ==> !ignored
  {
    for i := 0 to |rules|
      invariant forall j :: 0 <= j < i ==> !re2.partialMatch(rules[j], path)
    {
      if re2.partialMatch(rules[i], path) {
        return true;
      }
    }
    return false;
  }

  /** How `fd_search` judges entries: ignored by a rule partially matching the
      full path, reported when the pattern partially matches the file name. */
  function SearchConfig(re2: Engine, pattern: string, rules: seq<string>, maxDepth: int): FileTree.Config
  {
    FileTree.Config(path => Ignored(re2, rules, path), name => re2.partialMatch(pattern, name), maxDepth)
  }

  /** `fd_search(dir, pattern, rules, max_depth, current_depth)`: its output is the
      pre-order enumeration of the tree below `dir`, keeping the entries that are
      reached (no ignored directory above, within the depth bound), not ignored
      themselves and matching, together with the listing errors of the directories
      it enters. */
  function Search(re2: Engine, pattern: string, rules: seq<string>, dir: string, listing: FileTree.Listing,
                  maxDepth: int, depth: int): (out: seq<FileTree.Report>)
    ensures out == FileTree.Keep(SearchConfig(re2, pattern, rules, maxDepth), depth,
                                 FileTree.Enumerate(dir, listing, depth, []))
  {
    var cfg := SearchConfig(re2, pattern, rules, maxDepth);
    FileTree.WalkIsFilteredEnumeration(cfg, depth, dir, listing, depth, []);
    FileTree.Walk(cfg, dir, listing, depth)
  }
}
