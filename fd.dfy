/**
 * The `std::regex` finder (fd/src/fd.cpp): ignore-file lines are translated by
 * an inline loop that leaves `.` unescaped, every translated line is compiled
 * (an invalid one throws `regex_error` out of `load_gitignore_rules`, which
 * nothing catches), and a rule ignores a path only when it matches the whole
 * path string.
 */
module Fd {
  import opened Wrappers
  import GlobUtils
  import FileTree
  import opened IgnoreFile

  /** What the inline loop appends for one character. */
  function InlineChar(c: char): string
  {
    if c == '*' then ".*" else if c == '?' then "." else [c]
  }

  /** The inline translation of an ignore-file line. */
  function InlineTranslation(line: string): string
  {
    if line == [] then "" else InlineChar(line[0]) + InlineTranslation(line[1..])
  }

  lemma {:induction false} InlineTranslationAppend(a: string, b: string)
    ensures InlineTranslation(a + b) == InlineTranslation(a) + InlineTranslation(b)
  {
    if a == [] {
      assert a + b == b;
    } else {
      assert (a + b)[0] == a[0];
      assert (a + b)[1..] == a[1..] + b;
      InlineTranslationAppend(a[1..], b);
    }
  }

  /** The inline translation agrees with `glob_to_regex` exactly on the lines
      without a `.`: `glob_to_regex` escapes it, the inline loop does not. */
  lemma {:induction false} InlineAgreesIffNoDot(line: string)
    ensures InlineTranslation(line) == GlobUtils.Translation(line) <==> '.' !in line
  {
    if line != [] {
      var c := line[0];
      var rest := line[1..];
      InlineAgreesIffNoDot(rest);
      assert line == [c] + rest;
      assert '.' in line <==> c == '.' || '.' in rest;
      var i := InlineTranslation(line);
      var t := GlobUtils.Translation(line);
      if c == '.' {
        assert i[0] == '.' && t[0] == '\\';
      } else {
        var p := InlineChar(c);
        assert p == GlobUtils.CharTranslation(c);
        assert i == p + InlineTranslation(rest) && t == p + GlobUtils.Translation(rest);
        assert i[|p|..] == InlineTranslation(rest) && t[|p|..] == GlobUtils.Translation(rest);
      }
    }
  }

  /** The rules of an ignore file, or the translated line whose compilation throws. */
  function RulesOf(std: Engine, lines: seq<string>): Result<seq<string>, string>
  {
    if lines == [] then Success([])
    else
      var line := lines[|lines| - 1];
      match RulesOf(std, lines[..|lines| - 1])
      case Failure(bad) => Failure(bad)
      case Success(rules) =>
        if Skipped(line) then Success(rules)
        else
          var regex := InlineTranslation(line);
          if std.compiles(regex) then Success(rules + [regex]) else Failure(regex)
  }

  /** Reading stops at the first line whose translation does not compile; before
      that, the rules of the two parts of a file come one after the other. */
  lemma {:induction false} RulesOfAppend(std: Engine, a: seq<string>, b: seq<string>)
    ensures RulesOf(std, a).Failure? ==> RulesOf(std, a + b) == RulesOf(std, a)
    ensures RulesOf(std, a).Success? && RulesOf(std, b).Failure? ==> RulesOf(std, a + b) == RulesOf(std, b)
    ensures RulesOf(std, a).Success? && RulesOf(std, b).Success? ==>
              RulesOf(std, a + b) == Success(RulesOf(std, a).value + RulesOf(std, b).value)
    decreases |b|
  {
    if b == [] {
      assert a + b == a;
      if RulesOf(std, a).Success? {
        assert RulesOf(std, a).value + [] == RulesOf(std, a).value;
      }
    } else {
      var ab := a + b;
      assert ab[..|ab| - 1] == a + b[..|b| - 1];
      assert ab[|ab| - 1] == b[|b| - 1];
      var init := b[..|b| - 1];
      RulesOfAppend(std, a, init);
      if RulesOf(std, a).Success? && RulesOf(std, b).Success? {
        var x := RulesOf(std, a).value;
        var y := RulesOf(std, init).value;
        if !Skipped(b[|b| - 1]) {
          var regex := InlineTranslation(b[|b| - 1]);
          assert x + y + [regex] == x + (y + [regex]);
        }
      }
    }
  }

  /** Loading succeeds exactly when the translation of every line that is not
      skipped compiles. */
  lemma {:induction false} RulesOfSucceedsIff(std: Engine, lines: seq<string>)
    ensures RulesOf(std, lines).Success? <==>
            forall i :: 0 <= i < |lines| && !Skipped(lines[i]) ==> std.compiles(InlineTranslation(lines[i]))
    decreases |lines|
  {
    if lines != [] {
      var init := lines[..|lines| - 1];
      RulesOfSucceedsIff(std, init);
      assert forall i :: 0 <= i < |init| ==> init[i] == lines[i];
    }
  }

  /** When loading succeeds, a rule is exactly the translation of a line that is
      not skipped. */
  lemma {:induction false} RulesOfMembership(std: Engine, lines: seq<string>, r: string)
    requires RulesOf(std, lines).Success?
    ensures r in RulesOf(std, lines).value <==>
            exists i :: 0 <= i < |lines| && !Skipped(lines[i]) && r == InlineTranslation(lines[i])
    decreases |lines|
  {
    if lines != [] {
      var init := lines[..|lines| - 1];
      RulesOfMembership(std, init, r);
      if exists i :: 0 <= i < |lines| && !Skipped(lines[i]) && r == InlineTranslation(lines[i]) {
        var i :| 0 <= i < |lines| && !Skipped(lines[i]) && r == InlineTranslation(lines[i]);
        if i < |lines| - 1 {
          assert init[i] == lines[i];
        }
      }
    }
  }

  /** `load_gitignore_rules(dir)`: `file` is the ignore file's lines, or `None` when
      it cannot be opened; `Failure(regex)` is the `regex_error` thrown for `regex`. */
  method LoadRules(std: Engine, file: Option<seq<string>>) returns (rules: Result<seq<string>, string>)
    ensures file.None? ==> rules == Success([])
    ensures file.Some? ==> rules == RulesOf(std, file.value)
  {
    if file.None? {
      return Success([]);
    }
    var lines := file.value;
    var loaded := [];
    var i := 0;
    while i < |lines|
      invariant 0 <= i <= |lines|
      invariant RulesOf(std, lines[..i]) == Success(loaded)
    {
      var line := lines[i];
      assert lines[..i + 1][..i] == lines[..i];
      if !Skipped(line) {
        var regex := "";
        for k := 0 to |line|
          invariant regex == InlineTranslation(line[..k])
        {
          var c := line[k];
          if c == '*' {
            regex := regex + ".*";
          } else if c == '?' {
            regex := regex + ".";
          } else {
            regex := regex + [c];
          }
          assert line[..k + 1] == line[..k] + [c];
          InlineTranslationAppend(line[..k], [c]);
        }
        assert line[..|line|] == line;
        if !std.compiles(regex) {
          RulesOfAppend(std, lines[..i + 1], lines[i + 1..]);
          assert lines[..i + 1] + lines[i + 1..] == lines;
          return Failure(regex);
        }
        loaded := loaded + [regex];
      }
      i := i + 1;
    }
    assert lines[..|lines|] == lines;
    return Success(loaded);
  }

  /** Some rule matches the whole of `path`. */
  predicate Ignored(std: Engine, rules: seq<string>, path: string)
  {
    exists i :: 0 <= i < |rules| && std.fullMatch(rules[i], path)
  }

  /** `is_ignored(path, rules)` with `regex_match`, on the path string itself: the
      `string_view` the source binds to the temporary `path.string()` is not modelled. */
  method IsIgnored(std: Engine, path: string, rules: seq<string>) returns (ignored: bool)
    ensures ignored <==> exists i :: 0 <= i < |rules| && std.fullMatch(rules[i], path)
    ensures rules == [] ==> !ignored
  {
    for i := 0 to |rules|
      invariant forall j :: 0 <= j < i ==> !std.fullMatch(rules[j], path)
    {
      if std.fullMatch(rules[i], path) {
        return true;
      }
    }
    return false;
  }

  /** How `fd_search` judges entries: ignored by a rule matching the whole path,
      reported when `regex_search` finds the pattern in the file name. */
  function SearchConfig(std: Engine, pattern: string, rules: seq<string>, maxDepth: int): FileTree.Config
  {
    FileTree.Config(path => Ignored(std, rules, path), name => std.partialMatch(pattern, name), maxDepth)
  }

  /** `fd_search(dir, pattern, rules, max_depth, current_depth)`: the pre-order
      enumeration of the tree below `dir`, keeping what the walk reaches and accepts. */
  function Search(std: Engine, pattern: string, rules: seq<string>, dir: string, listing: FileTree.Listing,
                  maxDepth: int, depth: int): (out: seq<FileTree.Report>)
    ensures out == FileTree.Keep(SearchConfig(std, pattern, rules, maxDepth), depth,
                                 FileTree.Enumerate(dir, listing, depth, []))
  {
    var cfg := SearchConfig(std, pattern, rules, maxDepth);
    FileTree.WalkIsFilteredEnumeration(cfg, depth, dir, listing, depth, []);
    FileTree.Walk(cfg, dir, listing, depth)
  }
}
