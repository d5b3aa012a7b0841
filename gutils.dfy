/**
 * The string helpers of the `gutils` namespace: glob translation, prefix and
 * suffix tests and vector membership (common/gutils.cpp, common/gutils.h).
 */
module GlobUtils {

  /** What one glob character becomes in the regular expression. */
  function CharTranslation(c: char): string
  {
    match c
    case '*' => ".*"
    case '?' => "."
    case '.' => "\\."
    case _ => [c]
  }

  /** The translation of a whole glob: the translations of its characters, in order. */
  function Translation(glob: string): string
  {
    if glob == [] then "" else CharTranslation(glob[0]) + Translation(glob[1..])
  }

  /** Number of occurrences of `c` in `s`. */
  function Count(s: string, c: char): nat
  {
    if s == [] then 0 else (if s[0] == c then 1 else 0) + Count(s[1..], c)
  }

  lemma {:induction false} CountAppend(a: string, b: string, c: char)
    ensures Count(a + b, c) == Count(a, c) + Count(b, c)
  {
    if a == [] {
      assert a + b == b;
    } else {
      assert (a + b)[1..] == a[1..] + b;
      CountAppend(a[1..], b, c);
    }
  }

  /** Translation is a homomorphism from concatenation to concatenation. */
  lemma {:induction false} TranslationAppend(a: string, b: string)
    ensures Translation(a + b) == Translation(a) + Translation(b)
  {
    if a == [] {
      assert a + b == b;
    } else {
      assert (a + b)[0] == a[0];
      assert (a + b)[1..] == a[1..] + b;
      TranslationAppend(a[1..], b);
    }
  }

  /** The empty glob and a one-character glob. */
  lemma TranslationBase(c: char)
    ensures Translation("") == ""
    ensures Translation([c]) == CharTranslation(c)
    ensures c == '*' ==> Translation([c]) == ".*"
    ensures c == '?' ==> Translation([c]) == "."
    ensures c == '.' ==> Translation([c]) == "\\."
    ensures c != '*' && c != '?' && c != '.' ==> Translation([c]) == [c]
  {
    assert [c][1..] == "";
  }

  /** The output is one character longer than the input for every `*` and every `.`. */
  lemma {:induction false} TranslationLength(glob: string)
    ensures |Translation(glob)| == |glob| + Count(glob, '*') + Count(glob, '.')
  {
    if glob != [] {
      TranslationLength(glob[1..]);
    }
  }

  /** A `?` of the glob never survives: the output holds no `?` at all. */
  lemma {:induction false} TranslationHasNoQuestionMark(glob: string)
    ensures '?' !in Translation(glob)
  {
    if glob != [] {
      TranslationHasNoQuestionMark(glob[1..]);
      assert '?' !in CharTranslation(glob[0]);
    }
  }

  /** The loop of `glob_to_regex`, appending each character's translation to the result. */
  method GlobToRegex(glob: string) returns (regex: string)
    ensures regex == Translation(glob)
  {
    regex := "";
    for i := 0 to |glob|
      invariant regex == Translation(glob[..i])
    {
      assert glob[..i + 1] == glob[..i] + [glob[i]];
      TranslationAppend(glob[..i], [glob[i]]);
      assert [glob[i]][1..] == "";
      regex := regex + CharTranslation(glob[i]);
    }
    assert glob[..|glob|] == glob;
  }

  /** `starts_with`: the size test followed by `std::equal` over the prefix. */
  predicate StartsWith(str: string, prefix: string)
  {
    |str| >= |prefix| && forall i :: 0 <= i < |prefix| ==> prefix[i] == str[i]
  }

  /** `ends_with`: the size test followed by `std::equal` over reverse iterators. */
  predicate EndsWith(str: string, suffix: string)
  {
    |str| >= |suffix| &&
    forall k :: |str| - |suffix| <= k < |str| ==> str[k] == suffix[k - (|str| - |suffix|)]
  }

  lemma StartsWithIsPrefix(str: string, prefix: string)
    ensures StartsWith(str, prefix) <==> |prefix| <= |str| && str[..|prefix|] == prefix
  {
    if |prefix| <= |str| && str[..|prefix|] == prefix {
      forall i | 0 <= i < |prefix| ensures prefix[i] == str[i] {
        assert str[..|prefix|][i] == str[i];
      }
    }
  }

  lemma EndsWithIsSuffix(str: string, suffix: string)
    ensures EndsWith(str, suffix) <==> |suffix| <= |str| && str[|str| - |suffix|..] == suffix
  {
    if |suffix| <= |str| && str[|str| - |suffix|..] == suffix {
      forall k | |str| - |suffix| <= k < |str| ensures str[k] == suffix[k - (|str| - |suffix|)] {
        assert str[|str| - |suffix|..][k - (|str| - |suffix|)] == str[k];
      }
    }
  }

  lemma StartsWithConcat(prefix: string, tail: string)
    ensures StartsWith(prefix + tail, prefix)
    ensures StartsWith(tail, "")
  {
    StartsWithIsPrefix(prefix + tail, prefix);
    assert (prefix + tail)[..|prefix|] == prefix;
  }

  lemma EndsWithConcat(head: string, suffix: string)
    ensures EndsWith(head + suffix, suffix)
    ensures EndsWith(head, "")
  {
    EndsWithIsSuffix(head + suffix, suffix);
    assert (head + suffix)[|head|..] == suffix;
  }

  /** `std::find`: the first index holding `value`, or `|vec|` when there is none. */
  function Find<T(==)>(vec: seq<T>, value: T): (k: nat)
    ensures k <= |vec|
    ensures k < |vec| ==> vec[k] == value
    ensures forall j :: 0 <= j < k ==> vec[j] != value
  {
    if vec == [] || vec[0] == value then 0 else 1 + Find(vec[1..], value)
  }

  /** `vector_contains`: `std::find` did not reach the end. */
  predicate VectorContains<T(==)>(vec: seq<T>, value: T)
  {
    Find(vec, value) != |vec|
  }

  lemma VectorContainsIffIndex<T>(vec: seq<T>, value: T)
    ensures VectorContains(vec, value) <==> exists i :: 0 <= i < |vec| && vec[i] == value
  {
  }

  lemma VectorContainsAppend<T>(vec: seq<T>, more: seq<T>, value: T)
    ensures !VectorContains([], value)
    ensures VectorContains(vec + [value], value)
    ensures VectorContains(vec, value) ==> VectorContains(vec + more, value)
  {
    VectorContainsIffIndex(vec + [value], value);
    assert (vec + [value])[|vec|] == value;
    if VectorContains(vec, value) {
      VectorContainsIffIndex(vec, value);
      var i :| 0 <= i < |vec| && vec[i] == value;
      assert (vec + more)[i] == value;
      VectorContainsIffIndex(vec + more, value);
    }
  }
}
