/** The second copy of `glob_to_regex` (common/g_utils.cpp). */
module GUtilsCopy {
  import GlobUtils

  /** The copy's loop as a recursion on the last character: the result so far
      followed by the translation of the next character. It agrees with the
      `gutils.cpp` translation on every input. */
  function GlobToRegex(glob: string): (regex: string)
    ensures regex == GlobUtils.Translation(glob)
  {
    if glob == [] then ""
    else
      var init := glob[..|glob| - 1];
      var last := glob[|glob| - 1];
      assert glob == init + [last];
      GlobUtils.TranslationAppend(init, [last]);
      GlobUtils.TranslationBase(last);
      GlobToRegex(init) + GlobUtils.CharTranslation(last)
  }
}
