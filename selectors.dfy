/** The two path patterns fixed when the middleware is created (index.js,
    lines 13-14). JavaScript's `$` without the `m` flag anchors at the end of
    the whole string, so each pattern is a test on the path's suffix. */
module Selectors {
  predicate EndsWith(p: string, suffix: string) {
    |suffix| <= |p| && p[|p| - |suffix|..] == suffix
  }

  /** The path ends in `.` followed by ext. */
  predicate HasExtension(p: string, ext: string) {
    EndsWith(p, "." + ext)
  }

  /** `/\.(json|jshintrc)$/`: files that get the JSON view. */
  predicate IsJsonPath(p: string) {
    HasExtension(p, "json") || HasExtension(p, "jshintrc")
  }

  /** `/\.(md|tmpl)$/`: files that get front matter and delimiter escaping. */
  predicate IsTemplatePath(p: string) {
    HasExtension(p, "md") || HasExtension(p, "tmpl")
  }

  /** How a regular-expression search reads `\.ext$`: some `.` in the path is
      followed by exactly ext up to the end. */
  predicate DotThenToEnd(p: string, ext: string) {
    exists i :: 0 <= i < |p| && p[i] == '.' && p[i + 1..] == ext
  }

  /** The suffix test and the regular-expression search agree, both ways. */
  lemma HasExtensionIsSearch(p: string, ext: string)
    ensures HasExtension(p, ext) <==> DotThenToEnd(p, ext)
  {
    if HasExtension(p, ext) {
      var i := |p| - |ext| - 1;
      assert p[i..] == "." + ext;
      assert p[i] == p[i..][0];
      assert p[i + 1..] == p[i..][1..];
    }
    if DotThenToEnd(p, ext) {
      var i :| 0 <= i < |p| && p[i] == '.' && p[i + 1..] == ext;
      assert p[i..] == [p[i]] + p[i + 1..];
      assert |p| - |"." + ext| == i;
    }
  }

  /** The two selectors, each read as its regular expression. */
  lemma SelectorsAreSearches(p: string)
    ensures IsJsonPath(p) <==> DotThenToEnd(p, "json") || DotThenToEnd(p, "jshintrc")
    ensures IsTemplatePath(p) <==> DotThenToEnd(p, "md") || DotThenToEnd(p, "tmpl")
  {
    HasExtensionIsSearch(p, "json");
    HasExtensionIsSearch(p, "jshintrc");
    HasExtensionIsSearch(p, "md");
    HasExtensionIsSearch(p, "tmpl");
  }

  lemma LastCharacter(p: string, ext: string)
    requires HasExtension(p, ext) && |ext| > 0
    ensures p[|p| - 1] == ext[|ext| - 1]
  {
    assert p[|p| - 1] == p[|p| - |ext| - 1..][|ext|];
  }

  /** No path is selected by both patterns, so a file never gets both the
      delimiter rewrites and the JSON rewrites. */
  lemma SelectorsDisjoint(p: string)
    ensures !(IsJsonPath(p) && IsTemplatePath(p))
  {
    if IsJsonPath(p) {
      if HasExtension(p, "json") {
        LastCharacter(p, "json");
      } else {
        LastCharacter(p, "jshintrc");
      }
      if HasExtension(p, "md") {
        LastCharacter(p, "md");
      }
      if HasExtension(p, "tmpl") {
        LastCharacter(p, "tmpl");
      }
    }
  }
}
