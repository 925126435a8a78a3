/**
 * The one piece of the command line that is not I/O: the output name gets a
 * `.tar` suffix unless it already ends with one, in any letter case.
 */
module Cli {

  /** `c.lower()` for the ASCII letters; every other character is left alone. */
  function LowerChar(c: char): (l: char)
    ensures 'A' <= c <= 'Z' ==> l as int == c as int + 32
    ensures !('A' <= c <= 'Z') ==> l == c
  {
    if 'A' <= c <= 'Z' then (c as int + 32) as char else c
  }

  function Lower(s: string): (l: string)
    ensures |l| == |s| && forall i :: 0 <= i < |s| ==> l[i] == LowerChar(s[i])
  {
    seq(|s|, i requires 0 <= i < |s| => LowerChar(s[i]))
  }

  /** `name.lower().endswith('.tar')`. */
  predicate EndsWithTar(name: string)
  {
    |name| >= 4 && Lower(name)[|name| - 4..] == ".tar"
  }

  /** The suffix rule applied to the `trilium` option. */
  function WithTarSuffix(name: string): (r: string)
  {
    if EndsWithTar(name) then name else name + ".tar"
  }

  /**
   * The output name always ends with `.tar` (in some letter case), keeps the
   * given name as its prefix, and differs from it only when the given name
   * lacked the suffix; so applying the rule twice changes nothing more.
   */
  lemma TarSuffix(name: string)
    ensures EndsWithTar(WithTarSuffix(name))
    ensures EndsWithTar(name) ==> WithTarSuffix(name) == name
    ensures !EndsWithTar(name) ==> WithTarSuffix(name) == name + ".tar"
    ensures WithTarSuffix(WithTarSuffix(name)) == WithTarSuffix(name)
  {
    if !EndsWithTar(name) {
      var r := name + ".tar";
      assert r[|r| - 4..] == ".tar";
      assert Lower(r)[|r| - 4..] == Lower(".tar");
      assert Lower(".tar") == ".tar";
    }
  }

  /** Upper- or mixed-case suffixes count: `x.TAR` is kept as it is. */
  lemma UpperCaseSuffixKept()
    ensures WithTarSuffix("x.TAR") == "x.TAR"
    ensures WithTarSuffix("x.tgz") == "x.tgz.tar"
  {
    assert Lower("x.TAR")[1..] == ".tar";
    assert Lower("x.tgz")[1..] != ".tar" by {
      assert Lower("x.tgz")[3] == 'g';
    }
  }
}
