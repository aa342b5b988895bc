/**
  The two parts of a file or directory name that `pathlib` exposes: the
  suffix (from the last dot, provided that dot is neither the first nor the
  last character of the name) and the stem (the rest).
 */
module Paths {
  import opened Wrappers

  /** Position of the last '.' in a name, as `str.rfind` finds it. */
  function LastDot(name: string): (r: Option<nat>)
    ensures r.Some? ==> r.value < |name| && name[r.value] == '.'
    ensures r.Some? ==> forall j :: r.value < j < |name| ==> name[j] != '.'
    ensures r.None? ==> forall j :: 0 <= j < |name| ==> name[j] != '.'
  {
    if name == [] then None
    else if name[|name| - 1] == '.' then Some(|name| - 1)
    else LastDot(name[..|name| - 1])
  }

  /**
    True when the last dot of a name starts a suffix: the rule of pathlib up
    to Python 3.13, where the dot is neither the first nor the last character.
   */
  predicate HasSuffix(name: string)
  {
    var dot := LastDot(name);
    dot.Some? && 0 < dot.value < |name| - 1
  }

  /** `Path(name).suffix`. */
  function Suffix(name: string): string
  {
    if HasSuffix(name) then name[LastDot(name).value..] else ""
  }

  /** `Path(name).stem`. */
  function Stem(name: string): string
  {
    if HasSuffix(name) then name[..LastDot(name).value] else name
  }

  /** The test the tree walk applies to skip prompt texts: the name ends in `.md` after at least one other character. */
  predicate IsMarkdown(name: string)
  {
    Suffix(name) == ".md"
  }

  /** The suffix is empty or the tail of the name from a dot, with no other dot and at least one character after it. */
  lemma SuffixShape(name: string)
    ensures |Suffix(name)| <= |name| && Suffix(name) == name[|name| - |Suffix(name)|..]
    ensures Suffix(name) == "" || (Suffix(name)[0] == '.' && 2 <= |Suffix(name)| && '.' !in Suffix(name)[1..])
  {
  }

  /** Stem and suffix split a name without losing or adding characters, and the stem of a non-empty name is not empty. */
  lemma StemSuffixSplit(name: string)
    ensures Stem(name) + Suffix(name) == name
    ensures 0 < |Stem(name)| || name == []
  {
  }

  /** A name is skipped as a prompt text exactly when it ends in `.md` and is longer than that. */
  lemma MarkdownSuffix(name: string)
    ensures IsMarkdown(name) <==> 3 < |name| && name[|name| - 3..] == ".md"
  {
    if 3 < |name| && name[|name| - 3..] == ".md" {
      var base := name[..|name| - 3];
      assert name == base + "." + "md";
      NameWithExtension(base, "md");
    }
  }

  /** A name without a dot has no suffix and is its own stem, as the version directory `v1`. */
  lemma NameWithoutDot(name: string)
    requires '.' !in name
    ensures Stem(name) == name && Suffix(name) == ""
  {
  }

  /**
    A non-empty base followed by '.' and a dot-free, non-empty extension has
    that base as its stem and '.' + extension as its suffix. This is how
    `claude.3.5.json` yields the model name `claude.3.5`, and how a version
    directory `v1.0` yields the stem `v1`.
   */
  lemma {:induction false} NameWithExtension(base: string, ext: string)
    requires base != [] && ext != [] && '.' !in ext
    ensures Stem(base + "." + ext) == base
    ensures Suffix(base + "." + ext) == "." + ext
  {
    var name := base + "." + ext;
    assert name[|base|] == '.';
    var dot := LastDot(name);
    assert dot == Some(|base|) by {
      forall j | |base| < j < |name| ensures name[j] != '.' {
        assert name[j] == ext[j - |base| - 1];
      }
    }
    assert name[..|base|] == base;
    assert name[|base|..] == "." + ext;
  }
}
