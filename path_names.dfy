/**
  File-name arithmetic as Rust's std::path performs it on the last component
  of a path: extension suffixes and `file_stem`.
*/
module PathNames {
  import opened Wrappers

  /** Whether `s` ends with `suffix` (what a glob `*<suffix>` matches, case-sensitively). */
  predicate HasSuffix(s: string, suffix: string) {
    |suffix| <= |s| && s[|s| - |suffix|..] == suffix
  }

  predicate NoDot(s: string) {
    forall j :: 0 <= j < |s| ==> s[j] != '.'
  }

  /** The position of the last '.' in `s`, if there is one. */
  function LastDot(s: string): (r: Option<nat>)
    ensures r.Some? ==> r.value < |s| && s[r.value] == '.'
    ensures r.Some? ==> forall j :: r.value < j < |s| ==> s[j] != '.'
    ensures r.None? <==> NoDot(s)
    decreases |s|
  {
    if |s| == 0 then None
    else if s[|s| - 1] == '.' then Some(|s| - 1)
    else LastDot(s[..|s| - 1])
  }

  /**
    `Path::file_stem` of a file name: the name is split at its last '.';
    the part before it is the stem, unless that part is empty (a name such
    as ".profile") or there is no '.' at all, in which case the stem is the
    whole name. The name ".." is its own stem.
  */
  function FileStem(name: string): (r: string)
    ensures |r| <= |name| && r == name[..|r|]
    ensures r != name ==> 0 < |r| && name[|r|] == '.'
    ensures r != name ==> forall j :: |r| < j < |name| ==> name[j] != '.'
    ensures NoDot(name) ==> r == name
  {
    if name == ".." then name
    else match LastDot(name)
      case None => name
      case Some(i) => if i == 0 then name else name[..i]
  }

  /**
    The stem of `base.ext`, for an extension without dots, is `base`; a
    name that is only a dot and an extension (".png") is its own stem.
  */
  lemma FileStemOfExtension(base: string, ext: string)
    requires ext != "" && NoDot(ext)
    ensures FileStem(base + "." + ext) == if base == "" then "." + ext else base
  {
    var name := base + "." + ext;
    assert name[|base|] == '.';
    assert forall j :: |base| < j < |name| ==> name[j] == ext[j - |base| - 1];
    var d := LastDot(name);
    assert d == Some(|base|);
    assert name != "..";
    if base != "" {
      assert name[..|base|] == base;
    }
  }
}
