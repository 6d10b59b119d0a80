/**
 * `FilesysHelper::parsePath`: the program path given as argv[0] split into
 * the directory it starts from and the program name. The file-system
 * queries of the helper are not part of this model.
 */
module FilesysHelper {
  import opened Results

  /** `find_last_of('/')`: the position of the last slash, if any. */
  function LastSlash(s: string): (r: Option<nat>)
    ensures r.Some? ==> r.value < |s| && s[r.value] == '/' && forall j :: r.value < j < |s| ==> s[j] != '/'
    ensures r.None? ==> forall j :: 0 <= j < |s| ==> s[j] != '/'
    decreases |s|
  {
    if |s| == 0 then None
    else if s[|s| - 1] == '/' then Some(|s| - 1)
    else LastSlash(s[..|s| - 1])
  }

  /**
   * `parsePath`: an empty path gives (".", "cate"); a path without a slash
   * gives "." and the path; otherwise the path is cut after its last slash.
   */
  function ParsePath(argv0: string): (r: (string, string))
    ensures |argv0| == 0 ==> r == (".", "cate")
    ensures |argv0| > 0 && '/' !in argv0 ==> r == (".", argv0)
    ensures '/' in argv0 ==> r.0 + r.1 == argv0 && |r.0| > 0 && r.0[|r.0| - 1] == '/' && '/' !in r.1
  {
    if |argv0| > 0 then
      var lastSlashIdx := LastSlash(argv0);
      if lastSlashIdx.Some? then
        var cut := lastSlashIdx.value + 1;
        assert argv0[..cut] + argv0[cut..] == argv0;
        (argv0[..cut], argv0[cut..])
      else
        (".", argv0)
    else
      (".", "cate")
  }

  /** The split is determined: a prefix ending in a slash and a name without one. */
  lemma ParsePathUnique(argv0: string, dir: string, name: string)
    requires dir + name == argv0 && |dir| > 0 && dir[|dir| - 1] == '/' && '/' !in name
    ensures ParsePath(argv0) == (dir, name)
  {
    var r := ParsePath(argv0);
    assert argv0[|dir| - 1] == '/';
    assert r.0 == argv0[..|dir|] && r.1 == argv0[|dir|..];
  }

  /** The paths of the `parsePath` test without a directory. */
  lemma ParsePathPlainExamples()
    ensures ParsePath("") == (".", "cate")
    ensures ParsePath("program") == (".", "program")
  {
  }

  /** The paths of the `parsePath` test with a directory. */
  lemma ParsePathExamples()
    ensures ParsePath("/") == ("/", "")
    ensures ParsePath("path/program") == ("path/", "program")
  {
    ParsePathUnique("/", "/", "");
    ParsePathUnique("path/program", "path/", "program");
  }
}
