/**
  The name of the output file, derived from the input file's name in
  `create_ron_file`: the text before the first `.`, then `.ron`.
 */
module RonFile {
  import opened Wrappers

  /**
    `s.split(".").next()`: Rust's split iterator always yields a first
    segment, the text before the first '.', which is all of `s` when it has
    no '.' and empty when it starts with one.
   */
  function SplitNext(s: string): (r: Option<string>)
    ensures r.Some?
    ensures r.value <= s
    ensures '.' !in r.value
    ensures |r.value| < |s| ==> s[|r.value|] == '.'
  {
    if s == [] || s[0] == '.' then Some([])
    else Some([s[0]] + SplitNext(s[1..]).value)
  }

  /**
    The name `create_ron_file` creates. Its error branch, for a split that
    yields nothing, cannot be taken.
   */
  function RonFileName(filename: string): (r: Result<string, string>)
    ensures r.Success?
    ensures |r.value| >= 4 && r.value[|r.value| - 4..] == ".ron"
    ensures var stem := r.value[..|r.value| - 4];
      && stem <= filename
      && '.' !in stem
      && (|stem| < |filename| ==> filename[|stem|] == '.')
  {
    match SplitNext(filename)
    case None => Failure("Failed to get the ron filename " + filename)
    case Some(stem) => Success(stem + ".ron")
  }

  /**
    The first segment is the only prefix that has no '.' and ends where
    the text does or at a '.'.
   */
  lemma SplitNextUnique(s: string, t: string)
    requires t <= s && '.' !in t
    requires |t| < |s| ==> s[|t|] == '.'
    ensures SplitNext(s) == Some(t)
  {
    var v := SplitNext(s).value;
    assert t == s[..|t|] && v == s[..|v|];
  }

  /** Worked cases: only the first segment is kept. */
  lemma RonFileNameExamples()
    ensures RonFileName("a.b.yml") == Success("a.ron")
    ensures RonFileName("cfg") == Success("cfg.ron")
    ensures RonFileName(".x.yml") == Success(".ron")
  {
    SplitNextUnique("a.b.yml", "a");
    assert "a" + ".ron" == "a.ron";
    SplitNextUnique("cfg", "cfg");
    assert "cfg" + ".ron" == "cfg.ron";
  }
}
