/**
 * The tracer's per-project settings: where the requirements database is and
 * how many lines of code per requirement are aimed at. Both are read from
 * the project's "Requirements" attributes when a project is loaded.
 */
module Config {
  import opened Wrappers
  import opened Text

  /** The path separator. */
  const Sep: string := "/"

  /** The database file name used when the project names none. */
  const DefaultReqFile: string := "requirements.db"

  /** The target used when the project names none or names something that is not a number. */
  const DefaultSlocPerLlr: int := 20

  /** `os.path.isabs`: the path starts at the root. */
  predicate IsAbs(path: string) {
    StartsWith(path, Sep)
  }

  /**
   * The database path for the `ReqFile` attribute `attr` of a project in
   * directory `prjDir`: the default file in the project directory when the
   * attribute is empty, the attribute itself when it is absolute, else the
   * attribute taken relative to the project directory.
   */
  function ResolveReqFile(attr: string, prjDir: string): string
  {
    if attr == [] then prjDir + Sep + DefaultReqFile
    else if IsAbs(attr) then attr
    else prjDir + Sep + attr
  }

  /**
   * In an absolute project directory every database path resolves to an
   * absolute path that ends with the attribute (or the default file name),
   * and a path that is already absolute is kept as it is.
   */
  lemma ResolveReqFileShape(attr: string, prjDir: string)
    requires IsAbs(prjDir)
    ensures var path := ResolveReqFile(attr, prjDir);
            var name := if attr == [] then DefaultReqFile else attr;
            && IsAbs(path)
            && |name| <= |path| && path[|path| - |name|..] == name
            && (IsAbs(attr) ==> path == attr)
  {
    var path := ResolveReqFile(attr, prjDir);
    assert path[..1] == prjDir[..1] || path == attr;
  }

  /** Resolving a resolved path again, in an absolute project directory, changes nothing. */
  lemma ResolveReqFileIdempotent(attr: string, prjDir: string)
    requires IsAbs(prjDir)
    ensures ResolveReqFile(ResolveReqFile(attr, prjDir), prjDir) == ResolveReqFile(attr, prjDir)
  {
    ResolveReqFileShape(attr, prjDir);
  }

  /** The target for the `SlocPerLLR` attribute `attr`: its integer value, or the default. */
  function ResolveTarget(attr: string): int
  {
    if attr == [] then DefaultSlocPerLlr
    else
      match ParseInt(attr)
      case Some(n) => n
      case None => DefaultSlocPerLlr
  }

  /** Any integer written as Python prints it is read back as that integer. */
  lemma ResolveTargetReadsBack(n: int)
    ensures ResolveTarget(ShowInt(n)) == n
  {
    ParseShowInt(n);
  }

  /** An attribute that is not a number falls back to the default target of 20. */
  lemma ResolveTargetFallsBack(attr: string)
    requires ParseInt(attr).None?
    ensures ResolveTarget(attr) == 20
  {
  }

  /** Blanks around the number are ignored: " 35 " gives 35. */
  lemma ResolveTargetPadded()
    ensures ResolveTarget(" 35 ") == 35
  {
    assert SkipSpaces(" 35 ", 0) == 1;
    assert " 35 "[1..] == "35 ";
    assert TrimEnd("35 ", 3) == 2;
    assert Strip(" 35 ") == "35";
    StripUnpadded("35");
    ThirtyFive();
  }

  /** A leading plus sign is allowed: "+35" gives 35. */
  lemma ResolveTargetSigned()
    ensures ResolveTarget("+35") == 35
  {
    StripUnpadded("+35");
    assert "+35"[1..] == "35";
    StripUnpadded("35");
    ThirtyFive();
    assert ParseInt("+35") == Some(35);
  }

  lemma ThirtyFive()
    ensures AllDigits("35") && DigitsValue("35") == 35
  {
    assert "35"[..1] == "3" && "3"[..0] == [];
  }

  /** A decimal fraction is not an integer: "3.5" gives the default 20. */
  lemma ResolveTargetFraction()
    ensures ResolveTarget("3.5") == 20
  {
    StripUnpadded("3.5");
    assert !IsDigit("3.5"[1]);
  }

  /**
   * The plugin object's settings. Before any project is loaded neither is
   * set; each project load sets both.
   */
  class Reqtrace {
    var reqFile: Option<string>
    var targetSlocPerLlr: Option<int>

    constructor ()
      ensures reqFile == None && targetSlocPerLlr == None
    {
      reqFile := None;
      targetSlocPerLlr := None;
    }

    /**
     * `_project_loaded`: the project's `ReqFile` attribute, its directory and
     * its `SlocPerLLR` attribute determine both settings.
     */
    method ProjectLoaded(reqFileAttr: string, prjDir: string, slocPerLlrAttr: string)
      modifies this
      ensures reqFile == Some(ResolveReqFile(reqFileAttr, prjDir))
      ensures targetSlocPerLlr == Some(ResolveTarget(slocPerLlrAttr))
    {
      var path := reqFileAttr;
      if path == [] {
        path := prjDir + Sep + DefaultReqFile;
      } else if !IsAbs(path) {
        path := prjDir + Sep + path;
      }
      reqFile := Some(path);

      if slocPerLlrAttr == [] {
        targetSlocPerLlr := Some(DefaultSlocPerLlr);
      } else {
        var parsed := ParseInt(slocPerLlrAttr);
        if parsed.Some? {
          targetSlocPerLlr := Some(parsed.value);
        } else {
          targetSlocPerLlr := Some(DefaultSlocPerLlr);
        }
      }
    }
  }
}
