/**
 * Path and object-name clean-up of the cluster launcher helper:
 * drive-letter case, separator tidying and names fit for S3 and URLs.
 */
module Paths {
  import opened Text

  /**
   * `drivecaps`: a name of the form `X:...` longer than two characters has
   * its drive letter lower-cased; anything else is returned unchanged.
   */
  function DriveCaps(name: string): string
  {
    if |name| > 2 && name[1] == ':' then [LowerChar(name[0])] + name[1..] else name
  }

  lemma DriveCapsOnlyTouchesDriveLetter(name: string)
    ensures |DriveCaps(name)| == |name|
    ensures forall i :: 1 <= i < |name| ==> DriveCaps(name)[i] == name[i]
    ensures |name| > 2 && name[1] == ':' ==> !IsUpper(DriveCaps(name)[0])
    ensures !(|name| > 2 && name[1] == ':') ==> DriveCaps(name) == name
    ensures DriveCaps(DriveCaps(name)) == DriveCaps(name)
  {
  }

  /** `tidypath`: backslashes become slashes, then one pass folds `//` into `/`. */
  function TidyPath(p: string): string
  {
    Replace(Replace(p, "\\", "/"), "//", "/")
  }

  /** A tidied path holds no backslash, and a path that is already tidy is left alone. */
  lemma TidyPathSpec(p: string)
    ensures '\\' !in TidyPath(p)
    ensures '\\' !in p && !Contains(p, "//") ==> TidyPath(p) == p
  {
    var q := Replace(p, "\\", "/");
    ReplaceCharIsSubst(p, '\\', "/");
    SubstCharMembers(p, '\\', "/", '\\');
    ReplaceKeepsOut(q, "//", "/", '\\');
    if '\\' !in p && !Contains(p, "//") {
      SubstCharAbsent(p, '\\', "/");
      ReplaceAbsent(p, "//", "/");
    }
  }

  /** `notDrive`: the drive separator `:` becomes `-`, after `drivecaps`. */
  function NotDrive(s: string): string
  {
    Replace(DriveCaps(s), ":", "-")
  }

  /**
   * The S3 naming rule of the cluster launcher, one character at a time:
   * `:` becomes `-`, a backslash becomes `/`, and for a bucket name capitals
   * are lower-cased and `_` becomes `-`.
   */
  function S3Char(c: char, isBucketName: bool): char
  {
    var a := if c == ':' then '-' else if c == '\\' then '/' else c;
    if isBucketName then (if LowerChar(a) == '_' then '-' else LowerChar(a)) else a
  }

  /**
   * `S3CompatibleString` of the cluster launcher: unchanged when running
   * locally, otherwise `notDrive`, backslashes to slashes and, for a bucket
   * name, lower case with `_` turned into `-`.
   */
  function S3CompatibleString(instr: string, isBucketName: bool, runLocal: bool): string
  {
    if runLocal then instr
    else
      var outstr := Replace(NotDrive(instr), "\\", "/");
      if isBucketName then Replace(Lower(outstr), "_", "-") else outstr
  }

  /**
   * Outside local mode the S3 name has the length of the input and is the
   * drive-capped input mapped character by character through `S3Char`; so it
   * holds no `:` and no backslash, and a bucket name holds no `_` and no capital.
   */
  lemma S3CompatibleStringSpec(instr: string, isBucketName: bool, runLocal: bool)
    ensures runLocal ==> S3CompatibleString(instr, isBucketName, runLocal) == instr
    ensures !runLocal ==>
      var r := S3CompatibleString(instr, isBucketName, runLocal);
      |r| == |instr| &&
      (forall i :: 0 <= i < |r| ==> r[i] == S3Char(DriveCaps(instr)[i], isBucketName)) &&
      ':' !in r && '\\' !in r &&
      (isBucketName ==> '_' !in r && forall i :: 0 <= i < |r| ==> !IsUpper(r[i]))
  {
    if !runLocal {
      var d := DriveCaps(instr);
      DriveCapsOnlyTouchesDriveLetter(instr);
      var a := Replace(d, ":", "-");
      ReplaceCharByChar(d, ':', '-');
      var b := Replace(a, "\\", "/");
      ReplaceCharByChar(a, '\\', '/');
      var r := S3CompatibleString(instr, isBucketName, runLocal);
      if isBucketName {
        var l := Lower(b);
        ReplaceCharByChar(l, '_', '-');
        assert r == Replace(l, "_", "-");
      } else {
        assert r == b;
      }
      assert forall i :: 0 <= i < |r| ==> r[i] == S3Char(d[i], isBucketName);
      assert ':' !in r && '\\' !in r by {
        forall i | 0 <= i < |r| ensures r[i] != ':' && r[i] != '\\' {
          assert r[i] == S3Char(d[i], isBucketName);
        }
      }
    }
  }
}
