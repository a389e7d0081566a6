/**
 * Name handling of the MapReduce helper: S3 names, the flattening of a
 * local path into a single cache-file name for the target file system and
 * its reversal, and the choice of a gzipped copy to transfer.
 */
module TargetPaths {
  import opened Text
  import Paths

  const ColonMarker := "__cln__"
  const SlashMarker := "__sl__"

  /**
   * `S3CompatibleString` of the MapReduce helper: unchanged when running
   * locally, otherwise drive-capped with every `:` spelled `__cln__`; a
   * bucket name is then lower-cased with `_` turned into `-`.
   */
  function S3CompatibleString(instr: string, isBucketName: bool, runLocal: bool): string
  {
    if runLocal then instr
    else
      var outstr := Replace(Paths.DriveCaps(instr), ":", ColonMarker);
      if isBucketName then Replace(Lower(outstr), "_", "-") else outstr
  }

  /** Outside local mode no `:` survives, and a bucket name holds no `_` and no capital. */
  lemma S3CompatibleStringSpec(instr: string, isBucketName: bool, runLocal: bool)
    ensures runLocal ==> S3CompatibleString(instr, isBucketName, runLocal) == instr
    ensures !runLocal ==> ':' !in S3CompatibleString(instr, isBucketName, runLocal)
    ensures !runLocal && isBucketName ==>
      var r := S3CompatibleString(instr, isBucketName, runLocal);
      '_' !in r && forall i :: 0 <= i < |r| ==> !IsUpper(r[i])
  {
    if !runLocal {
      var d := Paths.DriveCaps(instr);
      var o := Replace(d, ":", ColonMarker);
      ReplaceCharIsSubst(d, ':', ColonMarker);
      SubstCharMembers(d, ':', ColonMarker, ':');
      if isBucketName {
        var l := Lower(o);
        assert ':' !in l by {
          forall i | 0 <= i < |l| ensures l[i] != ':' {
            assert l[i] == LowerChar(o[i]);
          }
        }
        var r := Replace(l, "_", "-");
        ReplaceCharByChar(l, '_', '-');
        forall i | 0 <= i < |r| ensures r[i] != ':' && r[i] != '_' && !IsUpper(r[i]) {
          assert r[i] == (if l[i] == '_' then '-' else l[i]);
          assert l[i] == LowerChar(o[i]);
        }
      }
    }
  }

  /**
   * The final steps of `my_abspath`, applied to what the file system
   * resolved the name to: drive-capped, backslashes turned into slashes.
   */
  function MyAbspath(resolved: string): (r: string)
    ensures '\\' !in r
  {
    var d := Paths.DriveCaps(resolved);
    ReplaceCharIsSubst(d, '\\', "/");
    SubstCharMembers(d, '\\', "/", '\\');
    Replace(d, "\\", "/")
  }

  /**
   * `pathToTargetFileSystemPath`: the absolute path, with `:` as `-` in
   * X!!Tandem mode, or otherwise flattened into one name by spelling `:` as
   * `__cln__` and both separators as `__sl__`.
   */
  function PathToTargetFileSystemPath(resolved: string, runBangBang: bool): string
  {
    var fname := MyAbspath(resolved);
    if runBangBang then Replace(fname, ":", "-")
    else Replace(Replace(Replace(fname, ":", ColonMarker), "/", SlashMarker), "\\", SlashMarker)
  }

  /** `filenameToPath` as written: `__cln__` back to `:`, then `__sl__` back to `/`. */
  function FilenameToPath(fname: string): string
  {
    Replace(Replace(fname, ColonMarker, ":"), SlashMarker, "/")
  }

  /** How the flattening spells one character. */
  function EncodeChar(c: char): (r: string)
    ensures |r| > 0 && (r[0] == '_' <==> c == '_' || c == ':' || c == '/' || c == '\\')
  {
    if c == ':' then ColonMarker else if c == '/' || c == '\\' then SlashMarker else [c]
  }

  /** The flattening, one character at a time. */
  function EncodeChars(p: string): string
    decreases |p|
  {
    if p == [] then [] else EncodeChar(p[0]) + EncodeChars(p[1..])
  }

  /** The three `replace` passes of the flattening amount to `EncodeChars`. */
  lemma {:induction false} ReplacePassesAreEncodeChars(p: string)
    ensures Replace(Replace(Replace(p, ":", ColonMarker), "/", SlashMarker), "\\", SlashMarker)
            == EncodeChars(p)
    decreases |p|
  {
    var s1 := Replace(p, ":", ColonMarker);
    ReplaceCharIsSubst(p, ':', ColonMarker);
    var s2 := Replace(s1, "/", SlashMarker);
    ReplaceCharIsSubst(s1, '/', SlashMarker);
    ReplaceCharIsSubst(s2, '\\', SlashMarker);
    SubstChainIsEncodeChars(p);
  }

  lemma {:induction false} SubstChainIsEncodeChars(p: string)
    ensures SubstChar(SubstChar(SubstChar(p, ':', ColonMarker), '/', SlashMarker), '\\', SlashMarker)
            == EncodeChars(p)
    decreases |p|
  {
    if p != [] {
      var x := if p[0] == ':' then ColonMarker else [p[0]];
      var rest := SubstChar(p[1..], ':', ColonMarker);
      assert SubstChar(p, ':', ColonMarker) == x + rest;
      SubstCharAppend(x, rest, '/', SlashMarker);
      var rest2 := SubstChar(rest, '/', SlashMarker);
      var y := SubstChar(x, '/', SlashMarker);
      SubstCharAppend(y, rest2, '\\', SlashMarker);
      SubstChainOfChar(p[0]);
      SubstChainIsEncodeChars(p[1..]);
    }
  }

  /** The three substitutions spell a single character as `EncodeChar` does. */
  lemma SubstChainOfChar(c: char)
    ensures SubstChar(SubstChar(if c == ':' then ColonMarker else [c], '/', SlashMarker), '\\', SlashMarker)
            == EncodeChar(c)
  {
    if c == ':' {
      MarkersHoldNoSeparator();
      SubstCharAbsent(ColonMarker, '/', SlashMarker);
      SubstCharAbsent(ColonMarker, '\\', SlashMarker);
    } else {
      SubstCharSingle(c, '/', SlashMarker);
      if c == '/' {
        MarkersHoldNoSeparator();
        SubstCharAbsent(SlashMarker, '\\', SlashMarker);
      } else {
        SubstCharSingle(c, '\\', SlashMarker);
      }
    }
  }

  /** Neither marker holds a separator. */
  lemma MarkersHoldNoSeparator()
    ensures '/' !in ColonMarker && '\\' !in ColonMarker && '\\' !in SlashMarker
  {
  }

  /**
   * The intended reversal: one left-to-right pass that turns each marker it
   * meets back into the character it stands for.
   */
  function DecodeTargetPath(fname: string): string
    decreases |fname|
  {
    if fname == [] then []
    else if StartsWith(fname, ColonMarker) then ":" + DecodeTargetPath(fname[|ColonMarker|..])
    else if StartsWith(fname, SlashMarker) then "/" + DecodeTargetPath(fname[|SlashMarker|..])
    else [fname[0]] + DecodeTargetPath(fname[1..])
  }

  /** No two underscores in a row. */
  predicate NoDoubleUnderscore(p: string)
  {
    forall i :: 0 <= i < |p| - 1 ==> !(p[i] == '_' && p[i + 1] == '_')
  }

  /**
   * Decoding the flattened name gives back the absolute path whenever that
   * path has no two underscores in a row (and so cannot hold a marker).
   */
  lemma DecodeTargetPathRoundTrip(resolved: string)
    requires NoDoubleUnderscore(MyAbspath(resolved))
    ensures DecodeTargetPath(PathToTargetFileSystemPath(resolved, false)) == MyAbspath(resolved)
  {
    var p := MyAbspath(resolved);
    ReplacePassesAreEncodeChars(p);
    DecodeEncodeChars(p);
  }

  lemma {:induction false} DecodeEncodeChars(p: string)
    requires NoDoubleUnderscore(p) && '\\' !in p
    ensures DecodeTargetPath(EncodeChars(p)) == p
    decreases |p|
  {
    if p != [] {
      var rest := EncodeChars(p[1..]);
      assert NoDoubleUnderscore(p[1..]) by {
        forall i | 0 <= i < |p[1..]| - 1 ensures !(p[1..][i] == '_' && p[1..][i + 1] == '_') {
          assert p[1..][i] == p[i + 1] && p[1..][i + 1] == p[i + 2];
        }
      }
      DecodeEncodeChars(p[1..]);
      if p[0] == ':' || p[0] == '/' {
        DecodeMarker(EncodeChar(p[0]), rest);
      } else {
        if p[0] == '_' && |p| > 1 {
          assert p[1] != '_';
          EncodeCharsFront(p[1..]);
        }
        DecodePlain(p[0], rest);
      }
    }
  }

  /** The flattened text of a non-empty path starts as its first character's spelling does. */
  lemma EncodeCharsFront(q: string)
    requires q != []
    ensures |EncodeChars(q)| > 0 && (EncodeChars(q)[0] == '_' <==> q[0] == '_' || q[0] == ':' || q[0] == '/' || q[0] == '\\')
    ensures q[0] == ':' || q[0] == '/' || q[0] == '\\' ==> |EncodeChars(q)| > 1 && EncodeChars(q)[1] == '_'
  {
    assert EncodeChars(q)[..|EncodeChar(q[0])|] == EncodeChar(q[0]);
  }

  /** A marker in front of the rest decodes to its character followed by the decoded rest. */
  lemma DecodeMarker(m: string, rest: string)
    requires m == ColonMarker || m == SlashMarker
    ensures DecodeTargetPath(m + rest) == (if m == ColonMarker then ":" else "/") + DecodeTargetPath(rest)
  {
    var e := m + rest;
    assert e[..|m|] == m && e[|m|..] == rest;
    if m == SlashMarker {
      assert e[2] != ColonMarker[2];
    }
  }

  /**
   * A character other than a marker's start decodes as itself: only an
   * underscore followed by a second one can open a marker, and two
   * underscores followed by a third cannot.
   */
  lemma DecodePlain(c: char, rest: string)
    requires c != '_' || rest == [] || rest[0] != '_' || (|rest| > 1 && rest[1] == '_')
    ensures DecodeTargetPath([c] + rest) == [c] + DecodeTargetPath(rest)
  {
    var e := [c] + rest;
    NoMarkerAtFront(e);
    assert e[1..] == rest;
  }

  /** Text whose first three characters are not `__` and a non-`_` opens no marker. */
  lemma NoMarkerAtFront(e: string)
    requires |e| > 0
    requires e[0] != '_' || |e| < 2 || e[1] != '_' || (|e| > 2 && e[2] == '_')
    ensures !StartsWith(e, ColonMarker) && !StartsWith(e, SlashMarker)
  {
    if |e| >= 6 {
      var k := if e[0] != '_' then 0 else if e[1] != '_' then 1 else 2;
      assert e[..6][k] != SlashMarker[k];
      if |e| >= 7 {
        assert e[..7][k] != ColonMarker[k];
      }
    }
  }

  /**
   * The flattened name of `/cln/`, whose directory `cln` sits between two
   * separators, is read back by `filenameToPath` as `__sl:sl__`: the trailing
   * `__` of one `__sl__` and the leading `__` of the next frame `cln` as a
   * colon marker.
   */
  lemma FilenameToPathMisreadsClnDirectory()
    ensures PathToTargetFileSystemPath("/cln/", false) == "__sl__cln__sl__"
    ensures FilenameToPath(PathToTargetFileSystemPath("/cln/", false)) == "__sl:sl__"
    ensures DecodeTargetPath(PathToTargetFileSystemPath("/cln/", false)) == "/cln/"
  {
    ClnSample("/cln/", "__sl__cln__sl__", "__sl:sl__");
  }

  lemma ClnSample(p: string, e: string, d: string)
    requires p == "/cln/" && e == "__sl__cln__sl__" && d == "__sl:sl__"
    ensures PathToTargetFileSystemPath(p, false) == e
    ensures FilenameToPath(e) == d
    ensures DecodeTargetPath(e) == p
  {
    ClnSampleEncode(p, e);
    ClnSampleColonPass(e, d);
    ClnSampleSlashPass(d);
    assert NoDoubleUnderscore(p);
    DecodeEncodeChars(p);
  }

  lemma ClnSampleEncode(p: string, e: string)
    requires p == "/cln/" && e == "__sl__cln__sl__"
    ensures PathToTargetFileSystemPath(p, false) == e && EncodeChars(p) == e
  {
    assert Paths.DriveCaps(p) == p;
    SubstCharAbsent(p, '\\', "/");
    ReplaceCharIsSubst(p, '\\', "/");
    assert MyAbspath(p) == p;
    ReplacePassesAreEncodeChars(p);
    ClnEncodeChars(p, e);
  }

  lemma ClnEncodeChars(p: string, e: string)
    requires p == "/cln/" && e == "__sl__cln__sl__"
    ensures EncodeChars(p) == e
  {
    var t := EncodeChars(p[1..]);
    assert EncodeChars(p[4..]) == SlashMarker;
    assert EncodeChars(p[3..]) == "n" + SlashMarker;
    assert EncodeChars(p[2..]) == "ln" + SlashMarker;
    assert t == "cln" + SlashMarker;
    assert EncodeChars(p) == SlashMarker + t;
  }

  /** The first pass of `filenameToPath` finds its only colon marker at index 4. */
  lemma ClnSampleColonPass(e: string, d: string)
    requires e == "__sl__cln__sl__" && d == "__sl:sl__"
    ensures Replace(e, ColonMarker, ":") == d
  {
    assert e[0..7][2] != ColonMarker[2];
    assert e[1..8][1] != ColonMarker[1];
    assert e[2..9][0] != ColonMarker[0];
    assert e[3..10][0] != ColonMarker[0];
    assert OccursAt(e, ColonMarker, 4);
    ReplaceAtFind(e, ColonMarker, ":", 4);
    assert e[11..] == "sl__";
  }

  /** `__sl:sl__` holds no slash marker, so the second pass keeps it. */
  lemma ClnSampleSlashPass(d: string)
    requires d == "__sl:sl__"
    ensures Replace(d, SlashMarker, "/") == d
  {
    assert !Contains(d, SlashMarker) by {
      forall j | 0 <= j <= |d| ensures !OccursAt(d, SlashMarker, j) {
        if j + 6 <= |d| {
          assert d[j..j + 6][0] != '_' || d[j..j + 6][4] != '_';
        }
      }
    }
    ReplaceAbsent(d, SlashMarker, "/");
  }

  /**
   * `attemptGZip`: a path already ending in `.gz` is kept; otherwise the
   * `.gz` sibling is used when it exists or when compressing into it
   * succeeds, and the original path when compression fails.
   */
  function AttemptGZip(inputPath: string, gzCopyExists: bool, compressionSucceeds: bool): string
  {
    if EndsWith(inputPath, ".gz") then inputPath
    else if gzCopyExists || compressionSucceeds then inputPath + ".gz"
    else inputPath
  }

  /** The transferred file is the input or its `.gz` sibling, and always a gzip name unless compression failed. */
  lemma AttemptGZipSpec(inputPath: string, gzCopyExists: bool, compressionSucceeds: bool)
    ensures var r := AttemptGZip(inputPath, gzCopyExists, compressionSucceeds);
      (r == inputPath || r == inputPath + ".gz") &&
      (EndsWith(r, ".gz") <==> EndsWith(inputPath, ".gz") || gzCopyExists || compressionSucceeds) &&
      (EndsWith(r, ".gz") ==> AttemptGZip(r, gzCopyExists, compressionSucceeds) == r)
  {
    var r := AttemptGZip(inputPath, gzCopyExists, compressionSucceeds);
    if !EndsWith(inputPath, ".gz") && (gzCopyExists || compressionSucceeds) {
      assert r[|r| - 3..] == ".gz";
    }
  }
}
