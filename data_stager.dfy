// The transfer decisions of the MapReduce helper: whether `uploadFile`
// writes, keeps or refuses a remote copy, the name the copy gets, and the
// bounded retry of `get_contents_to_filename`.

module DataStager {
  import opened Common
  import opened Text
  import TargetPaths
  import MapReduceConfig
  import EnsembleConfig

  /** What a listing of the remote store tells about an existing copy; the MD5 is an opaque digest string. */
  datatype RemoteCopy = RemoteCopy(size: nat, md5: string)

  datatype Verdict = Keep | Write | Abort

  /** The local copy differs from the remote one in size, or on S3 in MD5 (the Hadoop listing only has sizes). */
  predicate Differs(onAWS: bool, remote: RemoteCopy, localSize: nat, localMd5: string)
  {
    localSize != remote.size || (onAWS && localMd5 != remote.md5)
  }

  /**
   * The write decision of `uploadFile`: an absent copy is written; on S3 a
   * size mismatch without `overwriteOK` exits at once, otherwise the MD5 is
   * compared too; on Hadoop only sizes are compared. A differing copy is
   * overwritten only with `overwriteOK`; a matching one is left alone.
   */
  function UploadVerdict(onAWS: bool, remote: Option<RemoteCopy>, localSize: nat, localMd5: string,
                         overwriteOK: bool): (v: Verdict)
    ensures v == Keep <==> remote.Some? && !Differs(onAWS, remote.value, localSize, localMd5)
    ensures v == Write <==> remote.None? || (Differs(onAWS, remote.value, localSize, localMd5) && overwriteOK)
    ensures v == Abort <==> remote.Some? && Differs(onAWS, remote.value, localSize, localMd5) && !overwriteOK
  {
    if remote.None? then Write
    else if onAWS then
      if localSize != remote.value.size && !overwriteOK then Abort
      else if localMd5 == remote.value.md5 then (if localSize != remote.value.size then Write else Keep)
      else if overwriteOK then Write
      else Abort
    else if localSize == remote.value.size then Keep
    else if overwriteOK then Write
    else Abort
  }

  /**
   * The name of the copy on the target system: the S3-compatible form of the
   * absolute local path plus the decoration, moved under `targetDir` when one
   * is given, and `.gz` appended when a gzipped copy is transferred.
   */
  function RemoteName(absPath: string, decorate: string, targetDir: string, gzipped: bool, runLocal: bool): (r: string)
    ensures gzipped <==> |r| >= 3 && r == RemoteName(absPath, decorate, targetDir, false, runLocal) + ".gz"
  {
    var s3FileName := TargetPaths.S3CompatibleString(absPath, false, runLocal) + decorate;
    var placed := if targetDir != "" then targetDir + "/" + Basename(s3FileName) else s3FileName;
    if gzipped then placed + ".gz" else placed
  }

  /** What `uploadFile` did: nothing for an empty path, an exit, or the remote name it now uses and whether it wrote. */
  datatype Upload = NoFile | Aborted(reason: string) | Uploaded(localPath: string, remoteName: string, wrote: bool)

  /**
   * `uploadFile` on the MapReduce store: the file named by `fileNameKey` is
   * compared with the remote copy (the file system, the compression and the
   * remote listing are parameters) and on success the key names the remote
   * copy. Without a value for the key the lookup raises.
   */
  method UploadFile(store: MapReduceConfig.MapReduceStore, fileNameKey: string, targetDir: string, wantGZ: bool,
                    overwriteOK: bool, decorate: string, onAWS: bool, runLocal: bool,
                    resolve: string -> string, gzCopyExists: bool, compressionSucceeds: bool, localReadable: bool,
                    remoteOf: string -> Option<RemoteCopy>, sizeOf: string -> nat, md5Of: string -> string)
    returns (r: Result<Upload>)
    requires store.Valid()
    modifies store
    ensures store.Valid() && store.current == old(store.current)
    ensures r.Failure? <==> !old(store.GetConfig(fileNameKey, Null, true)).Ok? || !old(store.GetConfig(fileNameKey, Null, true)).value.Str?
    ensures r.Ok? && r.value.NoFile? <==> old(store.GetConfig(fileNameKey, Null, true)) == Ok(Str(""))
    ensures r.Ok? && r.value.Uploaded? ==>
              var absPath := TargetPaths.MyAbspath(resolve(old(store.GetConfig(fileNameKey, Null, true)).value.s));
              var gz := wantGZ && TargetPaths.AttemptGZip(absPath, gzCopyExists, compressionSucceeds) != absPath;
              r.value.localPath == (if gz then absPath + ".gz" else absPath) &&
              r.value.remoteName == RemoteName(absPath, decorate, targetDir, gz, runLocal) &&
              localReadable &&
              UploadVerdict(onAWS, remoteOf(r.value.remoteName), sizeOf(r.value.localPath), md5Of(r.value.localPath),
                            overwriteOK) != Abort &&
              (r.value.wrote <==> UploadVerdict(onAWS, remoteOf(r.value.remoteName), sizeOf(r.value.localPath),
                                                md5Of(r.value.localPath), overwriteOK) == Write) &&
              store.GetConfig(fileNameKey, Null, true) == Ok(Str(r.value.remoteName))
    ensures r.Ok? && r.value.Aborted? ==>
              var absPath := TargetPaths.MyAbspath(resolve(old(store.GetConfig(fileNameKey, Null, true)).value.s));
              var gz := wantGZ && TargetPaths.AttemptGZip(absPath, gzCopyExists, compressionSucceeds) != absPath;
              var localPath := if gz then absPath + ".gz" else absPath;
              !localReadable || UploadVerdict(onAWS, remoteOf(RemoteName(absPath, decorate, targetDir, gz, runLocal)),
                                              sizeOf(localPath), md5Of(localPath), overwriteOK) == Abort
    ensures r.Failure? || r == Ok(NoFile) ==> store.core == old(store.core) && store.stack == old(store.stack)
    ensures r.Ok? && r.value.Uploaded? ==>
              (store.core, store.stack) ==
                EnsembleConfig.ConfigSet(old(store.core), old(store.stack), old(store.current),
                                         fileNameKey, Str(r.value.remoteName))
    ensures r.Ok? && r.value.Aborted? ==>
              var absPath := TargetPaths.MyAbspath(resolve(old(store.GetConfig(fileNameKey, Null, true)).value.s));
              var gzPath := TargetPaths.AttemptGZip(absPath, gzCopyExists, compressionSucceeds);
              if wantGZ && gzPath != absPath then
                (store.core, store.stack) ==
                  EnsembleConfig.ConfigSet(old(store.core), old(store.stack), old(store.current), fileNameKey, Str(gzPath))
              else store.core == old(store.core) && store.stack == old(store.stack)
  {
    var configured := store.GetConfig(fileNameKey, Null, true);
    if configured.Failure? {
      return Failure(configured.error);
    }
    if !configured.value.Str? {
      return Failure(fileNameKey + " does not name a file");
    }
    if configured.value.s == "" {
      return Ok(NoFile);
    }
    var localPath := TargetPaths.MyAbspath(resolve(configured.value.s));
    var absPath := localPath;
    var gzipped := false;
    if wantGZ {
      localPath := TargetPaths.AttemptGZip(absPath, gzCopyExists, compressionSucceeds);
      TargetPaths.AttemptGZipSpec(absPath, gzCopyExists, compressionSucceeds);
      if localPath != absPath {
        gzipped := true;
        store.SetConfig(fileNameKey, Str(localPath));
      }
    }
    var s3FileName := RemoteName(absPath, decorate, targetDir, gzipped, runLocal);
    if !localReadable {
      return Ok(Aborted("could not open local file " + localPath));
    }
    var verdict := UploadVerdict(onAWS, remoteOf(s3FileName), sizeOf(localPath), md5Of(localPath), overwriteOK);
    if verdict == Abort {
      return Ok(Aborted("remote copy of " + localPath + " differs"));
    }
    store.SetConfig(fileNameKey, Str(s3FileName));
    if gzipped {
      EnsembleConfig.ConfigSetTwice(old(store.core), old(store.stack), old(store.current), fileNameKey,
                                    Str(localPath), Str(s3FileName));
    }
    r := Ok(Uploaded(localPath, s3FileName, verdict == Write));
  }

  // ----- get_contents_to_filename -----

  const MaxRetry := 3

  /** One attempt at copying the remote file: it raised, or it left a local file of some size. */
  datatype Attempt = Raised | Copied(size: nat)

  predicate Succeeded(a: Attempt)
  {
    a.Copied? && a.size > 0
  }

  /**
   * How `get_contents_to_filename` ends: with a non-empty local file, by
   * logging the last exception, or by failing on the exception variable
   * when no attempt ever raised.
   */
  datatype Fetch = Fetched | GaveUp | NoException

  /**
   * `get_contents_to_filename`: at most `MaxRetry + 1` attempts, stopping
   * at the first that leaves a non-empty file, with a sleep after every
   * failed attempt but the last. `outcomes` holds what each attempt would
   * do; the sleeps are counted rather than taken.
   */
  method GetContentsToFilename(outcomes: seq<Attempt>) returns (attempts: nat, sleeps: nat, result: Fetch)
    requires |outcomes| == MaxRetry + 1
    ensures attempts == if FirstWhere(outcomes, Succeeded) < |outcomes| then FirstWhere(outcomes, Succeeded) + 1 else MaxRetry + 1
    ensures sleeps == attempts - 1
    ensures result == Fetched <==> FirstWhere(outcomes, Succeeded) < |outcomes|
    ensures result == NoException <==> FirstWhere(outcomes, Succeeded) == |outcomes| && Raised !in outcomes
  {
    attempts, sleeps, result := 0, 0, GaveUp;
    var exceptionBound := false;
    var retry := 0;
    while retry <= MaxRetry
      invariant 0 <= retry <= MaxRetry + 1 && attempts == retry
      invariant forall i :: 0 <= i < retry ==> !Succeeded(outcomes[i])
      invariant exceptionBound <==> Raised in outcomes[..retry]
      invariant sleeps == (if retry == MaxRetry + 1 then MaxRetry else retry)
      invariant result == (if retry == MaxRetry + 1 && !exceptionBound then NoException else GaveUp)
    {
      attempts := attempts + 1;
      var outcome := outcomes[retry];
      if outcome.Raised? {
        exceptionBound := true;
      } else if outcome.size > 0 {
        result := Fetched;
        break;
      }
      if retry == MaxRetry {
        result := if exceptionBound then GaveUp else NoException;
      } else {
        sleeps := sleeps + 1;
      }
      assert outcomes[..retry + 1] == outcomes[..retry] + [outcomes[retry]];
      retry := retry + 1;
    }
    assert outcomes[..MaxRetry + 1] == outcomes;
  }
}
