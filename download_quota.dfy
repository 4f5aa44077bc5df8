/**
 * The per-user daily download quota. `download_file` lets a single file
 * through only when the bytes already downloaded today plus the file's size
 * stay within the quota, and then charges the user for it.
 * `download_bulk_files` checks the quota once, before anything is gathered,
 * and then charges the user for every file it lists, however far that takes
 * the total past the quota.
 *
 * The storage service is a parameter: whether a file exists and its size,
 * whether signing its URL fails, and the `curl` configuration and size of
 * each file listed in bulk.
 */
module DownloadQuota {
  import opened Wrappers
  import opened RubyText

  class User {
    /** Bytes downloaded today. */
    var dailyDownloadQuota: nat

    constructor (downloaded: nat)
      ensures dailyDownloadQuota == downloaded
    {
      dailyDownloadQuota := downloaded;
    }
  }

  // ---------------------------------------------------------------------------
  // download_file

  /** What the storage service answers when asked for the file. */
  datatype Lookup = Present(size: nat) | Absent | Raised

  datatype DownloadOutcome =
    | MustSignIn              // not signed in
    | Embargoed               // the study is still under embargo for this user
    | ServiceUnavailable      // downloads disabled or the storage service down: 503
    | SignedUrl               // redirect to the signed URL of the file
    | QuotaExceeded           // the file would take the user past the quota
    | NotAvailable            // the file is not in the workspace
    | DownloadError           // a RuntimeError raised by the storage service

  /** The quota test of `download_file`: the total after this file stays within the quota. */
  predicate WithinQuota(downloaded: nat, size: nat, quota: nat)
  {
    downloaded + size <= quota
  }

  /**
   * `download_file`. `user` is the signed-in user, if any; the lookup and the
   * signing of the URL are the storage service's answers.
   */
  method DownloadFile(user: User?, embargoed: bool, serviceAvailable: bool,
                      lookup: Lookup, signingRaises: bool, quota: nat)
    returns (outcome: DownloadOutcome)
    modifies user
    ensures user == null ==> outcome == MustSignIn
    ensures user != null && embargoed ==> outcome == Embargoed
    ensures user != null && !embargoed && !serviceAvailable ==> outcome == ServiceUnavailable
    ensures user != null && !embargoed && serviceAvailable ==>
      outcome == match lookup
        case Raised => DownloadError
        case Absent => NotAvailable
        case Present(size) =>
          if !WithinQuota(old(user.dailyDownloadQuota), size, quota) then QuotaExceeded
          else if signingRaises then DownloadError
          else SignedUrl
    ensures outcome == SignedUrl ==>
      lookup.Present? && user.dailyDownloadQuota == old(user.dailyDownloadQuota) + lookup.size
    ensures outcome != SignedUrl && user != null ==> user.dailyDownloadQuota == old(user.dailyDownloadQuota)
    ensures outcome == SignedUrl ==> user.dailyDownloadQuota <= quota
  {
    if user == null {
      return MustSignIn;
    }
    if embargoed {
      return Embargoed;
    }
    if !serviceAvailable {
      return ServiceUnavailable;
    }
    match lookup {
      case Raised =>
        outcome := DownloadError;
      case Absent =>
        outcome := NotAvailable;
      case Present(size) =>
        var userQuota := user.dailyDownloadQuota + size;
        if userQuota <= quota {
          if signingRaises {
            return DownloadError;
          }
          user.dailyDownloadQuota := userQuota;
          outcome := SignedUrl;
        } else {
          outcome := QuotaExceeded;
        }
    }
  }

  /** One `download_file` request: the study's state and the storage service's answers. */
  datatype Request = Request(embargoed: bool, serviceAvailable: bool, lookup: Lookup, signingRaises: bool)

  /** The request is let through and charged, given what was downloaded before it. */
  predicate Charges(downloaded: nat, req: Request, quota: nat)
  {
    !req.embargoed && req.serviceAvailable && req.lookup.Present? &&
    WithinQuota(downloaded, req.lookup.size, quota) && !req.signingRaises
  }

  /** The bytes charged after a run of single-file requests, refused and failed ones charging nothing. */
  function Charged(downloaded: nat, requests: seq<Request>, quota: nat): (total: nat)
    ensures total >= downloaded
  {
    if requests == [] then downloaded
    else
      var before := Charged(downloaded, requests[..|requests| - 1], quota);
      var req := requests[|requests| - 1];
      if Charges(before, req, quota) then before + req.lookup.size else before
  }

  /**
   * Single-file downloads never take a user past the quota: starting within
   * it, any run of them ends within it, whatever the sizes.
   */
  lemma {:induction false} SingleDownloadsStayWithinQuota(downloaded: nat, requests: seq<Request>, quota: nat)
    requires downloaded <= quota
    ensures Charged(downloaded, requests, quota) <= quota
  {
    if requests != [] {
      SingleDownloadsStayWithinQuota(downloaded, requests[..|requests| - 1], quota);
    }
  }

  /** A signed-in user's `download_file` requests, one after the other. */
  method DownloadRun(user: User, requests: seq<Request>, quota: nat) returns (outcomes: seq<DownloadOutcome>)
    modifies user
    ensures |outcomes| == |requests|
    ensures user.dailyDownloadQuota == Charged(old(user.dailyDownloadQuota), requests, quota)
    ensures old(user.dailyDownloadQuota) <= quota ==> user.dailyDownloadQuota <= quota
    ensures forall i :: 0 <= i < |requests| ==>
      (outcomes[i] == SignedUrl <==> Charges(Charged(old(user.dailyDownloadQuota), requests[..i], quota), requests[i], quota))
  {
    ghost var start := user.dailyDownloadQuota;
    outcomes := [];
    for i := 0 to |requests|
      invariant |outcomes| == i
      invariant user.dailyDownloadQuota == Charged(start, requests[..i], quota)
      invariant forall j :: 0 <= j < i ==>
        (outcomes[j] == SignedUrl <==> Charges(Charged(start, requests[..j], quota), requests[j], quota))
    {
      var req := requests[i];
      assert requests[..i + 1][..i] == requests[..i];
      var o := DownloadFile(user, req.embargoed, req.serviceAvailable, req.lookup, req.signingRaises, quota);
      outcomes := outcomes + [o];
    }
    assert requests[..|requests|] == requests;
    if start <= quota {
      SingleDownloadsStayWithinQuota(start, requests, quota);
    }
  }

  // ---------------------------------------------------------------------------
  // download_bulk_files

  datatype StudyFile = StudyFile(name: string, humanData: bool)

  datatype SyncedDirectory = SyncedDirectory(name: string, files: seq<string>)

  /** A file to list: a study file, or a file of a synced directory. */
  datatype CurlFile = FromStudy(studyFile: StudyFile) | FromDirectory(directory: string, fileName: string)

  datatype BulkOutcome =
    | NotPublic               // only public studies: 403
    | InvalidToken            // the one-time access token does not verify: 403
    | BulkQuotaExceeded       // already at or past the quota: 403
    | CurlConfig(text: string)

  function FromDirectoryEach(d: SyncedDirectory): (r: seq<CurlFile>)
    ensures |r| == |d.files|
    ensures forall i :: 0 <= i < |d.files| ==> r[i] == FromDirectory(d.name, d.files[i])
  {
    seq(|d.files|, i requires 0 <= i < |d.files| => FromDirectory(d.name, d.files[i]))
  }

  /** The non-human-data study files, when the whole study is requested. */
  function StudyPart(downloadObject: string, studyFiles: seq<StudyFile>): seq<CurlFile>
  {
    if downloadObject != "all" || studyFiles == [] then []
    else
      var rest := StudyPart(downloadObject, studyFiles[..|studyFiles| - 1]);
      var f := studyFiles[|studyFiles| - 1];
      if f.humanData then rest else rest + [FromStudy(f)]
  }

  /** The files of every synced directory that is requested: all of them for `all`, else the one named. */
  function DirectoryPart(downloadObject: string, dirs: seq<SyncedDirectory>): seq<CurlFile>
  {
    if dirs == [] then []
    else
      var rest := DirectoryPart(downloadObject, dirs[..|dirs| - 1]);
      var d := dirs[|dirs| - 1];
      if downloadObject != "all" && d.name != downloadObject then rest else rest + FromDirectoryEach(d)
  }

  /** Study files are listed only for `all`, and never human data. */
  lemma {:induction false} NoHumanDataListed(downloadObject: string, studyFiles: seq<StudyFile>)
    ensures forall f :: f in StudyPart(downloadObject, studyFiles) ==>
      downloadObject == "all" && f.FromStudy? && f.studyFile in studyFiles && !f.studyFile.humanData
  {
    if studyFiles != [] && downloadObject == "all" {
      NoHumanDataListed(downloadObject, studyFiles[..|studyFiles| - 1]);
    }
  }

  /** Directory files are listed only from the directory requested, or from every one for `all`. */
  lemma {:induction false} OnlyRequestedDirectories(downloadObject: string, dirs: seq<SyncedDirectory>)
    ensures forall f :: f in DirectoryPart(downloadObject, dirs) ==>
      f.FromDirectory? && (downloadObject == "all" || f.directory == downloadObject)
  {
    if dirs != [] {
      OnlyRequestedDirectories(downloadObject, dirs[..|dirs| - 1]);
    }
  }

  /** Gathering the files: the study's files first for `all`, then the requested directories' files. */
  method GatherFiles(downloadObject: string, studyFiles: seq<StudyFile>, dirs: seq<SyncedDirectory>)
    returns (curlFiles: seq<CurlFile>)
    ensures curlFiles == StudyPart(downloadObject, studyFiles) + DirectoryPart(downloadObject, dirs)
  {
    curlFiles := [];
    if downloadObject == "all" {
      for i := 0 to |studyFiles|
        invariant curlFiles == StudyPart(downloadObject, studyFiles[..i])
      {
        assert studyFiles[..i + 1][..i] == studyFiles[..i];
        if !studyFiles[i].humanData {
          curlFiles := curlFiles + [FromStudy(studyFiles[i])];
        }
      }
      assert studyFiles[..|studyFiles|] == studyFiles;
    }
    var fromStudy := curlFiles;
    for d := 0 to |dirs|
      invariant curlFiles == fromStudy + DirectoryPart(downloadObject, dirs[..d])
    {
      assert dirs[..d + 1][..d] == dirs[..d];
      if downloadObject != "all" && dirs[d].name != downloadObject {
        continue;
      }
      var before := curlFiles;
      for k := 0 to |dirs[d].files|
        invariant curlFiles == before + FromDirectoryEach(dirs[d])[..k]
      {
        assert FromDirectoryEach(dirs[d])[..k + 1] == FromDirectoryEach(dirs[d])[..k] + [FromDirectory(dirs[d].name, dirs[d].files[k])];
        curlFiles := curlFiles + [FromDirectory(dirs[d].name, dirs[d].files[k])];
      }
      assert FromDirectoryEach(dirs[d])[..|dirs[d].files|] == FromDirectoryEach(dirs[d]);
    }
    assert dirs[..|dirs|] == dirs;
  }

  /** The sum of the sizes `get_curl_config` reports for the files. */
  function TotalSize(files: seq<CurlFile>, curlConfig: CurlFile -> (string, nat)): nat
  {
    if files == [] then 0 else TotalSize(files[..|files| - 1], curlConfig) + curlConfig(files[|files| - 1]).1
  }

  function Configs(files: seq<CurlFile>, curlConfig: CurlFile -> (string, nat)): (r: seq<string>)
    ensures |r| == |files|
    ensures forall i :: 0 <= i < |files| ==> r[i] == curlConfig(files[i]).0
  {
    seq(|files|, i requires 0 <= i < |files| => curlConfig(files[i]).0)
  }

  /** The `curl -K` text: the two fixed options, then one configuration per file, separated by blank lines. */
  function CurlText(files: seq<CurlFile>, curlConfig: CurlFile -> (string, nat)): string
  {
    Join(["--create-dirs", "--compressed"] + Configs(files, curlConfig), "\n\n")
  }

  /**
   * `download_bulk_files`, with the files taken one after the other. The
   * quota is tested once, before any file is listed; afterwards the user is
   * charged for all of them.
   */
  method DownloadBulkFiles(studyPublic: bool, tokenUser: Option<User>, downloadObject: string,
                           studyFiles: seq<StudyFile>, dirs: seq<SyncedDirectory>,
                           curlConfig: CurlFile -> (string, nat), quota: nat)
    returns (outcome: BulkOutcome)
    modifies if tokenUser.Some? then {tokenUser.value} else {}
    ensures outcome == NotPublic <==> !studyPublic
    ensures outcome == InvalidToken <==> studyPublic && tokenUser.None?
    ensures studyPublic && tokenUser.Some? && old(tokenUser.value.dailyDownloadQuota) < quota ==> outcome.CurlConfig?
    ensures studyPublic && tokenUser.Some? ==>
      (outcome == BulkQuotaExceeded <==> old(tokenUser.value.dailyDownloadQuota) >= quota)
    ensures outcome.CurlConfig? ==>
      var files := StudyPart(downloadObject, studyFiles) + DirectoryPart(downloadObject, dirs);
      tokenUser.Some? &&
      outcome.text == CurlText(files, curlConfig) &&
      tokenUser.value.dailyDownloadQuota == old(tokenUser.value.dailyDownloadQuota) + TotalSize(files, curlConfig)
    ensures !outcome.CurlConfig? && tokenUser.Some? ==>
      tokenUser.value.dailyDownloadQuota == old(tokenUser.value.dailyDownloadQuota)
  {
    if !studyPublic {
      return NotPublic;
    }
    if tokenUser.None? {
      return InvalidToken;
    }
    var user := tokenUser.value;
    var userQuota := user.dailyDownloadQuota;
    if userQuota >= quota {
      return BulkQuotaExceeded;
    }
    var curlConfigs := ["--create-dirs", "--compressed"];
    var curlFiles := GatherFiles(downloadObject, studyFiles, dirs);
    for i := 0 to |curlFiles|
      invariant curlConfigs == ["--create-dirs", "--compressed"] + Configs(curlFiles[..i], curlConfig)
      invariant userQuota == old(user.dailyDownloadQuota) + TotalSize(curlFiles[..i], curlConfig)
    {
      assert curlFiles[..i + 1][..i] == curlFiles[..i];
      var (config, size) := curlConfig(curlFiles[i]);
      curlConfigs := curlConfigs + [config];
      userQuota := userQuota + size;
    }
    assert curlFiles[..|curlFiles|] == curlFiles;
    user.dailyDownloadQuota := userQuota;
    outcome := CurlConfig(Join(curlConfigs, "\n\n"));
  }

  /**
   * A bulk download can take a user past the quota: a request from a user
   * still under it goes through whatever the files add up to, and is charged
   * in full.
   */
  method BulkDownloadCanPassQuota(user: User, downloadObject: string,
                                  studyFiles: seq<StudyFile>, dirs: seq<SyncedDirectory>,
                                  curlConfig: CurlFile -> (string, nat), quota: nat)
    returns (outcome: BulkOutcome)
    modifies user
    requires user.dailyDownloadQuota < quota
    requires user.dailyDownloadQuota +
      TotalSize(StudyPart(downloadObject, studyFiles) + DirectoryPart(downloadObject, dirs), curlConfig) > quota
    ensures outcome.CurlConfig?
    ensures user.dailyDownloadQuota > quota
  {
    outcome := DownloadBulkFiles(true, Some(user), downloadObject, studyFiles, dirs, curlConfig, quota);
  }
}
