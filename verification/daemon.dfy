/** The daemon's reading of `CF_CRED_SPEC_FILE`: the `path[:lease]` parser and what
    start-up does with its result. The environment and the file system are inputs. */
module Daemon {
  import opened Wrappers
  import opened Strings

  /** The C library's exit codes. */
  const ExitSuccess := 0
  const ExitFailure := 1

  /** The status `parse_cred_file_path` returns and the values of its two
      by-reference outputs afterwards. */
  datatype Parsed = Parsed(status: int, credFile: string, leaseId: string)

  /** `parse_cred_file_path`. `credFile` and `leaseId` are the outputs' values before the
      call; `defaultLeaseId` is `DEFAULT_CRED_FILE_LEASE_ID`, whose value is not part of
      this model. */
  function ParseCredFilePath(input: string, credFile: string, leaseId: string, defaultLeaseId: string)
    : (r: Parsed)
    ensures r.status == ExitFailure <==> |input| == 0
    ensures r.status == ExitSuccess <==> |input| > 0
    ensures |input| == 0 ==> r.credFile == credFile && r.leaseId == leaseId
    ensures |input| > 0 && ':' !in input ==> r.credFile == input && r.leaseId == defaultLeaseId
    ensures |input| > 0 && ':' in input ==>
      ':' !in r.credFile && input == r.credFile + ":" + r.leaseId
  {
    if |input| == 0 then Parsed(ExitFailure, credFile, leaseId)
    else
      ContainsChar(input, ':');
      match Find(input, ":")
      case None => Parsed(ExitSuccess, input, defaultLeaseId)
      case Some(k) =>
        FindCharAt(input, ':', k);
        Parsed(ExitSuccess, input[..k], input[k + 1..])
  }

  /** The first colon splits: a path without ':' followed by ":" and any lease id parses
      back into that path and that lease id, even an empty lease id or one that holds
      further colons; a bare path gets the default lease id. */
  lemma ParseCredFilePathInverse(path: string, lease: Option<string>, credFile: string, leaseId: string,
                                 defaultLeaseId: string)
    requires ':' !in path
    requires lease.Some? || |path| > 0
    ensures ParseCredFilePath(if lease.Some? then path + ":" + lease.value else path,
                              credFile, leaseId, defaultLeaseId)
         == Parsed(ExitSuccess, path, lease.GetOr(defaultLeaseId))
  {
    match lease
    case None =>
    case Some(l) =>
      var input := path + ":" + l;
      var r := ParseCredFilePath(input, credFile, leaseId, defaultLeaseId);
      assert input[|path|] == ':';
      CutAtFirst(path, l, r.credFile, r.leaseId, ':');
  }

  /** The daemon after its `CF_CRED_SPEC_FILE` step: it exits with `ExitFailure`, or
      carries on with its credential-spec file setting and the lease id it logs. */
  datatype Startup = Exited(code: int) | Running(credFile: string, leaseId: string)

  /** The `CF_CRED_SPEC_FILE` block of `main`. `env` is the variable's value, None when
      unset; `fileExists` answers `std::filesystem::exists`; `credFile` is the daemon's
      setting before the block. The parser's outputs start empty. */
  function CredSpecFileStartup(env: Option<string>, fileExists: string -> bool, credFile: string,
                               defaultLeaseId: string): (r: Startup)
    ensures env.None? ==> r == Running(credFile, "")
    ensures env == Some("") <==> r.Exited?
    ensures r.Exited? ==> r.code == ExitFailure
    ensures r.Running? && env.Some? ==>
      var parsed := ParseCredFilePath(env.value, "", "", defaultLeaseId);
      if fileExists(parsed.credFile) then r == Running(parsed.credFile, parsed.leaseId)
      else r == Running(credFile, "")
  {
    match env
    case None => Running(credFile, "")
    case Some(value) =>
      var parsed := ParseCredFilePath(value, "", "", defaultLeaseId);
      if parsed.status == ExitFailure then Exited(ExitFailure)
      else if !fileExists(parsed.credFile) then Running(credFile, "")
      else Running(parsed.credFile, parsed.leaseId)
  }

  /** An existing file named with a lease id is taken as is; a missing one leaves the
      daemon's setting alone and drops the lease id. */
  lemma {:induction false} StartupWithLease(path: string, lease: string, fileExists: string -> bool,
                                            credFile: string, defaultLeaseId: string)
    requires ':' !in path
    ensures CredSpecFileStartup(Some(path + ":" + lease), fileExists, credFile, defaultLeaseId)
         == if fileExists(path) then Running(path, lease) else Running(credFile, "")
  {
    ParseCredFilePathInverse(path, Some(lease), "", "", defaultLeaseId);
  }
}
