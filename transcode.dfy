/** The transcoding pipeline of index.js: obtain a token, get a write policy,
    create the input asset, get a write locator, upload the file, register it,
    submit an encoding job, poll it until it finishes, then get a read policy
    and a streaming locator on the output asset and return its path. A null
    token, policy, asset, job, job state or output listing is dereferenced and
    a failed fetchLocator rejects; `transcode` catches either and resolves to
    null. A failed upload is tested and also yields null; a failed file
    registration is ignored. */
module Transcode {
  import opened MediaTypes
  import opened Text
  import opened RestHelpers
  import opened Locators
  import opened FetchOrCreate
  import opened ChunkedUpload

  const UploadPolicyName: string := "TravUploadPolicy"
  const ReadPolicyName: string := "TravReadPolicy"
  const AssetNamePrefix: string := "TravAsset_"
  /** The id of the standard encoder, fixed instead of looked up. */
  const StandardEncoderId: string := "nb:mpid:UUID:ff4df607-d419-42f0-bc17-a481b1331e56"
  const PollDelayMs: int := 5000

  /** The fields of the pipeline's shared record that `transcode` writes. */
  datatype Settings = Settings(
    AccessToken: string,
    UploadAccessPolicyId: string,
    LastAssetId: string,
    UploadURL: string,
    ReadAccessPolicyId: string)

  /** The shared record the pipeline fills in as it goes. */
  class Vars {
    var AccessToken: string
    var UploadAccessPolicyId: string
    var LastAssetId: string
    var UploadURL: string
    var ReadAccessPolicyId: string
    const MediaProcessorId: string

    constructor ()
      ensures State() == Settings("", "", "", "", "")
      ensures MediaProcessorId == StandardEncoderId
    {
      AccessToken, UploadAccessPolicyId, LastAssetId, UploadURL, ReadAccessPolicyId := "", "", "", "", "";
      MediaProcessorId := StandardEncoderId;
    }

    function State(): Settings
      reads this
    {
      Settings(AccessToken, UploadAccessPolicyId, LastAssetId, UploadURL, ReadAccessPolicyId)
    }
  }

  /** Everything the service, the file system and the clock answer during one
      run, in the order the pipeline asks. A `None` stands for a null (or false)
      reply; clocks are the milliseconds `new Date()` reads at each step. */
  datatype Responses = Responses(
    token: Option<string>,
    uploadPolicies: Option<seq<AccessPolicy>>,
    createdUploadPolicy: Option<AccessPolicy>,
    assetClock: int,
    createdAsset: Option<Asset>,
    writeLocatorClock: int,
    writeLocators: Option<seq<Locator>>,
    createdWriteLocator: Option<Locator>,
    file: Option<seq<byte>>,
    blockAccepted: nat -> bool,
    commitAccepted: bool,
    fileInfosCreated: bool,
    job: Option<JobInfo>,
    jobStates: seq<Option<int>>,
    readPolicies: Option<seq<AccessPolicy>>,
    createdReadPolicy: Option<AccessPolicy>,
    outputAssets: Option<seq<Asset>>,
    readLocatorClock: int,
    readLocators: Option<seq<Locator>>,
    createdReadLocator: Option<Locator>)

  /** How far a run gets: its promise settles with a path or null, or the job is
      still being polled when the responses run out (the source polls without
      bound). */
  datatype Completion = Finished(path: Option<string>) | Polling

  datatype Run = Run(completion: Completion, sent: seq<Request>, vars: Settings)

  function AssetName(clock: int): string
  {
    AssetNamePrefix + NumberToString(clock)
  }

  /** Where the file is uploaded: the locator's base URI, the file name and the
      locator's signature. */
  function UploadUrl(locator: Locator, fileName: string): string
  {
    locator.BaseUri + "/" + fileName + locator.ContentAccessComponent
  }

  // ---------------------------------------------------------------------------
  // The poll loop

  datatype PollEnd = JobDone | PollFailed | OutOfResponses

  /** The do-while loop: wait, then ask for the job state, until the state is
      `JobFinished`; a null reply is dereferenced and throws. */
  function PollSpec(jobId: string, states: seq<Option<int>>): Exchange<PollEnd>
  {
    if states == [] then Exchange(OutOfResponses, [])
    else
      var step := [Delay(PollDelayMs), MonitorJob(jobId)];
      match states[0]
      case None => Exchange(PollFailed, step)
      case Some(state) =>
        if state == JobFinished then Exchange(JobDone, step)
        else
          var rest := PollSpec(jobId, states[1..]);
          Exchange(rest.result, step + rest.sent)
  }

  /** `k` rounds of waiting and polling. */
  function PollRounds(jobId: string, k: nat): (rounds: seq<Request>)
    ensures |rounds| == 2 * k
    ensures forall i :: 0 <= i < 2 * k ==> rounds[i] == if i % 2 == 0 then Delay(PollDelayMs) else MonitorJob(jobId)
  {
    if k == 0 then [] else [Delay(PollDelayMs), MonitorJob(jobId)] + PollRounds(jobId, k - 1)
  }

  /** The loop stops at the first finished state, after one wait and one poll
      per state seen, the wait always first. */
  lemma {:induction false} PollStopsAtFinished(jobId: string, states: seq<Option<int>>, k: nat)
    requires k < |states| && states[k] == Some(JobFinished)
    requires forall j :: 0 <= j < k ==> states[j].Some? && states[j].value != JobFinished
    ensures PollSpec(jobId, states) == Exchange(JobDone, PollRounds(jobId, k + 1))
  {
    if k > 0 {
      PollStopsAtFinished(jobId, states[1..], k - 1);
    }
  }

  /** States 1, 2, 2, 3: exactly four waits and four polls. */
  lemma PollExample(jobId: string)
    ensures var r := PollSpec(jobId, [Some(1), Some(2), Some(2), Some(3)]);
            && r.result == JobDone
            && |r.sent| == 8
            && forall i :: 0 <= i < 8 ==> r.sent[i] == if i % 2 == 0 then Delay(PollDelayMs) else MonitorJob(jobId)
  {
    PollStopsAtFinished(jobId, [Some(1), Some(2), Some(2), Some(3)], 3);
  }

  // ---------------------------------------------------------------------------
  // transcode

  /** A fetch-or-create policy step that produced a policy. */
  predicate GotPolicy(e: Exchange<Outcome<Option<AccessPolicy>>>)
  {
    e.result.Returned? && e.result.value.Some?
  }

  /** transcode, stage by stage, from the record `v` it starts with. */
  function TranscodeSpec(fileName: string, r: Responses, v: Settings): Run
  {
    var sent := [GetAADAccessToken];
    match r.token
    case None => Run(Finished(None), sent, v)
    case Some(token) =>
      var v := v.(AccessToken := token);
      var policy := FetchOrCreatePolicySpec(UploadPolicyName, WritePolicy, r.uploadPolicies, r.createdUploadPolicy);
      var sent := sent + policy.sent;
      if !GotPolicy(policy) then Run(Finished(None), sent, v)
      else
        var v := v.(UploadAccessPolicyId := policy.result.value.value.Id);
        var assetName := AssetName(r.assetClock);
        var sent := sent + [CreateAsset(assetName)];
        match r.createdAsset
        case None => Run(Finished(None), sent, v)
        case Some(asset) =>
          var v := v.(LastAssetId := asset.Id);
          UploadStage(fileName, r, v, assetName, sent)
  }

  /** From the write locator to the upload. */
  function UploadStage(fileName: string, r: Responses, v: Settings, assetName: string, sent: seq<Request>): Run
  {
    var key := LocatorKey(v.UploadAccessPolicyId, Some(v.LastAssetId), WriteLocator);
    var locator := FetchLocatorSpec(key, r.writeLocatorClock, r.writeLocators, r.createdWriteLocator);
    var sent := sent + locator.sent;
    match locator.result
    case Threw => Run(Finished(None), sent, v)
    case Returned(loc) =>
      var v := v.(UploadURL := UploadUrl(loc, fileName));
      var upload := UploadFileSpec(v.UploadURL, r.file, fileName, r.blockAccepted, r.commitAccepted);
      var sent := sent + upload.sent;
      if !upload.result then Run(Finished(None), sent, v)
      else JobStage(r, v, assetName, sent + [CreateFileInfos(v.LastAssetId)])
  }

  /** From the job submission to the end of polling. */
  function JobStage(r: Responses, v: Settings, assetName: string, sent: seq<Request>): Run
  {
    var sent := sent + [CreateJob(v.LastAssetId, assetName, StandardEncoderId)];
    match r.job
    case None => Run(Finished(None), sent, v)
    case Some(job) =>
      var poll := PollSpec(job.Id, r.jobStates);
      var sent := sent + poll.sent;
      match poll.result
      case PollFailed => Run(Finished(None), sent, v)
      case OutOfResponses => Run(Polling, sent, v)
      case JobDone => ReadStage(r, v, job.OutputAssetsUri, sent)
  }

  /** The asset fetchLocator is asked for on the output side: the first listed
      output asset, or `undefined` when the listing is empty. */
  function OutputAssetId(assets: seq<Asset>): Option<string>
  {
    if |assets| > 0 then Some(assets[0].Id) else None
  }

  /** From the read policy to the streaming locator's path. */
  function ReadStage(r: Responses, v: Settings, outputUrl: string, sent: seq<Request>): Run
  {
    var policy := FetchOrCreatePolicySpec(ReadPolicyName, ReadPolicy, r.readPolicies, r.createdReadPolicy);
    var sent := sent + policy.sent;
    if !GotPolicy(policy) then Run(Finished(None), sent, v)
    else
      var v := v.(ReadAccessPolicyId := policy.result.value.value.Id);
      var sent := sent + [GetOutputAsset(outputUrl)];
      match r.outputAssets
      case None => Run(Finished(None), sent, v)
      case Some(assets) =>
        var key := LocatorKey(v.ReadAccessPolicyId, OutputAssetId(assets), ReadLocator);
        var locator := FetchLocatorSpec(key, r.readLocatorClock, r.readLocators, r.createdReadLocator);
        var sent := sent + locator.sent;
        match locator.result
        case Threw => Run(Finished(None), sent, v)
        case Returned(loc) => Run(Finished(Some(loc.Path)), sent, v)
  }
  /** transcode: every step in order, each failure ending the run with null.
      The steps after the input asset are split into the methods below, one per
      stage of `TranscodeSpec`. */
  method Transcode(vars: Vars, fileName: string, r: Responses)
    returns (completion: Completion, sent: seq<Request>)
    requires vars.MediaProcessorId == StandardEncoderId
    modifies vars
    ensures Run(completion, sent, vars.State()) == TranscodeSpec(fileName, r, old(vars.State()))
  {
    sent := [GetAADAccessToken];
    if r.token.None? {
      return Finished(None), sent;
    }
    vars.AccessToken := r.token.value;

    var aPolicy := FetchOrCreateAccessPolicy(UploadPolicyName, WritePolicy, r.uploadPolicies, r.createdUploadPolicy);
    sent := sent + aPolicy.sent;
    if !GotPolicy(aPolicy) {
      return Finished(None), sent;
    }
    vars.UploadAccessPolicyId := aPolicy.result.value.value.Id;

    var assetName := AssetName(r.assetClock);
    sent := sent + [CreateAsset(assetName)];
    if r.createdAsset.None? {
      return Finished(None), sent;
    }
    vars.LastAssetId := r.createdAsset.value.Id;
    completion, sent := UploadSteps(vars, fileName, r, assetName, sent);
  }

  /** The write locator, the upload URL, the upload and the file registration. */
  method UploadSteps(vars: Vars, fileName: string, r: Responses, assetName: string, sent0: seq<Request>)
    returns (completion: Completion, sent: seq<Request>)
    requires vars.MediaProcessorId == StandardEncoderId
    modifies vars
    ensures Run(completion, sent, vars.State()) == UploadStage(fileName, r, old(vars.State()), assetName, sent0)
  {
    var key := LocatorKey(vars.UploadAccessPolicyId, Some(vars.LastAssetId), WriteLocator);
    var locator := FetchLocator(key, r.writeLocatorClock, r.writeLocators, r.createdWriteLocator);
    sent := sent0 + locator.sent;
    if locator.result.Threw? {
      return Finished(None), sent;
    }
    vars.UploadURL := UploadUrl(locator.result.value, fileName);

    var isUploaded := UploadFile(vars.UploadURL, r.file, fileName, r.blockAccepted, r.commitAccepted);
    sent := sent + isUploaded.sent;
    if !isUploaded.result {
      return Finished(None), sent;
    }

    // The registration's reply is only logged.
    var fileInfoCreated := r.fileInfosCreated;
    sent := sent + [CreateFileInfos(vars.LastAssetId)];
    completion, sent := JobSteps(vars, r, assetName, sent);
  }

  /** The encoding job and the do-while loop that polls it every five seconds. */
  method JobSteps(vars: Vars, r: Responses, assetName: string, sent0: seq<Request>)
    returns (completion: Completion, sent: seq<Request>)
    requires vars.MediaProcessorId == StandardEncoderId
    modifies vars
    ensures Run(completion, sent, vars.State()) == JobStage(r, old(vars.State()), assetName, sent0)
  {
    sent := sent0 + [CreateJob(vars.LastAssetId, assetName, vars.MediaProcessorId)];
    if r.job.None? {
      return Finished(None), sent;
    }
    var jobId := r.job.value.Id;
    var outputAssetUrl := r.job.value.OutputAssetsUri;

    var polled: seq<Request> := [];
    var isDone := false;
    var k := 0;
    while !isDone
      invariant 0 <= k <= |r.jobStates|
      invariant !isDone ==> PollSpec(jobId, r.jobStates) ==
                            Exchange(PollSpec(jobId, r.jobStates[k..]).result, polled + PollSpec(jobId, r.jobStates[k..]).sent)
      invariant isDone ==> PollSpec(jobId, r.jobStates) == Exchange(JobDone, polled)
      decreases |r.jobStates| - k
    {
      if k == |r.jobStates| {
        return Polling, sent + polled;
      }
      assert r.jobStates[k..][1..] == r.jobStates[k + 1..];
      polled := polled + [Delay(PollDelayMs), MonitorJob(jobId)];
      var jobState := r.jobStates[k];
      if jobState.None? {
        return Finished(None), sent + polled;
      }
      if jobState.value == JobFinished {
        isDone := true;
      }
      k := k + 1;
    }
    completion, sent := ReadSteps(vars, r, outputAssetUrl, sent + polled);
  }

  /** The read policy, the output asset and the streaming locator's path. */
  method ReadSteps(vars: Vars, r: Responses, outputAssetUrl: string, sent0: seq<Request>)
    returns (completion: Completion, sent: seq<Request>)
    modifies vars
    ensures Run(completion, sent, vars.State()) == ReadStage(r, old(vars.State()), outputAssetUrl, sent0)
  {
    var readPolicy := FetchOrCreateAccessPolicy(ReadPolicyName, ReadPolicy, r.readPolicies, r.createdReadPolicy);
    sent := sent0 + readPolicy.sent;
    if !GotPolicy(readPolicy) {
      return Finished(None), sent;
    }
    vars.ReadAccessPolicyId := readPolicy.result.value.value.Id;

    sent := sent + [GetOutputAsset(outputAssetUrl)];
    if r.outputAssets.None? {
      return Finished(None), sent;
    }
    var outputAssetId := OutputAssetId(r.outputAssets.value);

    var readKey := LocatorKey(vars.ReadAccessPolicyId, outputAssetId, ReadLocator);
    var streamingLocator := FetchLocator(readKey, r.readLocatorClock, r.readLocators, r.createdReadLocator);
    sent := sent + streamingLocator.sent;
    if streamingLocator.result.Threw? {
      return Finished(None), sent;
    }
    return Finished(Some(streamingLocator.result.value.Path)), sent;
  }

  // ---------------------------------------------------------------------------
  // Properties of transcode

  /** Every poll is preceded by a five-second wait, and the loop consumes the
      job states up to the first finished or unreadable one. */
  lemma {:induction false} PollShape(jobId: string, states: seq<Option<int>>)
    ensures var p := PollSpec(jobId, states);
            exists m: nat :: m <= |states| && p.sent == PollRounds(jobId, m)
              && (forall j :: 0 <= j < m - 1 ==> states[j].Some? && states[j].value != JobFinished)
              && (p.result == JobDone ==> 0 < m && states[m - 1] == Some(JobFinished))
              && (p.result == PollFailed ==> 0 < m && states[m - 1].None?)
              && (p.result == OutOfResponses ==>
                    m == |states| && (0 < m ==> states[m - 1].Some? && states[m - 1].value != JobFinished))
  {
    var p := PollSpec(jobId, states);
    if states == [] {
      assert p.sent == PollRounds(jobId, 0);
    } else if states[0].None? || states[0].value == JobFinished {
      assert p.sent == PollRounds(jobId, 1);
    } else {
      var rest := states[1..];
      PollShape(jobId, rest);
      var q := PollSpec(jobId, rest);
      var m: nat :| m <= |rest| && q.sent == PollRounds(jobId, m)
              && (forall j :: 0 <= j < m - 1 ==> rest[j].Some? && rest[j].value != JobFinished)
              && (q.result == JobDone ==> 0 < m && rest[m - 1] == Some(JobFinished))
              && (q.result == PollFailed ==> 0 < m && rest[m - 1].None?)
              && (q.result == OutOfResponses ==>
                    m == |rest| && (0 < m ==> rest[m - 1].Some? && rest[m - 1].value != JobFinished));
      assert p.sent == PollRounds(jobId, m + 1);
      forall j | 0 <= j < m ensures states[j].Some? && states[j].value != JobFinished {
        if j > 0 { assert states[j] == rest[j - 1]; }
      }
      assert states[m] == if m == 0 then states[0] else rest[m - 1];
    }
  }

  /** transcode ignores the reply to the file registration. */
  lemma FileInfosReplyIgnored(fileName: string, r: Responses, v: Settings, created: bool)
    ensures TranscodeSpec(fileName, r, v) == TranscodeSpec(fileName, r.(fileInfosCreated := created), v)
  {
    if r.token.Some? {
      var policy := FetchOrCreatePolicySpec(UploadPolicyName, WritePolicy, r.uploadPolicies, r.createdUploadPolicy);
      if GotPolicy(policy) && r.createdAsset.Some? {
        var v1 := v.(AccessToken := r.token.value, UploadAccessPolicyId := policy.result.value.value.Id,
                     LastAssetId := r.createdAsset.value.Id);
        var sent1 := [GetAADAccessToken] + policy.sent + [CreateAsset(AssetName(r.assetClock))];
        UploadStageIgnoresFileInfos(fileName, r, v1, AssetName(r.assetClock), sent1, created);
      }
    }
  }

  lemma UploadStageIgnoresFileInfos(fileName: string, r: Responses, v: Settings, assetName: string,
                                    sent: seq<Request>, created: bool)
    ensures UploadStage(fileName, r, v, assetName, sent)
            == UploadStage(fileName, r.(fileInfosCreated := created), v, assetName, sent)
  {
    var key := LocatorKey(v.UploadAccessPolicyId, Some(v.LastAssetId), WriteLocator);
    var locator := FetchLocatorSpec(key, r.writeLocatorClock, r.writeLocators, r.createdWriteLocator);
    if locator.result.Returned? {
      var v2 := v.(UploadURL := UploadUrl(locator.result.value, fileName));
      var upload := UploadFileSpec(v2.UploadURL, r.file, fileName, r.blockAccepted, r.commitAccepted);
      JobStageIgnoresFileInfos(r, v2, assetName, sent + locator.sent + upload.sent + [CreateFileInfos(v2.LastAssetId)], created);
    }
  }

  lemma JobStageIgnoresFileInfos(r: Responses, v: Settings, assetName: string, sent: seq<Request>, created: bool)
    ensures JobStage(r, v, assetName, sent) == JobStage(r.(fileInfosCreated := created), v, assetName, sent)
  {
    if r.job.Some? {
      var poll := PollSpec(r.job.value.Id, r.jobStates);
      var sent1 := sent + [CreateJob(v.LastAssetId, assetName, StandardEncoderId)] + poll.sent;
      ReadStageIgnoresFileInfos(r, v, r.job.value.OutputAssetsUri, sent1, created);
    }
  }

  lemma ReadStageIgnoresFileInfos(r: Responses, v: Settings, outputUrl: string, sent: seq<Request>, created: bool)
    ensures ReadStage(r, v, outputUrl, sent) == ReadStage(r.(fileInfosCreated := created), v, outputUrl, sent)
  {
  }

  /** The read stage only appends to the trace and keeps the asset id. */
  lemma ReadStageExtends(r: Responses, v: Settings, outputUrl: string, sent: seq<Request>)
    ensures var run := ReadStage(r, v, outputUrl, sent);
            |sent| <= |run.sent| && run.sent[..|sent|] == sent && run.vars.LastAssetId == v.LastAssetId
  {
    var policy := FetchOrCreatePolicySpec(ReadPolicyName, ReadPolicy, r.readPolicies, r.createdReadPolicy);
    var sent1 := sent + policy.sent;
    PrefixKept(sent, sent, policy.sent);
    if GotPolicy(policy) {
      var sent2 := sent1 + [GetOutputAsset(outputUrl)];
      PrefixKept(sent, sent1, [GetOutputAsset(outputUrl)]);
      if r.outputAssets.Some? {
        var key := LocatorKey(policy.result.value.value.Id, OutputAssetId(r.outputAssets.value), ReadLocator);
        var locator := FetchLocatorSpec(key, r.readLocatorClock, r.readLocators, r.createdReadLocator);
        PrefixKept(sent, sent2, locator.sent);
      }
    }
  }

  lemma PrefixKept<T>(p: seq<T>, a: seq<T>, b: seq<T>)
    requires |p| <= |a| && a[..|p|] == p
    ensures |p| <= |a + b| && (a + b)[..|p|] == p
  {
    assert (a + b)[..|p|] == a[..|p|];
  }

  lemma InPrefix<T>(x: T, p: seq<T>, s: seq<T>)
    requires |p| <= |s| && s[..|p|] == p && x in p
    ensures x in s
  {
    var i :| 0 <= i < |p| && p[i] == x;
    assert s[i] == p[i];
  }

  /** Beyond a failed job submission, the job stage first sends the job request. */
  lemma JobStageExtends(r: Responses, v: Settings, assetName: string, sent: seq<Request>)
    ensures var run := JobStage(r, v, assetName, sent);
            && run.vars.LastAssetId == v.LastAssetId
            && |sent| < |run.sent| && run.sent[..|sent| + 1] == sent + [CreateJob(v.LastAssetId, assetName, StandardEncoderId)]
  {
    var run := JobStage(r, v, assetName, sent);
    var sent1 := sent + [CreateJob(v.LastAssetId, assetName, StandardEncoderId)];
    if r.job.Some? {
      var poll := PollSpec(r.job.value.Id, r.jobStates);
      if poll.result == JobDone {
        ReadStageExtends(r, v, r.job.value.OutputAssetsUri, sent1 + poll.sent);
      }
      assert run.sent[..|sent1| + |poll.sent|] == sent1 + poll.sent;
      assert run.sent[..|sent1|] == (sent1 + poll.sent)[..|sent1|];
    }
  }

  lemma UploadStageContinues(fileName: string, r: Responses, v: Settings, assetName: string, sent: seq<Request>)
    ensures var run := UploadStage(fileName, r, v, assetName, sent);
            run.completion != Finished(None) ==>
              && r.file.Some?
              && (forall i :: 0 <= i < NumBlocks(|r.file.value|) ==> r.blockAccepted(i))
              && r.commitAccepted
              && run.vars.LastAssetId == v.LastAssetId
              && CreateFileInfos(v.LastAssetId) in run.sent
              && CreateJob(v.LastAssetId, assetName, StandardEncoderId) in run.sent
  {
    var run := UploadStage(fileName, r, v, assetName, sent);
    if run.completion != Finished(None) {
      var key := LocatorKey(v.UploadAccessPolicyId, Some(v.LastAssetId), WriteLocator);
      var locator := FetchLocatorSpec(key, r.writeLocatorClock, r.writeLocators, r.createdWriteLocator);
      var v2 := v.(UploadURL := UploadUrl(locator.result.value, fileName));
      var upload := UploadFileSpec(v2.UploadURL, r.file, fileName, r.blockAccepted, r.commitAccepted);
      UploadSucceedsIff(v2.UploadURL, r.file.value, fileName, r.blockAccepted, r.commitAccepted);
      var sent2 := sent + locator.sent + upload.sent + [CreateFileInfos(v2.LastAssetId)];
      assert run == JobStage(r, v2, assetName, sent2);
      JobStageExtends(r, v2, assetName, sent2);
      var pre := sent2 + [CreateJob(v2.LastAssetId, assetName, StandardEncoderId)];
      assert pre[|sent2| - 1] == CreateFileInfos(v2.LastAssetId);
      InPrefix(CreateFileInfos(v2.LastAssetId), pre, run.sent);
      InPrefix(CreateJob(v2.LastAssetId, assetName, StandardEncoderId), pre, run.sent);
    }
  }

  /** Registration, the job and everything after it happen only after a complete
      upload: the file was read, every block and the block list were accepted,
      and the file was registered on the asset the record names. */
  lemma ContinuesOnlyAfterCompleteUpload(fileName: string, r: Responses, v: Settings)
    ensures var run := TranscodeSpec(fileName, r, v);
            run.completion != Finished(None) ==>
              && r.file.Some?
              && (forall i :: 0 <= i < NumBlocks(|r.file.value|) ==> r.blockAccepted(i))
              && r.commitAccepted
              && r.createdAsset.Some? && run.vars.LastAssetId == r.createdAsset.value.Id
              && CreateFileInfos(run.vars.LastAssetId) in run.sent
              && CreateJob(run.vars.LastAssetId, AssetName(r.assetClock), StandardEncoderId) in run.sent
  {
    var run := TranscodeSpec(fileName, r, v);
    if run.completion != Finished(None) {
      assert r.token.Some?;
      var policy := FetchOrCreatePolicySpec(UploadPolicyName, WritePolicy, r.uploadPolicies, r.createdUploadPolicy);
      var v1 := v.(AccessToken := r.token.value, UploadAccessPolicyId := policy.result.value.value.Id,
                   LastAssetId := r.createdAsset.value.Id);
      var sent1 := [GetAADAccessToken] + policy.sent + [CreateAsset(AssetName(r.assetClock))];
      assert run == UploadStage(fileName, r, v1, AssetName(r.assetClock), sent1);
      UploadStageContinues(fileName, r, v1, AssetName(r.assetClock), sent1);
    }
  }

  /** A path is returned only once the job finished, and it is the path of a
      streaming (read) locator for the read policy and the job's first output
      asset: one listed and valid for another day, or one just created. */
  lemma PathComesFromStreamingLocator(fileName: string, r: Responses, v: Settings)
    ensures var run := TranscodeSpec(fileName, r, v);
            run.completion.Finished? && run.completion.path.Some? ==>
              && r.job.Some? && PollSpec(r.job.value.Id, r.jobStates).result == JobDone
              && r.outputAssets.Some?
              && exists loc: Locator ::
                   && loc.Path == run.completion.path.value
                   && LocatorFrom(loc, LocatorKey(run.vars.ReadAccessPolicyId, OutputAssetId(r.outputAssets.value), ReadLocator),
                                  r.readLocatorClock, r.readLocators, r.createdReadLocator)
  {
    var run := TranscodeSpec(fileName, r, v);
    if run.completion.Finished? && run.completion.path.Some? {
      assert r.token.Some?;
      var policy := FetchOrCreatePolicySpec(UploadPolicyName, WritePolicy, r.uploadPolicies, r.createdUploadPolicy);
      var v1 := v.(AccessToken := r.token.value, UploadAccessPolicyId := policy.result.value.value.Id,
                   LastAssetId := r.createdAsset.value.Id);
      var sent1 := [GetAADAccessToken] + policy.sent + [CreateAsset(AssetName(r.assetClock))];
      assert run == UploadStage(fileName, r, v1, AssetName(r.assetClock), sent1);
      var key := LocatorKey(v1.UploadAccessPolicyId, Some(v1.LastAssetId), WriteLocator);
      var locator := FetchLocatorSpec(key, r.writeLocatorClock, r.writeLocators, r.createdWriteLocator);
      var v2 := v1.(UploadURL := UploadUrl(locator.result.value, fileName));
      var upload := UploadFileSpec(v2.UploadURL, r.file, fileName, r.blockAccepted, r.commitAccepted);
      var sent2 := sent1 + locator.sent + upload.sent + [CreateFileInfos(v2.LastAssetId)];
      assert run == JobStage(r, v2, AssetName(r.assetClock), sent2);
      var job := r.job.value;
      var poll := PollSpec(job.Id, r.jobStates);
      var sent3 := sent2 + [CreateJob(v2.LastAssetId, AssetName(r.assetClock), StandardEncoderId)] + poll.sent;
      assert run == ReadStage(r, v2, job.OutputAssetsUri, sent3);
      var readPolicy := FetchOrCreatePolicySpec(ReadPolicyName, ReadPolicy, r.readPolicies, r.createdReadPolicy);
      var v3 := v2.(ReadAccessPolicyId := readPolicy.result.value.value.Id);
      var readKey := LocatorKey(v3.ReadAccessPolicyId, OutputAssetId(r.outputAssets.value), ReadLocator);
      ReturnedLocatorOrigin(readKey, r.readLocatorClock, r.readLocators, r.createdReadLocator);
      var streaming := FetchLocatorSpec(readKey, r.readLocatorClock, r.readLocators, r.createdReadLocator);
      assert run.completion.path.value == streaming.result.value.Path;
    }
  }

  /** The poll loop sends nothing but waits and state queries for its job. */
  lemma {:induction false} PollRequests(jobId: string, states: seq<Option<int>>)
    ensures forall q :: q in PollSpec(jobId, states).sent ==> q == Delay(PollDelayMs) || q == MonitorJob(jobId)
  {
    if states != [] && states[0].Some? && states[0].value != JobFinished {
      PollRequests(jobId, states[1..]);
    }
  }

  /** The requests of a run carry the names and types fixed for each stage: no
      asset lookup, only the upload and read policies, a write locator named
      "GaleCraterUploader" on the input asset and a read locator named
      "GaleCraterStreamer". */
  predicate StageRequest(q: Request)
  {
    && !q.GetAssets?
    && (q.CreateAccessPolicy? ==>
          q == CreateAccessPolicy(UploadPolicyName, PolicyDurationInMinutes, WritePolicy)
          || q == CreateAccessPolicy(ReadPolicyName, PolicyDurationInMinutes, ReadPolicy))
    && (q.CreateLocator? ==>
          (q.locatorType == WriteLocator && q.locatorName == "GaleCraterUploader" && q.assetId.Some?)
          || (q.locatorType == ReadLocator && q.locatorName == "GaleCraterStreamer"))
  }

  lemma ReadStageRequests(r: Responses, v: Settings, outputUrl: string, sent: seq<Request>)
    ensures forall q :: q in ReadStage(r, v, outputUrl, sent).sent ==> q in sent || StageRequest(q)
  {
    PolicyRequests(ReadPolicyName, ReadPolicy, r.readPolicies, r.createdReadPolicy);
    var policy := FetchOrCreatePolicySpec(ReadPolicyName, ReadPolicy, r.readPolicies, r.createdReadPolicy);
    if GotPolicy(policy) && r.outputAssets.Some? {
      var key := LocatorKey(policy.result.value.value.Id, OutputAssetId(r.outputAssets.value), ReadLocator);
      LocatorRequests(key, r.readLocatorClock, r.readLocators, r.createdReadLocator);
      assert LocatorName(DefaultLocatorName, ReadLocator) == "GaleCraterStreamer";
    }
  }

  lemma JobStageRequests(r: Responses, v: Settings, assetName: string, sent: seq<Request>)
    ensures forall q :: q in JobStage(r, v, assetName, sent).sent ==> q in sent || StageRequest(q)
  {
    if r.job.Some? {
      var poll := PollSpec(r.job.value.Id, r.jobStates);
      PollRequests(r.job.value.Id, r.jobStates);
      if poll.result == JobDone {
        var sent1 := sent + [CreateJob(v.LastAssetId, assetName, StandardEncoderId)] + poll.sent;
        ReadStageRequests(r, v, r.job.value.OutputAssetsUri, sent1);
      }
    }
  }

  lemma UploadStageRequests(fileName: string, r: Responses, v: Settings, assetName: string, sent: seq<Request>)
    ensures forall q :: q in UploadStage(fileName, r, v, assetName, sent).sent ==> q in sent || StageRequest(q)
  {
    var key := LocatorKey(v.UploadAccessPolicyId, Some(v.LastAssetId), WriteLocator);
    var locator := FetchLocatorSpec(key, r.writeLocatorClock, r.writeLocators, r.createdWriteLocator);
    LocatorRequests(key, r.writeLocatorClock, r.writeLocators, r.createdWriteLocator);
    assert LocatorName(DefaultLocatorName, WriteLocator) == "GaleCraterUploader";
    if locator.result.Returned? {
      var v2 := v.(UploadURL := UploadUrl(locator.result.value, fileName));
      var upload := UploadFileSpec(v2.UploadURL, r.file, fileName, r.blockAccepted, r.commitAccepted);
      UploadRequests(v2.UploadURL, r.file, fileName, r.blockAccepted, r.commitAccepted);
      var run := UploadStage(fileName, r, v, assetName, sent);
      if upload.result {
        var sent2 := sent + locator.sent + upload.sent + [CreateFileInfos(v2.LastAssetId)];
        assert run == JobStage(r, v2, assetName, sent2);
        JobStageRequests(r, v2, assetName, sent2);
        forall q | q in sent2 && q !in sent ensures StageRequest(q) {
          if q !in locator.sent && q !in upload.sent {
            assert q == CreateFileInfos(v2.LastAssetId);
          }
        }
      } else {
        assert run.sent == sent + locator.sent + upload.sent;
      }
    }
  }

  /** Every request of a run belongs to its stage (see `StageRequest`): the
      input asset is always created, never looked up, and each stage asks for
      its own policy and locator type. */
  lemma RequestsFollowStage(fileName: string, r: Responses, v: Settings)
    ensures forall q :: q in TranscodeSpec(fileName, r, v).sent ==> StageRequest(q)
  {
    if r.token.Some? {
      PolicyRequests(UploadPolicyName, WritePolicy, r.uploadPolicies, r.createdUploadPolicy);
      var policy := FetchOrCreatePolicySpec(UploadPolicyName, WritePolicy, r.uploadPolicies, r.createdUploadPolicy);
      if GotPolicy(policy) && r.createdAsset.Some? {
        var v1 := v.(AccessToken := r.token.value, UploadAccessPolicyId := policy.result.value.value.Id,
                     LastAssetId := r.createdAsset.value.Id);
        var sent1 := [GetAADAccessToken] + policy.sent + [CreateAsset(AssetName(r.assetClock))];
        UploadStageRequests(fileName, r, v1, AssetName(r.assetClock), sent1);
      }
    }
  }

  /** What may be sent before the file is registered: no registration, no job,
      no polling, no read policy and no streaming locator. */
  predicate BeforeRegistration(q: Request)
  {
    && !q.CreateFileInfos? && !q.CreateJob? && !q.Delay? && !q.MonitorJob? && !q.GetOutputAsset?
    && q != CreateAccessPolicy(ReadPolicyName, PolicyDurationInMinutes, ReadPolicy)
    && !(q.CreateLocator? && q.locatorType == ReadLocator)
  }

  /** A failed upload ends the run with null: no registration, no job, no
      polling, no read policy and no streaming locator follow. */
  lemma UploadFailureEndsRun(fileName: string, r: Responses, v: Settings)
    requires r.file.None? || !r.commitAccepted
             || exists i :: 0 <= i < NumBlocks(|r.file.value|) && !r.blockAccepted(i)
    ensures var run := TranscodeSpec(fileName, r, v);
            && run.completion == Finished(None)
            && forall q :: q in run.sent ==> BeforeRegistration(q)
  {
    if r.token.Some? {
      PolicyRequests(UploadPolicyName, WritePolicy, r.uploadPolicies, r.createdUploadPolicy);
      var policy := FetchOrCreatePolicySpec(UploadPolicyName, WritePolicy, r.uploadPolicies, r.createdUploadPolicy);
      if GotPolicy(policy) && r.createdAsset.Some? {
        var v1 := v.(AccessToken := r.token.value, UploadAccessPolicyId := policy.result.value.value.Id,
                     LastAssetId := r.createdAsset.value.Id);
        var sent1 := [GetAADAccessToken] + policy.sent + [CreateAsset(AssetName(r.assetClock))];
        assert TranscodeSpec(fileName, r, v) == UploadStage(fileName, r, v1, AssetName(r.assetClock), sent1);
        UploadStageStops(fileName, r, v1, AssetName(r.assetClock), sent1);
      }
    }
  }

  /** The upload stage after a failed upload: it ends the run with null and
      sends only locator and block requests. */
  lemma UploadStageStops(fileName: string, r: Responses, v: Settings, assetName: string, sent: seq<Request>)
    requires r.file.None? || !r.commitAccepted
             || exists i :: 0 <= i < NumBlocks(|r.file.value|) && !r.blockAccepted(i)
    requires forall q :: q in sent ==> BeforeRegistration(q)
    ensures var run := UploadStage(fileName, r, v, assetName, sent);
            && run.completion == Finished(None)
            && forall q :: q in run.sent ==> BeforeRegistration(q)
  {
    var key := LocatorKey(v.UploadAccessPolicyId, Some(v.LastAssetId), WriteLocator);
    var locator := FetchLocatorSpec(key, r.writeLocatorClock, r.writeLocators, r.createdWriteLocator);
    LocatorRequests(key, r.writeLocatorClock, r.writeLocators, r.createdWriteLocator);
    var run := UploadStage(fileName, r, v, assetName, sent);
    if locator.result.Returned? {
      var url := UploadUrl(locator.result.value, fileName);
      var upload := UploadFileSpec(url, r.file, fileName, r.blockAccepted, r.commitAccepted);
      UploadRequests(url, r.file, fileName, r.blockAccepted, r.commitAccepted);
      if r.file.Some? {
        UploadSucceedsIff(url, r.file.value, fileName, r.blockAccepted, r.commitAccepted);
      }
      assert !upload.result;
      assert run.completion == Finished(None) && run.sent == sent + locator.sent + upload.sent;
      forall q | q in run.sent ensures BeforeRegistration(q) {
        if q !in sent && q !in locator.sent {
          assert q in upload.sent;
        }
      }
    } else {
      assert run.completion == Finished(None) && run.sent == sent + locator.sent;
    }
  }
}
