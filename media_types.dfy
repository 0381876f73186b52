/** Values exchanged with the media-processing service: the entities of its REST
    API as the client sees them, the requests the client issues, and the ways a
    JavaScript async call can settle. */
module MediaTypes {

  /** A value that may be `null` (or `undefined`) on the JavaScript side. */
  datatype Option<+T> = None | Some(value: T)

  /** How an async JavaScript call settles: its promise is rejected (an exception
      escaped, typically a TypeError from dereferencing `null`) or it returns. */
  datatype Outcome<+T> = Threw | Returned(value: T)

  /** What one client operation produced, together with the requests it sent, in
      order. */
  datatype Exchange<+T> = Exchange(result: T, sent: seq<Request>)

  /** One octet of a Node.js Buffer. */
  newtype byte = b: int | 0 <= b < 256

  /** The reply of the service to an HTTP request as axios reports it: a response
      with a status code, or no response at all (network failure, timeout). */
  datatype HttpReply = Status(code: int) | NoResponse
  {
    /** axios resolves for 2xx statuses and rejects otherwise. */
    predicate Succeeded() { Status? && 200 <= code < 300 }
  }

  /** Wire codes of the service (kept as integers; the source compares them with
      the loose `==`, so the strings "1" and "2" it passes equal these). */
  const ReadPolicy: int := 1
  const WritePolicy: int := 2
  const WriteLocator: int := 1
  const ReadLocator: int := 2
  const JobFinished: int := 3

  /** An access policy as listed by the service. `Permissions` is the field the
      client sets when it creates one; `Type` is present only if the listing
      carries a field of that name. */
  datatype AccessPolicy = AccessPolicy(
    Id: string,
    Name: string,
    DurationInMinutes: int,
    Permissions: int,
    Type: Option<int>)

  /** A storage container. */
  datatype Asset = Asset(Id: string, Name: string)

  /** A time-scoped access handle for an asset; `ExpirationDateTime` is the
      instant it expires, in milliseconds since the epoch. */
  datatype Locator = Locator(
    Id: string,
    Name: string,
    AccessPolicyId: string,
    AssetId: string,
    Type: int,
    ExpirationDateTime: int,
    BaseUri: string,
    ContentAccessComponent: string,
    Path: string)

  /** The reply to a job submission: the job id and the deferred URI of the
      job's output assets. */
  datatype JobInfo = JobInfo(Id: string, OutputAssetsUri: string)

  /** Every request the client issues, and every wait between job polls, in the
      order they happen. Bodies are recorded only where the client computes them. */
  datatype Request =
    | GetAADAccessToken
    | GetAccessPolicies
    | CreateAccessPolicy(name: string, durationInMinutes: int, permissions: int)
    | GetAssets
    | CreateAsset(assetName: string)
    | GetLocators
    | DeleteLocator(locatorId: string)
    | CreateLocator(policyId: string, assetId: Option<string>, locatorType: int, startTime: string, locatorName: string)
    | PutBlock(url: string, data: seq<byte>)
    | PutBlockList(url: string, body: string)
    | CreateFileInfos(fileAssetId: string)
    | CreateJob(jobAssetId: string, jobAssetName: string, mediaProcessorId: string)
    | Delay(ms: int)
    | MonitorJob(jobId: string)
    | GetOutputAsset(outputUrl: string)
}
