/** Chunked upload to blob storage (uploadFile and uploadFileChunks in rest.js):
    the file is cut into 4 MiB blocks, each sent with Put Block under its own
    block id, and the blob is committed with Put Block List naming every block
    in order. */
module ChunkedUpload {
  import opened MediaTypes
  import opened Text
  import opened RestHelpers
  import Base64

  const BlockSize: nat := 4194304
  /** Block indices are zero-filled to this many digits. */
  const IndexWidth: nat := 8
  const BlockIdPrefix: string := "b-"
  const BlockListHeader: string := "<?xml version=\"1.0\" encoding=\"utf-8\"?><BlockList>"
  const BlockListFooter: string := "</BlockList>"
  const EntryOpen: string := "<Latest>"
  const EntryClose: string := "</Latest>"

  // ---------------------------------------------------------------------------
  // Blocks

  /** The number of blocks: `size / BlockSize` rounded up, so 0 for an empty file. */
  function NumBlocks(size: nat): nat
  {
    if size % BlockSize == 0 then size / BlockSize else size / BlockSize + 1
  }

  /** The count is the least number of blocks that covers the file. */
  lemma NumBlocksIsCeiling(size: nat)
    ensures NumBlocks(size) * BlockSize >= size
    ensures NumBlocks(size) == 0 || (NumBlocks(size) - 1) * BlockSize < size
  {
  }

  /** The count as written: `parseInt(size / BlockSize, 10)` parses the number's
      text, and a quotient below 10^-6 prints in exponent notation, so only its
      leading digit is read. The quotient is at least 1/BlockSize > 10^-7, so
      that digit is `size * 10^7 / BlockSize`. */
  function NumBlocksAsWritten(size: nat): nat
  {
    if size % BlockSize == 0 then size / BlockSize
    else if size * 1000000 < BlockSize then size * 10000000 / BlockSize + 1
    else size / BlockSize + 1
  }

  /** Files of one to four bytes get 3, 5, 8 and 10 blocks as written instead of
      one; from five bytes on the two counts agree. */
  lemma NumBlocksAsWrittenDiscrepancy(size: nat)
    ensures NumBlocksAsWritten(1) == 3 && NumBlocksAsWritten(2) == 5
    ensures NumBlocksAsWritten(3) == 8 && NumBlocksAsWritten(4) == 10
    ensures 1 <= size <= 4 ==> NumBlocks(size) == 1 && NumBlocksAsWritten(size) > NumBlocks(size)
    ensures size == 0 || size >= 5 ==> NumBlocksAsWritten(size) == NumBlocks(size)
  {
  }

  /** Where block `i` ends: a full block later, or at the end of the file. */
  function BlockEnd(size: nat, i: nat): nat
  {
    if i * BlockSize + BlockSize > size then size else i * BlockSize + BlockSize
  }

  lemma BlockStartInFile(size: nat, i: nat)
    requires i < NumBlocks(size)
    ensures i * BlockSize < size && i * BlockSize < BlockEnd(size, i) <= size
    ensures i + 1 < NumBlocks(size) ==> BlockEnd(size, i) == i * BlockSize + BlockSize
  {
    var n := NumBlocks(size);
    NumBlocksIsCeiling(size);
    assert i * BlockSize <= (n - 1) * BlockSize;
    if i + 1 < n {
      assert (i + 1) * BlockSize <= (n - 1) * BlockSize;
    }
  }

  /** The bytes of block `i`. */
  function BlockData(buf: seq<byte>, i: nat): (d: seq<byte>)
    requires i < NumBlocks(|buf|)
    ensures 0 < |d| <= BlockSize
    ensures i + 1 < NumBlocks(|buf|) ==> |d| == BlockSize
  {
    BlockStartInFile(|buf|, i);
    buf[i * BlockSize .. BlockEnd(|buf|, i)]
  }

  /** Blocks `0 .. k-1` laid end to end. */
  function Joined(buf: seq<byte>, k: nat): seq<byte>
    requires k <= NumBlocks(|buf|)
  {
    if k == 0 then [] else Joined(buf, k - 1) + BlockData(buf, k - 1)
  }

  /** The first `k` blocks are exactly the first `min(k * BlockSize, size)` bytes:
      consecutive blocks neither overlap nor leave gaps. */
  lemma {:induction false} JoinedIsPrefix(buf: seq<byte>, k: nat)
    requires k <= NumBlocks(|buf|)
    ensures Joined(buf, k) == buf[..if k * BlockSize < |buf| then k * BlockSize else |buf|]
  {
    if k > 0 {
      JoinedIsPrefix(buf, k - 1);
      BlockStartInFile(|buf|, k - 1);
      var start := (k - 1) * BlockSize;
      assert buf[..start] + buf[start..BlockEnd(|buf|, k - 1)] == buf[..BlockEnd(|buf|, k - 1)];
    }
  }

  /** The blocks partition the file: laid end to end they are the whole buffer. */
  lemma BlocksPartitionBuffer(buf: seq<byte>)
    ensures Joined(buf, NumBlocks(|buf|)) == buf
  {
    JoinedIsPrefix(buf, NumBlocks(|buf|));
    NumBlocksIsCeiling(|buf|);
    assert buf[..|buf|] == buf;
  }

  // ---------------------------------------------------------------------------
  // Block ids and URLs

  /** `fileName.substr(0, 4)`. */
  function NamePrefix(fileName: string): string
  {
    fileName[..if |fileName| < 4 then |fileName| else 4]
  }

  /** The id of block `i` before encoding: the prefix, the first four characters
      of the file name and the zero-filled index. */
  function RawBlockId(fileName: string, i: nat): string
  {
    BlockIdPrefix + NamePrefix(fileName) + Padded(DecimalString(i), IndexWidth)
  }

  /** The id sent to the service: the base64 text of the UTF-8 bytes of the raw id. */
  function BlockId(fileName: string, i: nat): string
  {
    Base64.Encode(Utf8Encode(RawBlockId(fileName, i)))
  }

  function BlockIds(fileName: string, k: nat): (ids: seq<string>)
    ensures |ids| == k && forall i :: 0 <= i < k ==> ids[i] == BlockId(fileName, i)
  {
    if k == 0 then []
    else
      var prev := BlockIds(fileName, k - 1);
      assert forall i :: 0 <= i < k - 1 ==> (prev + [BlockId(fileName, k - 1)])[i] == prev[i];
      prev + [BlockId(fileName, k - 1)]
  }

  function BlockUrl(uploadUrl: string, blockId: string): string
  {
    uploadUrl + "&comp=block&blockid=" + blockId
  }

  function CommitUrl(uploadUrl: string): string
  {
    uploadUrl + "&comp=blocklist"
  }

  /** Distinct blocks get distinct ids, both raw and encoded. */
  lemma BlockIdsDistinct(fileName: string, i: nat, j: nat)
    requires i != j
    ensures RawBlockId(fileName, i) != RawBlockId(fileName, j)
    ensures BlockId(fileName, i) != BlockId(fileName, j)
  {
    var head := BlockIdPrefix + NamePrefix(fileName);
    if RawBlockId(fileName, i) == RawBlockId(fileName, j) {
      assert RawBlockId(fileName, i)[|head|..] == Padded(DecimalString(i), IndexWidth);
      assert RawBlockId(fileName, j)[|head|..] == Padded(DecimalString(j), IndexWidth);
      PaddedInjective(i, j, IndexWidth);
    }
    if BlockId(fileName, i) == BlockId(fileName, j) {
      Base64.EncodeInjective(Utf8Encode(RawBlockId(fileName, i)), Utf8Encode(RawBlockId(fileName, j)));
      Utf8Injective(RawBlockId(fileName, i), RawBlockId(fileName, j));
    }
  }

  /** Below 10^8 blocks, every raw id of a file has the same length, as the
      service requires of the ids of one blob. */
  lemma RawBlockIdsSameLength(fileName: string, i: nat)
    requires i < Pow10(IndexWidth)
    ensures |RawBlockId(fileName, i)| == |BlockIdPrefix| + |NamePrefix(fileName)| + IndexWidth
  {
    PaddedLength(i, IndexWidth);
  }

  // ---------------------------------------------------------------------------
  // The Put Block List body

  function Entry(blockId: string): string
  {
    EntryOpen + blockId + EntryClose
  }

  function Entries(ids: seq<string>): string
  {
    if ids == [] then "" else Entry(ids[0]) + Entries(ids[1..])
  }

  function BlockListBody(ids: seq<string>): string
  {
    BlockListHeader + Entries(ids) + BlockListFooter
  }

  lemma {:induction false} EntriesAppend(ids: seq<string>, id: string)
    ensures Entries(ids + [id]) == Entries(ids) + Entry(id)
  {
    if ids == [] {
      assert ids + [id] == [id];
      assert Entries([id][1..]) == "";
    } else {
      assert (ids + [id])[0] == ids[0] && (ids + [id])[1..] == ids[1..] + [id];
      EntriesAppend(ids[1..], id);
    }
  }

  predicate NoAngle(s: string) { forall j :: 0 <= j < |s| ==> s[j] != '<' }

  /** The length of the longest prefix of `s` without `<`. */
  function TextEnd(s: string): (k: nat)
    ensures k <= |s| && (k < |s| ==> s[k] == '<') && NoAngle(s[..k])
  {
    if s == [] || s[0] == '<' then 0
    else
      var k := TextEnd(s[1..]);
      assert s[..k + 1] == [s[0]] + s[1..][..k];
      k + 1
  }

  /** Reads back the ids of a sequence of `<Latest>` entries. */
  function ParseEntries(s: string): Option<seq<string>>
    decreases |s|
  {
    if s == [] then Some([])
    else if |s| >= |EntryOpen| && s[..|EntryOpen|] == EntryOpen then
      var rest := s[|EntryOpen|..];
      var k := TextEnd(rest);
      if |rest| - k >= |EntryClose| && rest[k..k + |EntryClose|] == EntryClose then
        match ParseEntries(rest[k + |EntryClose|..])
        case None => None
        case Some(ids) => Some([rest[..k]] + ids)
      else None
    else None
  }

  /** Reads back the ids a Put Block List body commits, in order. */
  function ParseBlockList(body: string): Option<seq<string>>
  {
    var h, f := |BlockListHeader|, |BlockListFooter|;
    if |body| >= h + f && body[..h] == BlockListHeader && body[|body| - f..] == BlockListFooter
    then ParseEntries(body[h..|body| - f])
    else None
  }

  /** Text without `<` followed by `<` ends where the text does. */
  lemma {:induction false} TextEndOf(id: string, rest: string)
    requires NoAngle(id) && rest != [] && rest[0] == '<'
    ensures TextEnd(id + rest) == |id|
  {
    if id != [] {
      assert (id + rest)[0] == id[0];
      assert (id + rest)[1..] == id[1..] + rest;
      TextEndOf(id[1..], rest);
    } else {
      assert id + rest == rest;
    }
  }

  /** Parsing peels one entry off the front. */
  lemma EntryParse(id: string, tail: string)
    requires NoAngle(id)
    ensures ParseEntries(Entry(id) + tail) ==
            match ParseEntries(tail)
            case None => None
            case Some(ids) => Some([id] + ids)
  {
    var s := Entry(id) + tail;
    assert s == EntryOpen + (id + (EntryClose + tail));
    var rest := s[|EntryOpen|..];
    assert rest == id + (EntryClose + tail);
    TextEndOf(id, EntryClose + tail);
    assert rest[..|id|] == id;
    assert rest[|id|..|id| + |EntryClose|] == EntryClose;
    assert rest[|id| + |EntryClose|..] == tail;
  }

  lemma {:induction false} ParseEntriesRoundTrip(ids: seq<string>)
    requires forall i :: 0 <= i < |ids| ==> NoAngle(ids[i])
    ensures ParseEntries(Entries(ids)) == Some(ids)
  {
    if ids != [] {
      EntryParse(ids[0], Entries(ids[1..]));
      ParseEntriesRoundTrip(ids[1..]);
      assert [ids[0]] + ids[1..] == ids;
    }
  }

  /** The commit body names exactly the given ids, in the given order. */
  lemma BlockListRoundTrip(ids: seq<string>)
    requires forall i :: 0 <= i < |ids| ==> NoAngle(ids[i])
    ensures ParseBlockList(BlockListBody(ids)) == Some(ids)
  {
    var body := BlockListBody(ids);
    var h, f := |BlockListHeader|, |BlockListFooter|;
    assert body[..h] == BlockListHeader;
    assert body[|body| - f..] == BlockListFooter;
    assert body[h..|body| - f] == Entries(ids);
    ParseEntriesRoundTrip(ids);
  }

  lemma BlockIdsHaveNoAngle(fileName: string, k: nat)
    ensures forall i :: 0 <= i < k ==> NoAngle(BlockIds(fileName, k)[i])
  {
    forall i, j | 0 <= i < k && 0 <= j < |BlockId(fileName, i)|
      ensures BlockId(fileName, i)[j] != '<'
    {
      assert Base64.IsEncodingChar(BlockId(fileName, i)[j]);
    }
  }

  // ---------------------------------------------------------------------------
  // uploadFileChunks and uploadFile

  /** The Put Block requests for blocks `0 .. k-1`, in order. */
  function BlockPuts(uploadUrl: string, buf: seq<byte>, fileName: string, k: nat): (puts: seq<Request>)
    requires k <= NumBlocks(|buf|)
    ensures |puts| == k
    ensures forall i :: 0 <= i < k ==>
              puts[i] == PutBlock(BlockUrl(uploadUrl, BlockId(fileName, i)), BlockData(buf, i))
  {
    if k == 0 then []
    else BlockPuts(uploadUrl, buf, fileName, k - 1)
         + [PutBlock(BlockUrl(uploadUrl, BlockId(fileName, k - 1)), BlockData(buf, k - 1))]
  }

  /** The first block in `0 .. n-1` the service rejects. */
  function FirstRejected(accepted: nat -> bool, n: nat): (r: Option<nat>)
    ensures r.Some? ==> r.value < n && !accepted(r.value) && forall j :: 0 <= j < r.value ==> accepted(j)
    ensures r.None? ==> forall j :: 0 <= j < n ==> accepted(j)
  {
    if n == 0 then None
    else match FirstRejected(accepted, n - 1)
      case Some(k) => Some(k)
      case None => if accepted(n - 1) then None else Some(n - 1)
  }

  /** uploadFileChunks, with the service accepting block `i` iff `accepted(i)`
      and the commit iff `commitAccepted`: blocks go out one at a time, the first
      rejected one ends the upload with `false`, and otherwise the block list is
      committed and its outcome returned. */
  function UploadChunksSpec(uploadUrl: string, buf: seq<byte>, fileName: string,
                            accepted: nat -> bool, commitAccepted: bool): Exchange<bool>
  {
    var n := NumBlocks(|buf|);
    match FirstRejected(accepted, n)
    case Some(i) => Exchange(false, BlockPuts(uploadUrl, buf, fileName, i + 1))
    case None =>
      Exchange(commitAccepted, BlockPuts(uploadUrl, buf, fileName, n)
                               + [PutBlockList(CommitUrl(uploadUrl), BlockListBody(BlockIds(fileName, n)))])
  }

  /** uploadFile: `None` when the file cannot be read, which ends in `false`. */
  function UploadFileSpec(uploadUrl: string, file: Option<seq<byte>>, fileName: string,
                          accepted: nat -> bool, commitAccepted: bool): Exchange<bool>
  {
    match file
    case None => Exchange(false, [])
    case Some(buf) => UploadChunksSpec(uploadUrl, buf, fileName, accepted, commitAccepted)
  }

  /** The body of the commit request, built entry by entry. */
  method CommitBody(blockIds: seq<string>) returns (requestBody: string)
    ensures requestBody == BlockListBody(blockIds)
  {
    requestBody := BlockListHeader;
    for i := 0 to |blockIds|
      invariant requestBody == BlockListHeader + Entries(blockIds[..i])
    {
      EntriesAppend(blockIds[..i], blockIds[i]);
      assert blockIds[..i + 1] == blockIds[..i] + [blockIds[i]];
      requestBody := requestBody + (EntryOpen + blockIds[i] + EntryClose);
    }
    assert blockIds[..|blockIds|] == blockIds;
    requestBody := requestBody + BlockListFooter;
  }

  method UploadFileChunks(uploadUrl: string, fileBuffer: seq<byte>, fileName: string,
                          accepted: nat -> bool, commitAccepted: bool)
    returns (r: Exchange<bool>)
    ensures r == UploadChunksSpec(uploadUrl, fileBuffer, fileName, accepted, commitAccepted)
  {
    var fileSize := |fileBuffer|;
    var blockIds: seq<string> := [];
    var blockIdPrefix := BlockIdPrefix + NamePrefix(fileName);
    var numBlocks := if fileSize % BlockSize == 0 then fileSize / BlockSize else fileSize / BlockSize + 1;
    assert numBlocks == NumBlocks(fileSize);
    var sent: seq<Request> := [];
    for i := 0 to numBlocks
      invariant blockIds == BlockIds(fileName, i)
      invariant sent == BlockPuts(uploadUrl, fileBuffer, fileName, i)
      invariant forall j :: 0 <= j < i ==> accepted(j)
    {
      var padded := Pad(i, IndexWidth);
      var rawId := blockIdPrefix + padded;
      assert rawId == RawBlockId(fileName, i);
      var blockId := Base64.Encode(Utf8Encode(rawId));
      blockIds := blockIds + [blockId];
      var startIdx := i * BlockSize;
      var endIdx := startIdx + BlockSize;
      if endIdx > fileSize {
        endIdx := fileSize;
      }
      BlockStartInFile(fileSize, i);
      var blockData := fileBuffer[startIdx..endIdx];
      assert blockData == BlockData(fileBuffer, i);
      sent := sent + [PutBlock(BlockUrl(uploadUrl, blockId), blockData)];
      if !accepted(i) {
        UploadStopsAtFirstRejection(uploadUrl, fileBuffer, fileName, accepted, commitAccepted, i);
        return Exchange(false, sent);
      }
      assert forall j :: 0 <= j < i + 1 ==> accepted(j) by {
        forall j | 0 <= j < i + 1 ensures accepted(j) {
          if j < i {
          }
        }
      }
    }
    var requestBody := CommitBody(blockIds);
    sent := sent + [PutBlockList(CommitUrl(uploadUrl), requestBody)];
    UploadCommits(uploadUrl, fileBuffer, fileName, accepted, commitAccepted);
    return Exchange(commitAccepted, sent);
  }

  method UploadFile(uploadUrl: string, file: Option<seq<byte>>, fileName: string,
                    accepted: nat -> bool, commitAccepted: bool)
    returns (r: Exchange<bool>)
    ensures r == UploadFileSpec(uploadUrl, file, fileName, accepted, commitAccepted)
  {
    if file.None? {
      return Exchange(false, []);
    }
    r := UploadFileChunks(uploadUrl, file.value, fileName, accepted, commitAccepted);
  }

  // ---------------------------------------------------------------------------
  // Properties of the upload

  /** The upload succeeds iff every block and then the commit are accepted. */
  lemma UploadSucceedsIff(uploadUrl: string, buf: seq<byte>, fileName: string,
                          accepted: nat -> bool, commitAccepted: bool)
    ensures UploadChunksSpec(uploadUrl, buf, fileName, accepted, commitAccepted).result <==>
            (forall i :: 0 <= i < NumBlocks(|buf|) ==> accepted(i)) && commitAccepted
  {
  }

  /** After the first rejected block nothing more is sent: no later block and no
      commit. */
  lemma UploadStopsAtFirstRejection(uploadUrl: string, buf: seq<byte>, fileName: string,
                                    accepted: nat -> bool, commitAccepted: bool, i: nat)
    requires i < NumBlocks(|buf|) && !accepted(i)
    requires forall j :: 0 <= j < i ==> accepted(j)
    ensures var r := UploadChunksSpec(uploadUrl, buf, fileName, accepted, commitAccepted);
            && !r.result
            && r.sent == BlockPuts(uploadUrl, buf, fileName, i + 1)
            && forall q :: q in r.sent ==> q.PutBlock?
  {
  }

  /** With every block accepted, the block list is committed. */
  lemma UploadCommits(uploadUrl: string, buf: seq<byte>, fileName: string,
                      accepted: nat -> bool, commitAccepted: bool)
    requires forall j :: 0 <= j < NumBlocks(|buf|) ==> accepted(j)
    ensures UploadChunksSpec(uploadUrl, buf, fileName, accepted, commitAccepted) ==
            Exchange(commitAccepted, BlockPuts(uploadUrl, buf, fileName, NumBlocks(|buf|))
                                     + [PutBlockList(CommitUrl(uploadUrl), BlockListBody(BlockIds(fileName, NumBlocks(|buf|))))])
  {
  }

  /** The bytes carried by the Put Block requests of a trace, in order. */
  function SentBytes(reqs: seq<Request>): seq<byte>
  {
    if reqs == [] then []
    else SentBytes(reqs[..|reqs| - 1]) + (if reqs[|reqs| - 1].PutBlock? then reqs[|reqs| - 1].data else [])
  }

  lemma {:induction false} BlockPutsCarryJoined(uploadUrl: string, buf: seq<byte>, fileName: string, k: nat)
    requires k <= NumBlocks(|buf|)
    ensures SentBytes(BlockPuts(uploadUrl, buf, fileName, k)) == Joined(buf, k)
  {
    if k > 0 {
      var puts := BlockPuts(uploadUrl, buf, fileName, k);
      assert puts[..k - 1] == BlockPuts(uploadUrl, buf, fileName, k - 1);
      BlockPutsCarryJoined(uploadUrl, buf, fileName, k - 1);
    }
  }

  /** A completed upload sends the whole file, block by block in order, then
      commits the ids of all blocks in index order. */
  lemma CompleteUploadSendsFileAndCommitsInOrder(uploadUrl: string, buf: seq<byte>, fileName: string,
                                                accepted: nat -> bool, commitAccepted: bool)
    requires forall i :: 0 <= i < NumBlocks(|buf|) ==> accepted(i)
    ensures var r := UploadChunksSpec(uploadUrl, buf, fileName, accepted, commitAccepted);
            var n := NumBlocks(|buf|);
            && |r.sent| == n + 1
            && SentBytes(r.sent[..n]) == buf
            && r.sent[n].PutBlockList? && r.sent[n].url == CommitUrl(uploadUrl)
            && ParseBlockList(r.sent[n].body) == Some(BlockIds(fileName, n))
  {
    var n := NumBlocks(|buf|);
    var r := UploadChunksSpec(uploadUrl, buf, fileName, accepted, commitAccepted);
    assert r.sent[..n] == BlockPuts(uploadUrl, buf, fileName, n);
    BlockPutsCarryJoined(uploadUrl, buf, fileName, n);
    BlocksPartitionBuffer(buf);
    BlockIdsHaveNoAngle(fileName, n);
    BlockListRoundTrip(BlockIds(fileName, n));
  }

  /** An unreadable file sends nothing and reports failure. */
  lemma UnreadableFileSendsNothing(uploadUrl: string, fileName: string, accepted: nat -> bool, commitAccepted: bool)
    ensures UploadFileSpec(uploadUrl, None, fileName, accepted, commitAccepted) == Exchange(false, [])
  {
  }

  /** uploadFile sends nothing but blocks and the block list. */
  lemma UploadRequests(uploadUrl: string, file: Option<seq<byte>>, fileName: string,
                       accepted: nat -> bool, commitAccepted: bool)
    ensures forall q :: q in UploadFileSpec(uploadUrl, file, fileName, accepted, commitAccepted).sent ==>
              q.PutBlock? || q.PutBlockList?
  {
  }
}
