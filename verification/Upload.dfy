/** The client's upload of an attachment in chunks, and what arrives at the registry. */
module Upload {
  import opened Listing
  import opened Results
  import opened Registry
  import opened RegistryService
  import opened Sequences

  const CHUNK_SIZE := 8192

  /** What a read at an offset of the file gives: a number of bytes, or an error. */
  type Reader = nat -> Option<nat>

  /** A read gives at most a chunk and no more than there is, and nothing only at the end. */
  ghost predicate ReadsFile(read: Reader, size: nat) {
    forall pos :: 0 <= pos <= size && read(pos).Some? ==>
      read(pos).value <= Min(CHUNK_SIZE, size - pos) && (pos < size ==> read(pos).value > 0)
  }

  /** The stream: a chunk for each read, until one is not full or fails. */
  ghost function Chunks(file: seq<Byte>, read: Reader, pos: nat): seq<seq<Byte>>
    requires ReadsFile(read, |file|) && pos <= |file|
    decreases |file| - pos
  {
    match read(pos)
    case None => []
    case Some(n) => [file[pos..pos + n]] + if n == CHUNK_SIZE then Chunks(file, read, pos + n) else []
  }

  method GenerateChunks(file: seq<Byte>, read: Reader) returns (chunks: seq<seq<Byte>>)
    requires ReadsFile(read, |file|)
    ensures chunks == Chunks(file, read, 0)
  {
    chunks := [];
    var readBytes := CHUNK_SIZE;
    var uploaded := 0;
    while readBytes == CHUNK_SIZE
      invariant 0 <= uploaded <= |file|
      invariant Chunks(file, read, 0) == chunks + if readBytes == CHUNK_SIZE then Chunks(file, read, uploaded) else []
      decreases |file| - uploaded, readBytes
    {
      var n := read(uploaded);
      if n.None? {
        return chunks;
      }
      readBytes := n.value;
      chunks := chunks + [file[uploaded..uploaded + readBytes]];
      uploaded := uploaded + readBytes;
    }
  }

  /** Every read before the end gives all it can. */
  ghost predicate FullReads(read: Reader, size: nat, pos: nat)
    requires pos <= size
    decreases size - pos
  {
    pos < size ==>
      && read(pos) == Some(Min(CHUNK_SIZE, size - pos))
      && (size - pos >= CHUNK_SIZE ==> FullReads(read, size, pos + CHUNK_SIZE))
  }

  lemma FlattenFirst(first: seq<Byte>, rest: seq<seq<Byte>>)
    ensures Flatten([first] + rest) == first + Flatten(rest)
  {
    assert ([first] + rest)[1..] == rest;
  }

  lemma {:induction false} SentIsPrefix(file: seq<Byte>, read: Reader, pos: nat)
    requires ReadsFile(read, |file|) && pos <= |file|
    ensures pos + |Flatten(Chunks(file, read, pos))| <= |file|
    ensures Flatten(Chunks(file, read, pos)) == file[pos..pos + |Flatten(Chunks(file, read, pos))|]
    decreases |file| - pos
  {
    match read(pos)
    case None =>
    case Some(n) =>
      if n == CHUNK_SIZE {
        SentIsPrefix(file, read, pos + n);
        FlattenFirst(file[pos..pos + n], Chunks(file, read, pos + n));
        var k := |Flatten(Chunks(file, read, pos + n))|;
        assert file[pos..pos + n + k] == file[pos..pos + n] + file[pos + n..pos + n + k];
      } else {
        FlattenFirst(file[pos..pos + n], []);
      }
  }

  /** The whole file is sent exactly if every read before its end gives all it can: a read that comes up
      short ends the stream as the end of the file would. */
  lemma {:induction false} SendsAllExactly(file: seq<Byte>, read: Reader, pos: nat)
    requires ReadsFile(read, |file|) && pos <= |file|
    ensures Flatten(Chunks(file, read, pos)) == file[pos..] <==> FullReads(read, |file|, pos)
    decreases |file| - pos
  {
    match read(pos)
    case None =>
      assert |file[pos..]| == |file| - pos;
    case Some(n) =>
      var first := file[pos..pos + n];
      if n == CHUNK_SIZE {
        var rest := Chunks(file, read, pos + n);
        FlattenFirst(first, rest);
        SendsAllExactly(file, read, pos + n);
        assert file[pos..] == first + file[pos + n..];
        SameAfter(first, Flatten(rest), file[pos + n..]);
      } else {
        FlattenFirst(first, []);
        assert first + [] == first;
        assert |first| == n && |file[pos..]| == |file| - pos;
      }
  }

  /** With full reads there are as many chunks as full ones fit, and one more, empty or not, unless the read
      at the end of the file fails; all but the last are full. */
  lemma {:induction false} ChunkShape(file: seq<Byte>, read: Reader, pos: nat)
    requires ReadsFile(read, |file|) && pos <= |file| && FullReads(read, |file|, pos)
    ensures var chunks := Chunks(file, read, pos);
            var left := |file| - pos;
            && |chunks| == left / CHUNK_SIZE + (if left % CHUNK_SIZE == 0 && read(|file|).None? then 0 else 1)
            && (forall i :: 0 <= i < |chunks| && i < left / CHUNK_SIZE ==> |chunks[i]| == CHUNK_SIZE)
            && (|chunks| > left / CHUNK_SIZE ==> |chunks[|chunks| - 1]| == left % CHUNK_SIZE)
    decreases |file| - pos
  {
    var left := |file| - pos;
    if left >= CHUNK_SIZE {
      ChunkShape(file, read, pos + CHUNK_SIZE);
      assert left / CHUNK_SIZE == (left - CHUNK_SIZE) / CHUNK_SIZE + 1;
      assert left % CHUNK_SIZE == (left - CHUNK_SIZE) % CHUNK_SIZE;
      var rest := Chunks(file, read, pos + CHUNK_SIZE);
      var chunks := [file[pos..pos + CHUNK_SIZE]] + rest;
      assert chunks == Chunks(file, read, pos);
      assert forall i :: 0 < i < |chunks| ==> chunks[i] == rest[i - 1];
    }
  }

  function ChunkCount(size: nat): nat {
    size / CHUNK_SIZE + if size % CHUNK_SIZE != 0 then 1 else 0
  }

  /** The client's expected number of chunks is right exactly for files whose size is no multiple of the
      chunk size, and otherwise only if reading at the end of the file fails. */
  lemma CountsExactly(file: seq<Byte>, read: Reader)
    requires ReadsFile(read, |file|) && FullReads(read, |file|, 0)
    ensures |Chunks(file, read, 0)| == ChunkCount(|file|) <==> |file| % 8192 != 0 || read(|file|).None?
  {
    ChunkShape(file, read, 0);
  }

  /** A file that is always read as far as possible. */
  function WholeReads(size: nat): Reader {
    pos => if pos <= size then Some(Min(CHUNK_SIZE, size - pos)) else Some(0)
  }

  lemma {:induction false} WholeReadsAreFull(size: nat, pos: nat)
    requires pos <= size
    ensures ReadsFile(WholeReads(size), size) && FullReads(WholeReads(size), size, pos)
    decreases size - pos
  {
    if size - pos >= CHUNK_SIZE {
      WholeReadsAreFull(size, pos + CHUNK_SIZE);
    }
  }

  /** So a file of exactly one chunk is sent as two, the second empty, where one is expected. */
  lemma OneChunkMiscounts(file: seq<Byte>)
    requires |file| == 8192
    ensures ReadsFile(WholeReads(|file|), |file|)
    ensures |Chunks(file, WholeReads(|file|), 0)| == 2 && Flatten(Chunks(file, WholeReads(|file|), 0)) == file
    ensures ChunkCount(|file|) == 1
  {
    WholeReadsAreFull(|file|, 0);
    ChunkShape(file, WholeReads(|file|), 0);
    SendsAllExactly(file, WholeReads(|file|), 0);
    assert file[0..] == file;
  }

  // ---------- end to end ----------

  function Messages(id: string, chunks: seq<seq<Byte>>): seq<Chunk> {
    seq(|chunks|, i requires 0 <= i < |chunks| => Chunk(Some(id), chunks[i]))
  }

  lemma MessagesContents(id: string, chunks: seq<seq<Byte>>)
    ensures Contents(Messages(id, chunks)) == Flatten(chunks)
  {
    var messages := Messages(id, chunks);
    assert seq(|messages|, i requires 0 <= i < |messages| => if messages[i].Chunk? then messages[i].content else []) == chunks;
  }

  /** The registry's file afterwards is the file sent, laid over what was there before, and the verdict is
      about the digest of the whole file. Only an empty file that cannot be read is not sent at all. */
  lemma UploadReassembles(env: Env, h: Hashing, attachments: map<Uuid, Attachment>, files: map<string, seq<Byte>>,
                          id: string, file: seq<Byte>, read: Reader)
    requires env.parseUuid(id).Some? && env.parseUuid(id).value in attachments
    requires ReadsFile(read, |file|) && FullReads(read, |file|, 0)
    ensures var (files', r) := Receive(env, h, attachments, files, START, Messages(id, Chunks(file, read, 0)));
            if file == [] && read(0).None? then files' == files && r == Err(NothingUploaded)
            else
              && OnlyWrote(files, id, file, files')
              && (files'[id] == file <==> id in files ==> |files[id]| <= |file|)
              && r == if DigestMatches(h, attachments[env.parseUuid(id).value], file) then Ok(()) else Err(ChecksumMismatch)
  {
    var chunks := Chunks(file, read, 0);
    var messages := Messages(id, chunks);
    SendsAllExactly(file, read, 0);
    assert file[0..] == file;
    MessagesContents(id, chunks);
    assert AllTaken(env, attachments, messages);
    UploadEndsSo(env, h, attachments, files, messages);
    assert chunks != [] ==> messages[0].id == Some(id);
  }

  datatype ClientError = NotUploaded(error: UploadError) | ChunksMissing

  /** The upload through one call, when the registry takes every chunk that is read. */
  method UploadViaGrpc(server: RegistryService, id: string, file: seq<Byte>, read: Reader)
    returns (r: Result<(), ClientError>)
    requires ReadsFile(read, |file|)
    modifies server`files
    ensures var sent := Chunks(file, read, 0);
            var (files, verdict) := Receive(server.env, server.hashing, server.attachments, old(server.files), START, Messages(id, sent));
            && server.files == files
            && r == match verdict
                    case Err(e) => Err(NotUploaded(e))
                    case Ok(_) => if |sent| == ChunkCount(|file|) then Ok(()) else Err(ChunksMissing)
    ensures FullReads(read, |file|, 0) && server.env.parseUuid(id).Some? && server.env.parseUuid(id).value in server.attachments ==>
              var sends := file != [] || read(0).Some?;
              var matches := DigestMatches(server.hashing, server.attachments[server.env.parseUuid(id).value], file);
              && (if sends then OnlyWrote(old(server.files), id, file, server.files) else server.files == old(server.files))
              && r == if !sends then Err(NotUploaded(NothingUploaded))
                      else if !matches then Err(NotUploaded(ChecksumMismatch))
                      else if |file| % 8192 == 0 && read(|file|).Some? then Err(ChunksMissing)
                      else Ok(())
  {
    if FullReads(read, |file|, 0) && server.env.parseUuid(id).Some? && server.env.parseUuid(id).value in server.attachments {
      UploadReassembles(server.env, server.hashing, server.attachments, server.files, id, file, read);
      CountsExactly(file, read);
    }
    var chunks := GenerateChunks(file, read);
    var verdict := server.UploadStreamAttachment(Messages(id, chunks));
    match verdict
    case Err(e) => r := Err(NotUploaded(e));
    case Ok(_) => r := if |chunks| == ChunkCount(|file|) then Ok(()) else Err(ChunksMissing);
  }
}
