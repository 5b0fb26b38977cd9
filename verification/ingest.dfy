/** The bookkeeping of `POST /ingest` (backend/src/api/ingest.py): each
    markdown file read is chunked and embedded, each chunk becomes a vector
    point, the points are upserted at the end, and the counters, the error
    list and the status of the response record what happened. Reading the
    files, the embedding model and the vector store are outside the model:
    the files come in as a sequence, and embedding and upserting are
    parameters that may fail with an error text. */
module Ingest {
  import opened Text
  import opened Wrappers
  import opened MarkdownSections
  import opened Chunking

  /** `IngestStatus`. `StatusProcessing` exists but the endpoint never
      returns it. */
  datatype IngestStatus = StatusSuccess | StatusProcessing | StatusError

  datatype IngestResponse = IngestResponse(
    status: IngestStatus,
    processedFiles: nat,
    totalChunks: nat,
    errors: seq<string>,
    message: string)

  /** A file found under the source path, with what was read from it. */
  datatype MarkdownFile = MarkdownFile(path: string, content: string)

  /** An embedding vector; its values are never inspected. */
  type Vector = seq<real>

  /** The payload stored with a point. `created_at` is not modelled. */
  datatype Payload = Payload(text: string, sourceFile: string, sourceSection: string, chunkIndex: nat)

  datatype Point = Point(id: string, vector: Vector, payload: Payload)

  /** What the loop over the files has gathered so far. */
  datatype Progress = Progress(points: seq<Point>, processedFiles: nat, totalChunks: nat, errors: seq<string>)

  const Start := Progress([], 0, 0, [])

  // ---------------------------------------------------------------------------
  // One file
  // ---------------------------------------------------------------------------

  /** `chunking_service.chunk_markdown_file(content, file_path)`. */
  function FileChunks(svc: ChunkingService, md5: string -> Md5Hex, file: MarkdownFile): (cs: seq<ContentChunk>)
    requires svc.Valid()
    ensures forall c :: c in cs ==> c.sourceFile == file.path && c.text != ""
  {
    ChunkSectionsProvenance(svc, md5, Sections(file.content), file.path);
    ChunkSections(svc, md5, Sections(file.content), file.path)
  }

  /** `[chunk.text for chunk in chunks]`. */
  function Texts(chunks: seq<ContentChunk>): (texts: seq<string>)
    ensures |texts| == |chunks|
    ensures forall i :: 0 <= i < |chunks| ==> texts[i] == chunks[i].text
  {
    seq(|chunks|, i requires 0 <= i < |chunks| => chunks[i].text)
  }

  function PointOf(chunk: ContentChunk, vector: Vector): Point {
    Point(chunk.id, vector, Payload(chunk.text, chunk.sourceFile, chunk.sourceSection, chunk.chunkIndex))
  }

  /** The points of `zip(chunks, embeddings)`: one per pair, in chunk order,
      as many as the shorter of the two lists. */
  function ZipPoints(chunks: seq<ContentChunk>, vectors: seq<Vector>): (ps: seq<Point>)
    ensures |ps| == Min(|chunks|, |vectors|)
    ensures forall i :: 0 <= i < |ps| ==>
      && ps[i].id == chunks[i].id && ps[i].vector == vectors[i]
      && ps[i].payload == Payload(chunks[i].text, chunks[i].sourceFile, chunks[i].sourceSection, chunks[i].chunkIndex)
  {
    seq(Min(|chunks|, |vectors|), i requires 0 <= i < Min(|chunks|, |vectors|) => PointOf(chunks[i], vectors[i]))
  }

  const FileErrorPrefix := "Error processing file "
  const UpsertErrorPrefix := "Error upserting vectors to Qdrant: "

  /** The error recorded for a file that failed: it names the file and ends
      with the exception's text. */
  function FileError(path: string, e: string): (msg: string)
    ensures FileErrorPrefix + path <= msg
    ensures |msg| == |FileErrorPrefix| + |path| + 2 + |e| && msg[|msg| - |e|..] == e
  {
    FileErrorPrefix + path + ": " + e
  }

  /** The error recorded for a failed upsert: the fixed prefix, then the
      exception's text. */
  function UpsertError(e: string): (msg: string)
    ensures UpsertErrorPrefix <= msg && msg[|UpsertErrorPrefix|..] == e
  {
    UpsertErrorPrefix + e
  }

  /** The points one file contributes: its chunks zipped with their vectors
      when embedding succeeds, none when it fails. */
  function FilePoints(svc: ChunkingService, md5: string -> Md5Hex,
                      embed: seq<string> -> Result<seq<Vector>, string>, file: MarkdownFile): seq<Point>
    requires svc.Valid()
  {
    var chunks := FileChunks(svc, md5, file);
    var r := embed(Texts(chunks));
    if r.Success? then ZipPoints(chunks, r.value) else []
  }

  /** One turn of the loop at lines 66-101: when embedding succeeds the
      file's points are added and it counts as processed with all its chunks;
      when it fails the file adds one error and nothing else. */
  function FileStep(svc: ChunkingService, md5: string -> Md5Hex,
                    embed: seq<string> -> Result<seq<Vector>, string>,
                    acc: Progress, file: MarkdownFile): (next: Progress)
    requires svc.Valid()
    ensures acc.points <= next.points && acc.errors <= next.errors
    ensures next.processedFiles + |next.errors| == acc.processedFiles + |acc.errors| + 1
    ensures |next.points| - |acc.points| <= next.totalChunks - acc.totalChunks
    ensures next.points == acc.points + FilePoints(svc, md5, embed, file)
  {
    var chunks := FileChunks(svc, md5, file);
    match embed(Texts(chunks))
    case Success(vectors) =>
      Progress(acc.points + ZipPoints(chunks, vectors), acc.processedFiles + 1,
               acc.totalChunks + |chunks|, acc.errors)
    case Failure(e) =>
      acc.(errors := acc.errors + [FileError(file.path, e)])
  }

  /** The loop over all files. Every file is either processed or gives one
      error, and no file yields more points than chunks. */
  function ProcessFiles(svc: ChunkingService, md5: string -> Md5Hex,
                        embed: seq<string> -> Result<seq<Vector>, string>,
                        files: seq<MarkdownFile>): (p: Progress)
    requires svc.Valid()
    ensures p.processedFiles + |p.errors| == |files|
    ensures |p.points| <= p.totalChunks
  {
    if |files| == 0 then Start
    else FileStep(svc, md5, embed, ProcessFiles(svc, md5, embed, files[..|files| - 1]), files[|files| - 1])
  }

  // ---------------------------------------------------------------------------
  // The response
  // ---------------------------------------------------------------------------

  /** Lines 51-58: nothing to process is a success with no counts and one
      error naming the directory. */
  function NoFilesResponse(sourcePath: string): (r: IngestResponse)
    ensures r.status == StatusSuccess && r.processedFiles == 0 && r.totalChunks == 0
    ensures r.errors == ["No markdown files found in " + sourcePath]
    ensures r.message == "No markdown files to process"
  {
    IngestResponse(StatusSuccess, 0, 0, ["No markdown files found in " + sourcePath],
                   "No markdown files to process")
  }

  /** Lines 103-112: the points are upserted only when there are some; a
      failed upsert adds one error. */
  function ErrorsAfterUpsert(upsert: seq<Point> -> Option<string>, p: Progress): (errors: seq<string>)
    ensures p.points == [] ==> errors == p.errors
    ensures p.points != [] && upsert(p.points).None? ==> errors == p.errors
    ensures p.points != [] && upsert(p.points).Some? ==>
      errors == p.errors + [UpsertError(upsert(p.points).value)]
  {
    if p.points != [] then
      match upsert(p.points)
      case Some(e) => p.errors + [UpsertError(e)]
      case None => p.errors
    else p.errors
  }

  /** Lines 114-128. */
  function Respond(processedFiles: nat, totalChunks: nat, errors: seq<string>): (r: IngestResponse)
    ensures r.processedFiles == processedFiles && r.totalChunks == totalChunks && r.errors == errors
    ensures r.status == StatusError <==> errors != [] && processedFiles == 0
    ensures r.status != StatusProcessing
    ensures errors != [] ==>
      r.message == "Processing completed with " + NatToString(|errors|) + " errors. See errors list for details."
    ensures errors == [] ==>
      r.message == "Successfully processed " + NatToString(processedFiles) + " files and created "
                   + NatToString(totalChunks) + " chunks."
  {
    if errors != [] then
      IngestResponse(if processedFiles == 0 then StatusError else StatusSuccess, processedFiles, totalChunks, errors,
        "Processing completed with " + NatToString(|errors|) + " errors. See errors list for details.")
    else
      IngestResponse(StatusSuccess, processedFiles, totalChunks, errors,
        "Successfully processed " + NatToString(processedFiles) + " files and created "
        + NatToString(totalChunks) + " chunks.")
  }

  /** The response of `ingest_endpoint` for the files read. */
  function Ingest(svc: ChunkingService, md5: string -> Md5Hex,
                  embed: seq<string> -> Result<seq<Vector>, string>,
                  upsert: seq<Point> -> Option<string>,
                  sourcePath: string, files: seq<MarkdownFile>): (r: IngestResponse)
    requires svc.Valid()
    ensures r.status != StatusProcessing
    ensures |files| == 0 ==> r == NoFilesResponse(sourcePath)
    ensures |files| > 0 ==> |files| <= r.processedFiles + |r.errors| <= |files| + 1
  {
    if |files| == 0 then NoFilesResponse(sourcePath)
    else
      var p := ProcessFiles(svc, md5, embed, files);
      Respond(p.processedFiles, p.totalChunks, ErrorsAfterUpsert(upsert, p))
  }

  /** The loop at lines 79-94: one point per (chunk, embedding) pair,
      appended in order. */
  method AppendPoints(points: seq<Point>, chunks: seq<ContentChunk>, vectors: seq<Vector>)
    returns (r: seq<Point>)
    ensures r == points + ZipPoints(chunks, vectors)
  {
    r := points;
    for j := 0 to Min(|chunks|, |vectors|)
      invariant |r| == |points| + j && r[..|points|] == points
      invariant forall k :: 0 <= k < j ==> r[|points| + k] == PointOf(chunks[k], vectors[k])
    {
      r := r + [PointOf(chunks[j], vectors[j])];
    }
  }

  /** The loop's progress after one more file. */
  lemma ProcessFilesStep(svc: ChunkingService, md5: string -> Md5Hex,
                         embed: seq<string> -> Result<seq<Vector>, string>,
                         files: seq<MarkdownFile>, i: nat, prefix: seq<MarkdownFile>, next: seq<MarkdownFile>)
    requires svc.Valid() && i < |files| && prefix == files[..i] && next == files[..i + 1]
    ensures ProcessFiles(svc, md5, embed, next)
      == FileStep(svc, md5, embed, ProcessFiles(svc, md5, embed, prefix), files[i])
  {
    assert next[..i] == prefix;
  }

  /** The loop at lines 61-101 over the files read. */
  method ProcessAll(svc: ChunkingService, md5: string -> Md5Hex,
                    embed: seq<string> -> Result<seq<Vector>, string>,
                    files: seq<MarkdownFile>) returns (p: Progress)
    requires svc.Valid()
    ensures p == ProcessFiles(svc, md5, embed, files)
  {
    var points: seq<Point> := [];
    var processedFiles: nat := 0;
    var totalChunks: nat := 0;
    var errors: seq<string> := [];
    for i := 0 to |files|
      invariant Progress(points, processedFiles, totalChunks, errors) == ProcessFiles(svc, md5, embed, files[..i])
    {
      var file := files[i];
      ProcessFilesStep(svc, md5, embed, files, i, files[..i], files[..i + 1]);
      var chunks := ChunkMarkdownFile(svc, md5, file.content, file.path);
      match embed(Texts(chunks)) {
        case Success(vectors) =>
          points := AppendPoints(points, chunks, vectors);
          processedFiles := processedFiles + 1;
          totalChunks := totalChunks + |chunks|;
        case Failure(e) =>
          errors := errors + [FileError(file.path, e)];
      }
    }
    assert files[..|files|] == files;
    p := Progress(points, processedFiles, totalChunks, errors);
  }

  /** Lines 51-128 of `ingest_endpoint`, from the files read to the response. */
  method IngestEndpoint(svc: ChunkingService, md5: string -> Md5Hex,
                        embed: seq<string> -> Result<seq<Vector>, string>,
                        upsert: seq<Point> -> Option<string>,
                        sourcePath: string, files: seq<MarkdownFile>) returns (resp: IngestResponse)
    requires svc.Valid()
    ensures resp == Ingest(svc, md5, embed, upsert, sourcePath, files)
  {
    if |files| == 0 {
      return NoFilesResponse(sourcePath);
    }
    var p := ProcessAll(svc, md5, embed, files);
    var errors := p.errors;
    if p.points != [] {
      match upsert(p.points) {
        case Some(e) => errors := errors + [UpsertError(e)];
        case None =>
      }
    }
    if errors != [] {
      var status := if p.processedFiles == 0 then StatusError else StatusSuccess;
      resp := IngestResponse(status, p.processedFiles, p.totalChunks, errors,
        "Processing completed with " + NatToString(|errors|) + " errors. See errors list for details.");
    } else {
      resp := IngestResponse(StatusSuccess, p.processedFiles, p.totalChunks, errors,
        "Successfully processed " + NatToString(p.processedFiles) + " files and created "
        + NatToString(p.totalChunks) + " chunks.");
    }
  }

  // ---------------------------------------------------------------------------
  // Properties of the loop
  // ---------------------------------------------------------------------------

  /** Embedding the chunk texts of `file` succeeds. */
  predicate Embeds(svc: ChunkingService, md5: string -> Md5Hex,
                   embed: seq<string> -> Result<seq<Vector>, string>, file: MarkdownFile)
    requires svc.Valid()
  {
    embed(Texts(FileChunks(svc, md5, file))).Success?
  }

  /** The error one file contributes: none when it embeds, one message when
      it does not. */
  function FailureOf(svc: ChunkingService, md5: string -> Md5Hex,
                     embed: seq<string> -> Result<seq<Vector>, string>, file: MarkdownFile): seq<string>
    requires svc.Valid()
  {
    var r := embed(Texts(FileChunks(svc, md5, file)));
    if r.Failure? then [FileError(file.path, r.error)] else []
  }

  /** The chunks one file contributes to the total. */
  function CountOf(svc: ChunkingService, md5: string -> Md5Hex,
                   embed: seq<string> -> Result<seq<Vector>, string>, file: MarkdownFile): nat
    requires svc.Valid()
  {
    if Embeds(svc, md5, embed, file) then |FileChunks(svc, md5, file)| else 0
  }

  /** The error messages of the files whose embedding failed, in file order. */
  function FailureMessages(svc: ChunkingService, md5: string -> Md5Hex,
                           embed: seq<string> -> Result<seq<Vector>, string>,
                           files: seq<MarkdownFile>): seq<string>
    requires svc.Valid()
  {
    if |files| == 0 then []
    else FailureOf(svc, md5, embed, files[0]) + FailureMessages(svc, md5, embed, files[1..])
  }

  /** The points of all files, in file order and within a file in chunk
      order. */
  function AllPoints(svc: ChunkingService, md5: string -> Md5Hex,
                     embed: seq<string> -> Result<seq<Vector>, string>,
                     files: seq<MarkdownFile>): seq<Point>
    requires svc.Valid()
  {
    if |files| == 0 then []
    else FilePoints(svc, md5, embed, files[0]) + AllPoints(svc, md5, embed, files[1..])
  }

  /** The number of chunks of the files whose embedding succeeded. */
  function ChunkTotal(svc: ChunkingService, md5: string -> Md5Hex,
                      embed: seq<string> -> Result<seq<Vector>, string>,
                      files: seq<MarkdownFile>): nat
    requires svc.Valid()
  {
    if |files| == 0 then 0
    else CountOf(svc, md5, embed, files[0]) + ChunkTotal(svc, md5, embed, files[1..])
  }

  lemma {:induction false} FailureMessagesSnoc(svc: ChunkingService, md5: string -> Md5Hex,
                                               embed: seq<string> -> Result<seq<Vector>, string>,
                                               files: seq<MarkdownFile>, file: MarkdownFile,
                                               all: seq<MarkdownFile>)
    requires svc.Valid() && all == files + [file]
    ensures FailureMessages(svc, md5, embed, all)
      == FailureMessages(svc, md5, embed, files) + FailureOf(svc, md5, embed, file)
      && ChunkTotal(svc, md5, embed, all)
      == ChunkTotal(svc, md5, embed, files) + CountOf(svc, md5, embed, file)
  {
    if |files| > 0 {
      var rest, restAll := files[1..], all[1..];
      assert restAll == rest + [file];
      FailureMessagesSnoc(svc, md5, embed, rest, file, restAll);
      ConcatAssoc(FailureOf(svc, md5, embed, files[0]), FailureMessages(svc, md5, embed, rest),
                  FailureOf(svc, md5, embed, file));
    } else {
      assert all[1..] == [];
      var f := FailureOf(svc, md5, embed, file);
      assert f + [] == f;
    }
  }

  lemma {:induction false} AllPointsSnoc(svc: ChunkingService, md5: string -> Md5Hex,
                                         embed: seq<string> -> Result<seq<Vector>, string>,
                                         files: seq<MarkdownFile>, file: MarkdownFile,
                                         all: seq<MarkdownFile>)
    requires svc.Valid() && all == files + [file]
    ensures AllPoints(svc, md5, embed, all)
      == AllPoints(svc, md5, embed, files) + FilePoints(svc, md5, embed, file)
  {
    if |files| > 0 {
      var rest, restAll := files[1..], all[1..];
      assert restAll == rest + [file];
      AllPointsSnoc(svc, md5, embed, rest, file, restAll);
      ConcatAssoc(FilePoints(svc, md5, embed, files[0]), AllPoints(svc, md5, embed, rest),
                  FilePoints(svc, md5, embed, file));
    } else {
      assert all[1..] == [];
      var f := FilePoints(svc, md5, embed, file);
      assert f + [] == f;
    }
  }

  lemma SnocSplit<T>(s: seq<T>, init: seq<T>, last: T)
    requires |s| > 0 && init == s[..|s| - 1] && last == s[|s| - 1]
    ensures s == init + [last]
  {
  }

  /** One turn of the loop adds the file's error, if any, and its chunks. */
  lemma FileStepAccounts(svc: ChunkingService, md5: string -> Md5Hex,
                         embed: seq<string> -> Result<seq<Vector>, string>,
                         acc: Progress, file: MarkdownFile)
    requires svc.Valid()
    ensures FileStep(svc, md5, embed, acc, file).errors == acc.errors + FailureOf(svc, md5, embed, file)
    ensures FileStep(svc, md5, embed, acc, file).totalChunks == acc.totalChunks + CountOf(svc, md5, embed, file)
    ensures FileStep(svc, md5, embed, acc, file).processedFiles
      == acc.processedFiles + (if Embeds(svc, md5, embed, file) then 1 else 0)
  {
    assert acc.errors + [] == acc.errors;
  }

  /** After the loop, the points are those of every file whose embedding
      succeeded: each file's chunks zipped with their vectors, files in order. */
  lemma {:induction false} ProcessFilesPoints(svc: ChunkingService, md5: string -> Md5Hex,
                                              embed: seq<string> -> Result<seq<Vector>, string>,
                                              files: seq<MarkdownFile>)
    requires svc.Valid()
    ensures ProcessFiles(svc, md5, embed, files).points == AllPoints(svc, md5, embed, files)
  {
    if |files| > 0 {
      var init, last := files[..|files| - 1], files[|files| - 1];
      SnocSplit(files, init, last);
      ProcessFilesPoints(svc, md5, embed, init);
      AllPointsSnoc(svc, md5, embed, init, last, files);
    }
  }

  /** After the loop, the errors are exactly one message per failed file, in
      file order (a failure does not stop the files after it), and the chunk
      total is the sum over the files that succeeded. */
  lemma {:induction false} ProcessFilesAccounts(svc: ChunkingService, md5: string -> Md5Hex,
                                                embed: seq<string> -> Result<seq<Vector>, string>,
                                                files: seq<MarkdownFile>)
    requires svc.Valid()
    ensures ProcessFiles(svc, md5, embed, files).errors == FailureMessages(svc, md5, embed, files)
    ensures ProcessFiles(svc, md5, embed, files).totalChunks == ChunkTotal(svc, md5, embed, files)
  {
    if |files| > 0 {
      var init, last := files[..|files| - 1], files[|files| - 1];
      SnocSplit(files, init, last);
      ProcessFilesAccounts(svc, md5, embed, init);
      FileStepAccounts(svc, md5, embed, ProcessFiles(svc, md5, embed, init), last);
      FailureMessagesSnoc(svc, md5, embed, init, last, files);
    }
  }

  /** No file is counted as processed exactly when every file's embedding
      failed. */
  lemma {:induction false} NoneProcessed(svc: ChunkingService, md5: string -> Md5Hex,
                                         embed: seq<string> -> Result<seq<Vector>, string>,
                                         files: seq<MarkdownFile>)
    requires svc.Valid()
    ensures ProcessFiles(svc, md5, embed, files).processedFiles == 0
      <==> forall i :: 0 <= i < |files| ==> !Embeds(svc, md5, embed, files[i])
  {
    if |files| > 0 {
      var init, last := files[..|files| - 1], files[|files| - 1];
      NoneProcessed(svc, md5, embed, init);
      FileStepAccounts(svc, md5, embed, ProcessFiles(svc, md5, embed, init), last);
      AllSnoc(files, init, last, f => !Embeds(svc, md5, embed, f));
    }
  }

  /** A property holds for every file iff it holds for every file but the
      last and for the last. */
  lemma AllSnoc<T>(s: seq<T>, init: seq<T>, last: T, p: T -> bool)
    requires |s| > 0 && init == s[..|s| - 1] && last == s[|s| - 1]
    ensures (forall i :: 0 <= i < |s| ==> p(s[i])) <==> (forall i :: 0 <= i < |init| ==> p(init[i])) && p(last)
  {
    assert forall i :: 0 <= i < |init| ==> init[i] == s[i];
  }


  /** The endpoint reports ERROR exactly when there were files and every one
      of them failed to embed; an upsert failure alone never makes it ERROR. */
  lemma StatusErrorIffAllFailed(svc: ChunkingService, md5: string -> Md5Hex,
                                embed: seq<string> -> Result<seq<Vector>, string>,
                                upsert: seq<Point> -> Option<string>,
                                sourcePath: string, files: seq<MarkdownFile>)
    requires svc.Valid()
    ensures Ingest(svc, md5, embed, upsert, sourcePath, files).status == StatusError
      <==> |files| > 0 && forall i :: 0 <= i < |files| ==> !Embeds(svc, md5, embed, files[i])
  {
    if |files| > 0 {
      NoneProcessed(svc, md5, embed, files);
    }
  }

  /** A failed upsert adds one error after the per-file ones, changes
      neither counter, and leaves the status SUCCESS when some file was
      processed. */
  lemma UpsertFailure(svc: ChunkingService, md5: string -> Md5Hex,
                      embed: seq<string> -> Result<seq<Vector>, string>,
                      upsert: seq<Point> -> Option<string>,
                      sourcePath: string, files: seq<MarkdownFile>)
    requires svc.Valid()
    ensures var p := ProcessFiles(svc, md5, embed, files);
      var r := Ingest(svc, md5, embed, upsert, sourcePath, files);
      |files| > 0 && p.points != [] && upsert(p.points).Some? ==>
        && r.errors == FailureMessages(svc, md5, embed, files) + [UpsertError(upsert(p.points).value)]
        && r.processedFiles == p.processedFiles
        && r.totalChunks == ChunkTotal(svc, md5, embed, files)
        && (p.processedFiles > 0 ==> r.status == StatusSuccess)
  {
    ProcessFilesAccounts(svc, md5, embed, files);
  }

  /** When the embedder returns one vector per text, every chunk becomes a
      point: the points are as many as the chunks counted. */
  lemma {:induction false} EveryChunkAPoint(svc: ChunkingService, md5: string -> Md5Hex,
                                            embed: seq<string> -> Result<seq<Vector>, string>,
                                            files: seq<MarkdownFile>)
    requires svc.Valid()
    requires forall ts :: embed(ts).Success? ==> |embed(ts).value| == |ts|
    ensures |ProcessFiles(svc, md5, embed, files).points| == ProcessFiles(svc, md5, embed, files).totalChunks
  {
    if |files| > 0 {
      EveryChunkAPoint(svc, md5, embed, files[..|files| - 1]);
    }
  }
}
