/**
 * The upload flow of the camera screen's view model: the UI state machine
 * driven by `uploadVideo` and `resetState`, the chunked copy of the recorded
 * video into a temporary file, and the removal of stale temporary files.
 *
 * Everything the view model reaches outside itself is an input here: the
 * content stream is an `InputStream` object holding the chunks its reads
 * deliver, the cache directory a `CacheDir` object, the HTTP exchange an
 * `ApiOutcome` value, the clock a number, and random identifiers fresh
 * strings supplied by the caller.
 */
module Camera {
  import opened Wrappers
  import opened Text

  type Byte = bv8

  /** Size of the copy buffer, `ByteArray(8192)`. */
  const BufferSize: nat := 8192

  const PreparingMessage: string := "Preparando video..."
  const SendingMessage: string := "Enviando a la API..."
  const EmptyBodyMessage: string := "Respuesta vacía de la API"
  const FileDeletedMessage: string := "El archivo de video ha sido eliminado"

  /** Temporary video files are named `video_<session><random>.mp4`. */
  const TempPrefix: string := "video_"
  const TempSuffix: string := ".mp4"
  /** One hour, in milliseconds. */
  const MaxTempAge: int := 3600000

  /** `CameraUIState`. */
  datatype UIState =
    | Initial
    | Loading(message: string)
    | Success(videoUri: string, apiResponse: string)
    | Error(message: string)

  /** A thrown exception, reduced to its (nullable) message. */
  datatype Exception = Exception(message: Option<string>)

  /** The HTTP response of the prediction call. `body` is the decoded
      body as the JSON serializer renders it again, or None for a null body. */
  datatype HttpResponse = HttpResponse(isSuccessful: bool, code: int, message: string, body: Option<string>)

  /** What the prediction call gives back: a response, or an exception. */
  datatype ApiOutcome = Responded(response: HttpResponse) | Threw(error: Exception)

  /** `"Error: ${e.message}"`; a null message is printed as `null`. */
  function ExceptionText(e: Exception): (r: string)
    ensures StartsWith(r, "Error: ")
    ensures e.message.Some? ==> r[7..] == e.message.value
    ensures e.message.None? ==> r[7..] == "null"
  {
    var r := "Error: " + e.message.GetOr("null");
    assert r[..7] == "Error: ";
    r
  }

  /** `"Error: ${response.code()} - ${response.message()}"`. */
  function HttpErrorText(r: HttpResponse): (t: string)
    ensures StartsWith(t, "Error: ")
    ensures |t| >= 11 + |r.message| && t[|t| - |r.message|..] == r.message
    ensures r.code >= 0 ==> DecimalValue(t[7..|t| - |r.message| - 3]) == r.code
  {
    var d := IntToDecimal(r.code);
    var t := "Error: " + d + " - " + r.message;
    assert t[..7] == "Error: ";
    assert t[7..|t| - |r.message| - 3] == d;
    assert t[|t| - |r.message|..] == r.message;
    assert r.code >= 0 ==> DecimalValue(d) == r.code by {
      if r.code >= 0 { DecimalRoundTrip(r.code); }
    }
    t
  }

  // ---------------------------------------------------------------------
  // The specification of one upload

  /** The session id is renewed exactly when the copy finished and the API
      answered successfully with a body. */
  predicate RenewsSession(copyError: Option<Exception>, api: ApiOutcome): (b: bool)
    ensures b ==> api.Responded? && api.response.body.Some?
  {
    copyError.None? && api.Responded? && api.response.isSuccessful && api.response.body.Some?
  }

  /** The state `uploadVideo` leaves behind, given how the copy ended
      (`copyError`), what the API call gave back and whether the temporary
      file still exists afterwards. */
  function UploadResult(videoUri: string, copyError: Option<Exception>, api: ApiOutcome, fileExists: bool): (s: UIState)
    ensures s.Success? || s.Error?
    ensures s.Success? <==> RenewsSession(copyError, api) && fileExists
    ensures s.Success? ==> s == Success(videoUri, api.response.body.value)
  {
    if copyError.Some? then Error(ExceptionText(copyError.value))
    else match api
      case Threw(e) => Error(ExceptionText(e))
      case Responded(r) =>
        if !r.isSuccessful then Error(HttpErrorText(r))
        else if r.body.None? then Error(EmptyBodyMessage)
        else if fileExists then Success(videoUri, r.body.value)
        else Error(FileDeletedMessage)
  }

  /** Every value `uploadVideo` assigns to the UI state, in order. */
  function UploadTrace(videoUri: string, copyError: Option<Exception>, api: ApiOutcome, fileExists: bool): (t: seq<UIState>)
    ensures |t| == if copyError.None? then 3 else 2
    ensures t[0] == Loading(PreparingMessage) && t[|t| - 1] == UploadResult(videoUri, copyError, api, fileExists)
  {
    [Loading(PreparingMessage)]
    + (if copyError.None? then [Loading(SendingMessage)] else [])
    + [UploadResult(videoUri, copyError, api, fileExists)]
  }

  /** Each failure path reports the message that names it. */
  lemma FailureMessages(videoUri: string, copyError: Option<Exception>, api: ApiOutcome, fileExists: bool)
    ensures var s := UploadResult(videoUri, copyError, api, fileExists);
      && (copyError.Some? ==> s == Error(ExceptionText(copyError.value)))
      && (copyError.None? && api.Threw? ==> s == Error(ExceptionText(api.error)))
      && (copyError.None? && api.Responded? && !api.response.isSuccessful ==>
            s == Error(HttpErrorText(api.response)))
      && (copyError.None? && api.Responded? && api.response.isSuccessful && api.response.body.None? ==>
            s == Error(EmptyBodyMessage))
      && (RenewsSession(copyError, api) && !fileExists ==> s == Error(FileDeletedMessage))
  {
  }

  /** The fixed failure messages cannot be mistaken for the ones built from
      an HTTP status or an exception, which all start with `Error: `. */
  lemma FixedMessagesAreDistinct(r: HttpResponse, e: Exception)
    ensures !StartsWith(EmptyBodyMessage, "Error: ") && !StartsWith(FileDeletedMessage, "Error: ")
    ensures StartsWith(HttpErrorText(r), "Error: ") && StartsWith(ExceptionText(e), "Error: ")
    ensures EmptyBodyMessage != FileDeletedMessage
  {
    assert EmptyBodyMessage[0] == 'R' && FileDeletedMessage[1] == 'l';
  }

  /** The session id is renewed exactly when the upload shows either the
      result or the message that the video file has gone. */
  lemma RenewalVisible(videoUri: string, copyError: Option<Exception>, api: ApiOutcome, fileExists: bool)
    ensures var s := UploadResult(videoUri, copyError, api, fileExists);
      RenewsSession(copyError, api) <==> s.Success? || s == Error(FileDeletedMessage)
  {
    var s := UploadResult(videoUri, copyError, api, fileExists);
    if copyError.Some? {
      FixedMessagesAreDistinct(HttpResponse(false, 0, "", None), copyError.value);
    } else if api.Threw? {
      FixedMessagesAreDistinct(HttpResponse(false, 0, "", None), api.error);
    } else {
      FixedMessagesAreDistinct(api.response, Exception(None));
    }
  }

  /** The trace starts with the preparing message; the sending message
      follows it exactly when the copy finished; the last state is the
      result, never `Initial` and never `Loading`. */
  lemma TraceOrder(videoUri: string, copyError: Option<Exception>, api: ApiOutcome, fileExists: bool)
    ensures var t := UploadTrace(videoUri, copyError, api, fileExists);
      && t[0] == Loading(PreparingMessage)
      && (Loading(SendingMessage) in t <==> copyError.None?)
      && (copyError.None? ==> |t| == 3 && t[1] == Loading(SendingMessage))
      && (copyError.Some? ==> |t| == 2)
      && t[|t| - 1] == UploadResult(videoUri, copyError, api, fileExists)
      && !t[|t| - 1].Initial? && !t[|t| - 1].Loading?
  {
  }

  // ---------------------------------------------------------------------
  // Streams

  /** The concatenation of a sequence of chunks. */
  function Concat(chunks: seq<seq<Byte>>): (r: seq<Byte>)
  {
    if chunks == [] then [] else Concat(chunks[..|chunks| - 1]) + chunks[|chunks| - 1]
  }

  lemma ConcatAppend(chunks: seq<seq<Byte>>, c: seq<Byte>)
    ensures Concat(chunks + [c]) == Concat(chunks) + c
  {
    assert (chunks + [c])[..|chunks|] == chunks;
  }

  /** The content stream opened on the video's URI. Successive reads deliver
      the chunks in `pending` (none longer than the buffer); after the last
      one, `failure` tells whether the next read throws or reports the end. */
  class InputStream {
    var pending: seq<seq<Byte>>
    var failure: Option<Exception>

    ghost predicate Valid()
      reads this
    {
      forall i :: 0 <= i < |pending| ==> |pending[i]| <= BufferSize
    }

    constructor (chunks: seq<seq<Byte>>, failure: Option<Exception>)
      requires forall i :: 0 <= i < |chunks| ==> |chunks[i]| <= BufferSize
      ensures Valid() && pending == chunks && this.failure == failure
    {
      pending := chunks;
      this.failure := failure;
    }

    /** `read(buffer)`: the next chunk lands at the front of `buffer` and its
        length is returned; -1 at the end of the stream; or an exception. */
    method Read(buffer: array<Byte>) returns (n: int, thrown: Option<Exception>)
      requires Valid() && buffer.Length == BufferSize
      modifies this, buffer
      ensures Valid() && failure == old(failure)
      ensures old(pending) == [] ==>
        pending == [] && thrown == failure && n == -1 && buffer[..] == old(buffer[..])
      ensures old(pending) != [] ==>
        pending == old(pending)[1..] && thrown.None? &&
        n == |old(pending)[0]| && buffer[..n] == old(pending)[0]
      ensures n >= 0 ==> buffer[n..] == old(buffer[n..])
    {
      if pending == [] {
        n, thrown := -1, failure;
      } else {
        var chunk := pending[0];
        forall i | 0 <= i < |chunk| {
          buffer[i] := chunk[i];
        }
        n, thrown := |chunk|, None;
        pending := pending[1..];
        assert buffer[..n] == chunk;
      }
    }
  }

  /** The file output stream opened on the temporary file. */
  class OutputStream {
    var written: seq<Byte>

    constructor ()
      ensures written == []
    {
      written := [];
    }

    /** `write(buffer, off, len)`. */
    method Write(buffer: array<Byte>, off: nat, len: nat)
      requires off + len <= buffer.Length
      modifies this
      ensures written == old(written) + buffer[off..off + len]
    {
      written := written + buffer[off..off + len];
    }
  }

  /**
   * The copy loop of `getFileFromUri`: read into an 8 KiB buffer until a
   * read returns -1, writing each chunk out. Everything the stream had to
   * deliver reaches the output, `total` counts it, and the stream ends up
   * exhausted; an exception of the final read is passed on.
   */
  method CopyStream(input: InputStream, output: OutputStream) returns (total: int, thrown: Option<Exception>)
    requires input.Valid()
    modifies input, output
    ensures output.written == old(output.written) + Concat(old(input.pending))
    ensures total == |Concat(old(input.pending))|
    ensures thrown == old(input.failure)
    ensures input.pending == [] && input.failure == old(input.failure) && input.Valid()
  {
    var buffer := new Byte[BufferSize];
    ghost var chunks := input.pending;
    ghost var k := 0;
    total := 0;
    var bytesRead;
    bytesRead, thrown := input.Read(buffer);
    while thrown.None? && bytesRead != -1
      invariant input.Valid() && input.failure == old(input.failure)
      invariant 0 <= k <= |chunks|
      invariant k < |chunks| ==>
        thrown.None? && input.pending == chunks[k + 1..] &&
        bytesRead == |chunks[k]| && bytesRead <= buffer.Length && buffer[..bytesRead] == chunks[k]
      invariant k == |chunks| ==>
        input.pending == [] && thrown == input.failure && bytesRead == -1
      invariant output.written == old(output.written) + Concat(chunks[..k])
      invariant total == |Concat(chunks[..k])|
      decreases |chunks| - k
    {
      output.Write(buffer, 0, bytesRead);
      total := total + bytesRead;
      ConcatAppend(chunks[..k], chunks[k]);
      assert chunks[..k + 1] == chunks[..k] + [chunks[k]];
      k := k + 1;
      bytesRead, thrown := input.Read(buffer);
    }
    assert chunks[..k] == chunks;
  }

  // ---------------------------------------------------------------------
  // The cache directory

  datatype CachedFile = CachedFile(name: string, lastModified: int, content: seq<Byte>)

  /** A file `cleanupTempFiles` deletes at time `now`: a temporary video
      file last modified more than an hour before. */
  predicate IsStale(f: CachedFile, now: int): (b: bool)
    ensures b ==> |f.name| >= |TempPrefix| && f.lastModified < now - MaxTempAge
  {
    StartsWith(f.name, TempPrefix) && now - f.lastModified > MaxTempAge
  }

  /** The files that survive a cleanup at time `now`, in their order. */
  function Survivors(files: seq<CachedFile>, now: int): (r: seq<CachedFile>)
  {
    if files == [] then []
    else
      var last := files[|files| - 1];
      Survivors(files[..|files| - 1], now) + (if IsStale(last, now) then [] else [last])
  }

  /** A cleanup keeps exactly the files that are not stale. */
  lemma {:induction false} SurvivorsExactly(files: seq<CachedFile>, now: int, f: CachedFile)
    ensures f in Survivors(files, now) <==> f in files && !IsStale(f, now)
  {
    if files != [] {
      var init := files[..|files| - 1];
      SurvivorsExactly(init, now, f);
      assert files == init + [files[|files| - 1]];
    }
  }

  /** A cleanup adds no file, and with nothing stale it keeps the whole
      listing. */
  lemma {:induction false} SurvivorsBounded(files: seq<CachedFile>, now: int)
    ensures |Survivors(files, now)| <= |files|
    ensures (forall i :: 0 <= i < |files| ==> !IsStale(files[i], now)) ==> Survivors(files, now) == files
  {
    if files != [] {
      var init := files[..|files| - 1];
      SurvivorsBounded(init, now);
      assert files == init + [files[|files| - 1]];
    }
  }

  /** One step of the cleanup walk: with the first `i` listed files
      visited, the directory holds their survivors followed by the rest of
      the listing; handling file `i` (deleting it at index `kept` when it is
      stale) restores that shape for `i + 1`. */
  lemma CleanupStep(listed: seq<CachedFile>, i: nat, now: int, files: seq<CachedFile>)
    requires i < |listed| && files == Survivors(listed[..i], now) + listed[i..]
    ensures var kept := |Survivors(listed[..i], now)|;
      && kept < |files| && files[kept] == listed[i]
      && (IsStale(listed[i], now) ==>
            files[..kept] + files[kept + 1..] == Survivors(listed[..i + 1], now) + listed[i + 1..])
      && (!IsStale(listed[i], now) ==>
            files == Survivors(listed[..i + 1], now) + listed[i + 1..] &&
            kept + 1 == |Survivors(listed[..i + 1], now)|)
  {
    SurvivorsStep(listed, i, now);
    assert listed[i..] == [listed[i]] + listed[i + 1..];
    SplitNext(Survivors(listed[..i], now), listed[i], listed[i + 1..]);
  }

  /** Extending the listing by one file extends the survivors by it or by
      nothing. */
  lemma SurvivorsStep(listed: seq<CachedFile>, i: nat, now: int)
    requires i < |listed|
    ensures Survivors(listed[..i + 1], now) ==
      Survivors(listed[..i], now) + (if IsStale(listed[i], now) then [] else [listed[i]])
  {
    assert listed[..i + 1][..i] == listed[..i];
  }

  /** The element after a prefix, and the sequence without it. */
  lemma SplitNext<T>(kept: seq<T>, x: T, rest: seq<T>)
    ensures |kept| < |kept + ([x] + rest)| && (kept + ([x] + rest))[|kept|] == x
    ensures (kept + ([x] + rest))[..|kept|] + (kept + ([x] + rest))[|kept| + 1..] == kept + rest
    ensures kept + ([x] + rest) == (kept + [x]) + rest
  {
    var all := kept + ([x] + rest);
    assert all[..|kept|] == kept;
    assert all[|kept| + 1..] == rest;
  }

  /** No file of the directory is called `name`. */
  predicate NameFree(files: seq<CachedFile>, name: string) {
    forall i :: 0 <= i < |files| ==> files[i].name != name
  }

  /** The application's cache directory, as the list `listFiles()` returns. */
  class CacheDir {
    var files: seq<CachedFile>

    constructor (files: seq<CachedFile>)
      ensures this.files == files
    {
      this.files := files;
    }

    /** `File.createTempFile(prefix, suffix, dir)`; `token` stands for the
        random number the library inserts between them. */
    method CreateTempFile(prefix: string, token: string, now: int) returns (index: nat)
      requires NameFree(files, prefix + token + TempSuffix)
      modifies this
      ensures index == |old(files)|
      ensures files == old(files) + [CachedFile(prefix + token + TempSuffix, now, [])]
    {
      index := |files|;
      files := files + [CachedFile(prefix + token + TempSuffix, now, [])];
    }

    /** Closing a file output stream: the file holds what was written. */
    method Store(index: nat, content: seq<Byte>, now: int)
      requires index < |files|
      modifies this
      ensures files == old(files)[index := CachedFile(old(files)[index].name, now, content)]
    {
      files := files[index := CachedFile(files[index].name, now, content)];
    }

    /** `file.delete()`. */
    method Delete(index: nat)
      requires index < |files|
      modifies this
      ensures files == old(files)[..index] + old(files)[index + 1..]
    {
      files := files[..index] + files[index + 1..];
    }
  }

  /** The name `getFileFromUri` gives a temporary file. */
  function TempName(sessionId: string, token: string): (name: string)
    ensures StartsWith(name, TempPrefix)
  {
    var name := TempPrefix + sessionId + token + TempSuffix;
    assert name[..|TempPrefix|] == TempPrefix;
    name
  }

  /** A temporary video file is cleaned up exactly once it is more than an
      hour old. */
  lemma TempFileExpiry(sessionId: string, token: string, created: int, content: seq<Byte>, now: int)
    ensures IsStale(CachedFile(TempName(sessionId, token), created, content), now) <==> now - created > MaxTempAge
  {
  }

  // ---------------------------------------------------------------------
  // The view model

  class CameraViewModel {
    /** `_uiState.value`. */
    var uiState: UIState
    /** `currentSessionId`, the prefix of the next temporary file's name. */
    var currentSessionId: string
    /** Every value the UI state has held, in order. */
    ghost var history: seq<UIState>

    /** A new view model; `sessionId` stands for `UUID.randomUUID()`. */
    constructor (sessionId: string)
      ensures uiState == Initial && currentSessionId == sessionId && history == [Initial]
    {
      uiState := Initial;
      currentSessionId := sessionId;
      history := [Initial];
    }

    /** `_uiState.value = s`. */
    method SetState(s: UIState)
      modifies this
      ensures uiState == s && history == old(history) + [s]
      ensures currentSessionId == old(currentSessionId)
    {
      uiState := s;
      history := history + [s];
    }

    /** `resetState`: back to `Initial`, whatever the state was. */
    method ResetState()
      modifies this
      ensures uiState == Initial && history == old(history) + [Initial]
      ensures currentSessionId == old(currentSessionId)
    {
      SetState(Initial);
    }

    /**
     * `getFileFromUri`: create `video_<session><token>.mp4` in the cache
     * directory and copy the content stream into it. `createFailure` is an
     * exception of `createTempFile`; a null `source` is a content resolver
     * that opened no stream, which leaves the file empty without error.
     */
    method GetFileFromUri(dir: CacheDir, source: InputStream?, createFailure: Option<Exception>, token: string, now: int)
      returns (index: nat, thrown: Option<Exception>)
      requires source != null ==> source.Valid()
      requires createFailure.None? ==> NameFree(dir.files, TempName(currentSessionId, token))
      modifies dir, source
      ensures createFailure.Some? ==> thrown == createFailure && dir.files == old(dir.files)
      ensures createFailure.None? ==>
        thrown == (if source == null then None else old(source.failure)) &&
        index == |old(dir.files)| &&
        dir.files == old(dir.files) + [CachedFile(TempName(currentSessionId, token), now,
                                                  if source == null then [] else Concat(old(source.pending)))]
    {
      if createFailure.Some? {
        return 0, createFailure;
      }
      assert TempPrefix + currentSessionId + token + TempSuffix == TempName(currentSessionId, token);
      index := dir.CreateTempFile(TempPrefix + currentSessionId, token, now);
      thrown := None;
      if source != null {
        var output := new OutputStream();
        var total;
        total, thrown := CopyStream(source, output);
        ghost var created := dir.files;
        dir.Store(index, output.written, now);
        assert dir.files == created[..index] + [CachedFile(created[index].name, now, output.written)];
        assert output.written == Concat(old(source.pending));
        assert created[..index] == old(dir.files);
        assert created[index].name == TempName(currentSessionId, token);
      }
    }

    /**
     * The body of `uploadVideo`. The state becomes `Loading(preparing)`, the
     * video is copied, the state becomes `Loading(sending)`, the API answers,
     * and the state ends as `UploadResult` says; on a successful response
     * with a body the session id is replaced by `freshSessionId`. An
     * exception at any step ends the state as `Error`.
     */
    method UploadVideo(videoUri: string, dir: CacheDir, source: InputStream?, createFailure: Option<Exception>,
                       token: string, now: int, api: ApiOutcome, fileExists: bool, freshSessionId: string)
      requires source != null ==> source.Valid()
      requires createFailure.None? ==> NameFree(dir.files, TempName(currentSessionId, token))
      modifies this, dir, source
      ensures var copyError := if createFailure.Some? then createFailure
                               else if source == null then None else old(source.failure);
        && uiState == UploadResult(videoUri, copyError, api, fileExists)
        && history == old(history) + UploadTrace(videoUri, copyError, api, fileExists)
        && currentSessionId == (if RenewsSession(copyError, api) then freshSessionId else old(currentSessionId))
      ensures createFailure.Some? ==> dir.files == old(dir.files)
      ensures createFailure.None? ==>
        dir.files == old(dir.files) + [CachedFile(TempName(old(currentSessionId), token), now,
                                                  if source == null then [] else Concat(old(source.pending)))]
    {
      ghost var copyError := if createFailure.Some? then createFailure
                             else if source == null then None else source.failure;
      ghost var result := UploadResult(videoUri, copyError, api, fileExists);
      SetState(Loading(PreparingMessage));
      var index, thrown := GetFileFromUri(dir, source, createFailure, token, now);
      if thrown.Some? {
        SetState(Error(ExceptionText(thrown.value)));
        return;
      }
      SetState(Loading(SendingMessage));
      match api
      case Threw(e) =>
        SetState(Error(ExceptionText(e)));
      case Responded(response) =>
        if response.isSuccessful {
          if response.body.Some? {
            currentSessionId := freshSessionId;
            if fileExists {
              SetState(Success(videoUri, response.body.value));
            } else {
              SetState(Error(FileDeletedMessage));
            }
          } else {
            SetState(Error(EmptyBodyMessage));
          }
        } else {
          SetState(Error(HttpErrorText(response)));
        }
    }

    /**
     * `cleanupTempFiles`: walk the directory listing and delete every stale
     * temporary video file. `listable` false stands for `listFiles()`
     * returning null, when nothing is deleted.
     */
    method CleanupTempFiles(dir: CacheDir, now: int, listable: bool)
      modifies dir
      ensures dir.files == if listable then Survivors(old(dir.files), now) else old(dir.files)
    {
      if !listable {
        return;
      }
      var listed := dir.files;
      var i := 0;
      var kept := 0;
      while i < |listed|
        invariant 0 <= i <= |listed|
        invariant kept == |Survivors(listed[..i], now)|
        invariant dir.files == Survivors(listed[..i], now) + listed[i..]
      {
        CleanupStep(listed, i, now, dir.files);
        if IsStale(listed[i], now) {
          dir.Delete(kept);
        } else {
          kept := kept + 1;
        }
        i := i + 1;
      }
      assert listed[..i] == listed;
    }
  }
}
