# SignConnect: class-label translation and the video upload flow

SignConnect records a sign-language video and sends it to a recognition
API. The server answers with class labels such as `class_hola`, and the app turns
each label into display text. This project models two pieces of the app's logic
in Dafny and proves properties of them:

- **`ClassNameUtils.getReadableClassName`** (module `ClassNames`, with the string
  primitives in module `Text`). This is a pure function:
  - an exact lookup in the 13-entry `classNameMap`;
  - then a first-match search over the table with the trimmed, lower-cased name,
    comparing it to each key with and without its `class_` marker;
  - otherwise, the normalized name with every `class_` deleted and its first
    character upper-cased.

  The table is modelled as the ordered list of pairs given to `mapOf`. The generic
  lemmas hold for any well-formed table: every key is `class_` followed by
  lower-case letters, and keys are pairwise distinct. `Entries` is proved to be
  such a table.
- **`CameraViewModel`** (module `Camera`). This is imperative:
  - a class with the mutable fields `uiState` and `currentSessionId`, plus a ghost
    history of every state it held;
  - `uploadVideo`'s sequence of states, with the session-id renewal;
  - `resetState`;
  - the 8 KiB copy loop of `getFileFromUri`, over an `InputStream` object whose reads
    deliver chunks, into an `OutputStream`;
  - `cleanupTempFiles`, which deletes files of a `CacheDir` object in place while it
    walks the listing.

  Each method is proved against pure functions:
  - `UploadResult` and `UploadTrace` for the UI states;
  - `Concat` for the copied bytes;
  - `Survivors` for the cleanup.

  Lemmas are proved about those functions.

Module `Wrappers` holds `Option`.

The world outside the view model comes in as inputs:
- the content stream: its chunks, and whether the read after the last chunk throws;
- exceptions of `createTempFile`;
- the HTTP outcome: `isSuccessful`, `code`, `message`, and the body already
  serialized back to JSON, or a thrown exception;
- whether the temporary file still exists after the call;
- the clock;
- fresh UUIDs, and the random part of temp file names.

A read fills only the front of the buffer, up to the length it returns,
and leaves the bytes after it as they were; a read of zero bytes is a
zero-length chunk.

The four UI states of `CameraUIState` (CameraViewModel.kt lines 141-146) are
the datatype `Camera.UIState`. The default message of `Loading` is not used
by the upload flow, which always gives its own.

If `openInputStream` throws, the result is the same as a stream whose first read
throws: the temp file exists, it is empty, and the exception reaches `uploadVideo`.

The doc comment of `getReadableClassName` (ClassNameUtils.kt line 35) says the
original name is returned when there is no translation. The code returns the
cleaned, normalized name instead, and the model follows the code.
`UnknownNameIsNotReturnedAsIs` shows `"FOO_BAR"` becoming `"Foo_bar"`.

## Model

| member | source | states |
|---|---|---|
| ClassNames.EntriesWellFormed | app/src/main/java/com/example/signconnect/util/ClassNameUtils.kt:15-29 | every key of the table is `class_` followed by one or more lower-case letters, and no key occurs twice |
| ClassNames.TableMap | app/src/main/java/com/example/signconnect/util/ClassNameUtils.kt:15-29 | the map built by `mapOf` has exactly the table's keys, and the last pair with a key gives its value |
| ClassNames.Normalize | app/src/main/java/com/example/signconnect/util/ClassNameUtils.kt:49 | the normalized name has no upper-case letter and no surrounding whitespace, and it is empty exactly when the input is all whitespace |
| ClassNames.FindFrom | app/src/main/java/com/example/signconnect/util/ClassNameUtils.kt:53-60 | the search returns the first entry whose key matches, with no earlier entry matching, or reports that no entry matches |
| ClassNames.Translate | app/src/main/java/com/example/signconnect/util/ClassNameUtils.kt:37-67 | for any well-formed table, the result is one of the table's labels or the cleaned normalized name |
| ClassNames.ReadableClassName | app/src/main/java/com/example/signconnect/util/ClassNameUtils.kt:37-67 | the result is one of the 13 labels or the cleaned normalized name |
| ClassNames.KeyShape | app/src/main/java/com/example/signconnect/util/ClassNameUtils.kt:15-29 | a well-formed key is the marker followed by its stem of lower-case letters, and its only underscore is at index 5 |
| ClassNames.KeyNormalizes | app/src/main/java/com/example/signconnect/util/ClassNameUtils.kt:15-29 | a well-formed key is unchanged by trimming and lower-casing, and deleting its markers leaves its stem |
| ClassNames.Stem | app/src/main/java/com/example/signconnect/util/ClassNameUtils.kt:55 | a key without its marker is one or more characters, the key's length less six |
| ClassNames.Matches | app/src/main/java/com/example/signconnect/util/ClassNameUtils.kt:54-56 | the three conditions of the normalized search; every condition compares with lower-cased text, so only a name without upper-case letters can match |
| ClassNames.Cleaned | app/src/main/java/com/example/signconnect/util/ClassNameUtils.kt:63-64 | the fallback text, every marker deleted and the first character upper-cased, is never longer than the normalized name |
| ClassNames.MatchesKeyOrStem | app/src/main/java/com/example/signconnect/util/ClassNameUtils.kt:54-56 | for a well-formed key, the three match conditions together hold exactly when the name is the key or its stem |
| ClassNames.ThirdConditionRedundant | app/src/main/java/com/example/signconnect/util/ClassNameUtils.kt:56 | the third condition holds only when the first one does |
| ClassNames.MatchIsUnique | app/src/main/java/com/example/signconnect/util/ClassNameUtils.kt:53-60 | no name matches two entries, so the iteration order of the table cannot change the result |
| ClassNames.TranslateMatched | app/src/main/java/com/example/signconnect/util/ClassNameUtils.kt:53-58 | for a well-formed table, a name whose normalization matches entry i gets entry i's label |
| ClassNames.TranslateFallback | app/src/main/java/com/example/signconnect/util/ClassNameUtils.kt:63-66 | for a well-formed table, a name that matches no entry gets the cleaned normalized name |
| ClassNames.DirectMatch | app/src/main/java/com/example/signconnect/util/ClassNameUtils.kt:42-46 | an exact key is found by the map lookup and gives its label |
| ClassNames.MatchedName | app/src/main/java/com/example/signconnect/util/ClassNameUtils.kt:53-58 | a name whose normalization matches entry i gets entry i's label |
| ClassNames.NormalizedKeyMatch | app/src/main/java/com/example/signconnect/util/ClassNameUtils.kt:49-54 | a name that trims and lower-cases to a key gets that key's label |
| ClassNames.NormalizedStemMatch | app/src/main/java/com/example/signconnect/util/ClassNameUtils.kt:49-55 | a name that trims and lower-cases to a key without its marker gets that key's label |
| ClassNames.Fallback | app/src/main/java/com/example/signconnect/util/ClassNameUtils.kt:63-66 | a name matching no entry gets its normalization with every marker deleted and the first character upper-cased |
| ClassNames.CleanedCase | app/src/main/java/com/example/signconnect/util/ClassNameUtils.kt:63-64 | cleaning a name with no upper-case letters gives a text whose first character is not lower-case and whose other characters are not upper-case |
| ClassNames.FallbackCase | app/src/main/java/com/example/signconnect/util/ClassNameUtils.kt:49-66 | in the fallback, the first character is not a lower-case letter and no later character is an upper-case letter |
| ClassNames.BlankName | app/src/main/java/com/example/signconnect/util/ClassNameUtils.kt:37-67 | an empty or all-whitespace name gives the empty text |
| ClassNames.NoEntryMatches | app/src/main/java/com/example/signconnect/util/ClassNameUtils.kt:15-29 | a normalized name with an underscore anywhere except index 5 matches no entry |
| ClassNames.ShoutedKeyExample | app/src/main/java/com/example/signconnect/util/ClassNameUtils.kt:49-54 | `"  CLASS_HOLA "` gives `"Hola"` |
| ClassNames.StemExample | app/src/main/java/com/example/signconnect/util/ClassNameUtils.kt:49-55 | `"hola"` and `" Hola"` give `"Hola"` |
| ClassNames.UnknownNameIsNotReturnedAsIs | app/src/main/java/com/example/signconnect/util/ClassNameUtils.kt:35-66 | `"FOO_BAR"` gives `"Foo_bar"`, not the original name |
| ClassNames.EveryMarkerDeleted | app/src/main/java/com/example/signconnect/util/ClassNameUtils.kt:63-64 | every marker is deleted, not just a leading one: `"class_a_class_b"` gives `"A_b"` |
| ClassNames.MarkerCanSurvive | app/src/main/java/com/example/signconnect/util/ClassNameUtils.kt:63-64 | a single left-to-right pass of `replace` can leave a new marker behind: `"xclaclass_ss_"` gives `"Xclass_"` |
| Text.Lowercase | app/src/main/java/com/example/signconnect/util/ClassNameUtils.kt:49 | lower-casing keeps the length, maps each character, and leaves no upper-case letter |
| Text.Trim | app/src/main/java/com/example/signconnect/util/ClassNameUtils.kt:49 | the result is empty exactly when the input is all whitespace, and otherwise the result neither starts nor ends with whitespace |
| Text.DeleteAll | app/src/main/java/com/example/signconnect/util/ClassNameUtils.kt:63 | `replace("class_", "")`: a single left-to-right scan that deletes each occurrence it meets, never lengthening the text |
| Text.Capitalize | app/src/main/java/com/example/signconnect/util/ClassNameUtils.kt:64 | `replaceFirstChar { it.uppercase() }`: same length, first character upper-cased, the rest untouched |
| Text.TrimSurrounding | app/src/main/java/com/example/signconnect/util/ClassNameUtils.kt:49 | trimming whitespace around a trimmed text gives that text back |
| Text.DeleteAllKeepsCharacters | app/src/main/java/com/example/signconnect/util/ClassNameUtils.kt:63 | deleting a pattern keeps only characters of the input |
| Text.DeleteAllNoOccurrence | app/src/main/java/com/example/signconnect/util/ClassNameUtils.kt:63 | deleting a pattern that does not occur leaves the text unchanged |
| Text.DeleteAllLeading | app/src/main/java/com/example/signconnect/util/ClassNameUtils.kt:55 | deleting removes a leading occurrence of the pattern |
| Text.DecimalRoundTrip | app/src/main/java/com/example/signconnect/ui/camera/CameraViewModel.kt:85 | the decimal rendering of a status code reads back as the same number |
| Text.IntToDecimal | app/src/main/java/com/example/signconnect/ui/camera/CameraViewModel.kt:85 | the rendering of a status code is non-empty and starts with a minus sign exactly when the code is negative |
| Text.DecimalValue | app/src/main/java/com/example/signconnect/ui/camera/CameraViewModel.kt:85 | the value read back from a string of digits is never negative |
| Camera.UploadResult | app/src/main/java/com/example/signconnect/ui/camera/CameraViewModel.kt:64-89 | the final state is Success or Error; it is Success exactly when the copy finished, the response succeeded with a body, and the file still exists; Success carries the URI and the body |
| Camera.ExceptionText | app/src/main/java/com/example/signconnect/ui/camera/CameraViewModel.kt:89 | the message of an exception starts with `Error: ` followed by the exception's message, or by `null` when it has none |
| Camera.HttpErrorText | app/src/main/java/com/example/signconnect/ui/camera/CameraViewModel.kt:85 | the message of a failed response starts with `Error: `, ends with the response's message, and the text between them reads back as the status code |
| Camera.RenewsSession | app/src/main/java/com/example/signconnect/ui/camera/CameraViewModel.kt:64-69 | the session is renewed only when the API responded with a body |
| Camera.UploadTrace | app/src/main/java/com/example/signconnect/ui/camera/CameraViewModel.kt:38-89 | the states are `Loading("Preparando video...")`, then `Loading("Enviando a la API...")` when the copy finished, then the result: three states, or two when the copy failed |
| Camera.FailureMessages | app/src/main/java/com/example/signconnect/ui/camera/CameraViewModel.kt:78-89 | an exception gives `Error: <message>`, a failed response gives `Error: <code> - <message>`, a null body gives the empty-response message, and a missing file gives the file-deleted message |
| Camera.FixedMessagesAreDistinct | app/src/main/java/com/example/signconnect/ui/camera/CameraViewModel.kt:79-89 | the empty-response and file-deleted messages differ from each other and from every message that starts with `Error: ` |
| Camera.RenewalVisible | app/src/main/java/com/example/signconnect/ui/camera/CameraViewModel.kt:64-80 | the session id is renewed exactly when the final state is Success or the file-deleted error |
| Camera.TraceOrder | app/src/main/java/com/example/signconnect/ui/camera/CameraViewModel.kt:38-53 | the first state is `Loading("Preparando video...")`; `Loading("Enviando a la API...")` comes second exactly when the copy finished; the last state is neither Initial nor Loading |
| Camera.InputStream.Read | app/src/main/java/com/example/signconnect/ui/camera/CameraViewModel.kt:104 | a read delivers the next chunk into the front of the buffer and returns its length; at the end of the stream it returns -1 or throws |
| Camera.OutputStream.Write | app/src/main/java/com/example/signconnect/ui/camera/CameraViewModel.kt:105 | a write appends the given slice of the buffer |
| Camera.CopyStream | app/src/main/java/com/example/signconnect/ui/camera/CameraViewModel.kt:99-107 | the output receives exactly the concatenation of the chunks; the total is its length; the stream is left exhausted; an exception of the last read is passed on |
| Camera.CameraViewModel.GetFileFromUri | app/src/main/java/com/example/signconnect/ui/camera/CameraViewModel.kt:94-114 | a new file `video_<session><token>.mp4` is created in the cache holding exactly the stream's bytes (empty for a null stream, with no error); an exception of `createTempFile` leaves the cache unchanged |
| Camera.CameraViewModel.UploadVideo | app/src/main/java/com/example/signconnect/ui/camera/CameraViewModel.kt:35-92 | the state history grows by `UploadTrace`; the final state is `UploadResult`; the session id becomes the fresh id exactly when `RenewsSession` holds; the cache gains exactly the new temp file |
| Camera.CameraViewModel.ResetState | app/src/main/java/com/example/signconnect/ui/camera/CameraViewModel.kt:116-118 | the state becomes Initial whatever it was, and nothing else changes |
| Camera.CameraViewModel.constructor | app/src/main/java/com/example/signconnect/ui/camera/CameraViewModel.kt:29-33 | a new view model starts in Initial with its first session id |
| Camera.CameraViewModel.SetState | app/src/main/java/com/example/signconnect/ui/camera/CameraViewModel.kt:38-89 | an assignment to `_uiState.value` sets the state and extends the history by it, leaving the session id alone |
| Camera.CacheDir.CreateTempFile | app/src/main/java/com/example/signconnect/ui/camera/CameraViewModel.kt:96 | for a name not yet in the directory, a new empty file with that name (prefix, token and `.mp4`) is appended, and its index is returned |
| Camera.CacheDir.Store | app/src/main/java/com/example/signconnect/ui/camera/CameraViewModel.kt:100-105 | the file at the index holds exactly the bytes written and the new modification time; no other file changes |
| Camera.CacheDir.Delete | app/src/main/java/com/example/signconnect/ui/camera/CameraViewModel.kt:130 | the file at the index is removed and the others keep their order |
| Camera.TempName | app/src/main/java/com/example/signconnect/ui/camera/CameraViewModel.kt:96 | every temp file name starts with `video_` |
| Camera.TempFileExpiry | app/src/main/java/com/example/signconnect/ui/camera/CameraViewModel.kt:128-129 | a temp file is eligible for cleanup exactly when it is more than an hour old |
| Camera.IsStale | app/src/main/java/com/example/signconnect/ui/camera/CameraViewModel.kt:128-129 | a file the cleanup deletes has a name at least as long as `video_` and was last modified more than an hour before |
| Camera.Survivors | app/src/main/java/com/example/signconnect/ui/camera/CameraViewModel.kt:126-133 | the files left by a cleanup, in listing order: each file is kept unless it is stale |
| Camera.SurvivorsExactly | app/src/main/java/com/example/signconnect/ui/camera/CameraViewModel.kt:126-133 | a file survives cleanup exactly when it was listed and is not a stale `video_` file |
| Camera.SurvivorsBounded | app/src/main/java/com/example/signconnect/ui/camera/CameraViewModel.kt:126-133 | a cleanup adds no file, and it removes nothing when no file is stale |
| Camera.CameraViewModel.CleanupTempFiles | app/src/main/java/com/example/signconnect/ui/camera/CameraViewModel.kt:121-138 | the directory ends up holding exactly `Survivors` of its listing, in order; nothing is deleted when the listing is null |

## Left out

- Text.Trim, Text.Lowercase: Kotlin's `trim` and `lowercase` follow Unicode. The model treats only ASCII as whitespace (code points 9-13, 28-32) and changes case only for A-Z. `Char.uppercase` in `replaceFirstChar` is modelled the same way, although for some Unicode characters it gives more than one character.
- ClassNames.Translate: the `Log.d` debug calls are not modelled; they do not affect the result.
- Camera.CameraViewModel.UploadVideo: `dir.files` records only the view model's own writes. A temp file deleted by someone else, which `fileExists == false` stands for, is still shown in `dir`.
- Camera.CameraViewModel.UploadVideo: the coroutine launch and the dispatcher switch are not modelled. The body runs as one sequential method, and a concurrent deletion of the temp file is the `fileExists` input.
- Camera.CameraViewModel.UploadVideo: the operation id, the timing values and the log lines have no effect on state and are left out.
- Camera.CameraViewModel.UploadVideo: Retrofit, OkHttp, the multipart request body and `gson.toJson` are not modelled. The call is an `ApiOutcome` input, and the JSON text comes with the response.
- Camera.CameraViewModel.UploadVideo: `UUID.randomUUID` and `System.currentTimeMillis` are parameters (`freshSessionId`, `now`). The random number `createTempFile` inserts into the name is the `token` parameter. The library keeps choosing until the name is free, so callers supply a token whose name is not yet in the directory.
- Camera.CameraViewModel.CleanupTempFiles: an exception thrown during cleanup is caught and logged, and stopping part way is not modelled. A `file.delete()` that returns false is not modelled either; every stale file is taken to be deleted.
- Camera.IsStale: `currentTime - lastModified` is computed on unbounded integers. Long wrap-around cannot happen for real clock values.
- Camera.CopyStream: `totalBytesRead` is an unbounded integer, not a 64-bit `Long`.
- Camera.CameraViewModel.GetFileFromUri: exceptions of `FileOutputStream(tempFile)`, of `outputStream.write` (a full disk, say) and of the `close` done by the two `use` blocks are not separate inputs. Such a failure is represented by a source stream whose `failure` is that exception and whose `pending` holds the chunks actually written before it, which gives the same partly written file and the same `Error: <message>` state.
- CameraScreen.kt, ResultScreen.kt, AppNavigation.kt, ApiService.kt, MainActivity.kt and Models.kt are not part of this model. They are camera, UI, navigation and network plumbing, or plain data holders; the prediction probabilities are floats.
