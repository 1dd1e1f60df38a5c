/**
 * The single-image generator of src/App.jsx: six pieces of component state,
 * the session storage that keeps the API key, and the handlers that update
 * them. `onGenerate` is asynchronous; its part up to the first `await` is
 * StartGenerate, its continuation FinishGenerate, and OnGenerate runs both
 * with nothing in between.
 */
module App {
  import opened Wrappers
  import opened Gemini
  import opened UploadSection

  const StorageKey := "gemini_api_key"

  const MissingKeyMessage := "Please add your API key above."

  const MissingFileMessage := "Please upload a photo first."

  const GenerationFailedMessage := "There was a problem generating the image. Please check your API key and try again."

  /** The key held in session storage, "" when none is stored. */
  function StoredKey(session: map<string, string>): string
  {
    if StorageKey in session then session[StorageKey] else ""
  }

  /** `err || ''`. */
  function ErrorText(err: Option<string>): string
  {
    if err.Some? then err.value else ""
  }

  class Generator {
    /** The prompt text of the request (a fixed string in the source). */
    const prompt: string

    var apiKey: string
    var file: Option<File>
    var previewUrl: string
    var error: string
    var isGenerating: bool
    var generatedUrl: string

    /** The browser's session storage. */
    var session: map<string, string>

    /**
     * The key on screen is the stored one, a preview is shown exactly when a
     * file is chosen, and a generated URL is always an image data URL.
     */
    ghost predicate Valid()
      reads this
    {
      && StoredKey(session) == apiKey
      && (file.None? <==> previewUrl == "")
      && (generatedUrl != "" ==> IsImageDataUrl(generatedUrl))
    }

    /** Mount: the initial state, then the effect that restores a stored non-empty key. */
    constructor (prompt: string, session: map<string, string>)
      ensures Valid()
      ensures this.prompt == prompt && this.session == session
      ensures apiKey == StoredKey(session)
      ensures file == None && previewUrl == "" && error == "" && !isGenerating && generatedUrl == ""
    {
      this.prompt := prompt;
      this.session := session;
      apiKey := if StorageKey in session && session[StorageKey] != "" then session[StorageKey] else "";
      file := None;
      previewUrl := "";
      error := "";
      isGenerating := false;
      generatedUrl := "";
    }

    /** `canGenerate`: what enables the generate button. */
    predicate CanGenerate()
      reads this
    {
      apiKey != "" && file.Some? && !isGenerating
    }

    /** `onSaveKey`: keep the key, and store it (a non-empty one) or remove the stored one. */
    method OnSaveKey(key: string)
      requires Valid()
      modifies this
      ensures Valid()
      ensures apiKey == key
      ensures session == if key != "" then old(session)[StorageKey := key] else old(session) - {StorageKey}
      ensures file == old(file) && previewUrl == old(previewUrl) && error == old(error)
      ensures isGenerating == old(isGenerating) && generatedUrl == old(generatedUrl)
    {
      apiKey := key;
      if key != "" {
        session := session[StorageKey := key];
      } else {
        session := session - {StorageKey};
      }
    }

    /**
     * `onFileSelect(newFile, err)`: show `err` (or nothing), drop the
     * generated image, and take the new file with its preview URL, or clear
     * both. `objectUrl` is what `URL.createObjectURL` returns for the file.
     */
    method OnFileSelect(newFile: Option<File>, err: Option<string>, objectUrl: string)
      requires Valid()
      requires newFile.Some? ==> objectUrl != ""
      modifies this
      ensures Valid()
      ensures error == ErrorText(err) && generatedUrl == ""
      ensures file == newFile
      ensures previewUrl == if newFile.Some? then objectUrl else ""
      ensures apiKey == old(apiKey) && session == old(session) && isGenerating == old(isGenerating)
    {
      error := ErrorText(err);
      generatedUrl := "";
      if newFile.None? {
        file := None;
        previewUrl := "";
        return;
      }
      file := newFile;
      previewUrl := objectUrl;
    }

    /** The file input's change handler wired to `onFileSelect`. */
    method ChooseFiles(files: Option<seq<File>>, objectUrl: string)
      requires Valid()
      requires objectUrl != ""
      modifies this
      ensures Valid()
      ensures HandleChange(files).None? ==>
        file == old(file) && previewUrl == old(previewUrl) && error == old(error) && generatedUrl == old(generatedUrl)
      ensures HandleChange(files).Some? && HandleChange(files).value.file.None? ==>
        file == None && previewUrl == "" && error == RejectedMessage && generatedUrl == ""
      ensures HandleChange(files).Some? && HandleChange(files).value.file.Some? ==>
        file == Some(files.value[0]) && previewUrl == objectUrl && error == "" && generatedUrl == ""
      ensures apiKey == old(apiKey) && session == old(session) && isGenerating == old(isGenerating)
    {
      var selection := HandleChange(files);
      if selection.Some? {
        OnFileSelect(selection.value.file, selection.value.error, objectUrl);
      }
    }

    /**
     * The synchronous start of `onGenerate`: the key is checked before the
     * file; when both are there the error is cleared, generation is flagged
     * and the previous result dropped. The handler itself does not look at
     * `isGenerating`; only the disabled button keeps a second run out.
     */
    method StartGenerate() returns (started: bool)
      requires Valid()
      modifies this
      ensures Valid()
      ensures started <==> old(apiKey) != "" && old(file).Some?
      ensures old(CanGenerate()) ==> started
      ensures old(apiKey) == "" ==> error == MissingKeyMessage
      ensures old(apiKey) != "" && old(file).None? ==> error == MissingFileMessage
      ensures !started ==> isGenerating == old(isGenerating) && generatedUrl == old(generatedUrl)
      ensures started ==> error == "" && isGenerating && generatedUrl == ""
      ensures apiKey == old(apiKey) && file == old(file) && previewUrl == old(previewUrl) && session == old(session)
    {
      if apiKey == "" {
        error := MissingKeyMessage;
        return false;
      }
      if file.None? {
        error := MissingFileMessage;
        return false;
      }
      error := "";
      isGenerating := true;
      generatedUrl := "";
      started := true;
    }

    /**
     * The continuation of `onGenerate` for the file captured at its start:
     * read the file, post the request (returned as `request`, None when the
     * read failed and nothing was sent), scan the reply. Success shows the
     * data URL; every failure shows one fixed message, whatever was thrown.
     * Either way generation is over.
     */
    method FinishGenerate(upload: File, read: ReadOutcome, fetched: FetchOutcome)
      returns (request: Option<RequestBody>)
      requires Valid()
      modifies this
      ensures Valid()
      ensures !isGenerating
      ensures request == if read.ReadDone? then Some(BuildBody(prompt, upload.mimeType, Base64Field(read.result))) else None
      ensures Attempt(read, fetched).Generated? ==>
        generatedUrl == Attempt(read, fetched).dataUrl && error == old(error)
      ensures Attempt(read, fetched).Failed? ==>
        generatedUrl == old(generatedUrl) && error == GenerationFailedMessage
      ensures apiKey == old(apiKey) && file == old(file) && previewUrl == old(previewUrl) && session == old(session)
    {
      var outcome: Attempted;
      request := None;
      if read.ReadFailed? {
        outcome := Failed(ReadError);
      } else {
        request := Some(BuildBody(prompt, upload.mimeType, Base64Field(read.result)));
        match fetched {
          case NetworkFailure =>
            outcome := Failed(NetworkError);
          case Response(ok, text, body) =>
            if !ok {
              outcome := Failed(HttpError(if text != "" then text else DefaultHttpMessage));
            } else if !body.JsonObject? {
              outcome := Failed(MalformedReply);
            } else {
              var scan := FindImagePart(CandidatesOf(body.candidates));
              match scan {
                case Found(image) => outcome := Generated(DataUrl(image.mimeType, image.data));
                case NoImage => outcome := Failed(NoImageReturned);
                case Crashed => outcome := Failed(MalformedReply);
              }
            }
        }
      }
      assert outcome == Attempt(read, fetched);
      if outcome.Generated? {
        AttemptYieldsFirstImage(read, fetched, outcome.dataUrl);
        generatedUrl := outcome.dataUrl;
      } else {
        error := GenerationFailedMessage;
      }
      isGenerating := false;
    }

    /**
     * `onGenerate` run to completion. Without a key nothing is sent and the
     * key message shows, even when the file is missing too; without a file
     * the file message shows. Otherwise generation ends with the data URL of
     * the first image part and no error, or with no image and the fixed
     * failure message.
     */
    method OnGenerate(read: ReadOutcome, fetched: FetchOutcome) returns (request: Option<RequestBody>)
      requires Valid()
      modifies this
      ensures Valid()
      ensures old(apiKey) == "" ==>
        error == MissingKeyMessage && request.None?
        && isGenerating == old(isGenerating) && generatedUrl == old(generatedUrl)
      ensures old(apiKey) != "" && old(file).None? ==>
        error == MissingFileMessage && request.None?
        && isGenerating == old(isGenerating) && generatedUrl == old(generatedUrl)
      ensures old(apiKey) != "" && old(file).Some? ==>
        && !isGenerating
        && request == (if read.ReadDone? then Some(BuildBody(prompt, old(file).value.mimeType, Base64Field(read.result))) else None)
        && (Attempt(read, fetched).Generated? ==> generatedUrl == Attempt(read, fetched).dataUrl && error == "")
        && (Attempt(read, fetched).Failed? ==> generatedUrl == "" && error == GenerationFailedMessage)
      ensures apiKey == old(apiKey) && file == old(file) && previewUrl == old(previewUrl) && session == old(session)
    {
      request := None;
      var started := StartGenerate();
      if started {
        request := FinishGenerate(file.value, read, fetched);
      }
    }

    /** `onGenerateAgain`: drop the result and leave the generating state. */
    method OnGenerateAgain()
      requires Valid()
      modifies this
      ensures Valid()
      ensures generatedUrl == "" && !isGenerating
      ensures apiKey == old(apiKey) && file == old(file) && previewUrl == old(previewUrl)
      ensures error == old(error) && session == old(session)
    {
      generatedUrl := "";
      isGenerating := false;
    }
  }

  /**
   * A file let through by the upload gate, read back by the file reader as
   * the data URL of its payload, is posted with exactly its own type and
   * payload.
   */
  lemma {:induction false} AcceptedUploadIsPosted(files: Option<seq<File>>, prompt: string, data: string)
    requires HandleChange(files).Some? && HandleChange(files).value.file.Some?
    requires ',' !in data
    ensures var t := HandleChange(files).value.file.value.mimeType;
      BuildBody(prompt, t, Base64Field(DataUrl(t, data))).contents[0].parts[1]
        == InlinePart(InlinePayload(t, Some(data)))
  {
    AcceptedFileHasType(files);
    var t := HandleChange(files).value.file.value.mimeType;
    RequestCarriesUpload(prompt, t, data);
  }
}
