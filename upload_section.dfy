/**
 * The format gate of src/components/UploadSection.jsx: the change handler of
 * the file input decides, from the first chosen file's MIME type, which call
 * of `onFileSelect` (if any) to make.
 */
module UploadSection {
  import opened Wrappers

  /** A chosen file: its name and its declared MIME type (`file.type`, "" when unknown). */
  datatype File = File(name: string, mimeType: string)

  /** The types the gate lets through. */
  const AcceptedTypes: seq<string> := ["image/jpeg", "image/png", "image/jpg"]

  const RejectedMessage := "Please upload a JPG or PNG image."

  /** The arguments of one `onFileSelect(file, err)` call; None is `null`. */
  datatype FileSelection = FileSelection(file: Option<File>, error: Option<string>)

  /**
   * `handleChange`: `files` is `e.target.files`, None when it is `null`. No
   * file, no call; otherwise exactly one call, deciding on the first file
   * alone: the file itself when its type is accepted, the rejection message
   * and no file otherwise.
   */
  function HandleChange(files: Option<seq<File>>): (r: Option<FileSelection>)
    ensures r.None? <==> files.None? || files.value == []
    ensures r.Some? ==> (r.value.file.Some? <==> r.value.error.None?)
    ensures r.Some? ==> (r.value.file.Some? <==> files.value[0].mimeType in AcceptedTypes)
    ensures r.Some? && r.value.file.Some? ==> r.value.file.value == files.value[0]
    ensures r.Some? && r.value.error.Some? ==> r.value.error.value == RejectedMessage
  {
    if files.None? || files.value == [] then None
    else
      var file := files.value[0];
      if file.mimeType !in AcceptedTypes then Some(FileSelection(None, Some(RejectedMessage)))
      else Some(FileSelection(Some(file), None))
  }

  /** Files after the first one never influence the decision. */
  lemma OnlyFirstFileCounts(first: File, rest: seq<File>)
    ensures HandleChange(Some([first] + rest)) == HandleChange(Some([first]))
  {
    assert ([first] + rest)[0] == first;
  }

  /** The accepted types are exactly JPEG (under both spellings) and PNG. */
  lemma AcceptedTypesAreJpegAndPng(t: string)
    ensures t in AcceptedTypes <==> t == "image/jpeg" || t == "image/png" || t == "image/jpg"
  {
  }

  /** A file that passes the gate declares a non-empty type without commas. */
  lemma AcceptedFileHasType(files: Option<seq<File>>)
    ensures HandleChange(files).Some? && HandleChange(files).value.file.Some?
        ==> var t := HandleChange(files).value.file.value.mimeType; t != "" && ',' !in t
  {
  }
}
