/**
 * The browser side of the element in `pl-single-csv-upload/`: the class
 * `PLSingleCsvUpload` holds the Base64 contents of one file, mirrors them as
 * JSON text into the hidden form input, and lists the required columns.
 * The page is represented by the fields the methods write: the hidden
 * input's value, whether its unload check is disabled, the warnings shown,
 * the download links appended and the entries of the column list.
 */
module LegacyWidget {
  import opened Wrappers
  import JsonString
  import DataUrl
  import QuestionData
  import LegacyElement

  /** The warning shown for a file whose data URL has no comma. */
  function EmptyFileWarning(blobName: string): string {
    "<strong>" + blobName + "</strong>" + " is empty, ignoring file."
  }

  /** The JavaScript truthiness of `this.file`: null and "" are false. */
  predicate Truthy(file: Option<string>) {
    file.Some? && file.value != ""
  }

  class PLSingleCsvUpload {
    const uuid: string
    const requiredColumns: seq<string>
    var file: Option<string>
    var hiddenInput: string
    var unloadCheckDisabled: bool
    var warnings: seq<string>
    var downloadLinks: seq<string>
    var colList: seq<string>

    /** Whenever there is a file, the hidden input holds its JSON text, and
        the column list shows the required columns. */
    predicate Valid()
      reads this
    {
      && (file.Some? ==> hiddenInput == JsonString.Stringify(file))
      && colList == requiredColumns
    }

    /** `new PLSingleCsvUpload(uuid, options)`: no file yet, the required
        columns default to the empty list, and the column list is built. The
        hidden input and its unload-check flag are as the template wrote
        them. */
    constructor (uuid: string, requiredColumns: Option<seq<string>>, input: string, unloadCheckDisabled: bool)
      ensures Valid()
      ensures this.uuid == uuid && file.None? && this.requiredColumns == requiredColumns.GetOr([])
      ensures hiddenInput == input && this.unloadCheckDisabled == unloadCheckDisabled
      ensures warnings == [] && downloadLinks == [] && colList == this.requiredColumns
    {
      this.uuid := uuid;
      file := None;
      this.requiredColumns := requiredColumns.GetOr([]);
      hiddenInput := input;
      this.unloadCheckDisabled := unloadCheckDisabled;
      warnings := [];
      downloadLinks := [];
      colList := [];
      new;
      RenderColList();
    }

    /** `syncFilesToHiddenInput`: the input holds `JSON.stringify(this.file)`. */
    method SyncFilesToHiddenInput()
      modifies this
      ensures hiddenInput == JsonString.Stringify(file)
      ensures file == old(file) && colList == old(colList)
      ensures unloadCheckDisabled == old(unloadCheckDisabled)
      ensures warnings == old(warnings) && downloadLinks == old(downloadLinks)
    {
      hiddenInput := JsonString.Stringify(file);
    }

    /** `renderColList`: with a file, one more download link is appended;
        then the list is cleared and refilled, one entry per required column
        in order. */
    method RenderColList()
      modifies this
      ensures downloadLinks == old(downloadLinks) + (if Truthy(file) then [DataUrl.Href(file.value)] else [])
      ensures colList == requiredColumns
      ensures file == old(file) && hiddenInput == old(hiddenInput)
      ensures unloadCheckDisabled == old(unloadCheckDisabled) && warnings == old(warnings)
    {
      if Truthy(file) {
        downloadLinks := downloadLinks + [DataUrl.Href(file.value)];
      }
      colList := [];
      var i := 0;
      while i < |requiredColumns|
        invariant 0 <= i <= |requiredColumns|
        invariant colList == requiredColumns[..i]
        invariant downloadLinks == old(downloadLinks) + (if Truthy(file) then [DataUrl.Href(file.value)] else [])
        invariant file == old(file) && hiddenInput == old(hiddenInput)
        invariant unloadCheckDisabled == old(unloadCheckDisabled) && warnings == old(warnings)
      {
        colList := colList + [requiredColumns[i]];
        i := i + 1;
      }
    }

    /**
     * The `onload` handler of `addFileFromBlob`, given the data URL read.
     * Without a comma only a warning is added. Otherwise the file becomes
     * the text after the first comma, the hidden input and the column list
     * are rebuilt, and the unload check is enabled unless the file came
     * from a download.
     */
    method OnLoad(dataUrl: string, blobName: string, isFromDownload: bool)
      requires Valid()
      modifies this
      ensures Valid()
      ensures match DataUrl.Payload(dataUrl)
        case None =>
          && file == old(file) && hiddenInput == old(hiddenInput)
          && unloadCheckDisabled == old(unloadCheckDisabled) && downloadLinks == old(downloadLinks)
          && warnings == old(warnings) + [EmptyFileWarning(blobName)]
        case Some(p) =>
          && file == Some(p) && hiddenInput == JsonString.Stringify(Some(p))
          && unloadCheckDisabled == (old(unloadCheckDisabled) && isFromDownload)
          && downloadLinks == old(downloadLinks) + (if p != "" then [DataUrl.Href(p)] else [])
          && warnings == old(warnings)
    {
      var commaSplitIdx := DataUrl.IndexOf(dataUrl, ',');
      if commaSplitIdx == -1 {
        warnings := warnings + [EmptyFileWarning(blobName)];
        return;
      }
      file := Some(dataUrl[commaSplitIdx + 1..]);
      SyncFilesToHiddenInput();
      RenderColList();
      if !isFromDownload {
        unloadCheckDisabled := false;
      }
    }
  }

  /** What the widget posts is read back by the Python `parse` as the
      widget's own file, without an error. */
  lemma PostedFileDecodes(w: PLSingleCsvUpload)
    requires w.Valid() && w.file.Some?
    ensures LegacyElement.DecodeSubmission(QuestionData.Str(w.hiddenInput)) == (w.file, [])
  {
    LegacyElement.DecodeStringified(w.file);
  }

  /** A file loaded from a data URL is posted so that `parse` registers
      exactly the data of that URL. */
  lemma LoadedDataReachesParse(header: string, data: string)
    requires ',' !in header
    ensures var p := DataUrl.Payload(header + "," + data);
      p == Some(data) && LegacyElement.DecodeSubmission(QuestionData.Str(JsonString.Stringify(p))) == (Some(data), [])
  {
    DataUrl.PayloadOfDataUrl(header, data);
    LegacyElement.DecodeStringified(Some(data));
  }
}
