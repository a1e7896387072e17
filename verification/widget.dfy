/**
 * The browser side of the element at the repository root: the class
 * `PLSingleCsvUpload` holds the Base64 contents of one file, mirrors them
 * verbatim into the hidden form input, offers the header of the file as the
 * choices of each column's select, and can restore an earlier submission.
 * The page is represented by the fields the methods write: the hidden
 * input's value, whether its unload check is disabled, the warnings shown,
 * the download link, the options of the selects and the value of each
 * select.
 */
module Widget {
  import opened Wrappers
  import DataUrl
  import Bytes
  import CsvReader
  import QuestionData
  import ElementCommon
  import Element

  /** The warning shown for a file whose data URL has no comma. */
  function EmptyFileWarning(blobName: string): string {
    "<strong>" + blobName + "</strong>" + " is empty, ignoring file."
  }

  /** The JavaScript truthiness of `this.file`: null and "" are false. */
  predicate Truthy(file: Option<string>) {
    file.Some? && file.value != ""
  }

  /** The download link: the file name to save as and the data URL. */
  datatype DownloadLink = DownloadLink(download: string, href: string)

  /** What `select.val(v)` leaves selected: `v` when it is one of the
      options, otherwise nothing. */
  function SelectValue(options: seq<string>, v: string): (r: Option<string>)
    ensures r.Some? <==> v in options
    ensures r.Some? ==> r.value == v
  {
    if v in options then Some(v) else None
  }

  /** The selects after `$col_selects.empty()` and one option per header
      name: each shows the first option, if there is one. */
  function ResetSelects(keys: set<string>, header: seq<string>): (r: map<string, Option<string>>)
    ensures r.Keys == keys
    ensures forall k | k in r :: r[k] == if header == [] then None else Some(header[0])
  {
    map k | k in keys :: if header == [] then None else Some(header[0])
  }

  /** Whether `renderColumnTable` throws on what the parser gave: `atob` or
      the parser threw, or there is no first record, whose `length` throws. */
  predicate HeaderThrows(parsed: Option<seq<seq<string>>>) {
    parsed.None? || parsed.value == []
  }

  /** The options the selects hold once `renderColumnTable` has emptied them
      and filled in the first record: none when there is no first record. */
  function HeaderOptions(records: seq<seq<string>>): seq<string> {
    if records == [] then [] else records[0]
  }

  /** The selects after the assignments of `keys` were applied: each select
      named by one of them shows that assignment if it is an option. */
  function Assigned(selected: map<string, Option<string>>, options: seq<string>,
                    assignments: map<string, string>, keys: set<string>): (r: map<string, Option<string>>)
    ensures r.Keys == selected.Keys
    ensures forall k | k in r :: r[k] == if k in keys && k in assignments then SelectValue(options, assignments[k]) else selected[k]
  {
    map k | k in selected :: if k in keys && k in assignments then SelectValue(options, assignments[k]) else selected[k]
  }

  /** Applying one more assignment changes only the select it names. */
  lemma AssignedStep(selected: map<string, Option<string>>, options: seq<string>,
                     assignments: map<string, string>, done: set<string>, key: string)
    requires key in assignments && key !in done
    ensures var before := Assigned(selected, options, assignments, done);
      Assigned(selected, options, assignments, done + {key})
      == if key in selected then before[key := SelectValue(options, assignments[key])] else before
  {
    var before := Assigned(selected, options, assignments, done);
    var after := Assigned(selected, options, assignments, done + {key});
    if key in selected {
      assert after == before[key := SelectValue(options, assignments[key])] by {
        forall k | k in after ensures after[k] == before[key := SelectValue(options, assignments[key])][k] {
        }
      }
    } else {
      assert after == before by {
        forall k | k in after ensures after[k] == before[k] {
        }
      }
    }
  }

  class PLSingleCsvUpload {
    const uuid: string
    const requiredColumns: Option<seq<string>>
    const answerName: string
    const fileName: string
    var file: Option<string>
    var hiddenInput: string
    var unloadCheckDisabled: bool
    var warnings: seq<string>
    var downloadLink: Option<DownloadLink>
    var columnOptions: seq<string>
    var selected: map<string, Option<string>>
    /** The column selects of the page, by form field. */
    const selectKeys: set<string>
    /** `csv_parse_sync.parse(atob(file), ...)`: the records read, at most
        one, or None where `atob` or the parser throws. */
    const parseFile: string -> Option<seq<seq<string>>>

    /** Whenever there is a file, the hidden input holds it verbatim; the
        page's selects are exactly the column selects. */
    predicate Valid()
      reads this
    {
      && (file.Some? ==> hiddenInput == file.value)
      && selected.Keys == selectKeys
    }

    /** The assignments of `new PLSingleCsvUpload(uuid, options)`; the calls
        it makes afterwards are `Init`. The hidden input, its unload-check
        flag and the selects are as the template wrote them. */
    constructor (uuid: string, requiredColumns: Option<seq<string>>, answerName: string, fileName: string,
                 input: string, selectKeys: set<string>, parseFile: string -> Option<seq<seq<string>>>)
      ensures Valid()
      ensures this.uuid == uuid && file.None? && this.requiredColumns == requiredColumns
      ensures this.answerName == answerName && this.fileName == fileName
      ensures hiddenInput == input && unloadCheckDisabled
      ensures warnings == [] && downloadLink.None? && columnOptions == []
      ensures this.selectKeys == selectKeys && selected == map k | k in selectKeys :: None
      ensures this.parseFile == parseFile
    {
      this.uuid := uuid;
      file := None;
      this.requiredColumns := requiredColumns;
      this.answerName := answerName;
      this.fileName := fileName;
      hiddenInput := input;
      unloadCheckDisabled := true;
      warnings := [];
      downloadLink := None;
      columnOptions := [];
      this.selectKeys := selectKeys;
      selected := map k | k in selectKeys :: None;
      this.parseFile := parseFile;
    }

    /**
     * The rest of the constructor: a non-empty old submission is restored
     * when assignments are given, then the download button is rendered.
     * Returns whether an exception escaped, in which case no button is
     * rendered.
     */
    method Init(oldSubmission: Option<string>, oldColumnAssignments: Option<map<string, string>>)
      returns (threw: bool)
      requires Valid()
      modifies this
      ensures Valid()
      ensures unloadCheckDisabled == old(unloadCheckDisabled) && warnings == old(warnings)
      ensures Truthy(oldSubmission) && oldColumnAssignments.Some? ==>
        var parsed := parseFile(oldSubmission.value);
        && file == oldSubmission && hiddenInput == oldSubmission.value
        && (threw <==> HeaderThrows(parsed))
        && columnOptions == if parsed.None? then old(columnOptions) else HeaderOptions(parsed.value)
      ensures !(Truthy(oldSubmission) && oldColumnAssignments.Some?) ==>
        && !threw && file == old(file) && hiddenInput == old(hiddenInput)
        && selected == old(selected) && columnOptions == old(columnOptions)
      ensures !threw && Truthy(file) ==> downloadLink == Some(DownloadLink(fileName, DataUrl.Href(file.value)))
      ensures threw || !Truthy(file) ==> downloadLink == old(downloadLink)
    {
      threw := false;
      if Truthy(oldSubmission) && oldColumnAssignments.Some? {
        threw := FillOldSubmissionContent(oldSubmission.value, oldColumnAssignments.value);
        if threw {
          return;
        }
      }
      RenderDownloadButton();
    }

    /** `syncFilesToHiddenInput`: the input holds the file verbatim. */
    method SyncFilesToHiddenInput()
      requires file.Some?
      modifies this
      ensures file == old(file) && hiddenInput == file.value
      ensures selected == old(selected) && columnOptions == old(columnOptions)
      ensures unloadCheckDisabled == old(unloadCheckDisabled) && warnings == old(warnings)
      ensures downloadLink == old(downloadLink)
    {
      hiddenInput := file.value;
    }

    /**
     * `fillOldSubmissionContent`: the old submission becomes the file and is
     * synced to the input, the column table is rendered, and then each
     * assignment is applied to the select it names. The unload check is left
     * as it was. Returns whether rendering the table threw, which skips the
     * assignments.
     */
    method FillOldSubmissionContent(oldSubmission: string, oldColumnAssignments: map<string, string>)
      returns (threw: bool)
      requires Valid()
      modifies this
      ensures Valid()
      ensures file == Some(oldSubmission) && hiddenInput == oldSubmission
      ensures unloadCheckDisabled == old(unloadCheckDisabled) && warnings == old(warnings)
      ensures downloadLink == old(downloadLink)
      ensures oldSubmission == "" ==>
        && !threw && columnOptions == old(columnOptions)
        && selected == Assigned(old(selected), old(columnOptions), oldColumnAssignments, oldColumnAssignments.Keys)
      ensures oldSubmission != "" ==> match parseFile(oldSubmission)
        case None => threw && columnOptions == old(columnOptions) && selected == old(selected)
        case Some(records) =>
          && (threw <==> records == [])
          && columnOptions == HeaderOptions(records)
          && selected == if records == [] then ResetSelects(selectKeys, [])
                         else Assigned(ResetSelects(selectKeys, records[0]), records[0], oldColumnAssignments, oldColumnAssignments.Keys)
    {
      file := Some(oldSubmission);
      SyncFilesToHiddenInput();
      threw := RenderColumnTable();
      if threw {
        return;
      }
      ApplyAssignments(oldColumnAssignments);
    }

    /** The loop of `fillOldSubmissionContent`: every assignment is applied to
        the select its key names, if the page has one. */
    method ApplyAssignments(assignments: map<string, string>)
      requires Valid()
      modifies this
      ensures Valid()
      ensures selected == Assigned(old(selected), columnOptions, assignments, assignments.Keys)
      ensures file == old(file) && hiddenInput == old(hiddenInput) && columnOptions == old(columnOptions)
      ensures unloadCheckDisabled == old(unloadCheckDisabled) && warnings == old(warnings)
      ensures downloadLink == old(downloadLink)
    {
      var keys := assignments.Keys;
      ghost var done: set<string> := {};
      while keys != {}
        invariant keys !! done && keys + done == assignments.Keys
        invariant selected == Assigned(old(selected), columnOptions, assignments, done)
        invariant file == old(file) && hiddenInput == old(hiddenInput) && columnOptions == old(columnOptions)
        invariant unloadCheckDisabled == old(unloadCheckDisabled) && warnings == old(warnings)
        invariant downloadLink == old(downloadLink)
        decreases keys
      {
        var key :| key in keys;
        AssignedStep(old(selected), columnOptions, assignments, done, key);
        if key in selected {
          selected := selected[key := SelectValue(columnOptions, assignments[key])];
        }
        keys := keys - {key};
        done := done + {key};
      }
    }

    /**
     * The `onload` handler of `addFileFromBlob`, given the data URL read.
     * Without a comma only a warning is added. Otherwise the file becomes
     * the text after the first comma, the input is synced, the download
     * button and the column table are rendered and the unload check is
     * enabled; when rendering the table throws, the unload check stays as
     * it was. Returns whether an exception escaped.
     */
    method OnLoad(dataUrl: string, blobName: string) returns (threw: bool)
      requires Valid()
      modifies this
      ensures Valid()
      ensures match DataUrl.Payload(dataUrl)
        case None =>
          && !threw && file == old(file) && hiddenInput == old(hiddenInput)
          && unloadCheckDisabled == old(unloadCheckDisabled) && downloadLink == old(downloadLink)
          && selected == old(selected) && columnOptions == old(columnOptions)
          && warnings == old(warnings) + [EmptyFileWarning(blobName)]
        case Some(p) =>
          && file == Some(p) && hiddenInput == p && warnings == old(warnings)
          && downloadLink == (if p != "" then Some(DownloadLink(fileName, DataUrl.Href(p))) else old(downloadLink))
          && (threw <==> p != "" && HeaderThrows(parseFile(p)))
          && unloadCheckDisabled == (old(unloadCheckDisabled) && threw)
          && (p != "" && parseFile(p).Some? ==>
                var options := HeaderOptions(parseFile(p).value);
                columnOptions == options && selected == ResetSelects(selectKeys, options))
          && (p == "" || parseFile(p).None? ==> columnOptions == old(columnOptions) && selected == old(selected))
    {
      var commaSplitIdx := DataUrl.IndexOf(dataUrl, ',');
      if commaSplitIdx == -1 {
        warnings := warnings + [EmptyFileWarning(blobName)];
        return false;
      }
      file := Some(dataUrl[commaSplitIdx + 1..]);
      SyncFilesToHiddenInput();
      RenderDownloadButton();
      threw := RenderColumnTable();
      if threw {
        return;
      }
      unloadCheckDisabled := false;
    }

    /** `renderDownloadButton`: with a file, the link is replaced by one to
        the file under the element's file name; otherwise nothing happens. */
    method RenderDownloadButton()
      modifies this
      ensures Truthy(file) ==> downloadLink == Some(DownloadLink(fileName, DataUrl.Href(file.value)))
      ensures !Truthy(file) ==> downloadLink == old(downloadLink)
      ensures file == old(file) && hiddenInput == old(hiddenInput) && selected == old(selected)
      ensures columnOptions == old(columnOptions) && unloadCheckDisabled == old(unloadCheckDisabled)
      ensures warnings == old(warnings)
    {
      if Truthy(file) {
        downloadLink := Some(DownloadLink(fileName, DataUrl.Href(file.value)));
      }
    }

    /**
     * `renderColumnTable`: with a file, the selects are emptied and its
     * header becomes the options of every select, one per name in order,
     * and each select shows the first; without a file nothing happens.
     * Returns whether an exception escaped: when `atob` or the parser throws
     * nothing was changed, and when there is no first record the selects
     * were emptied before `length` threw.
     */
    method RenderColumnTable() returns (threw: bool)
      requires Valid()
      modifies this
      ensures Valid()
      ensures !Truthy(file) ==> !threw && columnOptions == old(columnOptions) && selected == old(selected)
      ensures Truthy(file) ==> match parseFile(file.value)
        case None => threw && columnOptions == old(columnOptions) && selected == old(selected)
        case Some(records) =>
          && (threw <==> records == [])
          && columnOptions == HeaderOptions(records) && selected == ResetSelects(selectKeys, HeaderOptions(records))
      ensures file == old(file) && hiddenInput == old(hiddenInput) && downloadLink == old(downloadLink)
      ensures unloadCheckDisabled == old(unloadCheckDisabled) && warnings == old(warnings)
    {
      if !Truthy(file) {
        return false;
      }
      var parsed := parseFile(file.value);
      if parsed.None? {
        return true;
      }
      var records := parsed.value;
      selected := ResetSelects(selectKeys, []);
      columnOptions := [];
      if records == [] {
        return true;
      }
      var header := records[0];
      var i := 0;
      while i < |header|
        invariant 0 <= i <= |header|
        invariant columnOptions == header[..i]
        invariant selected == ResetSelects(selectKeys, header[..i])
        invariant file == old(file) && hiddenInput == old(hiddenInput) && downloadLink == old(downloadLink)
        invariant unloadCheckDisabled == old(unloadCheckDisabled) && warnings == old(warnings)
      {
        if i == 0 {
          selected := ResetSelects(selectKeys, [header[0]]);
        }
        columnOptions := columnOptions + [header[i]];
        i := i + 1;
      }
      threw := false;
    }
  }

  /** What the widget posts, `parse` moves to the element's file name
      verbatim, unless a column's field has that very name. */
  lemma PostedFileMoved(w: PLSingleCsvUpload, sha1: seq<Bytes.byte> -> ElementCommon.Digest,
                        rawColumnNames: string, sa: QuestionData.Answers, names: seq<string>)
    requires w.Valid() && Truthy(w.file)
    requires var answer := ElementCommon.AnswerName(sha1, w.fileName);
      answer in sa && sa[answer] == QuestionData.Str(w.hiddenInput)
    requires CsvReader.FirstRecord(rawColumnNames) == CsvReader.Record(names)
    requires forall n | n in names :: Element.ColumnKey(n, ElementCommon.AnswerName(sha1, w.fileName)) != w.fileName
    ensures var r := Element.ParseSpec(sha1, rawColumnNames, w.fileName, sa).answers;
      w.fileName in r && r[w.fileName] == QuestionData.Str(w.file.value)
  {
    Element.ParseMovesContent(sha1, rawColumnNames, w.fileName, sa, names);
  }
}
