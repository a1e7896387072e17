# pl-single-csv-upload, modelled in Dafny

This project models the PrairieLearn element `pl-single-csv-upload`, which
lets a student upload one CSV file and say which of its columns hold the
columns the question requires. The repository has two variants, and each has
a Python server side and a browser class:

- **The older variant** (`pl-single-csv-upload/`).
  - `prepare` records the required columns.
  - The browser class `PLSingleCsvUpload` reads the file as a data URL and keeps its Base64 payload.
  - The class posts the payload as JSON text and lists the required columns.
  - `parse` decodes the JSON, registers the file, and gathers one form field per column into `column_names`.
    The field name holds the Base64 form of the column name.
  - `parse` rejects duplicate user-supplied names and reports the required columns missing from the file's header row.
- **The newer variant** (repository root).
  - The answer name comes from the `file-name` attribute.
  - The browser posts the payload verbatim.
  - `parse` moves it to the key `file-name` and gathers the column fields into `<file-name>_column_names`.
    The field name holds the Base16 form of the column name.
    An empty user value falls back to the column's own name.
  - `render` re-keys the stored assignments by form field, so the browser can restore them.
  - The browser fills each column's select with the header of the file.

Modules:

| file | module | what it holds |
|---|---|---|
| `wrappers.dfy` | `Wrappers` | Option and Result |
| `bytes.dfy` | `Bytes` | bytes |
| `seqs.dfy` | `Seqs` | regrouping facts about concatenation used by the proofs |
| `csv_reader.dfy` | `CsvReader` | the first record read by CPython's `csv.reader` with the element's dialect, as a state machine; a writer for column lists and the round trip through the reader |
| `utf8.dfy` | `Utf8` | UTF-8 encoding and strict decoding |
| `base16.dfy` | `Base16` | section 8 of RFC 4648 |
| `base64.dfy` | `Base64` | section 4 of RFC 4648 |
| `json_string.dfy` | `JsonString` | `JSON.stringify` of a string or null (section 25.5.2 of ECMA-262), and `json.loads` of such a text (RFC 8259) |
| `question_data.dfy` | `QuestionData` | the question `data` as a class with the fields the element changes; submitted values, format errors, Python exceptions |
| `element_common.dfy` | `ElementCommon` | what both Python variants share: `get_answer_name`, `prepare`, and the column-gathering loop of `parse`, as a method proved against a function, with lemmas about that function |
| `legacy_element.dfy` | `LegacyElement` | the older `parse` |
| `element.dfy` | `Element` | the newer `get_column_key`, `parse` and the re-keying in `render` |
| `data_url.dfy` | `DataUrl` | `indexOf`, and the payload of a data URL (section 3 of RFC 2397) |
| `legacy_widget.dfy` | `LegacyWidget` | the older browser class |
| `widget.dfy` | `Widget` | the newer browser class |

How the source's behaviour is represented:

- **Functions as parameters.** Three operations are parameters of the model:
  - the SHA-1 digest: `sha1`, returning forty lower-case hex digits;
  - Python's lenient `base64.b64decode`: `b64decode`;
  - the browser's `atob` followed by `csv_parse_sync.parse`: `parseFile`, which gives the records read (at most one), or nothing when either throws.
- **Python exceptions.** Each Python operation returns the exception that escapes it. `parse` returns it along with what it leaves behind.
- **Page state.** The page is represented by the class fields the browser methods write.

## Model

| member | source | states |
|---|---|---|
| CsvReader.FirstRecord | pl-single-csv-upload/pl-single-csv-upload.py:13-22 | `get_clist_as_array` raises StopIteration exactly when the attribute is empty; any other input gives a record or a csv.Error |
| CsvReader.ReadNeverStops | pl-single-csv-upload/pl-single-csv-upload.py:22 | non-empty input never ends in StopIteration |
| CsvReader.LaterLinesIgnored | pl-single-csv-upload/pl-single-csv-upload.py:22 | once the first record is complete at a line end, nothing after that line changes the result |
| CsvReader.RoundTrip | pl-single-csv-upload.py:12-21 | a column list written with backslash escapes before `,`, `\`, space and line breaks reads back as exactly that list; quotes are ordinary characters |
| CsvReader.FirstLineRoundTrip | pl-single-csv-upload/pl-single-csv-upload.py:118-126 | a header written as the first line of a file reads back exactly, whatever the following lines hold |
| CsvReader.BlankFirstLine | pl-single-csv-upload/pl-single-csv-upload.py:126 | a blank first line is a record with no fields |
| CsvReader.ReadDelimiter | pl-single-csv-upload/pl-single-csv-upload.py:16 | an unescaped `,` ends the field and starts the next |
| CsvReader.ReadUnit | pl-single-csv-upload/pl-single-csv-upload.py:17 | a backslash makes the next character part of the field |
| CsvReader.ReadField | pl-single-csv-upload/pl-single-csv-upload.py:16-18 | an escaped field is read back character for character |
| CsvReader.SkipInitialSpaces | pl-single-csv-upload/pl-single-csv-upload.py:19 | spaces at the start of a field are dropped |
| CsvReader.ReadFinalDelimiter | pl-single-csv-upload/pl-single-csv-upload.py:16 | a trailing `,` gives a final empty field |
| CsvReader.ReadNewline | pl-single-csv-upload/pl-single-csv-upload.py:22 | an unescaped line break ends the record |
| CsvReader.StepKeepsInv | pl-single-csv-upload/pl-single-csv-upload.py:22 | a field in progress is never empty, so the end of the input only stops on nothing collected |
| ElementCommon.AnswerName | pl-single-csv-upload/pl-single-csv-upload.py:27-30 | the answer name is `_single_csv_upload_` followed by forty lower-case hex digits |
| ElementCommon.AnswerNameCollision | pl-single-csv-upload.py:26-28 | two elements share an answer name exactly when the digests of their strings agree; it depends on nothing else |
| ElementCommon.Prepare | pl-single-csv-upload/pl-single-csv-upload.py:43-46 | `_required_column_names` is created as `[]` when absent; existing entries are kept as a prefix and the parsed names appended in order; an unreadable list raises after the creation; nothing else changes |
| ElementCommon.GatherColumns | pl-single-csv-upload/pl-single-csv-upload.py:100-106 | the loop leaves the answers and the exception that the loop function gives |
| ElementCommon.ColumnLoopFrame | pl-single-csv-upload/pl-single-csv-upload.py:100-106 | the loop touches no key other than the dictionary and the columns' fields |
| ElementCommon.ColumnLoopRaises | pl-single-csv-upload/pl-single-csv-upload.py:104-106 | the loop completes exactly when the names are distinct and every field is present; otherwise it raises a KeyError for a field |
| ElementCommon.ColumnLoopCollects | pl-single-csv-upload/pl-single-csv-upload.py:100-106 | a completed loop removes every field and adds one entry per name |
| ElementCommon.ColumnLoopEntries | pl-single-csv-upload.py:102-107 | a completed loop: the dictionary's keys are exactly the names and each entry is the stored value of that name's field |
| ElementCommon.DistinctCard | pl-single-csv-upload/pl-single-csv-upload.py:111 | a list without repeats has as many distinct elements as entries |
| ElementCommon.ValuesCard | pl-single-csv-upload/pl-single-csv-upload.py:110-111 | a dictionary has as many distinct values as keys exactly when no two keys share a value |
| Utf8.DecodeEncode | pl-single-csv-upload/pl-single-csv-upload.py:117 | `.decode("utf-8")` undoes `.encode("utf-8")` |
| Utf8.EncodeInjective | pl-single-csv-upload/pl-single-csv-upload.py:102 | distinct strings have distinct UTF-8 bytes |
| Base64.DecodeEncode | pl-single-csv-upload/pl-single-csv-upload.py:102 | decoding undoes `b64encode` |
| Base64.EncodeInjective | pl-single-csv-upload/pl-single-csv-upload.py:102-103 | distinct byte strings have distinct Base64 texts |
| Base64.EncodeLength | pl-single-csv-upload/pl-single-csv-upload.py:102 | four characters per started group of three bytes |
| Base16.Encode | pl-single-csv-upload.py:32 | two upper-case hex digits per byte |
| Base16.Bijection | pl-single-csv-upload.py:32 | Base16 decoding and encoding are inverse bijections |
| JsonString.QuoteChar | pl-single-csv-upload/pl-single-csv-upload.js:48 | a character is escaped exactly when it is a control character, `"` or `\` |
| JsonString.ScanQuote | pl-single-csv-upload/pl-single-csv-upload.py:90 | the body of a quoted string is read back to its characters |
| JsonString.LoadsStringify | pl-single-csv-upload/pl-single-csv-upload.py:90 | `json.loads` of `JSON.stringify(v)` is `v` for null and for every string |
| LegacyElement.ColumnKeyInjective | pl-single-csv-upload/pl-single-csv-upload.py:102-103 | two column names share a form field exactly when they are equal |
| LegacyElement.ColumnKeyApart | pl-single-csv-upload/pl-single-csv-upload.py:99-103 | a form field is never `column_names` nor an answer name |
| LegacyElement.DecodeStringified | pl-single-csv-upload/pl-single-csv-upload.py:89-93 | what the browser posts decodes to its file with no error |
| LegacyElement.ParseNoSubmission | pl-single-csv-upload/pl-single-csv-upload.py:79-82 | a missing or falsy answer records exactly one error, registers no file, and leaves the answers unchanged |
| LegacyElement.TakeSubmission | pl-single-csv-upload/pl-single-csv-upload.py:87-95 | the answer is deleted; its decoded payload is registered as `<uuid>.csv`; a decoding error is recorded |
| LegacyElement.CheckColumns | pl-single-csv-upload/pl-single-csv-upload.py:109-133 | the header checks change only the format errors |
| LegacyElement.GatherAndCheck | pl-single-csv-upload/pl-single-csv-upload.py:99-133 | the loop, then the header checks when there is a payload and no exception |
| LegacyElement.AfterLoopErrors | pl-single-csv-upload/pl-single-csv-upload.py:108-133 | what follows the loop only appends to the errors and files recorded before it |
| LegacyElement.Parse | pl-single-csv-upload/pl-single-csv-upload.py:73-133 | `parse` leaves exactly the answers, errors, files and exception of the specification function |
| LegacyElement.FieldsApart | pl-single-csv-upload/pl-single-csv-upload.py:99-104 | the form fields are distinct from each other, from `column_names` and from the answer name |
| LegacyElement.GatherFrame | pl-single-csv-upload/pl-single-csv-upload.py:87-106 | the loop leaves the answer deleted and every unrelated key as submitted |
| LegacyElement.GatherRaises | pl-single-csv-upload/pl-single-csv-upload.py:100-106 | the loop completes exactly when the names are distinct and every field was submitted; otherwise it raises a KeyError for a field |
| LegacyElement.CollectsFrom | pl-single-csv-upload/pl-single-csv-upload.py:99-106 | a completed loop maps each name to its field's value |
| LegacyElement.GatherCollects | pl-single-csv-upload/pl-single-csv-upload.py:98-106 | on completion, `column_names` maps each wanted name to the value of its field, and no field remains |
| LegacyElement.ParseKeepsOtherKeys | pl-single-csv-upload/pl-single-csv-upload.py:87-106 | `parse` deletes the answer and keeps every other unrelated key, whatever it raises |
| LegacyElement.ParseGathersColumns | pl-single-csv-upload/pl-single-csv-upload.py:98-106 | repeated names or a missing field raise a KeyError for a field, with only the decoding error recorded; otherwise `column_names` maps each wanted name to the user's value and the fields are gone |
| LegacyElement.ParseUndecodable | pl-single-csv-upload/pl-single-csv-upload.py:89-95 | an undecodable post records one error, registers the file with no contents, and skips the header checks |
| LegacyElement.ParseChecksHeader | pl-single-csv-upload/pl-single-csv-upload.py:109-133 | with a payload and a completed loop, the header checks run on the gathered dictionary |
| LegacyElement.HeaderCheckDuplicates | pl-single-csv-upload/pl-single-csv-upload.py:110-116 | the duplicate check fires exactly when two columns share a user value, and then nothing else is recorded |
| LegacyElement.ParseDuplicateNames | pl-single-csv-upload/pl-single-csv-upload.py:110-116 | two columns with the same user-supplied name record exactly the duplicate error and stop; distinct names never record it |
| LegacyElement.HeaderCheckMissing | pl-single-csv-upload/pl-single-csv-upload.py:117-133 | with distinct user names and a readable header, the check records exactly the wanted names the header lacks, or nothing, and raises nothing |
| LegacyElement.ParseMissingColumns | pl-single-csv-upload/pl-single-csv-upload.py:117-133 | the error lists exactly the wanted names absent from the header row, and there is no error when none is absent |
| LegacyElement.UploadReportsMissing | pl-single-csv-upload/pl-single-csv-upload.py:117-127 | end to end: a CSV posted by the browser has its header read back exactly, so the missing set is exact |
| Element.ColumnKey | pl-single-csv-upload.py:31-33 | `get_column_key` is the answer name, `_col_`, and twice as many upper-case hex digits as the name has UTF-8 bytes |
| Element.ColumnKeyInjective | pl-single-csv-upload.py:31-33 | two column names share a key exactly when they are equal |
| Element.ColumnKeysInjective | pl-single-csv-upload.py:67 | the re-keying never maps two names to one key |
| Element.ColumnKeyApart | pl-single-csv-upload.py:102-107 | a column key is never the answer name nor a `_column_names` key |
| Element.ColumnNamesKeyApart | pl-single-csv-upload.py:97-102 | a `_column_names` key is never an answer name |
| Element.KeysApart | pl-single-csv-upload.py:102-104 | the keys `parse` uses are pairwise apart and one per column |
| Element.ParseNoSubmission | pl-single-csv-upload.py:92-95 | a missing or falsy answer records one error and leaves the answers unchanged |
| Element.ParseSubmittedQuietly | pl-single-csv-upload.py:96-107 | a submission records no error and registers no file |
| Element.Parse | pl-single-csv-upload.py:85-107 | `parse` leaves exactly the answers, errors and exception of the specification function |
| Element.ParseMovesContent | pl-single-csv-upload.py:96-98 | after a submission, the file name holds the original contents and the answer name is gone, whatever the loop raises; other unrelated keys are untouched |
| Element.ParseRaises | pl-single-csv-upload.py:103-107 | the loop completes exactly when the names are distinct and every field was submitted; otherwise it raises a KeyError for a field |
| Element.ParseCollects | pl-single-csv-upload.py:102-107 | `<file-name>_column_names` has exactly the wanted names as keys; each value is the user's, or the wanted name when the user's is empty; the fields are gone |
| Element.StoredValueTruthy | pl-single-csv-upload.py:105 | a stored value is falsy only when the column's own name is empty |
| Element.StoredValueResubmits | pl-single-csv-upload.py:105 | every stored value meets the premise of `ResubmitKeepsColumns`: applying the fallback to it changes nothing |
| Element.Rekey | pl-single-csv-upload.py:67 | the re-keyed dictionary has one key per stored column, that column's key |
| Element.RekeyLookup | pl-single-csv-upload.py:67 | each column's key carries that column's stored value |
| Element.OldColumnAssignments | pl-single-csv-upload.py:65-67 | no stored dictionary gives none; a stored string raises AttributeError; otherwise the re-keyed dictionary |
| Element.RenderedFields | pl-single-csv-upload.py:60 | the fields the template lists are exactly the fields `parse` reads and deletes (lines 102-107); two columns share a field exactly when they share a name |
| Element.RenderRestoresAssignments | pl-single-csv-upload.py:57-67 | `render` names each select by the key `parse` reads, and restores each stored value under its column's key |
| Element.ResubmitKeepsColumns | pl-single-csv-upload.py:104-107 | posting the restored values back makes `parse` store the same dictionary again |
| DataUrl.IndexOf | pl-single-csv-upload/pl-single-csv-upload.js:56-57 | -1 exactly when there is no comma; otherwise the position of the first |
| DataUrl.PayloadOfDataUrl | pl-single-csv-upload/pl-single-csv-upload.js:56-64 | a data URL whose header has no comma yields exactly its data |
| DataUrl.HrefPayload | pl-single-csv-upload/pl-single-csv-upload.js:86-89 | the download link carries the file it was built from |
| LegacyWidget.PLSingleCsvUpload.constructor | pl-single-csv-upload/pl-single-csv-upload.js:5-21 | no file; the required columns default to `[]`; the column list shows them |
| LegacyWidget.PLSingleCsvUpload.SyncFilesToHiddenInput | pl-single-csv-upload/pl-single-csv-upload.js:47-49 | the input holds `JSON.stringify(file)`; nothing else changes |
| LegacyWidget.PLSingleCsvUpload.RenderColList | pl-single-csv-upload/pl-single-csv-upload.js:83-112 | a truthy file appends one more download link; the list is cleared and then holds the required columns in order |
| LegacyWidget.PLSingleCsvUpload.OnLoad | pl-single-csv-upload/pl-single-csv-upload.js:51-75 | no comma: only a warning. Otherwise the file is the text after the first comma and the input its JSON; the unload check is enabled only when the file is not from a download. The mirror invariant is kept |
| LegacyWidget.PostedFileDecodes | pl-single-csv-upload/pl-single-csv-upload.js:47-49 | what the browser posts, Python `parse` reads back as its file |
| LegacyWidget.LoadedDataReachesParse | pl-single-csv-upload/pl-single-csv-upload.js:56-65 | the data of a loaded URL is what `parse` registers |
| Widget.PLSingleCsvUpload.constructor | pl-single-csv-upload.js:5-31 | no file; the unload check is disabled; the options are stored |
| Widget.PLSingleCsvUpload.Init | pl-single-csv-upload.js:33-36 | an old submission is restored only when it is non-empty and assignments are given, and then an exception escapes exactly when reading its header throws; otherwise nothing but the download button changes. The button is rendered unless an exception escaped |
| Widget.PLSingleCsvUpload.SyncFilesToHiddenInput | pl-single-csv-upload.js:43-45 | the input holds the file verbatim |
| Widget.PLSingleCsvUpload.FillOldSubmissionContent | pl-single-csv-upload.js:47-56 | the file and input become the old submission, and the table is rendered before the assignments are applied. When `atob` or the parser throws, the selects are untouched. With no first record they are left empty and the assignments are skipped. The unload check is untouched |
| Widget.PLSingleCsvUpload.ApplyAssignments | pl-single-csv-upload.js:53-55 | every assignment is applied to the select it names |
| Widget.PLSingleCsvUpload.OnLoad | pl-single-csv-upload.js:58-81 | no comma: only a warning, nothing else changes. Otherwise the file is the text after the first comma and the input mirrors it. The link is replaced and the table rendered. The selects end as `renderColumnTable` leaves them. The unload check is enabled unless rendering the table threw |
| Widget.PLSingleCsvUpload.RenderDownloadButton | pl-single-csv-upload.js:86-97 | with a truthy file the link is replaced by one to that file under the file name; otherwise nothing happens |
| Widget.PLSingleCsvUpload.RenderColumnTable | pl-single-csv-upload.js:99-121 | with a truthy file the options become its header in order, each select showing the first. With no first record the selects are emptied and then it throws. When `atob` or the parser throws, or without a file, nothing changes |
| Widget.PostedFileMoved | pl-single-csv-upload.js:43-45 | what the browser posts, Python `parse` stores under the file name verbatim |

## Left out

- **SHA-1.** `hashlib.sha1` is the parameter `sha1`: a cryptographic primitive.
- **Python `base64.b64decode`.** It is the parameter `b64decode`. Its non-alphabet discarding and padding rules are not modelled. The end-to-end lemma only assumes that it undoes `b64encode`.
- **The browser's parsing.** `atob` and `csv_parse_sync.parse` (a third-party library, with its BOM handling) are the parameter `parseFile`.
- **`json.loads`.** Only a document holding null or one string is modelled; every other text is treated as a parse failure. In the source, a valid JSON document holding a number, an array, an object or a boolean is not a failure. It records no error and is registered as the file's contents. After the loop it meets the duplicate-names check and then `base64.b64decode`, which raises TypeError. The model instead records "Could not parse submitted files.", registers no contents and skips the header checks.
- LegacyElement.ParseUndecodable: covers only texts that are not JSON at all. For a valid non-string, non-null JSON document it states the model's behaviour, not the source's (see the `json.loads` line).
- **Surrogates.** An escaped lone surrogate counts as a decoding failure, because a Dafny `char` cannot hold one.
- **Python's field size limit.** `csv.field_size_limit` (131072 characters) is not modelled, because column lists and header rows are short.
- **The UI.** Left out:
  - lxml parsing of the element, `pl.check_attribs` and `pl.get_string_attrib`. The attributes are parameters.
  - chevron and mustache rendering, and `open`.
  - jQuery markup, alert HTML, the Dropzone configuration, and the asynchronous `FileReader`. The `onload` bodies are methods that take the data URL.
- **The uuid.** `pl.get_uuid()` is the parameter `uuid`.
- **The older `render`.** Its sorting and `json.dumps` of the column list feed only the template, so they are not modelled.
- **`json.dumps` in the newer `render`.** The JSON of the old submission and of the assignments, and the browser reading them back, are not modelled. The browser class takes them as values.
- **Undeclared `uuid` in the older browser class.** `renderColList` uses `uuid` before its `var` declaration, so the link's markup reads `undefined`. Only the link's data URL is modelled.
- **The browser constructors.** The constructor is split in two: the field assignments, and `Init` for the calls made afterwards. `if (!this.element)` never holds for a jQuery object, so its throw is not modelled.
- **Browser strings.** They are sequences of Unicode scalar values, not UTF-16 code units. `indexOf(',')` is the same on the ASCII data URLs.
- **`pl.add_files_format_error` and `pl.add_submitted_file`.** They append to the lists `formatErrors` and `submittedFiles` of the question data. The `_files` entry they build in `submitted_answers` is not modelled.
- **Page state restored by the template.** The hidden input's initial value and the unload-check attribute are constructor parameters or start as the template sets them.
- Widget.PLSingleCsvUpload.Init: after a restore, it states the options and whether an exception escaped, but not the select values. FillOldSubmissionContent states those.
- Element.ParseRaises: assumes no column's field has the same name as the file. Otherwise the loop may consume the moved contents, and ParseMovesContent states that case.
