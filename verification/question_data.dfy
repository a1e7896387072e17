/**
 * The parts of PrairieLearn's question `data` dictionary that the element
 * reads and changes, and the Python exceptions its code can raise.
 */
module QuestionData {
  import opened Wrappers
  import CsvReader

  /** A value stored under a key of `submitted_answers`: a string, or a
      dictionary such as the column-name map that `parse` builds. */
  datatype Value = Str(s: string) | Dict(entries: map<string, Value>)

  /** Python truthiness: the empty string and the empty dictionary are false. */
  predicate Truthy(v: Value) {
    match v
    case Str(s) => s != []
    case Dict(m) => m != map[]
  }

  type Answers = map<string, Value>

  /** The messages the element passes to `add_files_format_error`. */
  datatype FormatError =
    | NoSubmission            // "No submitted answer for single CSV upload."
    | CouldNotParseFiles      // "Could not parse submitted files."
    | DuplicateColumnNames    // "Some columns have duplicate names. ..."
    | MissingColumns(names: set<string>)  // "The following columns are missing ...: " + the names

  /** An entry that `add_submitted_file` records: a name and base64 contents. */
  datatype SubmittedFile = SubmittedFile(name: string, contents: Option<string>)

  /** The exceptions that escape `prepare`, `render` or `parse`. */
  datatype PyException =
    | KeyError(key: string)
    | StopIteration
    | CsvError(error: CsvReader.CsvError)
    | TypeError
    | AttributeError
    | UnicodeDecodeError
    | Base64Error

  /** What `next(reader)` raises when the reader yields no record. */
  function Raised(o: CsvReader.Outcome): (e: PyException)
    requires !o.Record?
    ensures e.StopIteration? <==> o.StopIteration?
  {
    match o
    case StopIteration => StopIteration
    case Error(err) => CsvError(err)
  }

  /**
   * The question data: `params["_required_column_names"]` (None while the key
   * is absent), `submitted_answers`, the format errors recorded for the files
   * field, and the files registered with `add_submitted_file`.
   */
  class Data {
    var requiredColumnNames: Option<seq<string>>
    var submittedAnswers: Answers
    var formatErrors: seq<FormatError>
    var submittedFiles: seq<SubmittedFile>

    constructor (requiredColumnNames: Option<seq<string>>, submittedAnswers: Answers)
      ensures this.requiredColumnNames == requiredColumnNames
      ensures this.submittedAnswers == submittedAnswers
      ensures formatErrors == [] && submittedFiles == []
    {
      this.requiredColumnNames := requiredColumnNames;
      this.submittedAnswers := submittedAnswers;
      formatErrors := [];
      submittedFiles := [];
    }
  }
}
