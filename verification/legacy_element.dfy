/**
 * The element in the `pl-single-csv-upload/` directory: the answer name is
 * derived from the `column-names` attribute, the browser posts the file as a
 * JSON string, and each column's form field is named with the Base64 form of
 * the column name.
 */
module LegacyElement {
  import opened Wrappers
  import opened Bytes
  import Utf8
  import Base64
  import CsvReader
  import JsonString
  import opened QuestionData
  import opened ElementCommon
  import Seqs

  const ColumnKeyPrefix: string := "single_csv_upload_col_"

  /** The key under which `parse` gathers the column-name dictionary. */
  const ColumnNamesKey: string := "column_names"

  /** The form field of a column: the prefix, the answer name, `_`, and the
      Base64 text of the UTF-8 bytes of the column name. */
  function ColumnKey(answer: string, name: string): string {
    ColumnKeyPrefix + answer + "_" + Base64.Encode(Utf8.Encode(name))
  }

  function KeyOf(answer: string): string -> string {
    name => ColumnKey(answer, name)
  }

  /** Distinct column names have distinct form fields, and no form field is
      the column-name dictionary's key or an answer name. */
  lemma ColumnKeyInjective(answer: string, a: string, b: string)
    ensures ColumnKey(answer, a) == ColumnKey(answer, b) <==> a == b
  {
    if ColumnKey(answer, a) == ColumnKey(answer, b) {
      var n := |ColumnKeyPrefix + answer + "_"|;
      assert ColumnKey(answer, a)[n..] == Base64.Encode(Utf8.Encode(a));
      assert ColumnKey(answer, b)[n..] == Base64.Encode(Utf8.Encode(b));
      Base64.EncodeInjective(Utf8.Encode(a), Utf8.Encode(b));
      Utf8.EncodeInjective(a, b);
    }
  }

  lemma ColumnKeyApart(answer: string, name: string, sha1: seq<byte> -> Digest, s: string)
    ensures ColumnKey(answer, name) != ColumnNamesKey
    ensures ColumnKey(answer, name) != AnswerName(sha1, s)
  {
    assert ColumnKey(answer, name)[0] == 's';
    assert AnswerName(sha1, s)[0] == '_';
  }

  /** `json.loads` of the posted field, inside its `try`: a string is the
      payload; null is no payload and no error; anything that raises, a
      dictionary included, records an error and leaves no payload. */
  function DecodeSubmission(v: Value): (Option<string>, seq<FormatError>) {
    match v
    case Dict(_) => (None, [CouldNotParseFiles])
    case Str(text) =>
      match JsonString.Loads(text)
      case None => (None, [CouldNotParseFiles])
      case Some(JNull) => (None, [])
      case Some(JString(p)) => (Some(p), [])
  }

  /** What the browser posts, `JSON.stringify(this.file)`, decodes to the
      widget's `file` without an error. */
  lemma DecodeStringified(file: Option<string>)
    ensures DecodeSubmission(Str(JsonString.Stringify(file))) == (file, [])
  {
    var j := JsonString.Loads(JsonString.Stringify(file));
    JsonString.LoadsStringify(file);
    match file
    case None =>
      assert j == Some(JsonString.JNull);
    case Some(p) =>
      assert j == Some(JsonString.JString(p));
  }

  /** The checks run when there is a payload: duplicate user names stop
      `parse` with an error; otherwise the payload is decoded (Base64 by the
      `b64decode` parameter, then UTF-8), its first record read as the header,
      and the required names absent from it reported. */
  function HeaderCheck(cols: map<string, Value>, names: seq<string>, payload: string,
                       b64decode: string -> Option<seq<byte>>): (seq<FormatError>, Option<PyException>)
  {
    if exists n | n in cols :: cols[n].Dict? then ([], Some(TypeError))
    else if |cols.Values| != |names| then ([DuplicateColumnNames], None)
    else match b64decode(payload)
      case None => ([], Some(Base64Error))
      case Some(bytes) =>
        match Utf8.Decode(bytes)
        case None => ([], Some(UnicodeDecodeError))
        case Some(text) =>
          match CsvReader.FirstRecord(text)
          case Record(header) =>
            var missing := (set n | n in names) - (set h | h in header);
            if missing == {} then ([], None) else ([MissingColumns(missing)], None)
          case o => ([], Some(Raised(o)))
  }

  /** Lines 110-133 of `parse` on the answers the loop left: the errors they
      add and the exception they raise. */
  function CheckSpec(sa: Answers, names: seq<string>, payload: string,
                     b64decode: string -> Option<seq<byte>>): (seq<FormatError>, Option<PyException>)
  {
    if ColumnNamesKey !in sa then ([], Some(KeyError(ColumnNamesKey)))
    else match sa[ColumnNamesKey]
      case Str(_) => ([], Some(AttributeError))
      case Dict(cols) => HeaderCheck(cols, names, payload, b64decode)
  }

  /** The part of `parse` after the loop: with a payload and no exception so
      far, the header checks. */
  function AfterLoop(loop: (Answers, Option<PyException>), names: seq<string>, payload: Option<string>,
                     errors: seq<FormatError>, files: seq<SubmittedFile>,
                     b64decode: string -> Option<seq<byte>>): Outcome
  {
    var (sa, raised) := loop;
    if raised.Some? || payload.None? then Outcome(sa, errors, files, raised)
    else
      var (more, raised') := CheckSpec(sa, names, payload.value, b64decode);
      Outcome(sa, errors + more, files, raised')
  }

  /** `parse` on the answers `sa`, with the hash, the Base64 decoder and the
      value of `pl.get_uuid()` as parameters. */
  function ParseSpec(sha1: seq<byte> -> Digest, b64decode: string -> Option<seq<byte>>, uuid: string,
                     rawColumnNames: string, sa: Answers): Outcome
  {
    var answer := AnswerName(sha1, rawColumnNames);
    if answer !in sa || !Truthy(sa[answer]) then Outcome(sa, [NoSubmission], [], None)
    else
      var payload := DecodeSubmission(sa[answer]).0;
      var errors := DecodeSubmission(sa[answer]).1;
      var files := [SubmittedFile(uuid + ".csv", payload)];
      match CsvReader.FirstRecord(rawColumnNames)
      case Record(names) =>
        var loop := ColumnLoop((sa - {answer})[ColumnNamesKey := Dict(map[])], ColumnNamesKey, KeyOf(answer), false, names);
        AfterLoop(loop, names, payload, errors, files, b64decode)
      case o => Outcome(sa - {answer}, errors, files, Some(Raised(o)))
  }

  /** A missing or falsy answer records exactly one error, registers no
      file and leaves `submitted_answers` unchanged. */
  lemma ParseNoSubmission(sha1: seq<byte> -> Digest, b64decode: string -> Option<seq<byte>>, uuid: string,
                          rawColumnNames: string, sa: Answers)
    requires var answer := AnswerName(sha1, rawColumnNames); answer !in sa || !Truthy(sa[answer])
    ensures ParseSpec(sha1, b64decode, uuid, rawColumnNames, sa) == Outcome(sa, [NoSubmission], [], None)
  {
  }

  /** The steps of `parse` once there is a submission. */
  lemma ParseSubmitted(sha1: seq<byte> -> Digest, b64decode: string -> Option<seq<byte>>, uuid: string,
                       rawColumnNames: string, sa: Answers)
    requires var answer := AnswerName(sha1, rawColumnNames); answer in sa && Truthy(sa[answer])
    ensures var answer := AnswerName(sha1, rawColumnNames);
      var (payload, errors) := DecodeSubmission(sa[answer]);
      var files := [SubmittedFile(uuid + ".csv", payload)];
      ParseSpec(sha1, b64decode, uuid, rawColumnNames, sa)
      == match CsvReader.FirstRecord(rawColumnNames)
         case Record(names) =>
           AfterLoop(ColumnLoop((sa - {answer})[ColumnNamesKey := Dict(map[])], ColumnNamesKey, KeyOf(answer), false, names),
                     names, payload, errors, files, b64decode)
         case o => Outcome(sa - {answer}, errors, files, Some(Raised(o)))
  {
  }

  /** Lines 87-95 of `parse`: delete the answer, decode it, register the file. */
  method TakeSubmission(data: Data, answer: string, uuid: string) returns (payload: Option<string>, errors: seq<FormatError>)
    requires answer in data.submittedAnswers
    modifies data
    ensures (payload, errors) == DecodeSubmission(old(data.submittedAnswers)[answer])
    ensures data.submittedAnswers == old(data.submittedAnswers) - {answer}
    ensures data.formatErrors == old(data.formatErrors) + errors
    ensures data.submittedFiles == old(data.submittedFiles) + [SubmittedFile(uuid + ".csv", payload)]
    ensures data.requiredColumnNames == old(data.requiredColumnNames)
  {
    var content := data.submittedAnswers[answer];
    data.submittedAnswers := data.submittedAnswers - {answer};
    payload := DecodeSubmission(content).0;
    errors := DecodeSubmission(content).1;
    data.formatErrors := data.formatErrors + errors;
    data.submittedFiles := data.submittedFiles + [SubmittedFile(uuid + ".csv", payload)];
  }

  /** Lines 109-133 of `parse`, run once the loop has finished. */
  method CheckColumns(data: Data, names: seq<string>, payload: string, b64decode: string -> Option<seq<byte>>)
    returns (raised: Option<PyException>)
    modifies data
    ensures var (more, r) := CheckSpec(old(data.submittedAnswers), names, payload, b64decode);
      data.formatErrors == old(data.formatErrors) + more && raised == r
    ensures data.submittedAnswers == old(data.submittedAnswers) && data.submittedFiles == old(data.submittedFiles)
    ensures data.requiredColumnNames == old(data.requiredColumnNames)
  {
    if ColumnNamesKey !in data.submittedAnswers {
      return Some(KeyError(ColumnNamesKey));
    }
    match data.submittedAnswers[ColumnNamesKey] {
      case Str(_) =>
        raised := Some(AttributeError);
      case Dict(cols) =>
        var (more, r) := HeaderCheck(cols, names, payload, b64decode);
        data.formatErrors := data.formatErrors + more;
        raised := r;
    }
  }

  /** `parse`, changing `data` in place and returning the exception that
      escapes it, if any. */
  method Parse(data: Data, sha1: seq<byte> -> Digest, b64decode: string -> Option<seq<byte>>, uuid: string,
               rawColumnNames: string) returns (raised: Option<PyException>)
    modifies data
    ensures var o := ParseSpec(sha1, b64decode, uuid, rawColumnNames, old(data.submittedAnswers));
      && data.submittedAnswers == o.answers
      && data.formatErrors == old(data.formatErrors) + o.errors
      && data.submittedFiles == old(data.submittedFiles) + o.files
      && raised == o.raised
    ensures data.requiredColumnNames == old(data.requiredColumnNames)
  {
    ghost var sa := data.submittedAnswers;
    var answer := AnswerName(sha1, rawColumnNames);
    if answer !in data.submittedAnswers || !Truthy(data.submittedAnswers[answer]) {
      data.formatErrors := data.formatErrors + [NoSubmission];
      ParseNoSubmission(sha1, b64decode, uuid, rawColumnNames, sa);
      return None;
    }
    ParseSubmitted(sha1, b64decode, uuid, rawColumnNames, sa);
    var payload, errors := TakeSubmission(data, answer, uuid);
    ghost var files := [SubmittedFile(uuid + ".csv", payload)];
    var record := CsvReader.FirstRecord(rawColumnNames);
    if !record.Record? {
      return Some(Raised(record));
    }
    ghost var before := data.formatErrors;
    ghost var loop := ColumnLoop((sa - {answer})[ColumnNamesKey := Dict(map[])], ColumnNamesKey, KeyOf(answer), false, record.fields);
    raised := GatherAndCheck(data, KeyOf(answer), record.fields, payload, b64decode);
    ghost var more := AfterLoop(loop, record.fields, payload, [], [], b64decode).errors;
    AfterLoopErrors(loop, record.fields, payload, errors, files, b64decode);
    Seqs.AppendAssoc(old(data.formatErrors), errors, more);
  }


  /** The steps after the loop depend on the errors and files recorded before
      it only by appending to them. */
  lemma AfterLoopErrors(loop: (Answers, Option<PyException>), names: seq<string>, payload: Option<string>,
                        errors: seq<FormatError>, files: seq<SubmittedFile>, b64decode: string -> Option<seq<byte>>)
    ensures var o := AfterLoop(loop, names, payload, errors, files, b64decode);
      var alone := AfterLoop(loop, names, payload, [], [], b64decode);
      o == Outcome(alone.answers, errors + alone.errors, files, alone.raised)
  {
    if loop.1.None? && payload.Some? {
      var more := CheckSpec(loop.0, names, payload.value, b64decode).0;
      assert [] + more == more;
    }
  }

  /** Lines 99-133 of `parse`: the column dictionary is reset, the loop runs,
      and with a payload and no exception the header checks follow. */
  method GatherAndCheck(data: Data, keyOf: string -> string, names: seq<string>, payload: Option<string>,
                        b64decode: string -> Option<seq<byte>>)
    returns (raised: Option<PyException>)
    modifies data
    ensures var o := AfterLoop(ColumnLoop(old(data.submittedAnswers)[ColumnNamesKey := Dict(map[])], ColumnNamesKey, keyOf, false, names),
                               names, payload, [], [], b64decode);
      && data.submittedAnswers == o.answers
      && data.formatErrors == old(data.formatErrors) + o.errors
      && raised == o.raised
    ensures data.submittedFiles == old(data.submittedFiles) && data.requiredColumnNames == old(data.requiredColumnNames)
  {
    data.submittedAnswers := data.submittedAnswers[ColumnNamesKey := Dict(map[])];
    raised := GatherColumns(data, ColumnNamesKey, keyOf, false, names);
    if raised.None? && payload.Some? {
      ghost var loopAnswers := data.submittedAnswers;
      raised := CheckColumns(data, names, payload.value, b64decode);
      assert [] + CheckSpec(loopAnswers, names, payload.value, b64decode).0 == CheckSpec(loopAnswers, names, payload.value, b64decode).0;
    } else {
      assert old(data.formatErrors) + [] == old(data.formatErrors);
    }
  }

  /** What the loop lemmas of ElementCommon ask of the form fields. */
  lemma FieldsApart(sha1: seq<byte> -> Digest, rawColumnNames: string, names: seq<string>)
    ensures var answer := AnswerName(sha1, rawColumnNames);
      && answer != ColumnNamesKey
      && (forall n | n in names :: KeyOf(answer)(n) == ColumnKey(answer, n) && ColumnKey(answer, n) != ColumnNamesKey && ColumnKey(answer, n) != answer)
      && (forall a, b | a in names && b in names && KeyOf(answer)(a) == KeyOf(answer)(b) :: a == b)
  {
    var answer := AnswerName(sha1, rawColumnNames);
    assert answer[0] != ColumnNamesKey[0];
    forall n | n in names ensures ColumnKey(answer, n) != ColumnNamesKey && ColumnKey(answer, n) != answer {
      ColumnKeyApart(answer, n, sha1, rawColumnNames);
    }
    forall a, b | a in names && b in names && KeyOf(answer)(a) == KeyOf(answer)(b) ensures a == b {
      ColumnKeyInjective(answer, a, b);
    }
  }

  /** The loop of `parse` never touches the answer key or any key other than
      the column-name dictionary and the columns' fields. */
  lemma GatherFrame(sha1: seq<byte> -> Digest, rawColumnNames: string, sa: Answers, names: seq<string>)
    ensures var answer := AnswerName(sha1, rawColumnNames);
      var r := ColumnLoop((sa - {answer})[ColumnNamesKey := Dict(map[])], ColumnNamesKey, KeyOf(answer), false, names).0;
      && answer !in r
      && forall x | x != ColumnNamesKey && x != answer && (forall n | n in names :: x != ColumnKey(answer, n)) ::
           (x in r <==> x in sa) && (x in r ==> r[x] == sa[x])
  {
    var answer := AnswerName(sha1, rawColumnNames);
    var start := (sa - {answer})[ColumnNamesKey := Dict(map[])];
    FieldsApart(sha1, rawColumnNames, names);
    ColumnLoopFrame(start, ColumnNamesKey, KeyOf(answer), false, names, answer);
    forall x | x != ColumnNamesKey && x != answer && (forall n | n in names :: x != ColumnKey(answer, n))
      ensures var r := ColumnLoop(start, ColumnNamesKey, KeyOf(answer), false, names).0;
        (x in r <==> x in sa) && (x in r ==> r[x] == sa[x])
    {
      ColumnLoopFrame(start, ColumnNamesKey, KeyOf(answer), false, names, x);
    }
  }

  /** The loop of `parse` completes exactly when the names are distinct and
      every column's field was submitted; otherwise it raises a KeyError for
      one of the fields. */
  lemma GatherRaises(sha1: seq<byte> -> Digest, rawColumnNames: string, sa: Answers, names: seq<string>)
    ensures var answer := AnswerName(sha1, rawColumnNames);
      var raised := ColumnLoop((sa - {answer})[ColumnNamesKey := Dict(map[])], ColumnNamesKey, KeyOf(answer), false, names).1;
      && (raised.None? <==> Distinct(names) && forall n | n in names :: ColumnKey(answer, n) in sa)
      && (raised.Some? ==> raised.value.KeyError? && exists n | n in names :: raised.value.key == ColumnKey(answer, n))
  {
    var answer := AnswerName(sha1, rawColumnNames);
    var keyOf := KeyOf(answer);
    var start := (sa - {answer})[ColumnNamesKey := Dict(map[])];
    FieldsApart(sha1, rawColumnNames, names);
    assert forall n | n in names :: keyOf(n) in start <==> keyOf(n) in sa;
    ColumnLoopRaises(start, ColumnNamesKey, keyOf, false, names, map[]);
  }

  /** The loop over answers from which `answer` was removed and in which `k`
      was reset, when every field is present and the names are distinct. */
  lemma CollectsFrom(sa: Answers, answer: string, k: string, keyOf: string -> string, names: seq<string>)
    requires answer != k
    requires forall n | n in names :: keyOf(n) != k && keyOf(n) != answer
    requires forall a, b | a in names && b in names && keyOf(a) == keyOf(b) :: a == b
    requires Distinct(names) && forall n | n in names :: keyOf(n) in sa
    ensures var r := ColumnLoop((sa - {answer})[k := Dict(map[])], k, keyOf, false, names).0;
      && k in r && r[k] == Dict(map n | n in names :: sa[keyOf(n)])
      && forall n | n in names :: keyOf(n) !in r
  {
    var start := (sa - {answer})[k := Dict(map[])];
    assert forall n | n in names :: keyOf(n) in start && start[keyOf(n)] == sa[keyOf(n)];
    ColumnLoopEntries(start, k, keyOf, false, names);
    var entries := ColumnLoop(start, k, keyOf, false, names).0[k].entries;
    var want := map n | n in names :: sa[keyOf(n)];
    assert entries == want by {
      assert entries.Keys == want.Keys;
      forall n | n in names ensures entries[n] == want[n] {
        assert entries[n] == UserValue(start[keyOf(n)], n, false);
      }
    }
  }

  /** When the loop of `parse` completes, the columns' fields are gone and
      `column_names` maps each name to its field's value. */
  lemma GatherCollects(sha1: seq<byte> -> Digest, rawColumnNames: string, sa: Answers, names: seq<string>)
    requires Distinct(names) && forall n | n in names :: ColumnKey(AnswerName(sha1, rawColumnNames), n) in sa
    ensures var answer := AnswerName(sha1, rawColumnNames);
      var r := ColumnLoop((sa - {answer})[ColumnNamesKey := Dict(map[])], ColumnNamesKey, KeyOf(answer), false, names).0;
      && ColumnNamesKey in r && r[ColumnNamesKey] == Dict(map n | n in names :: sa[ColumnKey(answer, n)])
      && forall n | n in names :: ColumnKey(answer, n) !in r
  {
    var answer := AnswerName(sha1, rawColumnNames);
    FieldsApart(sha1, rawColumnNames, names);
    CollectsFrom(sa, answer, ColumnNamesKey, KeyOf(answer), names);
    assert (map n | n in names :: sa[KeyOf(answer)(n)]) == map n | n in names :: sa[ColumnKey(answer, n)];
  }

  /** Once there is a submission and the column list parses, `parse` deletes
      the answer and leaves every key other than `column_names` and the
      columns' fields as it was, whatever it raises. */
  lemma ParseKeepsOtherKeys(sha1: seq<byte> -> Digest, b64decode: string -> Option<seq<byte>>, uuid: string,
                            rawColumnNames: string, sa: Answers, names: seq<string>)
    requires var answer := AnswerName(sha1, rawColumnNames); answer in sa && Truthy(sa[answer])
    requires CsvReader.FirstRecord(rawColumnNames) == CsvReader.Record(names)
    ensures var answer := AnswerName(sha1, rawColumnNames);
      var r := ParseSpec(sha1, b64decode, uuid, rawColumnNames, sa).answers;
      && answer !in r
      && forall x | x != ColumnNamesKey && x != answer && (forall n | n in names :: x != ColumnKey(answer, n)) ::
           (x in r <==> x in sa) && (x in r ==> r[x] == sa[x])
  {
    var answer := AnswerName(sha1, rawColumnNames);
    var loop := ColumnLoop((sa - {answer})[ColumnNamesKey := Dict(map[])], ColumnNamesKey, KeyOf(answer), false, names);
    ParseSubmitted(sha1, b64decode, uuid, rawColumnNames, sa);
    assert ParseSpec(sha1, b64decode, uuid, rawColumnNames, sa).answers == loop.0;
    GatherFrame(sha1, rawColumnNames, sa, names);
  }

  /** `parse` raises a KeyError for a column's field, with only the decoding
      error recorded, exactly when the names repeat or a field is missing;
      otherwise `column_names` maps each wanted name to the value of its
      field and every field is deleted. */
  lemma ParseGathersColumns(sha1: seq<byte> -> Digest, b64decode: string -> Option<seq<byte>>, uuid: string,
                            rawColumnNames: string, sa: Answers, names: seq<string>)
    requires var answer := AnswerName(sha1, rawColumnNames); answer in sa && Truthy(sa[answer])
    requires CsvReader.FirstRecord(rawColumnNames) == CsvReader.Record(names)
    ensures var answer := AnswerName(sha1, rawColumnNames);
      var o := ParseSpec(sha1, b64decode, uuid, rawColumnNames, sa);
      if Distinct(names) && forall n | n in names :: ColumnKey(answer, n) in sa then
        && ColumnNamesKey in o.answers
        && o.answers[ColumnNamesKey] == Dict(map n | n in names :: sa[ColumnKey(answer, n)])
        && forall n | n in names :: ColumnKey(answer, n) !in o.answers
      else
        && o.errors == DecodeSubmission(sa[answer]).1
        && o.raised.Some? && o.raised.value.KeyError?
        && exists n | n in names :: o.raised.value.key == ColumnKey(answer, n)
  {
    var answer := AnswerName(sha1, rawColumnNames);
    var loop := ColumnLoop((sa - {answer})[ColumnNamesKey := Dict(map[])], ColumnNamesKey, KeyOf(answer), false, names);
    ParseSubmitted(sha1, b64decode, uuid, rawColumnNames, sa);
    assert ParseSpec(sha1, b64decode, uuid, rawColumnNames, sa).answers == loop.0;
    GatherRaises(sha1, rawColumnNames, sa, names);
    if Distinct(names) && forall n | n in names :: ColumnKey(answer, n) in sa {
      GatherCollects(sha1, rawColumnNames, sa, names);
    }
  }

  /** A posted field that does not decode records one error and registers
      the file with no contents; the header checks are skipped, so nothing
      else is recorded. */
  lemma ParseUndecodable(sha1: seq<byte> -> Digest, b64decode: string -> Option<seq<byte>>, uuid: string,
                         rawColumnNames: string, sa: Answers)
    requires var answer := AnswerName(sha1, rawColumnNames);
      answer in sa && Truthy(sa[answer]) && DecodeSubmission(sa[answer]).0.None?
    ensures var answer := AnswerName(sha1, rawColumnNames);
      var o := ParseSpec(sha1, b64decode, uuid, rawColumnNames, sa);
      && o.files == [SubmittedFile(uuid + ".csv", None)]
      && o.errors == DecodeSubmission(sa[answer]).1
      && (sa[answer].Dict? || JsonString.Loads(sa[answer].s) != Some(JsonString.JNull) ==> o.errors == [CouldNotParseFiles])
      && (o.raised.Some? ==> o.raised.value.KeyError? || !CsvReader.FirstRecord(rawColumnNames).Record?)
  {
    ParseSubmitted(sha1, b64decode, uuid, rawColumnNames, sa);
    match CsvReader.FirstRecord(rawColumnNames)
    case Record(names) =>
      GatherRaises(sha1, rawColumnNames, sa, names);
    case _ =>
  }

  /** With a decoded payload and a loop that completes, what `parse` adds is
      decided by the header checks on the gathered column dictionary. */
  lemma ParseChecksHeader(sha1: seq<byte> -> Digest, b64decode: string -> Option<seq<byte>>, uuid: string,
                          rawColumnNames: string, sa: Answers, names: seq<string>, payload: string)
    requires var answer := AnswerName(sha1, rawColumnNames);
      answer in sa && Truthy(sa[answer]) && DecodeSubmission(sa[answer]).0 == Some(payload)
    requires CsvReader.FirstRecord(rawColumnNames) == CsvReader.Record(names)
    requires Distinct(names) && forall n | n in names :: ColumnKey(AnswerName(sha1, rawColumnNames), n) in sa
    ensures var answer := AnswerName(sha1, rawColumnNames);
      var o := ParseSpec(sha1, b64decode, uuid, rawColumnNames, sa);
      (o.errors, o.raised) == HeaderCheck(map n | n in names :: sa[ColumnKey(answer, n)], names, payload, b64decode)
  {
    var answer := AnswerName(sha1, rawColumnNames);
    var loop := ColumnLoop((sa - {answer})[ColumnNamesKey := Dict(map[])], ColumnNamesKey, KeyOf(answer), false, names);
    var files := [SubmittedFile(uuid + ".csv", Some(payload))];
    var cols := map n | n in names :: sa[ColumnKey(answer, n)];
    ParseSubmitted(sha1, b64decode, uuid, rawColumnNames, sa);
    assert DecodeSubmission(sa[answer]) == (Some(payload), []);
    assert ParseSpec(sha1, b64decode, uuid, rawColumnNames, sa) == AfterLoop(loop, names, Some(payload), [], files, b64decode);
    GatherRaises(sha1, rawColumnNames, sa, names);
    GatherCollects(sha1, rawColumnNames, sa, names);
    assert loop.1.None? && ColumnNamesKey in loop.0 && loop.0[ColumnNamesKey] == Dict(cols);
    var check := CheckSpec(loop.0, names, payload, b64decode);
    assert check == HeaderCheck(cols, names, payload, b64decode);
    assert AfterLoop(loop, names, Some(payload), [], files, b64decode) == Outcome(loop.0, [] + check.0, files, check.1);
    assert [] + check.0 == check.0;
  }

  /** The duplicate check of `HeaderCheck` on a dictionary with one string
      entry per distinct wanted name: it fires exactly when two entries share
      a value. */
  lemma HeaderCheckDuplicates(cols: map<string, Value>, names: seq<string>, payload: string,
                              b64decode: string -> Option<seq<byte>>)
    requires Distinct(names) && cols.Keys == set n | n in names
    requires forall n | n in cols :: cols[n].Str?
    ensures !Injective(cols) ==> HeaderCheck(cols, names, payload, b64decode) == ([DuplicateColumnNames], None)
    ensures Injective(cols) ==> DuplicateColumnNames !in HeaderCheck(cols, names, payload, b64decode).0
  {
    DistinctCard(names);
    ValuesCard(cols);
  }

  /** Two columns given the same user-supplied name stop `parse` with the
      duplicate-names error and nothing else; distinct names never record it. */
  lemma ParseDuplicateNames(sha1: seq<byte> -> Digest, b64decode: string -> Option<seq<byte>>, uuid: string,
                            rawColumnNames: string, sa: Answers, names: seq<string>, payload: string)
    requires var answer := AnswerName(sha1, rawColumnNames);
      answer in sa && Truthy(sa[answer]) && DecodeSubmission(sa[answer]).0 == Some(payload)
    requires CsvReader.FirstRecord(rawColumnNames) == CsvReader.Record(names)
    requires Distinct(names) && forall n | n in names :: ColumnKey(AnswerName(sha1, rawColumnNames), n) in sa
    requires forall n | n in names :: sa[ColumnKey(AnswerName(sha1, rawColumnNames), n)].Str?
    ensures var answer := AnswerName(sha1, rawColumnNames);
      var o := ParseSpec(sha1, b64decode, uuid, rawColumnNames, sa);
      if exists a, b | a in names && b in names && a != b :: sa[ColumnKey(answer, a)] == sa[ColumnKey(answer, b)]
      then o.errors == [DuplicateColumnNames] && o.raised.None?
      else DuplicateColumnNames !in o.errors
  {
    var answer := AnswerName(sha1, rawColumnNames);
    var cols := map n | n in names :: sa[ColumnKey(answer, n)];
    ParseChecksHeader(sha1, b64decode, uuid, rawColumnNames, sa, names, payload);
    HeaderCheckDuplicates(cols, names, payload, b64decode);
    if exists a, b | a in names && b in names && a != b :: sa[ColumnKey(answer, a)] == sa[ColumnKey(answer, b)] {
      var a, b :| a in names && b in names && a != b && sa[ColumnKey(answer, a)] == sa[ColumnKey(answer, b)];
      assert cols[a] == cols[b];
    } else {
      assert Injective(cols);
    }
  }

  /** When the checks reach the header, the error lists exactly the wanted
      names that the header lacks, and nothing is recorded when it has them
      all. */
  lemma ParseMissingColumns(sha1: seq<byte> -> Digest, b64decode: string -> Option<seq<byte>>, uuid: string,
                            rawColumnNames: string, sa: Answers, names: seq<string>, payload: string,
                            bytes: seq<byte>, text: string, header: seq<string>)
    requires var answer := AnswerName(sha1, rawColumnNames);
      answer in sa && Truthy(sa[answer]) && DecodeSubmission(sa[answer]).0 == Some(payload)
    requires CsvReader.FirstRecord(rawColumnNames) == CsvReader.Record(names)
    requires Distinct(names) && forall n | n in names :: ColumnKey(AnswerName(sha1, rawColumnNames), n) in sa
    requires forall n | n in names :: sa[ColumnKey(AnswerName(sha1, rawColumnNames), n)].Str?
    requires forall a, b | a in names && b in names && a != b ::
      sa[ColumnKey(AnswerName(sha1, rawColumnNames), a)] != sa[ColumnKey(AnswerName(sha1, rawColumnNames), b)]
    requires b64decode(payload) == Some(bytes) && Utf8.Decode(bytes) == Some(text)
    requires CsvReader.FirstRecord(text) == CsvReader.Record(header)
    ensures var o := ParseSpec(sha1, b64decode, uuid, rawColumnNames, sa);
      var missing := (set n | n in names) - (set h | h in header);
      && o.raised.None?
      && (missing == {} ==> o.errors == [])
      && (missing != {} ==> o.errors == [MissingColumns(missing)])
  {
    var answer := AnswerName(sha1, rawColumnNames);
    var cols := map n | n in names :: sa[ColumnKey(answer, n)];
    ParseChecksHeader(sha1, b64decode, uuid, rawColumnNames, sa, names, payload);
    assert Injective(cols);
    HeaderCheckMissing(cols, names, payload, b64decode, bytes, text, header);
  }

  /** The header check on a dictionary with one string entry per distinct
      wanted name and no two equal: only the missing names are reported. */
  lemma HeaderCheckMissing(cols: map<string, Value>, names: seq<string>, payload: string,
                           b64decode: string -> Option<seq<byte>>, bytes: seq<byte>, text: string, header: seq<string>)
    requires Distinct(names) && cols.Keys == (set n | n in names) && Injective(cols)
    requires forall n | n in cols :: cols[n].Str?
    requires b64decode(payload) == Some(bytes) && Utf8.Decode(bytes) == Some(text)
    requires CsvReader.FirstRecord(text) == CsvReader.Record(header)
    ensures var missing := (set n | n in names) - (set h | h in header);
      HeaderCheck(cols, names, payload, b64decode) == (if missing == {} then [] else [MissingColumns(missing)], None)
  {
    DistinctCard(names);
    ValuesCard(cols);
  }

  /** End to end: a CSV file whose first line is `header`, posted by the
      widget as the JSON text of its Base64 contents, has its header read
      back exactly, so the error names precisely the wanted columns the
      file lacks. `b64decode` is only assumed to undo Base64 encoding. */
  lemma UploadReportsMissing(sha1: seq<byte> -> Digest, b64decode: string -> Option<seq<byte>>, uuid: string,
                             rawColumnNames: string, sa: Answers, names: seq<string>,
                             header: seq<string>, rest: string)
    requires forall bs :: b64decode(Base64.Encode(bs)) == Some(bs)
    requires header != [] && header != [[]]
    requires var answer := AnswerName(sha1, rawColumnNames);
      answer in sa
      && sa[answer] == Str(JsonString.Stringify(Some(Base64.Encode(Utf8.Encode(CsvReader.Join(header) + "\n" + rest)))))
    requires CsvReader.FirstRecord(rawColumnNames) == CsvReader.Record(names)
    requires Distinct(names) && forall n | n in names :: ColumnKey(AnswerName(sha1, rawColumnNames), n) in sa
    requires forall n | n in names :: sa[ColumnKey(AnswerName(sha1, rawColumnNames), n)].Str?
    requires forall a, b | a in names && b in names && a != b ::
      sa[ColumnKey(AnswerName(sha1, rawColumnNames), a)] != sa[ColumnKey(AnswerName(sha1, rawColumnNames), b)]
    ensures var o := ParseSpec(sha1, b64decode, uuid, rawColumnNames, sa);
      var missing := (set n | n in names) - (set h | h in header);
      && o.raised.None?
      && o.errors == (if missing == {} then [] else [MissingColumns(missing)])
  {
    var text := CsvReader.Join(header) + "\n" + rest;
    var bytes := Utf8.Encode(text);
    var payload := Base64.Encode(bytes);
    DecodeStringified(Some(payload));
    Utf8.DecodeEncode(text);
    CsvReader.FirstLineRoundTrip(header, rest);
    ParseMissingColumns(sha1, b64decode, uuid, rawColumnNames, sa, names, payload, bytes, text, header);
  }
}
