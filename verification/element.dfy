/**
 * The element at the repository root: the answer name is derived from the
 * `file-name` attribute, the browser posts the Base64 contents as they are,
 * `parse` moves them to the key `file-name`, and each column's form field is
 * named with the Base16 form of the column name.
 */
module Element {
  import opened Wrappers
  import opened Bytes
  import Utf8
  import Base16
  import CsvReader
  import opened QuestionData
  import opened ElementCommon

  const ColumnInfix: string := "_col_"
  const ColumnNamesSuffix: string := "_column_names"

  /** `get_column_key`: the answer name, `_col_`, and the upper-case Base16
      text of the UTF-8 bytes of the column name. */
  function ColumnKey(name: string, answer: string): (r: string)
    ensures |r| == |answer| + |ColumnInfix| + 2 * |Utf8.Encode(name)|
    ensures r[..|answer|] == answer && r[|answer|..|answer| + |ColumnInfix|] == ColumnInfix
    ensures forall i | |answer| + |ColumnInfix| <= i < |r| :: Base16.IsDigit(r[i])
  {
    answer + ColumnInfix + Base16.Encode(Utf8.Encode(name))
  }

  function KeyOf(answer: string): string -> string {
    name => ColumnKey(name, answer)
  }

  /** The key under which `parse` gathers the column dictionary. */
  function ColumnNamesKey(fileName: string): string {
    fileName + ColumnNamesSuffix
  }

  /** Distinct column names have distinct keys: the Base16 suffix is read
      back to the UTF-8 bytes and those to the name. */
  lemma ColumnKeyInjective(answer: string, a: string, b: string)
    ensures ColumnKey(a, answer) == ColumnKey(b, answer) <==> a == b
  {
    if ColumnKey(a, answer) == ColumnKey(b, answer) {
      var n := |answer + ColumnInfix|;
      assert ColumnKey(a, answer)[n..] == Base16.Encode(Utf8.Encode(a));
      assert ColumnKey(b, answer)[n..] == Base16.Encode(Utf8.Encode(b));
      Base16.DecodeEncode(Utf8.Encode(a));
      Base16.DecodeEncode(Utf8.Encode(b));
      Utf8.EncodeInjective(a, b);
    }
  }

  /** A column key is never the answer name it extends, nor any file's
      column dictionary key: it ends in `_` or an upper-case hex digit, the
      dictionary key in `s`. */
  lemma ColumnKeyApart(name: string, sha1: seq<byte> -> Digest, fileName: string, other: string)
    ensures ColumnKey(name, AnswerName(sha1, fileName)) != AnswerName(sha1, fileName)
    ensures ColumnKey(name, AnswerName(sha1, fileName)) != ColumnNamesKey(other)
  {
    var k := ColumnKey(name, AnswerName(sha1, fileName));
    var last := k[|k| - 1];
    assert last == '_' || Base16.IsDigit(last);
    assert ColumnNamesKey(other)[|ColumnNamesKey(other)| - 1] == 's';
  }

  /** The dictionary key is never an answer name, whose last character is a
      lower-case hex digit. */
  lemma ColumnNamesKeyApart(sha1: seq<byte> -> Digest, fileName: string, other: string)
    ensures ColumnNamesKey(other) != AnswerName(sha1, fileName)
  {
    var a := AnswerName(sha1, fileName);
    assert IsLowerHex(a[|a| - 1]);
    assert ColumnNamesKey(other)[|ColumnNamesKey(other)| - 1] == 's';
  }

  /** The answers after lines 97-98 of `parse`: the contents moved from the
      answer name to the file name. */
  function Moved(sa: Answers, answer: string, fileName: string): Answers
    requires answer in sa
  {
    (sa - {answer})[fileName := sa[answer]]
  }

  /** `parse` on the answers `sa`, with the hash as a parameter. */
  function ParseSpec(sha1: seq<byte> -> Digest, rawColumnNames: string, fileName: string, sa: Answers): Outcome {
    var answer := AnswerName(sha1, fileName);
    if answer !in sa || !Truthy(sa[answer]) then Outcome(sa, [NoSubmission], [], None)
    else
      var moved := Moved(sa, answer, fileName);
      match CsvReader.FirstRecord(rawColumnNames)
      case Record(names) =>
        var k := ColumnNamesKey(fileName);
        var (r, raised) := ColumnLoop(moved[k := Dict(map[])], k, KeyOf(answer), true, names);
        Outcome(r, [], [], raised)
      case o => Outcome(moved, [], [], Some(Raised(o)))
  }

  /** A missing or falsy answer records exactly one error and leaves
      `submitted_answers` unchanged. */
  lemma ParseNoSubmission(sha1: seq<byte> -> Digest, rawColumnNames: string, fileName: string, sa: Answers)
    requires var answer := AnswerName(sha1, fileName); answer !in sa || !Truthy(sa[answer])
    ensures ParseSpec(sha1, rawColumnNames, fileName, sa) == Outcome(sa, [NoSubmission], [], None)
  {
  }

  /** A submission never records an error and never registers a file. */
  lemma ParseSubmittedQuietly(sha1: seq<byte> -> Digest, rawColumnNames: string, fileName: string, sa: Answers)
    requires var answer := AnswerName(sha1, fileName); answer in sa && Truthy(sa[answer])
    ensures var o := ParseSpec(sha1, rawColumnNames, fileName, sa);
      o.errors == [] && o.files == []
  {
  }

  /** `parse`, changing `data` in place and returning the exception that
      escapes it, if any. */
  method Parse(data: Data, sha1: seq<byte> -> Digest, rawColumnNames: string, fileName: string)
    returns (raised: Option<PyException>)
    modifies data
    ensures var o := ParseSpec(sha1, rawColumnNames, fileName, old(data.submittedAnswers));
      && data.submittedAnswers == o.answers
      && data.formatErrors == old(data.formatErrors) + o.errors
      && data.submittedFiles == old(data.submittedFiles) + o.files
      && raised == o.raised
    ensures data.requiredColumnNames == old(data.requiredColumnNames)
  {
    var answer := AnswerName(sha1, fileName);
    if answer !in data.submittedAnswers || !Truthy(data.submittedAnswers[answer]) {
      data.formatErrors := data.formatErrors + [NoSubmission];
      return None;
    }
    var content := data.submittedAnswers[answer];
    data.submittedAnswers := data.submittedAnswers - {answer};
    data.submittedAnswers := data.submittedAnswers[fileName := content];
    var record := CsvReader.FirstRecord(rawColumnNames);
    if !record.Record? {
      return Some(Raised(record));
    }
    var k := ColumnNamesKey(fileName);
    data.submittedAnswers := data.submittedAnswers[k := Dict(map[])];
    raised := GatherColumns(data, k, KeyOf(answer), true, record.fields);
  }

  /** What the loop lemmas of ElementCommon ask of the keys. */
  lemma KeysApart(sha1: seq<byte> -> Digest, fileName: string, names: seq<string>)
    ensures var answer := AnswerName(sha1, fileName);
      && ColumnNamesKey(fileName) != answer
      && (forall n | n in names :: KeyOf(answer)(n) == ColumnKey(n, answer)
            && ColumnKey(n, answer) != ColumnNamesKey(fileName) && ColumnKey(n, answer) != answer)
      && (forall a, b | a in names && b in names && KeyOf(answer)(a) == KeyOf(answer)(b) :: a == b)
  {
    var answer := AnswerName(sha1, fileName);
    ColumnNamesKeyApart(sha1, fileName, fileName);
    forall n | n in names ensures ColumnKey(n, answer) != ColumnNamesKey(fileName) && ColumnKey(n, answer) != answer {
      ColumnKeyApart(n, sha1, fileName, fileName);
    }
    forall a, b | a in names && b in names && KeyOf(answer)(a) == KeyOf(answer)(b) ensures a == b {
      ColumnKeyInjective(answer, a, b);
    }
  }

  /**
   * After a submission, the contents sit under the file name, unless a
   * column's field has that very name and the loop consumed it; the answer
   * name is gone unless it is the file name; every other key except the
   * column dictionary and the columns' fields is as it was. All of this holds
   * whatever the loop raises.
   */
  lemma ParseMovesContent(sha1: seq<byte> -> Digest, rawColumnNames: string, fileName: string, sa: Answers,
                          names: seq<string>)
    requires var answer := AnswerName(sha1, fileName); answer in sa && Truthy(sa[answer])
    requires CsvReader.FirstRecord(rawColumnNames) == CsvReader.Record(names)
    ensures var answer := AnswerName(sha1, fileName);
      var r := ParseSpec(sha1, rawColumnNames, fileName, sa).answers;
      && (fileName != answer ==> answer !in r)
      && ((forall n | n in names :: ColumnKey(n, answer) != fileName) ==> fileName in r && r[fileName] == sa[answer])
      && forall x | x != fileName && x != answer && x != ColumnNamesKey(fileName)
                    && (forall n | n in names :: x != ColumnKey(n, answer)) ::
           (x in r <==> x in sa) && (x in r ==> r[x] == sa[x])
  {
    var answer := AnswerName(sha1, fileName);
    var k := ColumnNamesKey(fileName);
    var start := Moved(sa, answer, fileName)[k := Dict(map[])];
    KeysApart(sha1, fileName, names);
    assert fileName != k by { assert |k| > |fileName|; }
    if fileName != answer {
      ColumnLoopFrame(start, k, KeyOf(answer), true, names, answer);
    }
    if forall n | n in names :: ColumnKey(n, answer) != fileName {
      ColumnLoopFrame(start, k, KeyOf(answer), true, names, fileName);
    }
    forall x | x != fileName && x != answer && x != k && (forall n | n in names :: x != ColumnKey(n, answer))
      ensures var r := ColumnLoop(start, k, KeyOf(answer), true, names).0;
        (x in r <==> x in sa) && (x in r ==> r[x] == sa[x])
    {
      ColumnLoopFrame(start, k, KeyOf(answer), true, names, x);
    }
  }

  /** With the file name apart from the columns' fields, the loop completes
      exactly when the names are distinct and every field was submitted, and
      otherwise raises a KeyError for a field. */
  lemma ParseRaises(sha1: seq<byte> -> Digest, rawColumnNames: string, fileName: string, sa: Answers,
                    names: seq<string>)
    requires var answer := AnswerName(sha1, fileName); answer in sa && Truthy(sa[answer])
    requires CsvReader.FirstRecord(rawColumnNames) == CsvReader.Record(names)
    requires forall n | n in names :: ColumnKey(n, AnswerName(sha1, fileName)) != fileName
    ensures var answer := AnswerName(sha1, fileName);
      var raised := ParseSpec(sha1, rawColumnNames, fileName, sa).raised;
      && (raised.None? <==> Distinct(names) && forall n | n in names :: ColumnKey(n, answer) in sa)
      && (raised.Some? ==> raised.value.KeyError? && exists n | n in names :: raised.value.key == ColumnKey(n, answer))
  {
    var answer := AnswerName(sha1, fileName);
    var k := ColumnNamesKey(fileName);
    var start := Moved(sa, answer, fileName)[k := Dict(map[])];
    KeysApart(sha1, fileName, names);
    assert forall n | n in names :: KeyOf(answer)(n) in start <==> KeyOf(answer)(n) in sa;
    ColumnLoopRaises(start, k, KeyOf(answer), true, names, map[]);
  }

  /** On completion, the column dictionary has exactly the wanted names as
      keys, each mapped to its submitted value or, when that is falsy, to the
      name itself; the columns' fields are gone. */
  lemma ParseCollects(sha1: seq<byte> -> Digest, rawColumnNames: string, fileName: string, sa: Answers,
                      names: seq<string>)
    requires var answer := AnswerName(sha1, fileName); answer in sa && Truthy(sa[answer])
    requires CsvReader.FirstRecord(rawColumnNames) == CsvReader.Record(names)
    requires forall n | n in names :: ColumnKey(n, AnswerName(sha1, fileName)) != fileName
    requires Distinct(names) && forall n | n in names :: ColumnKey(n, AnswerName(sha1, fileName)) in sa
    ensures var answer := AnswerName(sha1, fileName);
      var r := ParseSpec(sha1, rawColumnNames, fileName, sa).answers;
      && ColumnNamesKey(fileName) in r && r[ColumnNamesKey(fileName)].Dict?
      && var cols := r[ColumnNamesKey(fileName)].entries;
      && cols.Keys == (set n | n in names)
      && (forall n | n in names :: cols[n] == if Truthy(sa[ColumnKey(n, answer)]) then sa[ColumnKey(n, answer)] else Str(n))
      && forall n | n in names :: ColumnKey(n, answer) !in r
  {
    var answer := AnswerName(sha1, fileName);
    var k := ColumnNamesKey(fileName);
    var keyOf := KeyOf(answer);
    var start := Moved(sa, answer, fileName)[k := Dict(map[])];
    KeysApart(sha1, fileName, names);
    assert forall n | n in names :: keyOf(n) in start && start[keyOf(n)] == sa[keyOf(n)];
    ColumnLoopEntries(start, k, keyOf, true, names);
  }

  /** A stored column value is never falsy unless the column's own name is
      empty, so posting it back never triggers the fallback. */
  lemma StoredValueTruthy(v: Value, name: string)
    ensures Truthy(UserValue(v, name, true)) <==> Truthy(v) || name != []
  {
  }

  /** Every value `parse` stores meets the premise of ResubmitKeepsColumns:
      feeding it back through the loop stores it again. */
  lemma StoredValueResubmits(v: Value, name: string)
    ensures UserValue(UserValue(v, name, true), name, true) == UserValue(v, name, true)
  {
  }

  /** Line 67 of `render`: the column dictionary re-keyed by the columns'
      form fields. */
  function Rekey(d: map<string, Value>, answer: string): (r: map<string, Value>)
    ensures r.Keys == set n | n in d :: ColumnKey(n, answer)
  {
    ColumnKeysInjective(answer);
    map n | n in d :: ColumnKey(n, answer) := d[n]
  }

  lemma ColumnKeysInjective(answer: string)
    ensures forall a, b | ColumnKey(a, answer) == ColumnKey(b, answer) :: a == b
  {
    forall a, b | ColumnKey(a, answer) == ColumnKey(b, answer) ensures a == b {
      ColumnKeyInjective(answer, a, b);
    }
  }

  /** Each column's form field carries that column's value: no two columns
      compete for one field. */
  lemma RekeyLookup(d: map<string, Value>, answer: string, n: string)
    requires n in d
    ensures ColumnKey(n, answer) in Rekey(d, answer) && Rekey(d, answer)[ColumnKey(n, answer)] == d[n]
  {
    ColumnKeysInjective(answer);
  }

  /** Lines 65-67 of `render`: the stored column dictionary, or none, re-keyed;
      a string stored there has no `items` and raises. */
  function OldColumnAssignments(sa: Answers, fileName: string, answer: string): (r: Result<map<string, Value>, PyException>)
    ensures ColumnNamesKey(fileName) !in sa ==> r == Success(map[])
    ensures r.Failure? <==> ColumnNamesKey(fileName) in sa && sa[ColumnNamesKey(fileName)].Str?
    ensures r.Failure? ==> r.error == AttributeError
  {
    var k := ColumnNamesKey(fileName);
    if k !in sa then Success(map[])
    else match sa[k]
      case Str(_) => Failure(AttributeError)
      case Dict(d) => Success(Rekey(d, answer))
  }

  /** The template parameters of `render` that the model keeps. */
  datatype RenderParams = RenderParams(
    name: string,
    fileName: string,
    columns: seq<(string, string)>,   // each column's text and form field
    oldAssignments: map<string, Value>)

  /** The fields the template renders, one per column, in the order listed. */
  function ColumnsRich(names: seq<string>, answer: string): (r: seq<(string, string)>)
    ensures |r| == |names|
    ensures forall i | 0 <= i < |names| :: r[i] == (names[i], ColumnKey(names[i], answer))
  {
    seq(|names|, i requires 0 <= i < |names| => (names[i], ColumnKey(names[i], answer)))
  }

  /** The fields the template lists are exactly the fields `parse` reads and
      deletes, and no two columns share one unless they share a name. */
  lemma RenderedFields(names: seq<string>, answer: string)
    ensures var r := ColumnsRich(names, answer);
      && (set i | 0 <= i < |r| :: r[i].1) == KeySet(KeyOf(answer), names)
      && (Distinct(names) <==> forall i, j | 0 <= i < j < |r| :: r[i].1 != r[j].1)
  {
    var r := ColumnsRich(names, answer);
    forall i, j | 0 <= i < j < |r| ensures r[i].1 == r[j].1 <==> names[i] == names[j] {
      ColumnKeyInjective(answer, names[i], names[j]);
    }
    forall k | k in KeySet(KeyOf(answer), names) ensures k in (set i | 0 <= i < |r| :: r[i].1) {
      var n :| n in names && KeyOf(answer)(n) == k;
      var i :| 0 <= i < |names| && names[i] == n;
      assert r[i].1 == k;
    }
    forall i | 0 <= i < |r| ensures r[i].1 in KeySet(KeyOf(answer), names) {
      assert names[i] in names && KeyOf(answer)(names[i]) == r[i].1;
    }
  }

  /** `render`: nothing outside the question panel; otherwise the answer
      name, the columns and the re-keyed old assignments, or the exception
      that escapes. */
  function Render(sha1: seq<byte> -> Digest, panel: string, rawColumnNames: string, fileName: string, sa: Answers)
    : Result<Option<RenderParams>, PyException>
  {
    if panel != "question" then Success(None)
    else
      var answer := AnswerName(sha1, fileName);
      match CsvReader.FirstRecord(rawColumnNames)
      case Record(names) =>
        (match OldColumnAssignments(sa, fileName, answer)
         case Failure(e) => Failure(e)
         case Success(prior) => Success(Some(RenderParams(answer, fileName, ColumnsRich(names, answer), prior))))
      case o => Failure(Raised(o))
  }

  /** The page `render` builds names the form fields `parse` reads, and the
      old assignment of every column lands on that column's field. */
  lemma RenderRestoresAssignments(sha1: seq<byte> -> Digest, rawColumnNames: string, fileName: string, sa: Answers,
                                  d: map<string, Value>)
    requires ColumnNamesKey(fileName) in sa && sa[ColumnNamesKey(fileName)] == Dict(d)
    requires CsvReader.FirstRecord(rawColumnNames).Record?
    ensures var answer := AnswerName(sha1, fileName);
      var names := CsvReader.FirstRecord(rawColumnNames).fields;
      var r := Render(sha1, "question", rawColumnNames, fileName, sa);
      && r.Success? && r.value.Some?
      && (forall i | 0 <= i < |names| :: r.value.value.columns[i].1 == KeyOf(answer)(names[i]))
      && (forall n | n in d :: ColumnKey(n, answer) in r.value.value.oldAssignments
            && r.value.value.oldAssignments[ColumnKey(n, answer)] == d[n])
  {
    var answer := AnswerName(sha1, fileName);
    forall n | n in d
      ensures ColumnKey(n, answer) in Rekey(d, answer) && Rekey(d, answer)[ColumnKey(n, answer)] == d[n]
    {
      RekeyLookup(d, answer, n);
    }
  }

  /**
   * The round trip through the page: when every column's field is posted
   * with the value `render` restored for it from a dictionary `parse`
   * stored, `parse` stores the same dictionary again.
   */
  lemma ResubmitKeepsColumns(sha1: seq<byte> -> Digest, rawColumnNames: string, fileName: string, sa: Answers,
                             names: seq<string>, d: map<string, Value>)
    requires var answer := AnswerName(sha1, fileName); answer in sa && Truthy(sa[answer])
    requires CsvReader.FirstRecord(rawColumnNames) == CsvReader.Record(names)
    requires forall n | n in names :: ColumnKey(n, AnswerName(sha1, fileName)) != fileName
    requires Distinct(names) && d.Keys == set n | n in names
    requires forall n | n in d :: d[n] == UserValue(d[n], n, true)
    requires var prior := Rekey(d, AnswerName(sha1, fileName));
      forall key | key in prior :: key in sa && sa[key] == prior[key]
    ensures var r := ParseSpec(sha1, rawColumnNames, fileName, sa).answers;
      ColumnNamesKey(fileName) in r && r[ColumnNamesKey(fileName)] == Dict(d)
  {
    var answer := AnswerName(sha1, fileName);
    forall n | n in names ensures ColumnKey(n, answer) in sa && sa[ColumnKey(n, answer)] == d[n] {
      RekeyLookup(d, answer, n);
    }
    ParseCollects(sha1, rawColumnNames, fileName, sa, names);
    var r := ParseSpec(sha1, rawColumnNames, fileName, sa).answers;
    var v := r[ColumnNamesKey(fileName)];
    RestoredEntries(v.entries, d, names, sa, answer);
    assert v == Dict(v.entries);
  }

  /** The dictionary the loop builds from restored fields is the one they
      were restored from. */
  lemma RestoredEntries(cols: map<string, Value>, d: map<string, Value>, names: seq<string>, sa: Answers, answer: string)
    requires d.Keys == (set n | n in names) && cols.Keys == (set n | n in names)
    requires forall n | n in d :: d[n] == UserValue(d[n], n, true)
    requires forall n | n in names :: ColumnKey(n, answer) in sa && sa[ColumnKey(n, answer)] == d[n]
    requires forall n | n in names :: cols[n] == if Truthy(sa[ColumnKey(n, answer)]) then sa[ColumnKey(n, answer)] else Str(n)
    ensures cols == d
  {
    forall n | n in d ensures cols[n] == d[n] {
      assert d[n] == UserValue(d[n], n, true);
    }
  }
}
