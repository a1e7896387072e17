/**
 * The first record of `csv.reader(StringIO(s), delimiter=",", escapechar="\\",
 * quoting=csv.QUOTE_NONE, skipinitialspace=True, strict=True)`, as both widget
 * variants read it: `get_clist_as_array` for the column-names attribute and the
 * header check of the older `parse` for the uploaded CSV.
 *
 * The reader is CPython's character state machine (Modules/_csv.c) with that
 * dialect fixed. StringIO hands it the input line by line, each line keeping its
 * '\n'; after the characters of a line the machine sees an end-of-line marker,
 * and a record is complete when, after such a marker, the machine is back at the
 * start of a record. With quoting disabled the quoted-field states are
 * unreachable and are left out.
 */
module CsvReader {
  import opened Wrappers
  import Seqs

  datatype State = StartRecord | StartField | EscapedChar | InField | AfterEscapedCrnl | EatCrnl

  /** What the machine is fed: one character of a line, or the end of that line. */
  datatype Input = Ch(c: char) | Eol

  /** The machine: its state, the field being collected, the fields of the record so far. */
  datatype Parser = Parser(state: State, field: string, fields: seq<string>)

  /** The two `_csv.Error`s reachable with this dialect. */
  datatype CsvError =
    | NewLineInUnquotedField  // "new-line character seen in unquoted field"
    | UnexpectedEndOfData     // "unexpected end of data" (strict mode)

  /** What `next(reader)` does: return the first record, raise StopIteration, or raise csv.Error. */
  datatype Outcome = Record(fields: seq<string>) | StopIteration | Error(error: CsvError)

  const Delimiter: char := ','
  const EscapeChar: char := '\\'

  predicate IsLineBreak(c: char) { c == '\n' || c == '\r' }

  const Start := Parser(StartRecord, [], [])

  function SaveField(p: Parser, next: State): Parser {
    Parser(next, [], p.fields + [p.field])
  }

  function AddChar(p: Parser, c: char, next: State): Parser {
    Parser(next, p.field + [c], p.fields)
  }

  /** The START_FIELD case (also reached from START_RECORD on an ordinary character). */
  function StartFieldStep(p: Parser, x: Input): Parser {
    if x.Eol? then SaveField(p, StartRecord)
    else if IsLineBreak(x.c) then SaveField(p, EatCrnl)
    else if x.c == EscapeChar then p.(state := EscapedChar)
    else if x.c == ' ' then p.(state := StartField)  // skipinitialspace
    else if x.c == Delimiter then SaveField(p, StartField)
    else AddChar(p, x.c, InField)
  }

  /** The IN_FIELD case (also reached from AFTER_ESCAPED_CRNL on a character).
      An ordinary character is added without changing the state. */
  function InFieldStep(p: Parser, x: Input): Parser {
    if x.Eol? then SaveField(p, StartRecord)
    else if IsLineBreak(x.c) then SaveField(p, EatCrnl)
    else if x.c == EscapeChar then p.(state := EscapedChar)
    else if x.c == Delimiter then SaveField(p, StartField)
    else AddChar(p, x.c, p.state)
  }

  /** One transition of `parse_process_char`. */
  function Step(p: Parser, x: Input): Result<Parser, CsvError> {
    match p.state
    case StartRecord =>
      if x.Eol? then Success(p)
      else if IsLineBreak(x.c) then Success(p.(state := EatCrnl))
      else Success(StartFieldStep(p, x))
    case StartField => Success(StartFieldStep(p, x))
    case EscapedChar =>
      if x.Ch? && IsLineBreak(x.c) then Success(AddChar(p, x.c, AfterEscapedCrnl))
      else Success(AddChar(p, if x.Eol? then '\n' else x.c, InField))
    case AfterEscapedCrnl =>
      if x.Eol? then Success(p) else Success(InFieldStep(p, x))
    case InField => Success(InFieldStep(p, x))
    case EatCrnl =>
      if x.Eol? then Success(p.(state := StartRecord))
      else if IsLineBreak(x.c) then Success(p)
      else Failure(NewLineInUnquotedField)
  }

  /** `Reader_iternext` from parser `p` on the unread input `s`: a line ends after
      each '\n' and at the end of the input. When the input runs out in the middle
      of a record, strict mode raises; with nothing collected it is StopIteration. */
  function Read(p: Parser, s: string): Outcome
    decreases |s|
  {
    if s == [] then
      if p.field != [] then Error(UnexpectedEndOfData) else StopIteration
    else
      match Step(p, Ch(s[0]))
      case Failure(e) => Error(e)
      case Success(q) =>
        if s[0] == '\n' || |s| == 1 then
          match Step(q, Eol)
          case Failure(e) => Error(e)
          case Success(r) => if r.state == StartRecord then Record(r.fields) else Read(r, s[1..])
        else Read(q, s[1..])
  }

  /** `next(csv.reader(StringIO(s), ...))` with the dialect above: the first record.
      Only the empty input raises StopIteration. */
  function FirstRecord(s: string): (r: Outcome)
    ensures r.StopIteration? <==> s == []
  {
    if s == [] then Read(Start, s)
    else ReadNeverStops(Start, s); Read(Start, s)
  }

  // ---------------------------------------------------------------------------
  // StopIteration only on empty input

  /** A field is being collected in IN_FIELD and AFTER_ESCAPED_CRNL only once it has a character. */
  ghost predicate Inv(p: Parser) {
    (p.state == InField || p.state == AfterEscapedCrnl) ==> p.field != []
  }

  lemma StepKeepsInv(p: Parser, x: Input)
    requires Inv(p)
    ensures Step(p, x).Success? ==> Inv(Step(p, x).value)
    ensures x.Eol? ==> Step(p, x).Success?
    ensures x.Eol? && Step(p, x).value.state != StartRecord ==> Step(p, x).value.field != []
  {
  }

  lemma {:induction false} ReadNeverStops(p: Parser, s: string)
    requires Inv(p) && s != []
    ensures !Read(p, s).StopIteration?
    decreases |s|
  {
    StepKeepsInv(p, Ch(s[0]));
    if Step(p, Ch(s[0])).Success? {
      var q := Step(p, Ch(s[0])).value;
      if s[0] == '\n' || |s| == 1 {
        StepKeepsInv(q, Eol);
        var r := Step(q, Eol).value;
        if r.state != StartRecord && s[1..] != [] {
          ReadNeverStops(r, s[1..]);
        }
      } else {
        ReadNeverStops(q, s[1..]);
      }
    }
  }

  // ---------------------------------------------------------------------------
  // Only the first record is read

  /** Once the first record is complete at the end of a line, whatever follows that
      line is never read. */
  lemma {:induction false} LaterLinesIgnored(p: Parser, s: string, rest: string)
    requires s != [] && s[|s| - 1] == '\n'
    requires Read(p, s).Record?
    ensures Read(p, s + rest) == Read(p, s)
    decreases |s|
  {
    var t := s + rest;
    assert t[0] == s[0];
    if Step(p, Ch(s[0])).Success? {
      var q := Step(p, Ch(s[0])).value;
      if s[0] == '\n' || |s| == 1 {
        assert s[0] == '\n';
        if Step(q, Eol).Success? {
          var r := Step(q, Eol).value;
          if r.state != StartRecord {
            assert |s| > 1;
            assert t[1..] == s[1..] + rest;
            LaterLinesIgnored(r, s[1..], rest);
          }
        }
      } else {
        assert t[1..] == s[1..] + rest;
        LaterLinesIgnored(q, s[1..], rest);
      }
    }
  }

  // ---------------------------------------------------------------------------
  // A writer for column lists, and the round trip through the reader

  /** The characters the dialect gives a meaning to; the writer escapes them. */
  predicate Special(c: char) {
    c == Delimiter || c == EscapeChar || c == ' ' || IsLineBreak(c)
  }

  function EscapeUnit(c: char): string {
    if Special(c) then [EscapeChar, c] else [c]
  }

  function EscapeField(f: string): string
    decreases |f|
  {
    if f == [] then [] else EscapeUnit(f[0]) + EscapeField(f[1..])
  }

  /** A column list written for this dialect: escaped names separated by commas. */
  function Join(names: seq<string>): string
    requires names != []
    decreases |names|
  {
    if |names| == 1 then EscapeField(names[0])
    else EscapeField(names[0]) + [Delimiter] + Join(names[1..])
  }

  predicate NoLineBreaks(names: seq<string>) {
    forall i, j | 0 <= i < |names| && 0 <= j < |names[i]| :: !IsLineBreak(names[i][j])
  }

  /** States in which the machine is collecting (or about to collect) a field. */
  predicate Collecting(st: State) {
    st == StartRecord || st == StartField || st == InField || st == AfterEscapedCrnl
  }

  function AfterUnit(st: State, c: char): State {
    if IsLineBreak(c) then AfterEscapedCrnl
    else if st == AfterEscapedCrnl && !Special(c) then AfterEscapedCrnl
    else InField
  }

  function AfterField(st: State, f: string): State
    decreases |f|
  {
    if f == [] then st else AfterField(AfterUnit(st, f[0]), f[1..])
  }

  lemma {:induction false} AfterFieldCollecting(st: State, f: string)
    requires Collecting(st)
    ensures f != [] ==> AfterField(st, f) == InField || AfterField(st, f) == AfterEscapedCrnl
    ensures f == [] ==> AfterField(st, f) == st
    decreases |f|
  {
    if f != [] {
      AfterFieldCollecting(AfterUnit(st, f[0]), f[1..]);
    }
  }

  /** One written character, with more input after it, is read back into the field. */
  lemma ReadUnit(p: Parser, c: char, t: string)
    requires Collecting(p.state) && t != []
    ensures Read(p, EscapeUnit(c) + t) == Read(Parser(AfterUnit(p.state, c), p.field + [c], p.fields), t)
  {
    var s := EscapeUnit(c) + t;
    if Special(c) {
      assert s[0] == EscapeChar && s[1..] == [c] + t;
      var q := p.(state := EscapedChar);
      assert Step(p, Ch(EscapeChar)) == Success(q);
      assert Read(p, s) == Read(q, [c] + t);
      assert ([c] + t)[1..] == t;
    } else {
      assert s[0] == c && s[1..] == t;
    }
  }

  lemma {:induction false} ReadField(p: Parser, f: string, t: string)
    requires Collecting(p.state) && t != []
    ensures Read(p, EscapeField(f) + t) == Read(Parser(AfterField(p.state, f), p.field + f, p.fields), t)
    decreases |f|
  {
    if f == [] {
      assert EscapeField(f) + t == t;
      assert p.field + f == p.field;
    } else {
      var rest := EscapeField(f[1..]) + t;
      assert EscapeField(f) == EscapeUnit(f[0]) + EscapeField(f[1..]);
      Seqs.AppendAssoc(EscapeUnit(f[0]), EscapeField(f[1..]), t);
      ReadUnit(p, f[0], rest);
      var p' := Parser(AfterUnit(p.state, f[0]), p.field + [f[0]], p.fields);
      ReadField(p', f[1..], t);
      Seqs.ConsTail(p.field, f);
    }
  }

  /** A delimiter in any collecting state saves the field and starts the next one. */
  lemma ReadDelimiter(p: Parser, t: string)
    requires Collecting(p.state) && t != []
    ensures Read(p, [Delimiter] + t) == Read(Parser(StartField, [], p.fields + [p.field]), t)
  {
    assert ([Delimiter] + t)[0] == Delimiter && ([Delimiter] + t)[1..] == t;
  }

  /** A line break in a collecting state (other than before anything was read) ends the record. */
  lemma ReadNewline(p: Parser, rest: string)
    requires p.state == StartField || p.state == InField || p.state == AfterEscapedCrnl
    ensures Read(p, "\n" + rest) == Record(p.fields + [p.field])
  {
    assert ("\n" + rest)[0] == '\n';
  }

  /** skipinitialspace: spaces at the start of a field, after a delimiter,
      are dropped. */
  lemma {:induction false} SkipInitialSpaces(p: Parser, k: nat, t: string)
    requires p.state == StartField && t != []
    ensures Read(p, seq(k, _ => ' ') + t) == Read(p, t)
    decreases k
  {
    if k > 0 {
      var s := seq(k, _ => ' ') + t;
      assert s[0] == ' ' && s[1..] == seq(k - 1, _ => ' ') + t;
      assert Step(p, Ch(' ')) == Success(p);
      SkipInitialSpaces(p, k - 1, t);
    } else {
      assert seq(k, _ => ' ') + t == t;
    }
  }

  /** A delimiter that ends the input leaves an empty last field. */
  lemma ReadFinalDelimiter(p: Parser)
    requires Collecting(p.state)
    ensures Read(p, [Delimiter]) == Record(p.fields + [p.field, []])
  {
  }

  lemma {:induction false} ReadJoinNewline(p: Parser, names: seq<string>, rest: string)
    requires (p.state == StartRecord || p.state == StartField) && p.field == []
    requires names != [] && (p.state == StartRecord ==> names != [[]])
    ensures Read(p, Join(names) + "\n" + rest) == Record(p.fields + names)
    decreases |names|
  {
    if |names| == 1 {
      ReadOneNewline(p, names[0], rest);
      assert p.fields + [names[0]] == p.fields + names;
    } else {
      ReadJoinNewline(Parser(StartField, [], p.fields + [names[0]]), names[1..], rest);
      ReadFieldThenDelimiter(p, names[0], Join(names[1..]) + "\n" + rest);
      Seqs.Reassociate(EscapeField(names[0]), [Delimiter], Join(names[1..]), "\n", rest);
      Seqs.ConsTail(p.fields, names);
    }
  }

  /** One field and a line break end the record with that field. */
  lemma ReadOneNewline(p: Parser, n: string, rest: string)
    requires (p.state == StartRecord || p.state == StartField) && p.field == []
    requires p.state == StartRecord ==> n != []
    ensures Read(p, EscapeField(n) + "\n" + rest) == Record(p.fields + [n])
  {
    AfterFieldCollecting(p.state, n);
    var p' := Parser(AfterField(p.state, n), n, p.fields);
    assert p.field + n == n;
    assert EscapeField(n) + "\n" + rest == EscapeField(n) + ("\n" + rest);
    ReadField(p, n, "\n" + rest);
    ReadNewline(p', rest);
  }

  /** A field followed by a delimiter: what follows is read from the start of
      the next field, with the first field saved. */
  lemma ReadFieldThenDelimiter(p: Parser, n: string, tail: string)
    requires (p.state == StartRecord || p.state == StartField) && p.field == []
    requires tail != []
    ensures Read(p, EscapeField(n) + ([Delimiter] + tail)) == Read(Parser(StartField, [], p.fields + [n]), tail)
  {
    AfterFieldCollecting(p.state, n);
    var p' := Parser(AfterField(p.state, n), n, p.fields);
    assert p.field + n == n;
    ReadField(p, n, [Delimiter] + tail);
    ReadDelimiter(p', tail);
  }

  /** A non-empty escaped field that ends the input is saved as the last field of the record. */
  lemma {:induction false} ReadLastField(p: Parser, f: string)
    requires p.state == StartRecord || p.state == StartField || p.state == InField
    requires f != [] && forall j | 0 <= j < |f| :: !IsLineBreak(f[j])
    ensures Read(p, EscapeField(f)) == Record(p.fields + [p.field + f])
    decreases |f|
  {
    var c := f[0];
    if |f| == 1 {
      assert EscapeField(f) == EscapeUnit(c);
      if Special(c) {
        var s := EscapeUnit(c);
        assert s[0] == EscapeChar && s[1..] == [c];
        assert Read(p, s) == Read(p.(state := EscapedChar), [c]);
      }
      assert p.field + [c] == p.field + f;
    } else {
      ReadUnit(p, c, EscapeField(f[1..]));
      assert AfterUnit(p.state, c) == InField;
      ReadLastField(Parser(InField, p.field + [c], p.fields), f[1..]);
      assert p.field + [c] + f[1..] == p.field + f;
    }
  }

  lemma JoinEmpty(names: seq<string>)
    requires names != []
    ensures Join(names) == [] <==> names == [[]]
  {
    if |names| > 1 {
      assert |Join(names)| > 0 by {
        assert Join(names) == EscapeField(names[0]) + [Delimiter] + Join(names[1..]);
      }
    } else if names[0] != [] {
      assert |EscapeUnit(names[0][0])| > 0;
    }
  }

  lemma {:induction false} ReadJoinLine(p: Parser, names: seq<string>)
    requires (p.state == StartRecord || p.state == StartField) && p.field == []
    requires names != [] && Join(names) != [] && NoLineBreaks(names)
    ensures Read(p, Join(names)) == Record(p.fields + names)
    decreases |names|
  {
    var n := names[0];
    if |names| == 1 {
      ReadLastField(p, n);
      assert p.field + n == n;
    } else if Join(names[1..]) == [] {
      ReadFieldThenEnd(p, names);
    } else {
      assert NoLineBreaks(names[1..]) by {
        forall i, j | 0 <= i < |names[1..]| && 0 <= j < |names[1..][i]|
          ensures !IsLineBreak(names[1..][i][j])
        {
          assert names[1..][i] == names[i + 1];
        }
      }
      ReadJoinLine(Parser(StartField, [], p.fields + [n]), names[1..]);
      ReadFieldThenDelimiter(p, n, Join(names[1..]));
      Seqs.AppendAssoc(EscapeField(n), [Delimiter], Join(names[1..]));
      Seqs.ConsTail(p.fields, names);
    }
  }

  /** A field, a delimiter and nothing more: the record ends with an empty field. */
  lemma ReadFieldThenEnd(p: Parser, names: seq<string>)
    requires (p.state == StartRecord || p.state == StartField) && p.field == []
    requires |names| > 1 && Join(names[1..]) == []
    ensures Read(p, Join(names)) == Record(p.fields + names)
  {
    var n := names[0];
    AfterFieldCollecting(p.state, n);
    var p' := Parser(AfterField(p.state, n), n, p.fields);
    assert p.field + n == n;
    JoinEmpty(names[1..]);
    assert Join(names) == EscapeField(n) + [Delimiter];
    ReadField(p, n, [Delimiter]);
    ReadFinalDelimiter(p');
    assert p.fields + [n, []] == p.fields + names;
  }

  /** Every non-empty column list other than one empty name, written on one line,
      reads back as exactly that list. */
  lemma RoundTrip(names: seq<string>)
    requires names != [] && names != [[]] && NoLineBreaks(names)
    ensures FirstRecord(Join(names)) == Record(names)
  {
    JoinEmpty(names);
    ReadJoinLine(Start, names);
  }

  /** The same list as the first line of a longer input reads back as that list,
      whatever the following lines hold; names may contain escaped line breaks. */
  lemma FirstLineRoundTrip(names: seq<string>, rest: string)
    requires names != [] && names != [[]]
    ensures FirstRecord(Join(names) + "\n" + rest) == Record(names)
  {
    ReadJoinNewline(Start, names, rest);
  }

  /** A first line that is blank is a record with no fields. */
  lemma BlankFirstLine(rest: string)
    ensures FirstRecord("\n" + rest) == Record([])
  {
    assert ("\n" + rest)[0] == '\n';
  }
}
