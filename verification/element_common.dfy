/**
 * What the two Python element variants share: the answer name, `prepare`, and
 * the loop of `parse` that gathers the per-column form fields into one
 * dictionary.
 */
module ElementCommon {
  import opened Wrappers
  import opened Bytes
  import Utf8
  import CsvReader
  import opened QuestionData

  const AnswerPrefix: string := "_single_csv_upload_"

  predicate IsLowerHex(c: char) { '0' <= c <= '9' || 'a' <= c <= 'f' }

  /** What `hashlib.sha1(...).hexdigest()` returns: forty lower-case hex digits. */
  type Digest = s: string | |s| == 40 && forall i | 0 <= i < |s| :: IsLowerHex(s[i])
    witness "0000000000000000000000000000000000000000"

  /** `get_answer_name`: the prefix, then the SHA-1 digest of the UTF-8 bytes of
      `s`. The hash function is a parameter of the model. */
  function AnswerName(sha1: seq<byte> -> Digest, s: string): (r: string)
    ensures |r| == |AnswerPrefix| + 40 && r[..|AnswerPrefix|] == AnswerPrefix
    ensures forall i | |AnswerPrefix| <= i < |r| :: IsLowerHex(r[i])
  {
    AnswerPrefix + sha1(Utf8.Encode(s))
  }

  /** Two elements share an answer name exactly when their strings' digests
      agree; in particular equal strings always do. */
  lemma AnswerNameCollision(sha1: seq<byte> -> Digest, s: string, t: string)
    ensures AnswerName(sha1, s) == AnswerName(sha1, t) <==> sha1(Utf8.Encode(s)) == sha1(Utf8.Encode(t))
  {
    if AnswerName(sha1, s) == AnswerName(sha1, t) {
      assert AnswerName(sha1, s)[|AnswerPrefix|..] == sha1(Utf8.Encode(s));
      assert AnswerName(sha1, t)[|AnswerPrefix|..] == sha1(Utf8.Encode(t));
    }
  }

  /** `prepare`: create `_required_column_names` as `[]` when absent, then
      extend it with the first record of the `column-names` attribute. When
      that record cannot be read the exception escapes after the list was
      created. */
  method Prepare(data: Data, rawColumnNames: string) returns (raised: Option<PyException>)
    modifies data
    ensures data.submittedAnswers == old(data.submittedAnswers)
    ensures data.formatErrors == old(data.formatErrors) && data.submittedFiles == old(data.submittedFiles)
    ensures var had := old(data.requiredColumnNames).GetOr([]);
      match CsvReader.FirstRecord(rawColumnNames)
      case Record(names) => raised.None? && data.requiredColumnNames == Some(had + names)
      case o => raised == Some(Raised(o)) && data.requiredColumnNames == Some(had)
  {
    if data.requiredColumnNames.None? {
      data.requiredColumnNames := Some([]);
    }
    var record := CsvReader.FirstRecord(rawColumnNames);
    if !record.Record? {
      return Some(Raised(record));
    }
    data.requiredColumnNames := Some(data.requiredColumnNames.value + record.fields);
    raised := None;
  }

  /** What `parse` leaves behind: the new `submitted_answers`, the format errors
      and submitted files it added, and the exception that escaped, if any. */
  datatype Outcome = Outcome(answers: Answers, errors: seq<FormatError>, files: seq<SubmittedFile>, raised: Option<PyException>)

  /** The value stored for a column: the submitted value, or, in the variant
      with `or wanted_name`, the column's own name when that value is falsy. */
  function UserValue(v: Value, name: string, fallback: bool): Value {
    if fallback && !Truthy(v) then Str(name) else v
  }

  /** One pass of the loop body: read the column's form field `key`, store its
      value under `name` in the dictionary at `k`, delete `key`. On an
      exception the answers are as they were before the failing statement. */
  function ColumnStep(sa: Answers, k: string, key: string, name: string, fallback: bool): (Answers, Option<PyException>) {
    if key !in sa then (sa, Some(KeyError(key)))
    else
      var v := UserValue(sa[key], name, fallback);
      if k !in sa then (sa, Some(KeyError(k)))
      else match sa[k]
        case Str(_) => (sa, Some(TypeError))
        case Dict(cols) => (sa[k := Dict(cols[name := v])] - {key}, None)
  }

  /** The whole loop over the wanted names, in order, stopping at the first
      exception. `keyOf` gives the form field of a column. */
  function ColumnLoop(sa: Answers, k: string, keyOf: string -> string, fallback: bool, names: seq<string>): (Answers, Option<PyException>)
    decreases |names|
  {
    if names == [] then (sa, None)
    else
      var (sa', raised) := ColumnStep(sa, k, keyOf(names[0]), names[0], fallback);
      if raised.Some? then (sa', raised) else ColumnLoop(sa', k, keyOf, fallback, names[1..])
  }

  /** The loop itself: `data` changes only in `submitted_answers`, which ends
      as `ColumnLoop` says, with the exception that stopped the loop. */
  method GatherColumns(data: Data, k: string, keyOf: string -> string, fallback: bool, names: seq<string>)
    returns (raised: Option<PyException>)
    modifies data
    ensures (data.submittedAnswers, raised) == ColumnLoop(old(data.submittedAnswers), k, keyOf, fallback, names)
    ensures data.requiredColumnNames == old(data.requiredColumnNames)
    ensures data.formatErrors == old(data.formatErrors) && data.submittedFiles == old(data.submittedFiles)
  {
    var i := 0;
    while i < |names|
      invariant 0 <= i <= |names|
      invariant ColumnLoop(old(data.submittedAnswers), k, keyOf, fallback, names)
        == ColumnLoop(data.submittedAnswers, k, keyOf, fallback, names[i..])
      invariant data.requiredColumnNames == old(data.requiredColumnNames)
      invariant data.formatErrors == old(data.formatErrors) && data.submittedFiles == old(data.submittedFiles)
    {
      var wanted := names[i];
      assert names[i..][0] == wanted && names[i..][1..] == names[i + 1..];
      var key := keyOf(wanted);
      if key !in data.submittedAnswers {
        return Some(KeyError(key));
      }
      var user := UserValue(data.submittedAnswers[key], wanted, fallback);
      if k !in data.submittedAnswers {
        return Some(KeyError(k));
      }
      match data.submittedAnswers[k] {
        case Str(_) =>
          return Some(TypeError);
        case Dict(cols) =>
          data.submittedAnswers := data.submittedAnswers[k := Dict(cols[wanted := user])];
      }
      data.submittedAnswers := data.submittedAnswers - {key};
      i := i + 1;
    }
    raised := None;
  }

  predicate Distinct(names: seq<string>) {
    forall i, j | 0 <= i < j < |names| :: names[i] != names[j]
  }

  function KeySet(keyOf: string -> string, names: seq<string>): set<string> {
    set n | n in names :: keyOf(n)
  }

  /** The column dictionary the loop builds when it runs to the end. */
  function Collected(sa: Answers, keyOf: string -> string, fallback: bool, names: seq<string>): map<string, Value>
    requires forall n | n in names :: keyOf(n) in sa
  {
    map n | n in names :: UserValue(sa[keyOf(n)], n, fallback)
  }

  lemma DistinctCons(names: seq<string>)
    requires names != []
    ensures Distinct(names) <==> Distinct(names[1..]) && names[0] !in names[1..]
  {
    if Distinct(names[1..]) && names[0] !in names[1..] {
      forall i, j | 0 <= i < j < |names| ensures names[i] != names[j] {
        if i > 0 {
          assert names[i] == names[1..][i - 1] && names[j] == names[1..][j - 1];
        } else {
          assert names[j] == names[1..][j - 1];
        }
      }
    }
    if Distinct(names) {
      forall i, j | 0 <= i < j < |names[1..]| ensures names[1..][i] != names[1..][j] {
        assert names[1..][i] == names[i + 1] && names[1..][j] == names[j + 1];
      }
    }
  }

  /** The loop never touches a key other than `k` and the columns' fields. */
  lemma {:induction false} ColumnLoopFrame(sa: Answers, k: string, keyOf: string -> string, fallback: bool, names: seq<string>, x: string)
    requires x != k && forall n | n in names :: keyOf(n) != x
    ensures x in ColumnLoop(sa, k, keyOf, fallback, names).0 <==> x in sa
    ensures x in sa ==> ColumnLoop(sa, k, keyOf, fallback, names).0[x] == sa[x]
    decreases |names|
  {
    if names != [] {
      var (sa', raised) := ColumnStep(sa, k, keyOf(names[0]), names[0], fallback);
      assert x in sa' <==> x in sa;
      assert x in sa ==> sa'[x] == sa[x];
      if raised.None? {
        assert forall n | n in names[1..] :: n in names;
        ColumnLoopFrame(sa', k, keyOf, fallback, names[1..], x);
      }
    }
  }

  /**
   * When the dictionary key `k` holds a dictionary and differs from every
   * column's field, and distinct names have distinct fields, the loop raises
   * nothing exactly when the names are distinct and every field is present,
   * and what it raises is a KeyError for one of the fields.
   */
  lemma {:induction false} ColumnLoopRaises(sa: Answers, k: string, keyOf: string -> string, fallback: bool, names: seq<string>, cols: map<string, Value>)
    requires k in sa && sa[k] == Dict(cols)
    requires forall n | n in names :: keyOf(n) != k
    requires forall a, b | a in names && b in names && keyOf(a) == keyOf(b) :: a == b
    ensures var raised := ColumnLoop(sa, k, keyOf, fallback, names).1;
      && (raised.None? <==> Distinct(names) && forall n | n in names :: keyOf(n) in sa)
      && (raised.Some? ==> raised.value.KeyError? && raised.value.key in KeySet(keyOf, names))
    decreases |names|
  {
    if names != [] {
      var n0, tail := names[0], names[1..];
      var key0 := keyOf(n0);
      assert forall n | n in tail :: n in names;
      DistinctCons(names);
      if key0 in sa {
        var cols1 := cols[n0 := UserValue(sa[key0], n0, fallback)];
        var sa1 := sa[k := Dict(cols1)] - {key0};
        assert ColumnStep(sa, k, key0, n0, fallback) == (sa1, None);
        assert ColumnLoop(sa, k, keyOf, fallback, names) == ColumnLoop(sa1, k, keyOf, fallback, tail);
        ColumnLoopRaises(sa1, k, keyOf, fallback, tail, cols1);
        assert forall n | n in tail :: (keyOf(n) in sa1 <==> keyOf(n) in sa && n != n0);
        assert KeySet(keyOf, tail) <= KeySet(keyOf, names);
      }
    }
  }

  /** The column dictionary depends only on the values of the fields. */
  lemma CollectedAgree(sa: Answers, sa1: Answers, keyOf: string -> string, fallback: bool, names: seq<string>)
    requires forall n | n in names :: keyOf(n) in sa && keyOf(n) in sa1 && sa1[keyOf(n)] == sa[keyOf(n)]
    ensures Collected(sa1, keyOf, fallback, names) == Collected(sa, keyOf, fallback, names)
  {
  }

  /** The entry of the first name, then those of the rest. */
  lemma CollectedCons(sa: Answers, keyOf: string -> string, fallback: bool, names: seq<string>, cols: map<string, Value>)
    requires names != [] && forall n | n in names :: keyOf(n) in sa
    ensures cols[names[0] := UserValue(sa[keyOf(names[0])], names[0], fallback)] + Collected(sa, keyOf, fallback, names[1..])
      == cols + Collected(sa, keyOf, fallback, names)
  {
    var n0, tail := names[0], names[1..];
    assert forall n | n in tail :: n in names;
    var L := cols[n0 := UserValue(sa[keyOf(n0)], n0, fallback)] + Collected(sa, keyOf, fallback, tail);
    var R := cols + Collected(sa, keyOf, fallback, names);
    assert forall n | n in names :: n == n0 || n in tail;
    assert L.Keys == R.Keys;
  }

  /** The keys a completed pass removes, seen from the end of the loop. */
  lemma RemovedStep(sa: Answers, k: string, keyOf: string -> string, names: seq<string>, d: Value, d1: Value)
    requires names != [] && k in sa && forall n | n in names :: keyOf(n) != k
    ensures (sa[k := d1] - {keyOf(names[0])} - KeySet(keyOf, names[1..]))[k := d] == (sa - KeySet(keyOf, names))[k := d]
  {
    assert forall n | n in names[1..] :: n in names;
    assert KeySet(keyOf, names) == {keyOf(names[0])} + KeySet(keyOf, names[1..]);
    var L := (sa[k := d1] - {keyOf(names[0])} - KeySet(keyOf, names[1..]))[k := d];
    var R := (sa - KeySet(keyOf, names))[k := d];
    assert L.Keys == R.Keys;
    forall x | x in L ensures L[x] == R[x] {
    }
  }

  /** Under the same conditions, a loop over distinct names whose fields are
      all present removes the fields and adds one entry per name to `k`. */
  lemma {:induction false} ColumnLoopCollects(sa: Answers, k: string, keyOf: string -> string, fallback: bool, names: seq<string>, cols: map<string, Value>)
    requires k in sa && sa[k] == Dict(cols)
    requires forall n | n in names :: keyOf(n) != k
    requires forall a, b | a in names && b in names && keyOf(a) == keyOf(b) :: a == b
    requires Distinct(names) && forall n | n in names :: keyOf(n) in sa
    ensures ColumnLoop(sa, k, keyOf, fallback, names)
      == ((sa - KeySet(keyOf, names))[k := Dict(cols + Collected(sa, keyOf, fallback, names))], None)
    decreases |names|
  {
    if names != [] {
      var n0, tail := names[0], names[1..];
      var key0 := keyOf(n0);
      assert forall n | n in tail :: n in names;
      DistinctCons(names);
      var cols1 := cols[n0 := UserValue(sa[key0], n0, fallback)];
      var sa1 := sa[k := Dict(cols1)] - {key0};
      assert ColumnStep(sa, k, key0, n0, fallback) == (sa1, None);
      assert ColumnLoop(sa, k, keyOf, fallback, names) == ColumnLoop(sa1, k, keyOf, fallback, tail);
      assert forall n | n in tail :: keyOf(n) in sa1 && sa1[keyOf(n)] == sa[keyOf(n)];
      ColumnLoopCollects(sa1, k, keyOf, fallback, tail, cols1);
      CollectedAgree(sa, sa1, keyOf, fallback, tail);
      CollectedCons(sa, keyOf, fallback, names, cols);
      RemovedStep(sa, k, keyOf, names, Dict(cols + Collected(sa, keyOf, fallback, names)), Dict(cols1));
    } else {
      assert KeySet(keyOf, names) == {};
      assert cols + Collected(sa, keyOf, fallback, names) == cols;
      assert (sa - {})[k := Dict(cols)] == sa;
    }
  }

  /** A completed loop from an empty dictionary, entry by entry: one entry
      per name, holding the stored value of that name's field. */
  lemma ColumnLoopEntries(start: Answers, k: string, keyOf: string -> string, fallback: bool, names: seq<string>)
    requires k in start && start[k] == Dict(map[])
    requires forall n | n in names :: keyOf(n) != k
    requires forall a, b | a in names && b in names && keyOf(a) == keyOf(b) :: a == b
    requires Distinct(names) && forall n | n in names :: keyOf(n) in start
    ensures var r := ColumnLoop(start, k, keyOf, fallback, names).0;
      && k in r && r[k].Dict?
      && r[k].entries.Keys == (set n | n in names)
      && (forall n | n in names :: r[k].entries[n] == UserValue(start[keyOf(n)], n, fallback))
      && forall n | n in names :: keyOf(n) !in r
  {
    ColumnLoopCollects(start, k, keyOf, fallback, names, map[]);
    var c := Collected(start, keyOf, fallback, names);
    assert map[] + c == c;
    assert forall n | n in names :: keyOf(n) in KeySet(keyOf, names);
  }

  /** A sequence without repeats has as many distinct elements as entries. */
  lemma {:induction false} DistinctCard(names: seq<string>)
    requires Distinct(names)
    ensures |set n | n in names| == |names|
    decreases |names|
  {
    if names != [] {
      DistinctCons(names);
      DistinctCard(names[1..]);
      assert (set n | n in names) == (set n | n in names[1..]) + {names[0]};
    }
  }

  predicate Injective(m: map<string, Value>) {
    forall a, b | a in m && b in m && m[a] == m[b] :: a == b
  }

  /** `len(set(d.values())) == len(d)` holds exactly when no two keys of `d`
      share a value. */
  lemma {:induction false} ValuesCard(m: map<string, Value>)
    ensures |m.Values| <= |m.Keys|
    ensures |m.Values| == |m.Keys| <==> Injective(m)
    decreases |m.Keys|
  {
    if m != map[] {
      var x :| x in m;
      var m' := m - {x};
      ValuesCard(m');
      assert m.Keys == m'.Keys + {x};
      forall v | v in m.Values ensures v in m'.Values + {m[x]} {
        var y :| y in m && m[y] == v;
        if y != x {
          assert m'[y] == v;
        }
      }
      assert m'.Values + {m[x]} <= m.Values;
      if m[x] in m'.Values {
        assert m.Values == m'.Values;
        var y :| y in m' && m'[y] == m[x];
        assert y != x && m[y] == m[x];
      } else {
        assert m.Values == m'.Values + {m[x]};
        if Injective(m') {
          forall a, b | a in m && b in m && m[a] == m[b] ensures a == b {
            if a != x && b != x {
              assert m'[a] == m'[b];
            }
          }
        }
      }
    }
  }
}
