/**
 * The declarative record validator: a Field classifies one value (absent,
 * wrong type, or checked by its validators in order), and a Schema folds its
 * Fields over a record into a per-field error report.
 */
module Validation {
  import W = Wrappers

  /** A record value: Python's None, a bool, an int or a str. */
  datatype Value = None | Bool(b: bool) | Int(i: int) | Str(s: string)

  /** A record: a dict from keys to values. */
  type Record = map<string, Value>

  /** data.get(name): the value under name, or None when the key is missing. */
  function Get(data: Record, name: string): Value
  {
    if name in data then data[name] else None
  }

  /** The Python types a Field can demand. */
  datatype TypeTag = BoolType | IntType | StrType

  /** __name__ of a type */
  function TypeName(t: TypeTag): string
  {
    match t
    case BoolType => "bool"
    case IntType => "int"
    case StrType => "str"
  }

  /** type(v) of a present value */
  function TypeOf(v: Value): TypeTag
    requires !v.None?
  {
    match v
    case Bool(_) => BoolType
    case Int(_) => IntType
    case Str(_) => StrType
  }

  /** isinstance(v, t): bool is a subclass of int, so a bool passes an int check. */
  predicate IsInstance(v: Value, t: TypeTag)
    requires !v.None?
  {
    TypeOf(v) == t || (TypeOf(v) == BoolType && t == IntType)
  }

  /**
   * What calling a validator on a value did: it returned a truthy or a falsy
   * result, raised ValueError with a message, or raised any other exception.
   */
  datatype Verdict = Truthy | Falsy | ValueErr(message: string) | OtherErr(exception: string)

  /** A validator callable together with its __name__ ("<lambda>" for a lambda). */
  datatype Validator = Validator(name: string, call: Value -> Verdict)

  /** One entry of a field's error list. */
  datatype FieldError =
    | Required
    | TypeMismatch(expected: TypeTag, got: TypeTag)
    | Failed(validator: string)
    | ValidationError(message: string)

  /** The error string the source builds for each kind of error. */
  function Message(e: FieldError): string
  {
    match e
    case Required => "Field is required"
    case TypeMismatch(expected, got) =>
      // the f-string is continued with a backslash, so the continuation
      // line's twenty spaces of indentation are part of the text
      "Expected type " + TypeName(expected) + "                    , got " + TypeName(got)
    case Failed(name) => "Failed validation with " + name
    case ValidationError(msg) => "Validation error: " + msg
  }

  /** The result of a call that may raise: what it returned, or the exception it let out. */
  datatype Outcome<T> = Returned(value: T) | Raised(exception: string)

  /** The error list one validator contributes, or the exception it raises. */
  function ValidatorStep(v: Validator, value: Value): Outcome<seq<FieldError>>
  {
    match v.call(value)
    case Truthy => Returned([])
    case Falsy => Returned([Failed(v.name)])
    case ValueErr(msg) => Returned([ValidationError(msg)])
    case OtherErr(x) => Raised(x)
  }

  /** The validator loop of Field.validate, as the errors accumulated over vs in order. */
  function RunValidators(vs: seq<Validator>, value: Value): Outcome<seq<FieldError>>
  {
    if vs == [] then Returned([])
    else
      match RunValidators(vs[..|vs| - 1], value)
      case Raised(x) => Raised(x)
      case Returned(errs) =>
        match ValidatorStep(vs[|vs| - 1], value)
        case Raised(x) => Raised(x)
        case Returned(more) => Returned(errs + more)
  }

  /**
   * A reference reading of the validator loop when no validator raises
   * anything but ValueError: one entry per validator that returned a falsy
   * result or raised ValueError, in list order.
   */
  function Reported(vs: seq<Validator>, value: Value): seq<FieldError>
  {
    if vs == [] then []
    else
      var head := match vs[0].call(value)
        case Falsy => [Failed(vs[0].name)]
        case ValueErr(msg) => [ValidationError(msg)]
        case _ => [];
      head + Reported(vs[1..], value)
  }

  lemma {:induction false} ReportedAppend(vs: seq<Validator>, v: Validator, value: Value)
    requires !v.call(value).OtherErr?
    ensures ValidatorStep(v, value).Returned?
    ensures Reported(vs + [v], value) == Reported(vs, value) + ValidatorStep(v, value).value
    decreases |vs|
  {
    if vs == [] {
      assert [v][1..] == [];
    } else {
      assert (vs + [v])[1..] == vs[1..] + [v];
      ReportedAppend(vs[1..], v, value);
    }
  }

  /**
   * When no validator raises anything but ValueError, the loop runs every
   * validator in order: each falsy result adds "Failed validation with
   * <name>", each ValueError adds "Validation error: <msg>" and the loop goes on.
   */
  lemma {:induction false} RunValidatorsReports(vs: seq<Validator>, value: Value)
    requires forall i :: 0 <= i < |vs| ==> !vs[i].call(value).OtherErr?
    ensures RunValidators(vs, value) == Returned(Reported(vs, value))
    decreases |vs|
  {
    if vs != [] {
      var init := vs[..|vs| - 1];
      RunValidatorsReports(init, value);
      ReportedAppend(init, vs[|vs| - 1], value);
      assert init + [vs[|vs| - 1]] == vs;
    }
  }

  /**
   * Any other exception propagates: the loop raises exactly when some
   * validator raises it, and then it raises the exception of the first such
   * validator, after every earlier validator ran without raising.
   */
  lemma {:induction false} RunValidatorsRaises(vs: seq<Validator>, value: Value)
    ensures RunValidators(vs, value).Raised? <==>
      exists i :: 0 <= i < |vs| && vs[i].call(value).OtherErr?
    ensures RunValidators(vs, value).Raised? ==>
      exists i :: 0 <= i < |vs| && vs[i].call(value) == OtherErr(RunValidators(vs, value).exception) &&
        forall j :: 0 <= j < i ==> !vs[j].call(value).OtherErr?
    decreases |vs|
  {
    if vs != [] {
      var init := vs[..|vs| - 1];
      RunValidatorsRaises(init, value);
      assert forall j :: 0 <= j < |init| ==> init[j] == vs[j];
    }
  }

  /** The number of entries is the number of validators that returned falsy or raised ValueError, so at most one per validator. */
  lemma {:induction false} ReportedLength(vs: seq<Validator>, value: Value)
    ensures |Reported(vs, value)| <= |vs|
    ensures |Reported(vs, value)| == |vs| <==>
      forall i :: 0 <= i < |vs| ==> vs[i].call(value).Falsy? || vs[i].call(value).ValueErr?
    decreases |vs|
  {
    if vs != [] {
      ReportedLength(vs[1..], value);
      assert forall i :: 1 <= i < |vs| ==> vs[i] == vs[1..][i - 1];
    }
  }

  /** Once the loop has raised, the remaining validators do not run. */
  lemma {:induction false} RunValidatorsRaisedPrefix(vs: seq<Validator>, value: Value, k: nat)
    requires k <= |vs| && RunValidators(vs[..k], value).Raised?
    ensures RunValidators(vs, value) == RunValidators(vs[..k], value)
    decreases |vs| - k
  {
    if k < |vs| {
      assert vs[..k + 1][..k] == vs[..k];
      RunValidatorsRaisedPrefix(vs, value, k + 1);
    } else {
      assert vs[..k] == vs;
    }
  }

  lemma RunSingleValidator(v: Validator, value: Value)
    ensures RunValidators([v], value) == ValidatorStep(v, value)
  {
    assert [v][..0] == [];
    assert RunValidators([v][..0], value) == Returned([]);
    assert [v][0] == v;
    match ValidatorStep(v, value)
    case Raised(x) =>
    case Returned(more) => assert [] + more == more;
  }

  /** Field: the rules for one attribute of a record. */
  class Field {
    const fieldType: TypeTag
    const required: bool
    const validators: seq<Validator>
    const default: Value

    /** Field(field_type, required=True, validators=None, default=None): a missing validator list becomes []. */
    constructor (fieldType: TypeTag, required: bool, validators: W.Option<seq<Validator>>, default: Value)
      ensures this.fieldType == fieldType && this.required == required && this.default == default
      ensures this.validators == if validators.Some? then validators.value else []
    {
      this.fieldType := fieldType;
      this.required := required;
      this.validators := if validators.Some? then validators.value else [];
      this.default := default;
    }

    /** What validate returns for value, or the exception it lets out. */
    function Evaluate(value: Value): Outcome<seq<FieldError>>
    {
      if value.None? then Returned(if required then [Required] else [])
      else if !IsInstance(value, fieldType) then Returned([TypeMismatch(fieldType, TypeOf(value))])
      else RunValidators(validators, value)
    }

    /**
     * validate(value): an absent value gives "Field is required" or nothing,
     * a wrong type gives exactly one type error, and only a well-typed value
     * reaches the validators, which run in order.
     */
    method Validate(value: Value) returns (r: Outcome<seq<FieldError>>)
      ensures r == Evaluate(value)
      ensures value.None? ==> r == Returned(if required then [Required] else [])
      ensures !value.None? && !IsInstance(value, fieldType) ==>
        r == Returned([TypeMismatch(fieldType, TypeOf(value))])
      ensures !value.None? && IsInstance(value, fieldType) ==> r == RunValidators(validators, value)
    {
      var errors: seq<FieldError> := [];
      if value.None? {
        if required {
          errors := errors + [Required];
        }
        assert errors == if required then [Required] else [];
        return Returned(errors);
      }
      if !IsInstance(value, fieldType) {
        errors := errors + [TypeMismatch(fieldType, TypeOf(value))];
        assert errors == [TypeMismatch(fieldType, TypeOf(value))];
        return Returned(errors);
      }
      var i := 0;
      while i < |validators|
        invariant 0 <= i <= |validators|
        invariant RunValidators(validators[..i], value) == Returned(errors)
      {
        var validator := validators[i];
        ghost var before := errors;
        assert validators[..i + 1] == validators[..i] + [validator];
        match validator.call(value) {
          case Truthy =>
          case Falsy =>
            errors := errors + [Failed(validator.name)];
          case ValueErr(msg) =>
            errors := errors + [ValidationError(msg)];
          case OtherErr(x) =>
            assert validators[..i + 1][..i] == validators[..i];
            RunValidatorsRaisedPrefix(validators, value, i + 1);
            return Raised(x);
        }
        assert validators[..i + 1][..i] == validators[..i];
        assert errors == before + ValidatorStep(validator, value).value;
        i := i + 1;
      }
      assert validators[..i] == validators;
      r := Returned(errors);
    }
  }

  /** The report validate builds: field names with their non-empty error lists, in field order. */
  type Report = seq<(string, seq<FieldError>)>

  function Names<T>(entries: seq<(string, T)>): (ns: seq<string>)
    ensures |ns| == |entries|
    ensures forall i :: 0 <= i < |entries| ==> ns[i] == entries[i].0
  {
    if entries == [] then [] else [entries[0].0] + Names(entries[1..])
  }

  /** The keys of a dict are distinct. */
  predicate DistinctNames<T>(entries: seq<(string, T)>)
  {
    forall i, j :: 0 <= i < j < |entries| ==> entries[i].0 != entries[j].0
  }

  /** a is a subsequence of b: a keeps some of b's elements, in b's order. */
  predicate IsSubsequence<T(==)>(a: seq<T>, b: seq<T>)
    decreases |b|
  {
    if a == [] then true
    else if b == [] then false
    else if a[|a| - 1] == b[|b| - 1] then IsSubsequence(a[..|a| - 1], b[..|b| - 1])
    else IsSubsequence(a, b[..|b| - 1])
  }

  /** What field i of fs gives for the record. */
  function FieldOutcome(fs: seq<(string, Field)>, data: Record, i: nat): Outcome<seq<FieldError>>
    requires i < |fs|
  {
    fs[i].1.Evaluate(Get(data, fs[i].0))
  }

  /** The loop of Schema.validate over the fields fs, in order. */
  function ReportOf(fs: seq<(string, Field)>, data: Record): Outcome<Report>
  {
    if fs == [] then Returned([])
    else
      var (name, field) := fs[|fs| - 1];
      match ReportOf(fs[..|fs| - 1], data)
      case Raised(x) => Raised(x)
      case Returned(report) =>
        match field.Evaluate(Get(data, name))
        case Raised(x) => Raised(x)
        case Returned(errs) => Returned(if errs == [] then report else report + [(name, errs)])
  }

  lemma {:induction false} SubsequenceDropLast<T>(a: seq<T>, b: seq<T>)
    requires a != [] && IsSubsequence(a, b)
    ensures IsSubsequence(a[..|a| - 1], b)
    decreases |b|, 0
  {
    var a' := a[..|a| - 1];
    var b' := b[..|b| - 1];
    if a[|a| - 1] != b[|b| - 1] {
      SubsequenceDropLast(a, b');
    }
    SubsequenceExtendRight(a', b', b[|b| - 1]);
    assert b' + [b[|b| - 1]] == b;
  }

  lemma {:induction false} SubsequenceExtendRight<T>(a: seq<T>, b: seq<T>, x: T)
    requires IsSubsequence(a, b)
    ensures IsSubsequence(a, b + [x])
    decreases |b|, 1
  {
    assert (b + [x])[..|b|] == b;
    if a != [] && a[|a| - 1] == x {
      SubsequenceDropLast(a, b);
    }
  }

  /** Every field of fs returns; otherwise the first field that raises decides the exception. */
  lemma {:induction false} ReportOfRaises(fs: seq<(string, Field)>, data: Record)
    ensures ReportOf(fs, data).Returned? <==>
      forall i :: 0 <= i < |fs| ==> FieldOutcome(fs, data, i).Returned?
    ensures ReportOf(fs, data).Raised? ==>
      exists i :: 0 <= i < |fs| && FieldOutcome(fs, data, i) == Raised(ReportOf(fs, data).exception) &&
        forall j :: 0 <= j < i ==> FieldOutcome(fs, data, j).Returned?
    decreases |fs|
  {
    if fs != [] {
      var init := fs[..|fs| - 1];
      var last := |fs| - 1;
      ReportOfRaises(init, data);
      assert forall j :: 0 <= j < |init| ==> FieldOutcome(init, data, j) == FieldOutcome(fs, data, j);
      if ReportOf(init, data).Raised? {
        var i :| 0 <= i < |init| && FieldOutcome(init, data, i) == Raised(ReportOf(init, data).exception) &&
          forall j :: 0 <= j < i ==> FieldOutcome(init, data, j).Returned?;
        assert FieldOutcome(fs, data, i) == Raised(ReportOf(fs, data).exception);
      } else if FieldOutcome(fs, data, last).Raised? {
        assert FieldOutcome(fs, data, last) == Raised(ReportOf(fs, data).exception);
      }
    }
  }

  /** Each entry of the report is a declared field with the non-empty list its Field gives for data.get(name). */
  lemma {:induction false} ReportOfSound(fs: seq<(string, Field)>, data: Record)
    requires ReportOf(fs, data).Returned?
    ensures forall k :: 0 <= k < |ReportOf(fs, data).value| ==>
      ReportOf(fs, data).value[k].1 != [] &&
      exists i :: 0 <= i < |fs| && fs[i].0 == ReportOf(fs, data).value[k].0 &&
        FieldOutcome(fs, data, i) == Returned(ReportOf(fs, data).value[k].1)
    decreases |fs|
  {
    if fs != [] {
      var init := fs[..|fs| - 1];
      ReportOfSound(init, data);
      assert forall j :: 0 <= j < |init| ==> FieldOutcome(init, data, j) == FieldOutcome(fs, data, j);
    }
  }

  /** Every declared field whose list is non-empty is in the report, with that list. */
  lemma {:induction false} ReportOfComplete(fs: seq<(string, Field)>, data: Record)
    requires ReportOf(fs, data).Returned?
    ensures forall i :: 0 <= i < |fs| ==> FieldOutcome(fs, data, i).Returned?
    ensures forall i :: 0 <= i < |fs| && FieldOutcome(fs, data, i).value != [] ==>
      (fs[i].0, FieldOutcome(fs, data, i).value) in ReportOf(fs, data).value
    decreases |fs|
  {
    ReportOfRaises(fs, data);
    if fs != [] {
      var init := fs[..|fs| - 1];
      ReportOfComplete(init, data);
      assert forall j :: 0 <= j < |init| ==> FieldOutcome(init, data, j) == FieldOutcome(fs, data, j);
    }
  }

  lemma NamesSnoc<T>(entries: seq<(string, T)>, e: (string, T))
    ensures Names(entries + [e]) == Names(entries) + [e.0]
  {
    assert forall i :: 0 <= i < |entries| + 1 ==> Names(entries + [e])[i] == (Names(entries) + [e.0])[i];
  }

  lemma SubsequenceExtendBoth<T>(a: seq<T>, b: seq<T>, x: T)
    requires IsSubsequence(a, b)
    ensures IsSubsequence(a + [x], b + [x])
  {
    assert (a + [x])[..|a|] == a;
    assert (b + [x])[..|b|] == b;
  }

  /** The report's keys appear in declaration order. */
  lemma {:induction false} ReportOfOrdered(fs: seq<(string, Field)>, data: Record)
    requires ReportOf(fs, data).Returned?
    ensures IsSubsequence(Names(ReportOf(fs, data).value), Names(fs))
    decreases |fs|
  {
    if fs != [] {
      var init, last := fs[..|fs| - 1], fs[|fs| - 1];
      assert fs == init + [last];
      ReportOfOrdered(init, data);
      var report := ReportOf(init, data).value;
      NamesSnoc(init, last);
      var errs := FieldOutcome(fs, data, |fs| - 1).value;
      if errs == [] {
        SubsequenceExtendRight(Names(report), Names(init), last.0);
      } else {
        NamesSnoc(report, (last.0, errs));
        SubsequenceExtendBoth(Names(report), Names(init), last.0);
      }
    }
  }

  /** The report is empty exactly when every declared field gives an empty list. */
  lemma ReportOfEmpty(fs: seq<(string, Field)>, data: Record)
    requires ReportOf(fs, data).Returned?
    ensures ReportOf(fs, data).value == [] <==>
      forall i :: 0 <= i < |fs| ==> FieldOutcome(fs, data, i) == Returned([])
  {
    ReportOfSound(fs, data);
    ReportOfComplete(fs, data);
    var report := ReportOf(fs, data).value;
    if report != [] {
      var i :| 0 <= i < |fs| && fs[i].0 == report[0].0 && FieldOutcome(fs, data, i) == Returned(report[0].1);
      assert FieldOutcome(fs, data, i) != Returned([]);
    }
  }

  /** Declared names are distinct, so a field's name is a key of the report exactly when its list is non-empty. */
  lemma ReportKeys(fs: seq<(string, Field)>, data: Record)
    requires DistinctNames(fs)
    requires ReportOf(fs, data).Returned?
    ensures forall i :: 0 <= i < |fs| ==>
      (fs[i].0 in Names(ReportOf(fs, data).value) <==> FieldOutcome(fs, data, i) != Returned([]))
  {
    ReportOfSound(fs, data);
    ReportOfComplete(fs, data);
    var report := ReportOf(fs, data).value;
    forall i | 0 <= i < |fs|
      ensures fs[i].0 in Names(report) <==> FieldOutcome(fs, data, i) != Returned([])
    {
      if fs[i].0 in Names(report) {
        var k :| 0 <= k < |report| && Names(report)[k] == fs[i].0;
        var j :| 0 <= j < |fs| && fs[j].0 == report[k].0 && FieldOutcome(fs, data, j) == Returned(report[k].1);
        assert j == i;
      }
    }
  }

  /** Declared names are distinct, so the report's keys are too: the report reads as a dict. */
  lemma ReportKeysDistinct(fs: seq<(string, Field)>, data: Record)
    requires DistinctNames(fs)
    requires ReportOf(fs, data).Returned?
    ensures DistinctNames(ReportOf(fs, data).value)
  {
    ReportOfOrdered(fs, data);
    var report := ReportOf(fs, data).value;
    forall k1, k2 | 0 <= k1 < k2 < |report| ensures report[k1].0 != report[k2].0 {
      SubsequenceDistinct(Names(report), Names(fs), k1, k2);
    }
  }

  lemma {:induction false} SubsequenceDistinct<T>(a: seq<T>, b: seq<T>, k1: nat, k2: nat)
    requires IsSubsequence(a, b)
    requires forall i, j :: 0 <= i < j < |b| ==> b[i] != b[j]
    requires k1 < k2 < |a|
    ensures a[k1] != a[k2]
    decreases |b|
  {
    var b' := b[..|b| - 1];
    if a[|a| - 1] == b[|b| - 1] {
      if k2 == |a| - 1 {
        SubsequenceMember(a[..|a| - 1], b', k1);
      } else {
        SubsequenceDistinct(a[..|a| - 1], b', k1, k2);
      }
    } else {
      SubsequenceDistinct(a, b', k1, k2);
    }
  }

  lemma {:induction false} SubsequenceMember<T>(a: seq<T>, b: seq<T>, k: nat)
    requires IsSubsequence(a, b)
    requires k < |a|
    ensures a[k] in b
    decreases |b|
  {
    var b' := b[..|b| - 1];
    if a[|a| - 1] == b[|b| - 1] {
      if k < |a| - 1 {
        SubsequenceMember(a[..|a| - 1], b', k);
      }
    } else {
      SubsequenceMember(a, b', k);
    }
  }

  /** Once a field has raised, the remaining fields are not evaluated. */
  lemma {:induction false} ReportOfRaisedPrefix(fs: seq<(string, Field)>, data: Record, k: nat)
    requires k <= |fs| && ReportOf(fs[..k], data).Raised?
    ensures ReportOf(fs, data) == ReportOf(fs[..k], data)
    decreases |fs| - k
  {
    if k < |fs| {
      assert fs[..k + 1][..k] == fs[..k];
      ReportOfRaisedPrefix(fs, data, k + 1);
    } else {
      assert fs[..k] == fs;
    }
  }

  /** The report depends on data only through data.get of the declared names. */
  lemma {:induction false} ReportOfDeclaredOnly(fs: seq<(string, Field)>, d1: Record, d2: Record)
    requires forall i :: 0 <= i < |fs| ==> Get(d1, fs[i].0) == Get(d2, fs[i].0)
    ensures ReportOf(fs, d1) == ReportOf(fs, d2)
    decreases |fs|
  {
    if fs != [] {
      ReportOfDeclaredOnly(fs[..|fs| - 1], d1, d2);
    }
  }

  /** A missing key is treated exactly like a key mapped to None. */
  lemma ReportMissingIsNone(fs: seq<(string, Field)>, data: Record, key: string)
    requires key !in data
    ensures ReportOf(fs, data[key := None]) == ReportOf(fs, data)
  {
    ReportOfDeclaredOnly(fs, data[key := None], data);
  }

  /** Keys that no field declares are ignored, whatever they hold. */
  lemma ReportIgnoresUndeclared(fs: seq<(string, Field)>, data: Record, key: string, v: Value)
    requires key !in Names(fs)
    ensures ReportOf(fs, data[key := v]) == ReportOf(fs, data)
  {
    assert forall i :: 0 <= i < |fs| ==> Names(fs)[i] == fs[i].0;
    ReportOfDeclaredOnly(fs, data[key := v], data);
  }

  /** apply_defaults' loop over the fields fs, starting from a copy of data. */
  function Defaulted(fs: seq<(string, Field)>, data: Record): Record
  {
    if fs == [] then data
    else
      var result := Defaulted(fs[..|fs| - 1], data);
      var (name, field) := fs[|fs| - 1];
      if name !in result && !field.default.None? then result[name := field.default] else result
  }

  /**
   * Defaults keep every key of data with its value (a key mapped to None
   * included), add each declared field whose key is absent and whose default
   * is not None, with that default, and add nothing else.
   */
  lemma {:induction false} DefaultedEntries(fs: seq<(string, Field)>, data: Record)
    requires DistinctNames(fs)
    ensures forall k :: k in data ==> k in Defaulted(fs, data) && Defaulted(fs, data)[k] == data[k]
    ensures forall i :: 0 <= i < |fs| && fs[i].0 !in data && !fs[i].1.default.None? ==>
      fs[i].0 in Defaulted(fs, data) && Defaulted(fs, data)[fs[i].0] == fs[i].1.default
    ensures forall k :: k in Defaulted(fs, data) && k !in data ==>
      exists i :: 0 <= i < |fs| && fs[i].0 == k && !fs[i].1.default.None?
    decreases |fs|
  {
    if fs != [] {
      var init := fs[..|fs| - 1];
      DefaultedEntries(init, data);
      assert forall i :: 0 <= i < |init| ==> init[i] == fs[i];
    }
  }

  lemma {:induction false} DefaultedKeepsComplete(fs: seq<(string, Field)>, data: Record)
    requires forall i :: 0 <= i < |fs| ==> fs[i].0 in data || fs[i].1.default.None?
    ensures Defaulted(fs, data) == data
    decreases |fs|
  {
    if fs != [] {
      DefaultedKeepsComplete(fs[..|fs| - 1], data);
    }
  }

  lemma {:induction false} DefaultedComplete(fs: seq<(string, Field)>, data: Record)
    ensures data.Keys <= Defaulted(fs, data).Keys
    ensures forall i :: 0 <= i < |fs| ==> fs[i].0 in Defaulted(fs, data) || fs[i].1.default.None?
    decreases |fs|
  {
    if fs != [] {
      DefaultedComplete(fs[..|fs| - 1], data);
    }
  }

  /** Applying defaults twice is applying them once. */
  lemma DefaultedIdempotent(fs: seq<(string, Field)>, data: Record)
    ensures Defaulted(fs, Defaulted(fs, data)) == Defaulted(fs, data)
  {
    DefaultedComplete(fs, data);
    DefaultedKeepsComplete(fs, Defaulted(fs, data));
  }

  /** Schema: named fields, in the order of the dict that declares them. */
  class Schema {
    const fields: seq<(string, Field)>

    /** The names are the keys of a dict, so they are distinct. */
    predicate Valid() { DistinctNames(fields) }

    constructor (fields: seq<(string, Field)>)
      requires DistinctNames(fields)
      ensures this.fields == fields && Valid()
    {
      this.fields := fields;
    }

    /**
     * validate(data): every declared field evaluates data.get(name), in
     * declaration order; a non-empty list is recorded under the name; an
     * exception other than ValueError from a validator propagates.
     */
    method Validate(data: Record) returns (r: Outcome<Report>)
      requires Valid()
      ensures r == ReportOf(fields, data)
      ensures r.Returned? ==> DistinctNames(r.value)
    {
      var errors: Report := [];
      var i := 0;
      while i < |fields|
        invariant 0 <= i <= |fields|
        invariant ReportOf(fields[..i], data) == Returned(errors)
      {
        var (fieldName, fieldDef) := fields[i];
        assert fields[..i + 1][..i] == fields[..i];
        var fieldErrors := fieldDef.Validate(Get(data, fieldName));
        match fieldErrors {
          case Raised(x) =>
            ReportOfRaisedPrefix(fields, data, i + 1);
            return Raised(x);
          case Returned(errs) =>
            if errs != [] {
              errors := errors + [(fieldName, errs)];
            }
        }
        i := i + 1;
      }
      assert fields[..i] == fields;
      r := Returned(errors);
      ReportKeysDistinct(fields, data);
    }

    /**
     * is_valid(data): the report of validate is empty, that is every declared
     * field gives no error; an exception from validate propagates.
     */
    function IsValid(data: Record): (r: Outcome<bool>)
      ensures r.Raised? <==> ReportOf(fields, data).Raised?
      ensures r.Raised? ==> r.exception == ReportOf(fields, data).exception
      ensures r.Returned? ==>
        (r.value <==> forall i :: 0 <= i < |fields| ==> FieldOutcome(fields, data, i) == Returned([]))
    {
      match ReportOf(fields, data)
      case Raised(x) => Raised(x)
      case Returned(report) =>
        ReportOfEmpty(fields, data);
        Returned(|report| == 0)
    }

    /**
     * apply_defaults(data): a new record, the copy of data with the defaults
     * of the absent fields filled in.
     */
    method ApplyDefaults(data: Record) returns (result: Record)
      ensures result == Defaulted(fields, data)
    {
      result := data;
      var i := 0;
      while i < |fields|
        invariant 0 <= i <= |fields|
        invariant result == Defaulted(fields[..i], data)
      {
        var (fieldName, fieldDef) := fields[i];
        assert fields[..i + 1][..i] == fields[..i];
        if fieldName !in result && !fieldDef.default.None? {
          result := result[fieldName := fieldDef.default];
        }
        i := i + 1;
      }
      assert fields[..i] == fields;
    }
  }

  /** Field(int, validators=[lambda x: x > 0]) on 5, -5 and "not an int". */
  method PositiveIntFieldExample() returns (five: Outcome<seq<FieldError>>, minusFive: Outcome<seq<FieldError>>,
                                            notAnInt: Outcome<seq<FieldError>>)
    ensures five == Returned([])
    ensures minusFive == Returned([Failed("<lambda>")])
    ensures notAnInt == Returned([TypeMismatch(IntType, StrType)])
  {
    var positive := Validator("<lambda>", (x: Value) =>
      match x
      case Int(n) => if n > 0 then Truthy else Falsy
      case Bool(b) => if b then Truthy else Falsy
      case _ => OtherErr("TypeError"));
    var field := new Field(IntType, true, W.Some([positive]), None);
    assert [positive][..0] == [];
    assert ValidatorStep(positive, Int(5)) == Returned([]);
    assert ValidatorStep(positive, Int(-5)) == Returned([Failed("<lambda>")]);
    RunSingleValidator(positive, Int(5));
    RunSingleValidator(positive, Int(-5));
    five := field.Validate(Int(5));
    minusFive := field.Validate(Int(-5));
    notAnInt := field.Validate(Str("not an int"));
  }

  /**
   * The user schema {name: str with len >= 3, age: int with >= 18, email:
   * optional str}: {"name": "John", "age": 25} is valid; {"name": "Jo",
   * "age": 25} is not.
   */
  method UserSchemaExample() returns (valid: Outcome<bool>, shortName: Outcome<bool>)
    ensures valid == Returned(true)
    ensures shortName == Returned(false)
  {
    var longEnough := Validator("<lambda>", (x: Value) =>
      match x
      case Str(t) => if |t| >= 3 then Truthy else Falsy
      case _ => OtherErr("TypeError"));
    var adult := Validator("<lambda>", (x: Value) =>
      match x
      case Int(n) => if n >= 18 then Truthy else Falsy
      case Bool(b) => Falsy
      case _ => OtherErr("TypeError"));
    var name := new Field(StrType, true, W.Some([longEnough]), None);
    var age := new Field(IntType, true, W.Some([adult]), None);
    var email := new Field(StrType, false, W.None, None);
    var schema := new Schema([("name", name), ("age", age), ("email", email)]);
    var fs := schema.fields;
    assert [longEnough][..0] == [] && [adult][..0] == [];

    var john := map["name" := Str("John"), "age" := Int(25)];
    assert ValidatorStep(longEnough, Str("John")) == Returned([]);
    assert ValidatorStep(adult, Int(25)) == Returned([]);
    RunSingleValidator(longEnough, Str("John"));
    RunSingleValidator(adult, Int(25));
    assert FieldOutcome(fs, john, 0) == Returned([]);
    assert FieldOutcome(fs, john, 1) == Returned([]);
    assert FieldOutcome(fs, john, 2) == Returned([]);
    ReportOfRaises(fs, john);
    valid := schema.IsValid(john);

    var jo := map["name" := Str("Jo"), "age" := Int(25)];
    assert ValidatorStep(longEnough, Str("Jo")) == Returned([Failed("<lambda>")]);
    RunSingleValidator(longEnough, Str("Jo"));
    assert FieldOutcome(fs, jo, 0) == Returned([Failed("<lambda>")]);
    assert FieldOutcome(fs, jo, 1) == Returned([]) && FieldOutcome(fs, jo, 2) == Returned([]);
    ReportOfRaises(fs, jo);
    shortName := schema.IsValid(jo);

  }

  /** The same user schema rejects an age under 18 and a missing name. */
  method UserSchemaRejectsExample() returns (underage: Outcome<bool>, missingName: Outcome<bool>)
    ensures underage == Returned(false)
    ensures missingName == Returned(false)
  {
    var longEnough := Validator("<lambda>", (x: Value) =>
      match x
      case Str(t) => if |t| >= 3 then Truthy else Falsy
      case _ => OtherErr("TypeError"));
    var adult := Validator("<lambda>", (x: Value) =>
      match x
      case Int(n) => if n >= 18 then Truthy else Falsy
      case Bool(b) => Falsy
      case _ => OtherErr("TypeError"));
    var name := new Field(StrType, true, W.Some([longEnough]), None);
    var age := new Field(IntType, true, W.Some([adult]), None);
    var email := new Field(StrType, false, W.None, None);
    var schema := new Schema([("name", name), ("age", age), ("email", email)]);
    var fs := schema.fields;
    assert [longEnough][..0] == [] && [adult][..0] == [];

    var young := map["name" := Str("John"), "age" := Int(16)];
    assert ValidatorStep(longEnough, Str("John")) == Returned([]);
    RunSingleValidator(longEnough, Str("John"));
    assert ValidatorStep(adult, Int(16)) == Returned([Failed("<lambda>")]);
    RunSingleValidator(adult, Int(16));
    assert FieldOutcome(fs, young, 1) == Returned([Failed("<lambda>")]);
    assert FieldOutcome(fs, young, 0) == Returned([]) && FieldOutcome(fs, young, 2) == Returned([]);
    ReportOfRaises(fs, young);
    underage := schema.IsValid(young);

    var nameless := map["age" := Int(25)];
    assert ValidatorStep(adult, Int(25)) == Returned([]);
    RunSingleValidator(adult, Int(25));
    assert FieldOutcome(fs, nameless, 0) == Returned([Required]);
    assert FieldOutcome(fs, nameless, 1) == Returned([]) && FieldOutcome(fs, nameless, 2) == Returned([]);
    ReportOfRaises(fs, nameless);
    missingName := schema.IsValid(nameless);
  }
}
