/**
 * The contact form's event handlers (res.js:143-238): validation on blur,
 * re-validation on input while a field is marked invalid, and validation of
 * every field on submit. The form's state is the text of its four inputs and
 * the set of inputs carrying the `is-invalid` marker that `validateField`
 * sets and clears.
 */
module ContactForm {
  import opened JsText
  import opened FieldValidation

  /** The text of the four inputs. */
  datatype Values = Values(name: string, email: string, phone: string, message: string) {

    function Get(f: Field): string {
      match f
      case Name => name
      case Email => email
      case Phone => phone
      case Message => message
    }

    function With(f: Field, text: string): (r: Values)
      ensures r.Get(f) == text
      ensures forall g :: g != f ==> r.Get(g) == Get(g)
    {
      match f
      case Name => this.(name := text)
      case Email => this.(email := text)
      case Phone => this.(phone := text)
      case Message => this.(message := text)
    }
  }

  /** What `form.reset()` leaves in the inputs. */
  const Blank := Values("", "", "", "")

  /** `Object.keys(fields)`: the order in which submit visits the fields. */
  const Fields: seq<Field> := [Name, Email, Phone, Message]

  /** Where a field stands in `Fields`. */
  function Position(f: Field): (i: nat)
    ensures i < |Fields| && Fields[i] == f
  {
    match f
    case Name => 0
    case Email => 1
    case Phone => 2
    case Message => 3
  }

  /** Field f of v passes on submit, where its text is trimmed first. */
  predicate Passes(v: Values, f: Field) {
    Validate(f, Trim(v.Get(f))).valid
  }

  /** The form passes on submit: every field does. */
  predicate Accepted(v: Values) {
    forall f :: Passes(v, f)
  }

  /** The fields a submit of v marks invalid. */
  function Rejected(v: Values): (r: set<Field>)
    ensures forall f :: f in r <==> !Passes(v, f)
  {
    var r := set i | 0 <= i < |Fields| && !Passes(v, Fields[i]) :: Fields[i];
    RejectedMembers(v, r);
    r
  }

  lemma RejectedMembers(v: Values, r: set<Field>)
    requires r == set i | 0 <= i < |Fields| && !Passes(v, Fields[i]) :: Fields[i]
    ensures forall f :: f in r <==> !Passes(v, f)
  {
    forall f ensures f in r <==> !Passes(v, f) {
      var i := Position(f);
      if !Passes(v, f) {
        assert Fields[i] == f;
      }
    }
  }

  /** The error messages a submit of v leaves on display, by field. */
  function Errors(v: Values): (r: map<Field, string>)
    ensures forall f :: f in r <==> !Passes(v, f)
    ensures forall f :: f in r ==> r[f] == Validate(f, Trim(v.Get(f))).message && r[f] != ""
  {
    map f | f in Rejected(v) :: Validate(f, Trim(v.Get(f))).message
  }

  // The submit loop after its first n fields, as the folds it computes;
  // `errs` stands for the messages of the fields that fail validation.

  ghost predicate PassUpTo(errs: map<Field, string>, n: nat)
    requires n <= |Fields|
  {
    n == 0 || (PassUpTo(errs, n - 1) && Fields[n - 1] !in errs)
  }

  ghost function ErrorsUpTo(errs: map<Field, string>, m: map<Field, string>, n: nat): map<Field, string>
    requires n <= |Fields|
  {
    if n == 0 then m
    else
      var f := Fields[n - 1];
      if f in errs then ErrorsUpTo(errs, m, n - 1)[f := errs[f]] else ErrorsUpTo(errs, m, n - 1) - {f}
  }

  ghost function DataUpTo(v: Values, n: nat): map<Field, string>
    requires n <= |Fields|
  {
    if n == 0 then map[] else DataUpTo(v, n - 1)[Fields[n - 1] := Trim(v.Get(Fields[n - 1]))]
  }

  /** `Fields` lists each field once. */
  lemma FieldsDistinct(j: nat)
    requires j < |Fields|
    ensures Position(Fields[j]) == j
  {
  }

  lemma {:induction false} PassUpToAll(errs: map<Field, string>, n: nat)
    requires n <= |Fields|
    ensures PassUpTo(errs, n) <==> forall f :: Position(f) < n ==> f !in errs
  {
    if n > 0 {
      PassUpToAll(errs, n - 1);
      FieldsDistinct(n - 1);
    }
  }

  lemma {:induction false} ErrorsUpToAll(errs: map<Field, string>, m: map<Field, string>, n: nat, f: Field)
    requires n <= |Fields|
    ensures f in ErrorsUpTo(errs, m, n) <==> if Position(f) < n then f in errs else f in m
    ensures f in ErrorsUpTo(errs, m, n) ==>
      ErrorsUpTo(errs, m, n)[f] == if Position(f) < n then errs[f] else m[f]
  {
    if n > 0 {
      ErrorsUpToAll(errs, m, n - 1, f);
      FieldsDistinct(n - 1);
    }
  }

  lemma {:induction false} DataUpToAll(v: Values, n: nat, f: Field)
    requires n <= |Fields|
    ensures f in DataUpTo(v, n) <==> Position(f) < n
    ensures f in DataUpTo(v, n) ==> DataUpTo(v, n)[f] == Trim(v.Get(f))
  {
    if n > 0 {
      DataUpToAll(v, n - 1, f);
      FieldsDistinct(n - 1);
    }
  }

  /** Once every field is visited, the folds have seen each field exactly once. */
  lemma SubmitFolds(errs: map<Field, string>, m: map<Field, string>, v: Values)
    ensures PassUpTo(errs, |Fields|) <==> forall f :: f !in errs
    ensures ErrorsUpTo(errs, m, |Fields|) == errs
    ensures forall f :: f in DataUpTo(v, |Fields|) && DataUpTo(v, |Fields|)[f] == Trim(v.Get(f))
  {
    PassUpToAll(errs, |Fields|);
    forall f ensures f in ErrorsUpTo(errs, m, |Fields|) <==> f in errs {
      ErrorsUpToAll(errs, m, |Fields|, f);
    }
    forall f | f in errs ensures ErrorsUpTo(errs, m, |Fields|)[f] == errs[f] {
      ErrorsUpToAll(errs, m, |Fields|, f);
    }
    forall f ensures f in DataUpTo(v, |Fields|) && DataUpTo(v, |Fields|)[f] == Trim(v.Get(f)) {
      DataUpToAll(v, |Fields|, f);
    }
  }

  /** Delays of the simulated sending sequence after an accepted submit. */
  const SendingMs := 1500
  const ResetMs := 2000

  class Form {
    var values: Values
    /**
     * The inputs that carry the `is-invalid` marker, each with the text its
     * error element displays; an input without the marker has its error
     * element hidden.
     */
    var errors: map<Field, string>

    constructor ()
      ensures values == Blank && errors == map[]
    {
      values := Blank;
      errors := map[];
    }

    /** `validateField(fieldName, value)`: returns the verdict and shows or hides the field's error. */
    method ValidateField(f: Field, value: string) returns (ok: bool)
      modifies this
      ensures ok == Validate(f, value).valid
      ensures values == old(values)
      ensures errors == if ok then old(errors) - {f} else old(errors)[f := Validate(f, value).message]
    {
      var verdict := Validate(f, value);
      ok := verdict.valid;
      if ok {
        errors := errors - {f};
      } else {
        errors := errors[f := verdict.message];
      }
    }

    /** The `blur` handler: validates the raw, untrimmed text. */
    method Blur(f: Field) returns (ok: bool)
      modifies this
      ensures ok == Validate(f, values.Get(f)).valid
      ensures values == old(values)
      ensures errors == if ok then old(errors) - {f} else old(errors)[f := Validate(f, values.Get(f)).message]
    {
      ok := ValidateField(f, values.Get(f));
    }

    /**
     * The user edits an input and the `input` handler runs: the field is
     * re-validated, on its raw text, only if it is currently marked invalid.
     */
    method Input(f: Field, text: string)
      modifies this
      ensures values == old(values).With(f, text)
      ensures f !in old(errors) ==> errors == old(errors)
      ensures f in old(errors) ==>
        errors == if Validate(f, text).valid then old(errors) - {f} else old(errors)[f := Validate(f, text).message]
    {
      values := values.With(f, text);
      if f in errors {
        var _ := ValidateField(f, text);
      }
    }

    /**
     * The `submit` handler: every field is validated on its trimmed text,
     * also after an earlier field failed; the form is sent exactly when all
     * four pass. The inputs keep their untrimmed text, and the errors shown
     * afterwards are exactly those of the failing fields.
     */
    method Submit() returns (sent: bool, formData: map<Field, string>)
      modifies this
      ensures sent <==> Accepted(values)
      ensures forall f :: f in formData && formData[f] == Trim(values.Get(f))
      ensures values == old(values)
      ensures errors == Errors(values)
    {
      var v := values;
      ghost var before := errors;
      ghost var errs := Errors(v);
      sent := true;
      formData := map[];
      for i := 0 to |Fields|
        invariant values == v
        invariant sent == PassUpTo(errs, i)
        invariant errors == ErrorsUpTo(errs, before, i)
        invariant formData == DataUpTo(v, i)
      {
        var f := Fields[i];
        var value := Trim(v.Get(f));
        formData := formData[f := value];
        var ok := ValidateField(f, value);
        if !ok {
          sent := false;
        }
      }
      SubmitFolds(errs, before, v);
    }

    /**
     * The last timer of an accepted submit: the inputs are reset, every
     * marker is cleared and every error element hidden.
     */
    method ResetAfterSend()
      modifies this
      ensures values == Blank && errors == map[]
    {
      values := Blank;
      errors := map[];
    }
  }
}
