/**
  The error annotations validation leaves on the page, and the field pass of
  `validateForm`, which validates every required control in turn.
*/
module FormCheck {
  import opened Wrappers
  import opened Validation

  /** The error element shown after each control, by the control's position in the form. */
  type FieldErrors = map<int, FieldError>

  function Lookup(errs: FieldErrors, k: int): Option<FieldError> {
    if k in errs then Some(errs[k]) else None
  }

  /**
    The annotation `validateField` leaves on control `k` (script.js:208-213):
    `showFieldError` replaces it by the new message, `clearFieldError` removes it.
  */
  function Annotate(errs: FieldErrors, k: int, f: Field): (r: FieldErrors)
    ensures Lookup(r, k) == ValidateField(f)
    ensures forall j | j != k :: Lookup(r, j) == Lookup(errs, j)
  {
    match ValidateField(f)
    case Some(e) => errs[k := e]
    case None => errs - {k}
  }

  /** The annotations after `validateForm` has run `validateField` on each required control in order. */
  function FormPass(errs: FieldErrors, fields: seq<Field>): FieldErrors
    decreases |fields|
  {
    if fields == [] then errs
    else
      var k := |fields| - 1;
      var before := FormPass(errs, fields[..k]);
      if fields[k].required then Annotate(before, k, fields[k]) else before
  }

  /**
    Every required control is validated, also after an earlier one failed: each
    ends up carrying exactly its own `validateField` verdict, and controls
    without `required` keep whatever annotation they had.
  */
  lemma {:induction false} FormPassAnnotations(errs: FieldErrors, fields: seq<Field>)
    ensures forall k | 0 <= k < |fields| && fields[k].required ::
      Lookup(FormPass(errs, fields), k) == ValidateField(fields[k])
    ensures forall k | !(0 <= k < |fields| && fields[k].required) ::
      Lookup(FormPass(errs, fields), k) == Lookup(errs, k)
    decreases |fields|
  {
    if fields != [] {
      var n := |fields| - 1;
      FormPassAnnotations(errs, fields[..n]);
      forall k | 0 <= k < n
        ensures fields[..n][k] == fields[k]
      {
      }
    }
  }

  /** One more control in the pass: it is annotated when it is required. */
  lemma FormPassStep(errs: FieldErrors, fields: seq<Field>, i: int)
    requires 0 <= i < |fields|
    ensures FormPass(errs, fields[..i + 1]) ==
      if fields[i].required then Annotate(FormPass(errs, fields[..i]), i, fields[i]) else FormPass(errs, fields[..i])
  {
    assert fields[..i + 1][..i] == fields[..i];
  }

  /** One more control: the prefix stays valid exactly when that control passes or is not required. */
  lemma RequiredFieldsValidStep(fields: seq<Field>, i: int)
    requires 0 <= i < |fields|
    ensures RequiredFieldsValid(fields[..i + 1]) <==>
      RequiredFieldsValid(fields[..i]) && (fields[i].required ==> ValidateField(fields[i]).None?)
  {
    var a := fields[..i + 1];
    var b := fields[..i];
    assert forall k | 0 <= k < i :: a[k] == b[k];
    assert a[i] == fields[i];
    if RequiredFieldsValid(b) && (fields[i].required ==> ValidateField(fields[i]).None?) {
      forall k | 0 <= k < i + 1
        ensures a[k].required ==> ValidateField(a[k]).None?
      {
        if k < i { assert a[k] == b[k]; }
      }
    }
  }

  /**
    The field pass of `validateForm` (script.js:243-251): each required control
    is validated in turn and its annotation updated; the pass succeeds when all
    of them do.
  */
  method ValidateFields(errs: FieldErrors, fields: seq<Field>) returns (ok: bool, after: FieldErrors)
    ensures after == FormPass(errs, fields)
    ensures ok <==> RequiredFieldsValid(fields)
  {
    ok := true;
    after := errs;
    for i := 0 to |fields|
      invariant after == FormPass(errs, fields[..i])
      invariant ok <==> RequiredFieldsValid(fields[..i])
    {
      FormPassStep(errs, fields, i);
      RequiredFieldsValidStep(fields, i);
      if fields[i].required {
        var fieldOk := ValidateField(fields[i]).None?;
        after := Annotate(after, i, fields[i]);
        if !fieldOk {
          ok := false;
        }
      }
    }
    assert fields[..|fields|] == fields;
  }
}
