/** The contact form: the five field values, which of them show an error,
    and the character counter's display; the submit handler, the phone
    input's mask and the message input's counter update. */
module ContactForm {
  import opened Wrappers
  import opened Text
  import opened Validators
  import PhoneMask
  import CharCounter

  /** The form's fields, by their element ids. */
  datatype Field = Nome | Empresa | Email | Telefone | Mensagem

  /** The order in which the submit handler checks the fields. */
  const CheckOrder: seq<Field> := [Nome, Empresa, Email, Telefone, Mensagem]

  /** The position of a field in the check order. */
  function Rank(f: Field): (r: nat)
    ensures r < |CheckOrder| && CheckOrder[r] == f
  {
    match f
    case Nome => 0
    case Empresa => 1
    case Email => 2
    case Telefone => 3
    case Mensagem => 4
  }

  /** The current values of the five fields. */
  datatype Values = Values(nome: string, empresa: string, email: string, telefone: string, mensagem: string)

  /** The verdict of each of the five checks, as the submit handler
      evaluates them. */
  datatype Verdicts = Verdicts(nome: bool, empresa: bool, email: bool, telefone: bool, mensagem: bool)
  {
    /** Whether field `f` passed its check. */
    predicate Passes(f: Field) {
      match f
      case Nome => nome
      case Empresa => empresa
      case Email => email
      case Telefone => telefone
      case Mensagem => mensagem
    }

    /** Every field passed. */
    predicate AllPass() {
      forall f: Field :: Passes(f)
    }
  }

  /** The five checks applied to the current values. */
  function Check(v: Values): Verdicts {
    Verdicts(NameValid(v.nome), CompanyValid(v.empresa), EmailValid(v.email),
             PhoneValid(v.telefone), MessageValid(v.mensagem))
  }

  /** The fields that fail their check. */
  function Failing(ok: Verdicts): (s: set<Field>)
    ensures forall f: Field :: f in s <==> !ok.Passes(f)
  {
    assert forall f: Field :: f in CheckOrder by {
      forall f: Field ensures f in CheckOrder {
        assert CheckOrder[Rank(f)] == f;
      }
    }
    set f | f in CheckOrder && !ok.Passes(f)
  }

  /** The first field of `fs` that is in `failing`, or None when there is
      none. */
  function FirstFailure(failing: set<Field>, fs: seq<Field>): (r: Option<Field>)
    ensures r.None? <==> forall i | 0 <= i < |fs| :: fs[i] !in failing
    ensures r.Some? ==> exists i | 0 <= i < |fs| ::
      fs[i] == r.value && fs[i] in failing && forall j | 0 <= j < i :: fs[j] !in failing
  {
    if fs == [] then None
    else if fs[0] in failing then Some(fs[0])
    else
      var r := FirstFailure(failing, fs[1..]);
      assert r.Some? ==> exists i | 0 <= i < |fs[1..]| ::
        fs[1..][i] == r.value && fs[1..][i] in failing && forall j | 0 <= j < i :: fs[1..][j] !in failing;
      assert r.Some? ==> exists i | 1 <= i < |fs| ::
        fs[i] == r.value && fs[i] in failing && forall j | 0 <= j < i :: fs[j] !in failing;
      r
  }

  /** The field the submit handler focuses after a failed submission. */
  function FirstInvalid(ok: Verdicts): Option<Field> {
    FirstFailure(Failing(ok), CheckOrder)
  }

  /** No field is reported exactly when every field passes; a reported field
      fails, and every field checked before it passes. */
  lemma FirstInvalidIsEarliest(ok: Verdicts, f: Field)
    ensures FirstInvalid(ok) == None <==> ok.AllPass()
    ensures FirstInvalid(ok) == Some(f) <==>
      !ok.Passes(f) && forall g: Field :: Rank(g) < Rank(f) ==> ok.Passes(g)
  {
    var failing := Failing(ok);
    var r := FirstInvalid(ok);
    if r == None {
      forall g: Field ensures ok.Passes(g) {
        assert CheckOrder[Rank(g)] == g;
      }
    }
    if r == Some(f) {
      var i :| 0 <= i < |CheckOrder| && CheckOrder[i] == f && CheckOrder[i] in failing &&
        forall j | 0 <= j < i :: CheckOrder[j] !in failing;
      assert i == Rank(f);
      forall g: Field | Rank(g) < Rank(f) ensures ok.Passes(g) {
        assert CheckOrder[Rank(g)] == g;
      }
    }
    if !ok.Passes(f) && forall g: Field :: Rank(g) < Rank(f) ==> ok.Passes(g) {
      assert CheckOrder[Rank(f)] in failing;
      var i :| 0 <= i < |CheckOrder| && CheckOrder[i] == r.value && CheckOrder[i] in failing &&
        forall j | 0 <= j < i :: CheckOrder[j] !in failing;
      assert Rank(r.value) == i;
    }
  }

  /** The first failing field, read off the five checks in order. */
  lemma FirstFailureInOrder(failing: set<Field>)
    ensures FirstFailure(failing, CheckOrder) ==
      if Nome in failing then Some(Nome)
      else if Empresa in failing then Some(Empresa)
      else if Email in failing then Some(Email)
      else if Telefone in failing then Some(Telefone)
      else if Mensagem in failing then Some(Mensagem)
      else None
  {
    var t4: seq<Field> := [Mensagem];
    var t3: seq<Field> := [Telefone, Mensagem];
    var t2: seq<Field> := [Email, Telefone, Mensagem];
    var t1: seq<Field> := [Empresa, Email, Telefone, Mensagem];
    assert t4[1..] == [] && t3[1..] == t4 && t2[1..] == t3 && t1[1..] == t2 && CheckOrder[1..] == t1;
    assert FirstFailure(failing, t4) == if Mensagem in failing then Some(Mensagem) else None;
    assert FirstFailure(failing, t3) == if Telefone in failing then Some(Telefone) else FirstFailure(failing, t4);
    assert FirstFailure(failing, t2) == if Email in failing then Some(Email) else FirstFailure(failing, t3);
    assert FirstFailure(failing, t1) == if Empresa in failing then Some(Empresa) else FirstFailure(failing, t2);
    assert FirstFailure(failing, CheckOrder) == if Nome in failing then Some(Nome) else FirstFailure(failing, t1);
  }

  /** The form as the page holds it. */
  class Form {
    /** What the five inputs currently contain. */
    var values: Values
    /** What the markup puts in the inputs, restored by `reset()`. */
    var defaults: Values
    /** The fields whose input group carries the error marker. */
    var errors: set<Field>
    /** The character counter's text and colour. */
    var counterText: string
    var counterColour: CharCounter.Colour

    /** The page's markup decides the starting values and counter display;
        no field starts marked as an error. */
    constructor (initial: Values, text: string, colour: CharCounter.Colour)
      ensures values == initial && defaults == initial && errors == {}
      ensures counterText == text && counterColour == colour
    {
      values := initial;
      defaults := initial;
      errors := {};
      counterText := text;
      counterColour := colour;
    }

    /** Marks a field as an error. */
    method ShowError(f: Field)
      modifies this
      ensures errors == old(errors) + {f}
      ensures values == old(values) && defaults == old(defaults)
      ensures counterText == old(counterText) && counterColour == old(counterColour)
    {
      errors := errors + {f};
    }

    /** Removes a field's error marker. */
    method ClearError(f: Field)
      modifies this
      ensures errors == old(errors) - {f}
      ensures values == old(values) && defaults == old(defaults)
      ensures counterText == old(counterText) && counterColour == old(counterColour)
    {
      errors := errors - {f};
    }

    /** One of the handler's five check blocks, given the verdict of its
        condition: a failing field is marked, turns the form invalid and
        becomes the first invalid field if there is none yet; a passing field
        is cleared. */
    method CheckField(f: Field, passes: bool, isValid: bool, firstInvalidInput: Option<Field>)
      returns (isValid': bool, firstInvalidInput': Option<Field>)
      modifies this
      ensures errors == if passes then old(errors) - {f} else old(errors) + {f}
      ensures isValid' == (isValid && passes)
      ensures firstInvalidInput' ==
        if !passes && firstInvalidInput == None then Some(f) else firstInvalidInput
      ensures values == old(values) && defaults == old(defaults)
      ensures counterText == old(counterText) && counterColour == old(counterColour)
    {
      isValid', firstInvalidInput' := isValid, firstInvalidInput;
      if !passes {
        ShowError(f);
        isValid' := false;
        if firstInvalidInput' == None { firstInvalidInput' := Some(f); }
      } else {
        ClearError(f);
      }
    }

    /** The five check blocks of the submit handler run in order on the
        verdicts `ok`: exactly the failing fields end up marked, `isValid` is
        the conjunction of the verdicts and `firstInvalidInput` the earliest
        failing field; on success the counter display is reset. */
    method RunChecks(ok: Verdicts) returns (isValid: bool, firstInvalidInput: Option<Field>)
      modifies this
      ensures defaults == old(defaults)
      ensures isValid <==> ok.AllPass()
      ensures firstInvalidInput == FirstInvalid(ok)
      ensures errors == Failing(ok)
      ensures isValid ==> values == defaults
      ensures isValid ==> counterText == "0 / 1000" && counterColour == CharCounter.Amber
      ensures !isValid ==> values == old(values)
      ensures !isValid ==> counterText == old(counterText) && counterColour == old(counterColour)
    {
      isValid := true;
      firstInvalidInput := None;
      isValid, firstInvalidInput := CheckField(Nome, ok.nome, isValid, firstInvalidInput);
      isValid, firstInvalidInput := CheckField(Empresa, ok.empresa, isValid, firstInvalidInput);
      isValid, firstInvalidInput := CheckField(Email, ok.email, isValid, firstInvalidInput);
      isValid, firstInvalidInput := CheckField(Telefone, ok.telefone, isValid, firstInvalidInput);
      isValid, firstInvalidInput := CheckField(Mensagem, ok.mensagem, isValid, firstInvalidInput);

      if isValid {
        values := defaults;
        counterText := "0 / 1000";
        counterColour := CharCounter.Amber;
      }

      ghost var failing := Failing(ok);
      assert errors == failing by {
        forall f: Field ensures f in errors <==> f in failing {
          match f
          case Nome =>
          case Empresa =>
          case Email =>
          case Telefone =>
          case Mensagem =>
        }
      }
      assert isValid <==> ok.AllPass() by {
        if !isValid {
          assert !ok.Passes(Nome) || !ok.Passes(Empresa) || !ok.Passes(Email) ||
            !ok.Passes(Telefone) || !ok.Passes(Mensagem);
        }
      }
      FirstFailureInOrder(failing);
    }

    /** The submit handler: evaluates the five conditions on the current
        values and runs the check blocks on them. */
    method Submit() returns (isValid: bool, firstInvalidInput: Option<Field>)
      modifies this
      ensures defaults == old(defaults)
      ensures isValid <==> Check(old(values)).AllPass()
      ensures firstInvalidInput == FirstInvalid(Check(old(values)))
      ensures errors == Failing(Check(old(values)))
      ensures values == if isValid then defaults else old(values)
      ensures isValid ==> counterText == "0 / 1000" && counterColour == CharCounter.Amber
      ensures !isValid ==> counterText == old(counterText) && counterColour == old(counterColour)
    {
      var ok := Check(values);
      isValid, firstInvalidInput := RunChecks(ok);
    }

    /** The phone input handler: the field holds the mask of what was
        typed. */
    method OnPhoneInput(typed: string)
      modifies this
      ensures values == old(values).(telefone := PhoneMask.Mask(typed))
      ensures defaults == old(defaults) && errors == old(errors)
      ensures counterText == old(counterText) && counterColour == old(counterColour)
    {
      values := values.(telefone := PhoneMask.Mask(typed));
    }

    /** The message input handler: the counter shows the new length, and a
        message that reaches the counter's threshold loses its error marker. */
    method OnMessageInput(typed: string)
      modifies this
      ensures values == old(values).(mensagem := typed) && defaults == old(defaults)
      ensures counterText == CharCounter.CountText(typed)
      ensures counterColour == CharCounter.CountColour(typed)
      ensures errors == if Utf16Length(typed) >= CharCounter.GreenFrom then old(errors) - {Mensagem} else old(errors)
      ensures counterColour == CharCounter.Green ==> Mensagem !in errors
    {
      values := values.(mensagem := typed);
      var len := Utf16Length(typed);
      counterText := CharCounter.CountText(typed);
      if len >= CharCounter.GreenFrom {
        counterColour := CharCounter.Green;
        ClearError(Mensagem);
      } else {
        counterColour := CharCounter.Amber;
      }
    }
  }

  /** Masking never changes the phone check's verdict: the mask keeps up to
      eleven digits, and ten already pass. */
  lemma MaskPreservesPhoneCheck(typed: string)
    ensures PhoneValid(PhoneMask.Mask(typed)) <==> PhoneValid(typed)
  {
    PhoneMask.MaskKeepsDigits(typed);
  }
}
