/**
 * The registration page's password-strength meter and error elements, and
 * the two handlers that update them: `checkStrength`, run as the password
 * is typed, and `validateForm`, run on submit.
 */
module Registration {
  import opened Text
  import opened Strength
  import opened Rules

  const PasswordsDiffer := "Passwords do not match!"

  /** The success dialog greets the user by the first name as typed: the
      message ends with it. */
  function Welcome(firstName: string): (w: string)
    ensures |w| > |firstName| && w[|w| - |firstName|..] == firstName
  {
    "Registration Successful! \nWelcome, " + firstName
  }

  /** The dialogs `validateForm` raises, in order: the mismatch warning when
      a non-empty confirmation differs from the password, then the greeting
      when every rule passed. */
  function Dialogs(e: Entries, valid: bool): (alerts: seq<string>)
    ensures |alerts| <= 2
    ensures PasswordsDiffer in alerts <==> e.confirmPassword != "" && e.confirmPassword != e.password
    ensures valid <==> Welcome(e.firstName) in alerts
  {
    (if e.confirmPassword != "" && e.confirmPassword != e.password then [PasswordsDiffer] else [])
    + (if valid then [Welcome(e.firstName)] else [])
  }

  class Form {
    /** The error elements, one per field. */
    var notes: Notes
    /** The strength bar: its width in percent and its colour. */
    var barWidth: nat
    var barColour: string
    /** The strength caption: its text and its colour. */
    var caption: string
    var captionColour: string

    ghost predicate Valid()
      reads this`notes
    {
      Complete(notes)
    }

    /** The page as loaded: every error element hidden and empty, the meter
        empty. */
    constructor ()
      ensures Valid()
      ensures forall f: Field :: notes[f] == Note(false, "")
      ensures barWidth == 0 && barColour == NeutralColour
      ensures caption == "Strength: " && captionColour == NeutralColour
    {
      var hidden := Note(false, "");
      var all := map[FirstName := hidden, LastName := hidden, Email := hidden, Phone := hidden,
                     Gender := hidden, Password := hidden, Terms := hidden];
      forall f: Field ensures f in all && all[f] == hidden {
        match f
        case FirstName =>
        case LastName =>
        case Email =>
        case Phone =>
        case Gender =>
        case Password =>
        case Terms =>
      }
      notes := all;
      barWidth := 0;
      barColour := NeutralColour;
      caption := "Strength: ";
      captionColour := NeutralColour;
    }

    /** `checkStrength`: the meter shows the rating of the password's score. */
    method CheckStrength(password: string)
      modifies this`barWidth, this`barColour, this`caption, this`captionColour
      ensures barWidth == Rate(Score(password)).width
      ensures barColour == captionColour == Rate(Score(password)).colour
      ensures caption == "Strength: " + Rate(Score(password)).tier
    {
      var strength := 0;
      if |password| > 5 { strength := strength + 1; }
      if |password| > 8 { strength := strength + 1; }
      if Test(password, IsUpper) { strength := strength + 1; }
      if Test(password, IsDigit) { strength := strength + 1; }
      if Test(password, IsSymbol) { strength := strength + 1; }
      var rating := Rate(strength);
      barWidth := rating.width;
      barColour := rating.colour;
      caption := "Strength: " + rating.tier;
      captionColour := rating.colour;
    }

    /** `showError`: the field's element is displayed with the message. */
    method ShowError(field: Field, message: string)
      requires Valid()
      modifies this`notes
      ensures Valid()
      ensures notes == old(notes)[field := Note(true, message)]
    {
      notes := notes[field := Note(true, message)];
    }

    /** `clearError`: the field's element is hidden; its text stays. */
    method ClearError(field: Field)
      requires Valid()
      modifies this`notes
      ensures Valid()
      ensures notes == old(notes)[field := Note(false, old(notes)[field].message)]
    {
      notes := notes[field := Note(false, notes[field].message)];
    }

    /** One rule's outcome: shown on a failure, cleared on a pass; `passed`
        tells whether `isValid` survives it. */
    method Report(field: Field, v: Verdict) returns (passed: bool)
      requires Valid()
      modifies this`notes
      ensures Valid()
      ensures notes == Effect(old(notes), Check(field, v))
      ensures passed <==> v.Pass?
    {
      match v
      case Fail(m) =>
        ShowError(field, m);
        passed := false;
      case Pass =>
        ClearError(field);
        passed := true;
    }

    /** The first six rules of `validateForm`, one `showError` or
        `clearError` each; `passed` is `isValid` after them. */
    method CheckFields(d: Decisions) returns (passed: bool)
      requires Valid()
      modifies this`notes
      ensures Valid()
      ensures notes == Apply(old(notes), FieldSteps(d))
      ensures passed <==> Accepted(FieldSteps(d))
    {
      ghost var done: seq<Step> := [];
      passed := true;
      var ok := Report(FirstName, d.firstName);
      Record(old(notes), done, Check(FirstName, d.firstName));
      done := done + [Check(FirstName, d.firstName)];
      passed := passed && ok;

      ok := Report(LastName, d.lastName);
      Record(old(notes), done, Check(LastName, d.lastName));
      done := done + [Check(LastName, d.lastName)];
      passed := passed && ok;

      ok := Report(Email, d.email);
      Record(old(notes), done, Check(Email, d.email));
      done := done + [Check(Email, d.email)];
      passed := passed && ok;

      ok := Report(Phone, d.phone);
      Record(old(notes), done, Check(Phone, d.phone));
      done := done + [Check(Phone, d.phone)];
      passed := passed && ok;

      ok := Report(Gender, d.gender);
      Record(old(notes), done, Check(Gender, d.gender));
      done := done + [Check(Gender, d.gender)];
      passed := passed && ok;

      ok := Report(Password, d.password);
      Record(old(notes), done, Check(Password, d.password));
      done := done + [Check(Password, d.password)];
      passed := passed && ok;

      assert done == FieldSteps(d);
    }

    /** The confirmation rules of `validateForm`: an empty confirmation is
        reported on the password's element, a differing one raises the
        mismatch dialog; `passed` is whether `isValid` survives them. */
    method CheckConfirm(password: string, confirm: string) returns (passed: bool, alerts: seq<string>)
      requires Valid()
      modifies this`notes
      ensures Valid()
      ensures notes == Apply(old(notes), ConfirmSteps(password, confirm))
      ensures passed <==> Accepted(ConfirmSteps(password, confirm))
      ensures alerts == if confirm != "" && confirm != password then [PasswordsDiffer] else []
    {
      passed, alerts := true, [];
      if confirm == "" {
        ShowError(Password, "Confirm Password is required");
        ApplyOne(old(notes), Show(Password, "Confirm Password is required"));
        passed := false;
      } else if password != confirm {
        alerts := [PasswordsDiffer];
        ApplyOne(old(notes), Invalidate);
        passed := false;
      }
    }

    /** The seven rules of `validateForm` in their order: the error
        elements end as the sequence of calls leaves them, `valid` (the
        final `isValid`) holds exactly when every rule passes, and the
        mismatch dialog is raised for a non-empty confirmation that differs
        from the password. */
    method RunRules(e: Entries) returns (valid: bool, mismatch: seq<string>)
      requires Valid()
      modifies this`notes
      ensures Valid()
      ensures notes == Apply(old(notes), Steps(e))
      ensures valid <==> AllRulesPass(e)
      ensures mismatch == if e.confirmPassword != "" && e.confirmPassword != e.password then [PasswordsDiffer] else []
    {
      ghost var start := notes;
      var d := Decide(e);
      var fieldsPassed := CheckFields(d);
      ghost var afterFields := notes;
      var confirmPassed;
      confirmPassed, mismatch := CheckConfirm(e.password, e.confirmPassword);
      ghost var afterConfirm := notes;
      var termsPassed := Report(Terms, d.terms);
      valid := fieldsPassed && confirmPassed && termsPassed;
      Outcome(start, e, afterFields, afterConfirm, notes, fieldsPassed, confirmPassed, termsPassed);
    }

    /** The success branch of `validateForm` empties the strength bar and
        its caption; the colours stay. */
    method ResetMeter()
      modifies this`barWidth, this`caption
      ensures barWidth == 0 && caption == "Strength: "
    {
      barWidth := 0;
      caption := "Strength: ";
    }

    /** `validateForm`: the error elements end as the sequence of calls
        leaves them, the form is accepted exactly when every rule passes, the
        dialogs are the mismatch warning and the greeting as they apply, and
        only an accepted form resets the meter's width and caption. */
    method Validate(e: Entries) returns (valid: bool, alerts: seq<string>)
      requires Valid()
      modifies this`notes, this`barWidth, this`caption
      ensures Valid()
      ensures notes == Apply(old(notes), Steps(e))
      ensures valid <==> AllRulesPass(e)
      ensures alerts == Dialogs(e, valid)
      ensures valid ==> barWidth == 0 && caption == "Strength: "
      ensures !valid ==> barWidth == old(barWidth) && caption == old(caption)
    {
      valid, alerts := RunRules(e);
      if valid {
        alerts := alerts + [Welcome(e.firstName)];
        ResetMeter();
      }
    }
  }

  /** The three parts of `validateForm` together: the error elements end as
      the whole sequence of calls leaves them, and `isValid` survives exactly
      when every rule passes. */
  lemma Outcome(start: Notes, e: Entries, afterFields: Notes, afterConfirm: Notes, final: Notes,
                fieldsPassed: bool, confirmPassed: bool, termsPassed: bool)
    requires Complete(start)
    requires afterFields == Apply(start, FieldSteps(Decide(e)))
    requires fieldsPassed <==> Accepted(FieldSteps(Decide(e)))
    requires afterConfirm == Apply(afterFields, ConfirmSteps(e.password, e.confirmPassword))
    requires confirmPassed <==> Accepted(ConfirmSteps(e.password, e.confirmPassword))
    requires final == Effect(afterConfirm, Check(Terms, Decide(e).terms))
    requires termsPassed <==> Decide(e).terms.Pass?
    ensures final == Apply(start, Steps(e))
    ensures fieldsPassed && confirmPassed && termsPassed <==> AllRulesPass(e)
  {
    TraceSplits(start, Decide(e), ConfirmSteps(e.password, e.confirmPassword));
    AcceptedIff(e);
  }

  /** One more step extends the applied trace by its effect, and keeps
      `isValid` only if it is a clearing step. */
  lemma Record(notes: Notes, done: seq<Step>, step: Step)
    requires Complete(notes)
    ensures Apply(notes, done + [step]) == Effect(Apply(notes, done), step)
    ensures Accepted(done + [step]) <==> Accepted(done) && step.Clear?
  {
    ApplyAppend(notes, done, [step]);
    ApplyOne(Apply(notes, done), step);
    assert forall i :: 0 <= i < |done| ==> (done + [step])[i] == done[i];
    assert (done + [step])[|done|] == step;
  }
}
