/**
 * The per-field rules of the registration form's submit handler, lifted out
 * of the page: what each rule decides about the entered values, the
 * sequence of error-display calls the handler makes, and what that sequence
 * leaves on the page.
 */
module Rules {
  import opened Text

  datatype Option<T> = None | Some(value: T)

  /** The fields that own an error element (`error-<id>`); the confirmation
      field has none of its own. */
  datatype Field = FirstName | LastName | Email | Phone | Gender | Password | Terms

  /** An error element: whether it is displayed, and its text. */
  datatype Note = Note(shown: bool, message: string)

  type Notes = map<Field, Note>

  /** Every field has its error element. */
  predicate Complete(notes: Notes) {
    forall f: Field :: f in notes
  }

  /** The values the handler reads from the form. */
  datatype Entries = Entries(
    firstName: string,
    lastName: string,
    email: string,
    phone: string,
    genderChosen: bool,
    password: string,
    confirmPassword: string,
    termsAccepted: bool)

  /** What one rule decides: the field passes, or fails with a message. */
  datatype Verdict = Pass | Fail(message: string)

  /** A value that must not be blank: it passes exactly when it holds a
      character other than white space, and fails with the given message. */
  function Required(value: string, message: string): (v: Verdict)
    ensures v.Pass? <==> !AllSpace(value)
    ensures v.Fail? ==> v.message == message
  {
    if Blank(value) then Fail(message) else Pass
  }

  const DisposableDomains: seq<string> := ["tempmail.com", "10minutemail.com", "mailinator.com"]

  /** `email.split("@")[1]`: the text between the first `@` and the next
      one (or the end); `None` stands for `undefined`. */
  function EmailDomain(email: string): (d: Option<string>)
    ensures d.Some? <==> '@' in email
    ensures d.Some? ==> '@' !in d.value
  {
    SplitOnce(email, '@');
    var parts := Split(email, '@');
    if |parts| > 1 then Some(parts[1]) else None
  }

  /** The e-mail rules, in the order the handler tries them: an address
      passes exactly when it is not blank, holds both `@` and `.`, and its
      domain is not on the denylist. */
  function EmailRule(email: string): (v: Verdict)
    ensures v.Pass? <==> !AllSpace(email) && '@' in email && '.' in email &&
                         EmailDomain(email).value !in DisposableDomains
    ensures v.Fail? ==>
              v.message == if AllSpace(email) then "Email is required"
                           else if '@' !in email || '.' !in email then "Enter a valid email"
                           else "Disposable emails not allowed"
  {
    if Blank(email) then Fail("Email is required")
    else if '@' !in email || '.' !in email then Fail("Enter a valid email")
    else if EmailDomain(email).Some? && EmailDomain(email).value in DisposableDomains then
      Fail("Disposable emails not allowed")
    else Pass
  }

  /** The phone rules: blankness is judged on the trimmed value, the length
      on the value as typed. */
  function PhoneRule(phone: string): (v: Verdict)
    ensures v.Pass? <==> !AllSpace(phone) && |phone| >= 10
    ensures v.Fail? ==> v.message == if AllSpace(phone) then "Phone is required" else "Invalid phone number"
  {
    if Blank(phone) then Fail("Phone is required")
    else if |phone| < 10 then Fail("Invalid phone number")
    else Pass
  }

  /** One thing the handler does to the page: `showError`, `clearError`, or
      the mismatch branch, which only clears `isValid`. */
  datatype Step = Show(field: Field, message: string) | Clear(field: Field) | Invalidate

  /** `showError` on a failing verdict, `clearError` on a passing one. */
  function Check(field: Field, v: Verdict): Step {
    match v
    case Pass => Clear(field)
    case Fail(m) => Show(field, m)
  }

  /** The confirmation rules: an empty confirmation is reported on the
      password's error element; a differing one only invalidates. At most
      one step is taken, it writes no element but the password's, and
      `isValid` survives exactly an equal, non-empty confirmation. */
  function ConfirmSteps(password: string, confirm: string): (steps: seq<Step>)
    ensures |steps| <= 1
    ensures steps == [] <==> confirm != "" && confirm == password
    ensures forall i, f :: 0 <= i < |steps| && Touches(steps[i], f) ==> f == Password
    ensures Accepted(steps) <==> confirm != "" && confirm == password
  {
    if confirm == "" then [Show(Password, "Confirm Password is required")]
    else if password != confirm then [Invalidate]
    else []
  }

  /** The verdict of each field's own rule. */
  datatype Decisions = Decisions(
    firstName: Verdict,
    lastName: Verdict,
    email: Verdict,
    phone: Verdict,
    gender: Verdict,
    password: Verdict,
    terms: Verdict)

  /** The rules `validateForm` applies to the entered values; each field's
      verdict depends on its own value only, and each failure carries that
      field's own message. */
  function Decide(e: Entries): (d: Decisions)
    ensures d.firstName.Pass? <==> !AllSpace(e.firstName)
    ensures d.lastName.Pass? <==> !AllSpace(e.lastName)
    ensures d.gender.Pass? <==> e.genderChosen
    ensures d.password.Pass? <==> e.password != ""
    ensures d.terms.Pass? <==> e.termsAccepted
    ensures d.email == EmailRule(e.email) && d.phone == PhoneRule(e.phone)
    ensures d.firstName.Fail? ==> d.firstName.message == "First Name is required"
    ensures d.lastName.Fail? ==> d.lastName.message == "Last Name is required"
    ensures d.gender.Fail? ==> d.gender.message == "Please select a gender"
    ensures d.password.Fail? ==> d.password.message == "Password is required"
    ensures d.terms.Fail? ==> d.terms.message == "You must accept T&Cs"
  {
    Decisions(
      Required(e.firstName, "First Name is required"),
      Required(e.lastName, "Last Name is required"),
      EmailRule(e.email),
      PhoneRule(e.phone),
      if e.genderChosen then Pass else Fail("Please select a gender"),
      if e.password == "" then Fail("Password is required") else Pass,
      if e.termsAccepted then Pass else Fail("You must accept T&Cs"))
  }

  /** The verdict a field's own rule gave. */
  function Decision(d: Decisions, f: Field): Verdict {
    match f
    case FirstName => d.firstName
    case LastName => d.lastName
    case Email => d.email
    case Phone => d.phone
    case Gender => d.gender
    case Password => d.password
    case Terms => d.terms
  }

  /** The calls for the first six fields, in the order of the form. */
  function FieldSteps(d: Decisions): seq<Step> {
    [ Check(FirstName, d.firstName),
      Check(LastName, d.lastName),
      Check(Email, d.email),
      Check(Phone, d.phone),
      Check(Gender, d.gender),
      Check(Password, d.password) ]
  }

  /** The order of the calls: the six field rules, then the confirmation
      steps, then the terms rule. */
  function Trace(d: Decisions, confirm: seq<Step>): seq<Step> {
    FieldSteps(d) + confirm + [Check(Terms, d.terms)]
  }

  /** The calls `validateForm` makes, in order: seven, or eight when the
      confirmation is empty or differs; the terms rule is the last call and
      the only one on the terms element. */
  function Steps(e: Entries): (steps: seq<Step>)
    ensures |steps| == 7 <==> e.confirmPassword != "" && e.confirmPassword == e.password
    ensures 7 <= |steps| <= 8
    ensures steps[|steps| - 1] == Check(Terms, Decide(e).terms)
    ensures forall i :: 0 <= i < |steps| - 1 ==> !Touches(steps[i], Terms)
  {
    var d, c := Decide(e), ConfirmSteps(e.password, e.confirmPassword);
    TraceShape(d, c);
    Trace(d, c)
  }

  /** The terms rule is the last call of a trace and the only one on the
      terms element, when the confirmation steps leave that element alone. */
  lemma TraceShape(d: Decisions, c: seq<Step>)
    requires forall i :: 0 <= i < |c| ==> !Touches(c[i], Terms)
    ensures |Trace(d, c)| == 7 + |c|
    ensures Trace(d, c)[6 + |c|] == Check(Terms, d.terms)
    ensures forall i :: 0 <= i < 6 + |c| ==> !Touches(Trace(d, c)[i], Terms)
  {
    var fields := FieldSteps(d);
    assert forall i :: 0 <= i < 6 ==> fields[i].field != Terms;
    var head := fields + c;
    assert forall i :: 0 <= i < |head| ==> Trace(d, c)[i] == head[i];
  }

  /** What one step does to the error elements: a call writes its own
      field's element and no other, and the mismatch branch writes none.
      Hiding an element leaves its old text in place. */
  function Effect(notes: Notes, step: Step): (r: Notes)
    requires Complete(notes)
    ensures Complete(r)
    ensures !step.Invalidate? ==> forall g: Field :: g != step.field ==> r[g] == notes[g]
    ensures step.Invalidate? ==> r == notes
  {
    match step
    case Show(f, m) => notes[f := Note(true, m)]
    case Clear(f) => notes[f := Note(false, notes[f].message)]
    case Invalidate => notes
  }

  /** The error elements after a sequence of steps. */
  function Apply(notes: Notes, steps: seq<Step>): (r: Notes)
    requires Complete(notes)
    ensures Complete(r)
    decreases |steps|
  {
    if steps == [] then notes else Apply(Effect(notes, steps[0]), steps[1..])
  }

  /** `isValid` after a sequence of steps, set to false by every step that
      is not a `clearError` and never set back: it survives exactly when
      every step clears. */
  function Accepted(steps: seq<Step>): (ok: bool)
    ensures ok <==> forall i :: 0 <= i < |steps| ==> steps[i].Clear?
    decreases |steps|
  {
    steps == [] || (steps[0].Clear? && Accepted(steps[1..]))
  }

  lemma {:induction false} ApplyAppend(notes: Notes, a: seq<Step>, b: seq<Step>)
    requires Complete(notes)
    ensures Apply(notes, a + b) == Apply(Apply(notes, a), b)
    decreases |a|
  {
    if a == [] {
      assert a + b == b;
    } else {
      assert (a + b)[1..] == a[1..] + b;
      ApplyAppend(Effect(notes, a[0]), a[1..], b);
    }
  }

  /** A single step does what its effect says. */
  lemma ApplyOne(notes: Notes, step: Step)
    requires Complete(notes)
    ensures Apply(notes, [step]) == Effect(notes, step)
  {
    assert [step][1..] == [];
  }

  /** The trace runs in three parts: the field rules, the confirmation
      steps, the terms rule; it keeps `isValid` exactly when each part does. */
  lemma TraceSplits(notes: Notes, d: Decisions, confirm: seq<Step>)
    requires Complete(notes)
    ensures Apply(notes, Trace(d, confirm)) ==
      Effect(Apply(Apply(notes, FieldSteps(d)), confirm), Check(Terms, d.terms))
    ensures Accepted(Trace(d, confirm)) <==>
      Accepted(FieldSteps(d)) && Accepted(confirm) && d.terms.Pass?
  {
    var head, last := FieldSteps(d), [Check(Terms, d.terms)];
    ApplyAppend(notes, head + confirm, last);
    ApplyAppend(notes, head, confirm);
    ApplyOne(Apply(Apply(notes, head), confirm), Check(Terms, d.terms));
    var steps := Trace(d, confirm);
    assert forall i :: 0 <= i < |head| ==> steps[i] == head[i];
    assert forall i :: 0 <= i < |confirm| ==> steps[|head| + i] == confirm[i];
    assert steps[|steps| - 1] == Check(Terms, d.terms);
    if Accepted(FieldSteps(d)) && Accepted(confirm) && d.terms.Pass? {
      forall i | 0 <= i < |steps| ensures steps[i].Clear? {
        if |head| <= i < |steps| - 1 {
          assert steps[i] == confirm[i - |head|];
        }
      }
    }
  }

  /** The verdict shown by a field's error element once the handler is done:
      the rule of that field, except that an empty confirmation takes over
      the password's element. */
  function FinalVerdict(e: Entries, f: Field): Verdict {
    if f == Password && e.confirmPassword == "" then Fail("Confirm Password is required")
    else Decision(Decide(e), f)
  }

  /** The element of a field after its verdict. */
  function Shown(before: Note, v: Verdict): Note {
    match v
    case Pass => Note(false, before.message)
    case Fail(m) => Note(true, m)
  }

  /** Whether a step writes a field's error element. */
  predicate Touches(step: Step, f: Field) {
    !step.Invalidate? && step.field == f
  }

  /** Steps that do not write a field's element leave it as it was. */
  lemma {:induction false} ApplyOutside(notes: Notes, steps: seq<Step>, f: Field)
    requires Complete(notes)
    requires forall i :: 0 <= i < |steps| ==> !Touches(steps[i], f)
    ensures Apply(notes, steps)[f] == notes[f]
    decreases |steps|
  {
    if steps != [] {
      ApplyOutside(Effect(notes, steps[0]), steps[1..], f);
    }
  }

  /** A field's element is decided by the last step that writes it: shown
      with that step's message, or hidden with the text it had before the
      steps (when no earlier step wrote it either). */
  lemma LastTouch(notes: Notes, steps: seq<Step>, k: nat, f: Field)
    requires Complete(notes)
    requires k < |steps| && Touches(steps[k], f)
    requires forall i :: k < i < |steps| ==> !Touches(steps[i], f)
    requires steps[k].Clear? ==> forall i :: 0 <= i < k ==> !Touches(steps[i], f)
    ensures Apply(notes, steps)[f] ==
      if steps[k].Show? then Note(true, steps[k].message) else Note(false, notes[f].message)
  {
    var before, after := steps[..k], steps[k + 1..];
    assert steps == before + ([steps[k]] + after);
    ApplyAppend(notes, before, [steps[k]] + after);
    var n := Apply(notes, before);
    assert ([steps[k]] + after)[1..] == after;
    ApplyOutside(Effect(n, steps[k]), after, f);
    if steps[k].Clear? {
      ApplyOutside(notes, before, f);
    }
  }

  /** The confirmation steps are none, a bare invalidation, or one message
      on the password's element. */
  predicate ConfirmShape(confirm: seq<Step>) {
    confirm == [] || confirm == [Invalidate] ||
    (|confirm| == 1 && confirm[0].Show? && confirm[0].field == Password)
  }

  /** In the order of the calls, each element ends up showing its own
      field's verdict, except that a confirmation message overrides the
      password's. */
  lemma TraceShows(notes: Notes, d: Decisions, confirm: seq<Step>, f: Field)
    requires Complete(notes) && ConfirmShape(confirm)
    ensures Apply(notes, Trace(d, confirm))[f] == Shown(notes[f],
      if f == Password && confirm != [] && confirm[0].Show? then Fail(confirm[0].message)
      else Decision(d, f))
  {
    if f == Terms {
      TermsShows(notes, d, confirm);
    } else if f == Password && confirm != [] && confirm[0].Show? {
      OverrideShows(notes, d, confirm);
    } else {
      HeadShows(notes, d, confirm, f);
    }
  }

  /** The six field rules come first, one per field, so a field other than
      the terms ends with its own verdict unless a confirmation message
      follows. */
  lemma HeadShows(notes: Notes, d: Decisions, confirm: seq<Step>, f: Field)
    requires Complete(notes) && ConfirmShape(confirm)
    requires f != Terms && !(f == Password && confirm != [] && confirm[0].Show?)
    ensures Apply(notes, Trace(d, confirm))[f] == Shown(notes[f], Decision(d, f))
  {
    var head := FieldSteps(d);
    var steps := Trace(d, confirm);
    assert forall i :: 0 <= i < 6 ==> steps[i] == head[i];
    assert forall i :: 6 <= i < |steps| - 1 ==> steps[i] == confirm[i - 6];
    var k := match f
      case FirstName => 0
      case LastName => 1
      case Email => 2
      case Phone => 3
      case Gender => 4
      case _ => 5;
    LastTouch(notes, steps, k, f);
  }

  /** A confirmation message is the last step on the password's element. */
  lemma OverrideShows(notes: Notes, d: Decisions, confirm: seq<Step>)
    requires Complete(notes) && ConfirmShape(confirm)
    requires confirm != [] && confirm[0].Show?
    ensures Apply(notes, Trace(d, confirm))[Password] == Note(true, confirm[0].message)
  {
    var steps := Trace(d, confirm);
    assert steps[6] == confirm[0] && |steps| == 8;
    LastTouch(notes, steps, 6, Password);
  }

  /** The terms rule is the last step of all. */
  lemma TermsShows(notes: Notes, d: Decisions, confirm: seq<Step>)
    requires Complete(notes) && ConfirmShape(confirm)
    ensures Apply(notes, Trace(d, confirm))[Terms] == Shown(notes[Terms], d.terms)
  {
    var steps := Trace(d, confirm);
    var head := FieldSteps(d);
    assert forall i :: 0 <= i < 6 ==> steps[i] == head[i];
    assert forall i :: 6 <= i < |steps| - 1 ==> steps[i] == confirm[i - 6];
    LastTouch(notes, steps, |steps| - 1, Terms);
  }

  /** Field by field, the sequence of calls leaves each error element showing
      its final verdict: displayed with that message on a failure, hidden
      with its old text on a pass. */
  lemma NotesShowVerdicts(notes: Notes, e: Entries, f: Field)
    requires Complete(notes)
    ensures Apply(notes, Steps(e))[f] == Shown(notes[f], FinalVerdict(e, f))
  {
    var c := ConfirmSteps(e.password, e.confirmPassword);
    assert ConfirmShape(c);
    assert c != [] && c[0].Show? <==> e.confirmPassword == "";
    TraceShows(notes, Decide(e), c, f);
  }

  /** Every rule of the handler passes: both names are non-blank, the e-mail
      and phone rules pass, a gender is chosen, a password is given and
      confirmed exactly, and the terms are accepted. */
  predicate AllRulesPass(e: Entries) {
    !Blank(e.firstName) && !Blank(e.lastName) &&
    EmailRule(e.email) == Pass && PhoneRule(e.phone) == Pass &&
    e.genderChosen && e.password != "" && e.confirmPassword == e.password &&
    e.termsAccepted
  }

  /** Only clearing steps keep `isValid`: in the order of the calls that
      means every field rule passed and every confirmation step clears. */
  lemma TraceAccepted(d: Decisions, confirm: seq<Step>)
    ensures Accepted(Trace(d, confirm)) <==>
      (forall f: Field :: Decision(d, f) == Pass) && Accepted(confirm)
  {
    var head := FieldSteps(d);
    var steps := Trace(d, confirm);
    assert steps == head + confirm + [Check(Terms, d.terms)];
    assert forall i :: 0 <= i < 6 ==> steps[i] == head[i];
    assert forall i :: 0 <= i < |confirm| ==> steps[6 + i] == confirm[i];
    if Accepted(steps) {
      assert steps[|steps| - 1].Clear?;
      forall f: Field ensures Decision(d, f) == Pass {
        if f != Terms {
          var k := match f
            case FirstName => 0
            case LastName => 1
            case Email => 2
            case Phone => 3
            case Gender => 4
            case _ => 5;
          assert steps[k].Clear?;
        }
      }
      forall i | 0 <= i < |confirm| ensures confirm[i].Clear? {
        assert steps[6 + i].Clear?;
      }
    }
    if (forall f: Field :: Decision(d, f) == Pass) && Accepted(confirm) {
      assert Decision(d, FirstName) == Pass && Decision(d, LastName) == Pass;
      assert Decision(d, Email) == Pass && Decision(d, Phone) == Pass;
      assert Decision(d, Gender) == Pass && Decision(d, Password) == Pass;
      assert Decision(d, Terms) == Pass;
      forall i | 0 <= i < |steps| ensures steps[i].Clear? {
        if 6 <= i < |steps| - 1 {
          assert steps[i] == confirm[i - 6];
        }
      }
    }
  }

  /** Every field's own rule passes exactly when both names are non-blank,
      the e-mail and phone rules pass, a gender is chosen, a password is
      given and the terms are accepted. */
  lemma DecisionsPass(e: Entries)
    ensures (forall f: Field :: Decision(Decide(e), f) == Pass) <==>
      !Blank(e.firstName) && !Blank(e.lastName) &&
      EmailRule(e.email) == Pass && PhoneRule(e.phone) == Pass &&
      e.genderChosen && e.password != "" && e.termsAccepted
  {
    var d := Decide(e);
    if forall f: Field :: Decision(d, f) == Pass {
      assert Decision(d, FirstName) == Pass && Decision(d, LastName) == Pass;
      assert Decision(d, Email) == Pass && Decision(d, Phone) == Pass;
      assert Decision(d, Gender) == Pass && Decision(d, Password) == Pass;
      assert Decision(d, Terms) == Pass;
    }
  }

  /** The form is accepted exactly when every rule passes. */
  lemma AcceptedIff(e: Entries)
    ensures Accepted(Steps(e)) <==> AllRulesPass(e)
  {
    TraceAccepted(Decide(e), ConfirmSteps(e.password, e.confirmPassword));
    DecisionsPass(e);
  }

  /** A mismatching, non-empty confirmation of a non-empty password shows no
      message of its own: the error elements end exactly as if it had
      matched, yet the form is refused. */
  lemma MismatchOnlyInvalidates(notes: Notes, e: Entries)
    requires Complete(notes)
    requires e.password != "" && e.confirmPassword != "" && e.confirmPassword != e.password
    ensures Apply(notes, Steps(e)) == Apply(notes, Steps(e.(confirmPassword := e.password)))
    ensures !Accepted(Steps(e))
  {
    var d := Decide(e);
    var m := e.(confirmPassword := e.password);
    assert Decide(m) == d;
    var head := FieldSteps(d);
    var tail := [Check(Terms, d.terms)];
    assert Steps(e) == head + ([Invalidate] + tail);
    assert Steps(e)[6] == Invalidate;
    assert Steps(m) == head + tail;
    ApplyAppend(notes, head, [Invalidate] + tail);
    ApplyAppend(notes, head, tail);
    assert ([Invalidate] + tail)[1..] == tail;
  }

  /** The domain is what follows the first `@`, up to the next `@` if there
      is one: anything after a second `@` is never looked at. */
  lemma EmailDomainOf(local: string, domain: string, rest: string)
    requires '@' !in local && '@' !in domain
    requires rest == [] || rest[0] == '@'
    ensures EmailDomain(local + "@" + domain + rest) == Some(domain)
  {
    var tail := domain + rest;
    SplitPiece(local, ['@'] + tail, '@');
    assert local + "@" + domain + rest == local + (['@'] + tail);
    assert (['@'] + tail)[1..] == tail;
    SplitPiece(domain, rest, '@');
  }

  /** An address `local@domain`, possibly followed by a second `@` and more,
      with a dot somewhere in the domain, is refused exactly when the domain
      is on the denylist. */
  lemma EmailRuleOf(local: string, domain: string, rest: string)
    requires '@' !in local && '@' !in domain && '.' in domain
    requires rest == [] || rest[0] == '@'
    ensures EmailRule(local + "@" + domain + rest) ==
      if domain in DisposableDomains then Fail("Disposable emails not allowed") else Pass
  {
    var email := local + "@" + domain + rest;
    EmailDomainOf(local, domain, rest);
    assert email[|local|] == '@';
    assert !AllSpace(email) by { assert !IsSpace(email[|local|]); }
    var k :| 0 <= k < |domain| && domain[k] == '.';
    assert email[|local| + 1 + k] == '.';
  }

  /** Every address `local@domain` with a denied domain is refused as
      disposable. */
  lemma DisposableRejected(local: string, domain: string)
    requires '@' !in local && domain in DisposableDomains
    ensures EmailRule(local + "@" + domain) == Fail("Disposable emails not allowed")
  {
    assert '@' !in domain && '.' in domain;
    EmailRuleOf(local, domain, "");
    assert local + "@" + domain + "" == local + "@" + domain;
  }

  /** The denylist is compared exactly, letter case included. */
  lemma DenylistCaseSensitive(local: string)
    requires '@' !in local
    ensures EmailRule(local + "@Mailinator.com") == Pass
  {
    var domain := "Mailinator.com";
    assert domain[10] == '.';
    assert domain != DisposableDomains[0] by { assert |domain| != |DisposableDomains[0]|; }
    assert domain != DisposableDomains[1] by { assert |domain| != |DisposableDomains[1]|; }
    assert domain != DisposableDomains[2] by { assert domain[0] != DisposableDomains[2][0]; }
    EmailRuleOf(local, domain, "");
    assert local + "@" + domain + "" == local + "@Mailinator.com";
  }

  /** Only the text up to a second `@` is compared with the denylist: an
      allowed domain followed by `@` and a denied one passes. */
  lemma SecondAtEscapes(local: string, domain: string, denied: string)
    requires '@' !in local && '@' !in domain && '.' in domain
    requires domain !in DisposableDomains && denied in DisposableDomains
    ensures EmailRule(local + "@" + domain + "@" + denied) == Pass
  {
    EmailRuleOf(local, domain, "@" + denied);
    assert local + "@" + domain + ("@" + denied) == local + "@" + domain + "@" + denied;
  }

  /** The phone length is taken before trimming: nine digits and a trailing
      space pass. */
  lemma PaddedPhoneAccepted(digits: string)
    requires |digits| == 9 && !Blank(digits)
    ensures PhoneRule(digits + " ") == Pass
  {
    var p := digits + " ";
    assert AllSpace(p) ==> AllSpace(digits) by {
      if AllSpace(p) {
        forall i | 0 <= i < |digits| ensures IsSpace(digits[i]) { assert digits[i] == p[i]; }
      }
    }
  }

  /** The phone number of the positive flow passes. */
  lemma SamplePhoneAccepted()
    ensures PhoneRule("7075623324") == Pass
  {
    assert !AllSpace("7075623324") by { assert !IsSpace("7075623324"[0]); }
  }

  /** A blank last name alone is enough to refuse the form, and its error
      element then shows "Last Name is required". */
  lemma BlankLastNameRefused(notes: Notes, e: Entries)
    requires Complete(notes) && Blank(e.lastName)
    ensures !Accepted(Steps(e))
    ensures Apply(notes, Steps(e))[LastName] == Note(true, "Last Name is required")
  {
    AcceptedIff(e);
    NotesShowVerdicts(notes, e, LastName);
  }

  /** An accepted form leaves every error element hidden. */
  lemma AcceptedHidesAll(notes: Notes, e: Entries, f: Field)
    requires Complete(notes) && AllRulesPass(e)
    ensures !Apply(notes, Steps(e))[f].shown
  {
    NotesShowVerdicts(notes, e, f);
    assert Decision(Decide(e), f) == Pass;
  }

  /** Empty entries show an error on every element; the password's element
      ends with the confirmation message, which overwrites "Password is
      required". */
  lemma EmptyEntriesShowAll(notes: Notes, f: Field)
    requires Complete(notes)
    ensures Apply(notes, Steps(Entries("", "", "", "", false, "", "", false)))[f].shown
    ensures Apply(notes, Steps(Entries("", "", "", "", false, "", "", false)))[Password]
      == Note(true, "Confirm Password is required")
  {
    var e := Entries("", "", "", "", false, "", "", false);
    NotesShowVerdicts(notes, e, f);
    NotesShowVerdicts(notes, e, Password);
  }

  /** A value whose first character is not white space is not blank. */
  lemma VisibleNotBlank(s: string)
    requires |s| > 0 && !IsSpace(s[0])
    ensures !Blank(s)
  {
  }

  /** The entries of the positive end-to-end flow pass every rule. */
  lemma SampleEntriesAccepted()
    ensures AllRulesPass(Entries("Roopendra", "Ganesh", "roopendra" + "@example.com",
      "7075623324", true, "Test@1234", "Test@1234", true))
  {
    VisibleNotBlank("Roopendra");
    VisibleNotBlank("Ganesh");
    ExampleDomainAccepted("roopendra");
    SamplePhoneAccepted();
  }

  /** Any `local@example.com` passes the e-mail rules. */
  lemma ExampleDomainAccepted(local: string)
    requires '@' !in local
    ensures EmailRule(local + "@example.com") == Pass
  {
    var domain := "example.com";
    assert domain[7] == '.';
    assert domain != DisposableDomains[0] by { assert |domain| != |DisposableDomains[0]|; }
    assert domain != DisposableDomains[1] by { assert |domain| != |DisposableDomains[1]|; }
    assert domain != DisposableDomains[2] by { assert |domain| != |DisposableDomains[2]|; }
    EmailRuleOf(local, domain, "");
    assert local + "@" + domain + "" == local + "@example.com";
  }
}
