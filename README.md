# Registration form: location selector, strength meter and validation

A model of the client-side logic of the Frugal registration page (`script.js`):

- the **cascading location selector**: the country list is filled from the
  `locationData` table when the page loads; choosing a country rebuilds the
  state list (`loadStates`), and choosing a state rebuilds the city list
  (`loadCities`);
- the **password-strength meter** (`checkStrength`): a score of 0 to 5 and
  the tier, bar width and colour it maps to;
- the **submit handler** (`validateForm`): seven field rules run in a fixed
  order, each showing or clearing an inline error element; a shared
  `isValid` flag decides whether the form is accepted, and an accepted form
  resets the strength meter.

Files:

- `Text.dfy`: the string built-ins the script relies on, `trim` over a fixed
  white-space set and `split` on one character, with their laws.
- `Location.dfy`: the table as an ordered association list (a JavaScript
  object's key order is the order the options appear in), and the class
  `LocationSelector`, whose option lists, disabled flags and selections are
  updated in place by `FillCountries` (`window.onload`), `LoadStates` and
  `LoadCities`, each appending options in a loop. Its invariant `Valid` ties
  every list and flag to the table and the selections.
- `Strength.dfy`: the score and the rating as pure functions, with bounds,
  monotonicity and the worked samples.
- `Rules.dfy`: the rule decisions (`Required`, `EmailRule`, `PhoneRule`,
  `ConfirmSteps`, `Decide`), the sequence of `showError` / `clearError` calls
  the handler makes (`Steps`), what that sequence does to the error elements
  (`Apply`) and to `isValid` (`Accepted`), and the lemmas that say what the
  page shows afterwards.
- `Form.dfy`: the class `Form`, whose error elements and meter are updated in
  place by `CheckStrength` and `Validate` (with `ShowError` / `ClearError`).

Points where the code behaves otherwise than one might expect; the model
follows the code:

- `"Abcdef1!"` scores 4 and rates "Medium", not 5 and "Strong": it is exactly
  8 characters long, and the second length point needs more than 8.
- The e-mail domain is `email.split("@")[1]`, the text between the first and
  the second `@`, not everything after the `@`.
- A country or state that is not in the table is not answered with empty
  lists: for an unknown country `loadStates` would fail on
  `Object.keys(undefined)`, and for an unknown state `loadCities` would fail
  calling `forEach` on `undefined`. The model makes
  table membership a precondition of `LoadStates` and `LoadCities`, and
  proves that choosing from the lists on the page always meets it.
- On success only the bar width and the caption are reset; the bar and
  caption colours keep their last values.

## Model

| member | source | states |
|---|---|---|
| Text.Trim | Automate_Intelligent_Registration_System-main/Automate_Intelligent_Registration_System-main/Frugal-Registration-System-master/script.js:139 | the trimmed value neither starts nor ends with white space, is no longer than the value, and is empty exactly when the value is all white space (the `x.trim() === ""` tests) |
| Text.TrimSlice | Automate_Intelligent_Registration_System-main/Automate_Intelligent_Registration_System-main/Frugal-Registration-System-master/script.js:139 | `x.trim()` is the part of `x` between a white-space prefix and a white-space suffix |
| Text.TrimStartEmpty | Automate_Intelligent_Registration_System-main/Automate_Intelligent_Registration_System-main/Frugal-Registration-System-master/script.js:139 | removing leading white space leaves nothing exactly when the value is all white space |
| Text.TrimEndEmpty | Automate_Intelligent_Registration_System-main/Automate_Intelligent_Registration_System-main/Frugal-Registration-System-master/script.js:139 | removing trailing white space leaves nothing exactly when the value is all white space |
| Text.Split | Automate_Intelligent_Registration_System-main/Automate_Intelligent_Registration_System-main/Frugal-Registration-System-master/script.js:150 | `split` on one character yields at least one piece and no piece holds the separator |
| Text.JoinSplit | Automate_Intelligent_Registration_System-main/Automate_Intelligent_Registration_System-main/Frugal-Registration-System-master/script.js:150 | splitting loses nothing: joining the pieces with the separator gives the string back |
| Text.SplitJoin | Automate_Intelligent_Registration_System-main/Automate_Intelligent_Registration_System-main/Frugal-Registration-System-master/script.js:150 | separator-free pieces are recovered exactly by splitting their join |
| Text.SplitOnce | Automate_Intelligent_Registration_System-main/Automate_Intelligent_Registration_System-main/Frugal-Registration-System-master/script.js:150-154 | a string splits into more than one piece exactly when it holds the separator, so `split("@")[1]` is defined exactly when `includes("@")` |
| Text.SplitPiece | Automate_Intelligent_Registration_System-main/Automate_Intelligent_Registration_System-main/Frugal-Registration-System-master/script.js:150 | the first piece of `w + t` is exactly `w` when `w` holds no separator and `t` is empty or starts with one |
| Text.Blank | Automate_Intelligent_Registration_System-main/Automate_Intelligent_Registration_System-main/Frugal-Registration-System-master/script.js:139 | `x.trim() === ""` holds exactly when every character of `x` is white space (by `Text.Trim`) |
| Strength.Test | Automate_Intelligent_Registration_System-main/Automate_Intelligent_Registration_System-main/Frugal-Registration-System-master/script.js:90-92 | a character-class test passes exactly when some character of the password is in the class |
| Strength.Score | Automate_Intelligent_Registration_System-main/Automate_Intelligent_Registration_System-main/Frugal-Registration-System-master/script.js:87-92 | the score is at most 5; it is 5 exactly when the password is longer than 8 and has an upper-case letter, a digit and a symbol; it is 0 exactly when it is at most 5 long and has none of them |
| Strength.TestAppend | Automate_Intelligent_Registration_System-main/Automate_Intelligent_Registration_System-main/Frugal-Registration-System-master/script.js:90-92 | a class test that passes still passes after characters are appended |
| Strength.ScoreMonotone | Automate_Intelligent_Registration_System-main/Automate_Intelligent_Registration_System-main/Frugal-Registration-System-master/script.js:87-92 | appending characters never lowers the score |
| Strength.Rate | Automate_Intelligent_Registration_System-main/Automate_Intelligent_Registration_System-main/Frugal-Registration-System-master/script.js:94-106 | the scores fall into four ranges: exactly score 0 gives no tier, width 0 and the neutral colour; exactly 1-2 give "Weak" at 30%; exactly 3-4 give "Medium" at 70%; exactly 5 or more give "Strong" at 100% |
| Strength.RateMonotone | Automate_Intelligent_Registration_System-main/Automate_Intelligent_Registration_System-main/Frugal-Registration-System-master/script.js:98-106 | a higher score never draws a shorter bar |
| Strength.StrongIff | Automate_Intelligent_Registration_System-main/Automate_Intelligent_Registration_System-main/Frugal-Registration-System-master/script.js:87-106 | the tier is "Strong" exactly when the password is longer than 8 and has an upper-case letter, a digit and a symbol |
| Strength.TestPasswordIsStrong | Automate_Intelligent_Registration_System-main/Automate_Intelligent_Registration_System-main/Frugal-Registration-System-master/automation_test.py:105-106 | the password of the positive flow, "Test@1234", scores 5 and rates "Strong" |
| Strength.PlainShortScoresZero | Automate_Intelligent_Registration_System-main/Automate_Intelligent_Registration_System-main/Frugal-Registration-System-master/script.js:87-106 | "abc" scores 0 and shows no tier |
| Strength.EightCharactersScoreMedium | Automate_Intelligent_Registration_System-main/Automate_Intelligent_Registration_System-main/Frugal-Registration-System-master/script.js:87-106 | "Abcdef1!" scores 4 and rates "Medium" (the point for length over 8 is missing) |
| Strength.SixLettersScoreWeak | Automate_Intelligent_Registration_System-main/Automate_Intelligent_Registration_System-main/Frugal-Registration-System-master/script.js:87-106 | "abcdef" scores 1 and rates "Weak" |
| Location.Keys | Automate_Intelligent_Registration_System-main/Automate_Intelligent_Registration_System-main/Frugal-Registration-System-master/script.js:22 | one key per entry of the table; `Location.KeysAt` gives them element by element in entry order |
| Location.KeysAt | Automate_Intelligent_Registration_System-main/Automate_Intelligent_Registration_System-main/Frugal-Registration-System-master/script.js:45 | `Object.keys` has one key per entry, in entry order |
| Location.Lookup | Automate_Intelligent_Registration_System-main/Automate_Intelligent_Registration_System-main/Frugal-Registration-System-master/script.js:45 | `t[k]` for a present key is the value of an entry with that key |
| Location.LocationDataWellFormed | Automate_Intelligent_Registration_System-main/Automate_Intelligent_Registration_System-main/Frugal-Registration-System-master/script.js:2-17 | `locationData` repeats no country and no state key, and every country and state lists something |
| Location.LookupUnique | Automate_Intelligent_Registration_System-main/Automate_Intelligent_Registration_System-main/Frugal-Registration-System-master/script.js:45 | with no repeated keys, the value found for a key is the value of its only entry |
| Location.IndiaMaharashtraPune | Automate_Intelligent_Registration_System-main/Automate_Intelligent_Registration_System-main/Frugal-Registration-System-master/automation_test.py:91-102 | India lists Maharashtra, Karnataka and Delhi in that order, and Maharashtra lists Pune, Mumbai and Nagpur |
| Location.OptionsFor | Automate_Intelligent_Registration_System-main/Automate_Intelligent_Registration_System-main/Frugal-Registration-System-master/script.js:46-51 | the options appended for a list of names are as many as the names; `Location.OptionsAt` gives each one as (name, name) in list order |
| Location.OptionsAt | Automate_Intelligent_Registration_System-main/Automate_Intelligent_Registration_System-main/Frugal-Registration-System-master/script.js:46-51 | one option per name, in order, with the name as both value and text |
| Location.ValuesAt | Automate_Intelligent_Registration_System-main/Automate_Intelligent_Registration_System-main/Frugal-Registration-System-master/script.js:42 | the values of an option list are the options' values in order |
| Location.ValuesAppend | Automate_Intelligent_Registration_System-main/Automate_Intelligent_Registration_System-main/Frugal-Registration-System-master/script.js:26 | appending options appends their values |
| Location.StateList | Automate_Intelligent_Registration_System-main/Automate_Intelligent_Registration_System-main/Frugal-Registration-System-master/script.js:37-53 | the state list always starts with the "Select State" placeholder |
| Location.CityList | Automate_Intelligent_Registration_System-main/Automate_Intelligent_Registration_System-main/Frugal-Registration-System-master/script.js:63-78 | the city list always starts with the "Select City" placeholder |
| Location.LocationSelector.constructor | Automate_Intelligent_Registration_System-main/Automate_Intelligent_Registration_System-main/Frugal-Registration-System-master/script.js:36-40 | the page starts with the country placeholder only, state and city lists at their placeholders and disabled, nothing selected; the invariant holds |
| Location.LocationSelector.FillCountries | Automate_Intelligent_Registration_System-main/Automate_Intelligent_Registration_System-main/Frugal-Registration-System-master/script.js:20-28 | the country list gains one option per country of the table, in table order; the invariant is kept |
| Location.LocationSelector.LoadStates | Automate_Intelligent_Registration_System-main/Automate_Intelligent_Registration_System-main/Frugal-Registration-System-master/script.js:31-54 | the state list is the placeholder followed by the selected country's states in table order, disabled exactly when no country is selected; the city list is the placeholder alone and disabled; both selections are reset |
| Location.LocationSelector.LoadCities | Automate_Intelligent_Registration_System-main/Automate_Intelligent_Registration_System-main/Frugal-Registration-System-master/script.js:57-79 | the city list is the placeholder followed by the selected state's cities in order, disabled exactly when country or state is unselected; the state list and the country are unchanged |
| Location.LocationSelector.SelectCountry | Automate_Intelligent_Registration_System-main/Automate_Intelligent_Registration_System-main/Frugal-Registration-System-master/script.js:31-54 | choosing a listed country runs `loadStates` when the value changes (and changes nothing otherwise); the invariant tying the lists to the table is kept |
| Location.LocationSelector.SelectState | Automate_Intelligent_Registration_System-main/Automate_Intelligent_Registration_System-main/Frugal-Registration-System-master/script.js:57-79 | choosing a listed state runs `loadCities` when the value changes (and changes nothing otherwise); the country and the state list stay, the invariant is kept |
| Location.LocationSelector.SelectCity | Automate_Intelligent_Registration_System-main/Automate_Intelligent_Registration_System-main/Frugal-Registration-System-master/script.js:71-76 | choosing a listed city keeps the invariant |
| Location.CountriesStayKnown | Automate_Intelligent_Registration_System-main/Automate_Intelligent_Registration_System-main/Frugal-Registration-System-master/script.js:22-27 | after the country fill every country option is a table key or the placeholder, and the selected value is still listed |
| Location.ChosenCountryKnown | Automate_Intelligent_Registration_System-main/Automate_Intelligent_Registration_System-main/Frugal-Registration-System-master/script.js:42-45 | a country picked from the list is a table key or empty, so `locationData[selectedCountry]` is defined |
| Location.ChosenStateKnown | Automate_Intelligent_Registration_System-main/Automate_Intelligent_Registration_System-main/Frugal-Registration-System-master/script.js:67-70 | a state picked from the list is a key of the selected country or empty |
| Location.ChosenCityKnown | Automate_Intelligent_Registration_System-main/Automate_Intelligent_Registration_System-main/Frugal-Registration-System-master/script.js:71-76 | a city picked from the list is one of the selected state's cities or empty |
| Rules.Required | Automate_Intelligent_Registration_System-main/Automate_Intelligent_Registration_System-main/Frugal-Registration-System-master/script.js:139-145 | a name passes exactly when it holds a character other than white space, and fails with the field's own message |
| Rules.EmailDomain | Automate_Intelligent_Registration_System-main/Automate_Intelligent_Registration_System-main/Frugal-Registration-System-master/script.js:150 | `email.split("@")[1]` is defined exactly when the address holds `@`, and it holds no `@` |
| Rules.EmailRule | Automate_Intelligent_Registration_System-main/Automate_Intelligent_Registration_System-main/Frugal-Registration-System-master/script.js:148-160 | an address passes exactly when it is not blank, holds `@` and `.`, and its domain is off the denylist; a failure says, in this priority, "Email is required" for a blank address, "Enter a valid email" for one lacking `@` or `.`, and "Disposable emails not allowed" otherwise; what the domain is, and which addresses are refused or escape, is stated by `Rules.EmailRuleOf`, `Rules.DisposableRejected` and `Rules.SecondAtEscapes` |
| Rules.PhoneRule | Automate_Intelligent_Registration_System-main/Automate_Intelligent_Registration_System-main/Frugal-Registration-System-master/script.js:163-166 | a phone number passes exactly when it is not blank and at least 10 characters long as typed; a failure says "Phone is required" for a blank value and "Invalid phone number" otherwise |
| Rules.ConfirmSteps | Automate_Intelligent_Registration_System-main/Automate_Intelligent_Registration_System-main/Frugal-Registration-System-master/script.js:186-192 | the confirmation takes at most one step, which writes no element but the password's; no step is taken, and `isValid` survives, exactly for a non-empty confirmation equal to the password |
| Rules.Decide | Automate_Intelligent_Registration_System-main/Automate_Intelligent_Registration_System-main/Frugal-Registration-System-master/script.js:137-203 | each field's verdict depends on its own value: the names pass exactly when not blank, gender when one is chosen, the password when non-empty, the terms when accepted, and the e-mail and phone verdicts are those of `Rules.EmailRule` and `Rules.PhoneRule`; the failures say "First Name is required", "Last Name is required", "Please select a gender", "Password is required" and "You must accept T&Cs" |
| Rules.Accepted | Automate_Intelligent_Registration_System-main/Automate_Intelligent_Registration_System-main/Frugal-Registration-System-master/script.js:117 | `isValid`, set to false by every call that is not `clearError` and never set back, survives a sequence of calls exactly when every call clears; `Rules.AcceptedIff` turns this into the acceptance condition |
| Rules.Steps | Automate_Intelligent_Registration_System-main/Automate_Intelligent_Registration_System-main/Frugal-Registration-System-master/script.js:137-203 | seven calls, or eight exactly when the confirmation is empty or differs; the terms rule is the last call and the only one on the terms element; what each element then shows is `Rules.NotesShowVerdicts` |
| Rules.TraceShape | Automate_Intelligent_Registration_System-main/Automate_Intelligent_Registration_System-main/Frugal-Registration-System-master/script.js:194-203 | the terms rule closes the sequence of calls, and no earlier call writes the terms element |
| Rules.EmailDomainOf | Automate_Intelligent_Registration_System-main/Automate_Intelligent_Registration_System-main/Frugal-Registration-System-master/script.js:150 | the domain read is what follows the first `@`, up to the next `@` |
| Rules.EmailRuleOf | Automate_Intelligent_Registration_System-main/Automate_Intelligent_Registration_System-main/Frugal-Registration-System-master/script.js:148-160 | an address `local@domain[@...]` with a dot in the domain is refused as disposable exactly when the domain is on the denylist, otherwise cleared |
| Rules.DisposableRejected | Automate_Intelligent_Registration_System-main/Automate_Intelligent_Registration_System-main/Frugal-Registration-System-master/script.js:149-157 | every `local@domain` with a denied domain gets "Disposable emails not allowed" |
| Rules.DenylistCaseSensitive | Automate_Intelligent_Registration_System-main/Automate_Intelligent_Registration_System-main/Frugal-Registration-System-master/script.js:156 | `local@Mailinator.com` passes: the denylist comparison is case-sensitive |
| Rules.SecondAtEscapes | Automate_Intelligent_Registration_System-main/Automate_Intelligent_Registration_System-main/Frugal-Registration-System-master/script.js:150-157 | an allowed domain followed by `@` and a denied one passes: the text after a second `@` is never compared with the denylist |
| Rules.PaddedPhoneAccepted | Automate_Intelligent_Registration_System-main/Automate_Intelligent_Registration_System-main/Frugal-Registration-System-master/script.js:164-165 | nine non-blank characters plus a trailing space pass the phone rule: length is taken before trimming |
| Rules.SamplePhoneAccepted | Automate_Intelligent_Registration_System-main/Automate_Intelligent_Registration_System-main/Frugal-Registration-System-master/automation_test.py:80 | "7075623324" passes the phone rule |
| Rules.ExampleDomainAccepted | Automate_Intelligent_Registration_System-main/Automate_Intelligent_Registration_System-main/Frugal-Registration-System-master/automation_test.py:79 | every `local@example.com` passes the e-mail rules, among them the address of the positive flow |
| Rules.SampleEntriesAccepted | Automate_Intelligent_Registration_System-main/Automate_Intelligent_Registration_System-main/Frugal-Registration-System-master/automation_test.py:77-109 | the entries of the positive flow pass every rule |
| Rules.Effect | Automate_Intelligent_Registration_System-main/Automate_Intelligent_Registration_System-main/Frugal-Registration-System-master/script.js:120-135 | `showError` and `clearError` write their own field's element and no other, the mismatch branch writes none, and every element stays present |
| Rules.Apply | Automate_Intelligent_Registration_System-main/Automate_Intelligent_Registration_System-main/Frugal-Registration-System-master/script.js:137-203 | a sequence of calls keeps every error element present |
| Rules.ApplyAppend | Automate_Intelligent_Registration_System-main/Automate_Intelligent_Registration_System-main/Frugal-Registration-System-master/script.js:137-203 | running two sequences of calls one after the other is running their concatenation |
| Rules.ApplyOne | Automate_Intelligent_Registration_System-main/Automate_Intelligent_Registration_System-main/Frugal-Registration-System-master/script.js:120-135 | one call does what its effect says |
| Rules.ApplyOutside | Automate_Intelligent_Registration_System-main/Automate_Intelligent_Registration_System-main/Frugal-Registration-System-master/script.js:120-135 | calls on other fields leave a field's element unchanged |
| Rules.LastTouch | Automate_Intelligent_Registration_System-main/Automate_Intelligent_Registration_System-main/Frugal-Registration-System-master/script.js:120-135 | a field's element is decided by the last call that writes it: shown with its message, or hidden with the text it had before |
| Rules.TraceSplits | Automate_Intelligent_Registration_System-main/Automate_Intelligent_Registration_System-main/Frugal-Registration-System-master/script.js:137-203 | the calls split into field rules, confirmation, terms; `isValid` survives exactly when it survives each part |
| Rules.TraceShows | Automate_Intelligent_Registration_System-main/Automate_Intelligent_Registration_System-main/Frugal-Registration-System-master/script.js:137-203 | each element ends with its own field's verdict, except that an empty-confirmation message overrides the password's |
| Rules.HeadShows | Automate_Intelligent_Registration_System-main/Automate_Intelligent_Registration_System-main/Frugal-Registration-System-master/script.js:137-184 | names, e-mail, phone, gender and password each end with their own verdict unless the confirmation message follows |
| Rules.OverrideShows | Automate_Intelligent_Registration_System-main/Automate_Intelligent_Registration_System-main/Frugal-Registration-System-master/script.js:186-188 | the confirmation message is the last write to the password's element |
| Rules.TermsShows | Automate_Intelligent_Registration_System-main/Automate_Intelligent_Registration_System-main/Frugal-Registration-System-master/script.js:194-203 | the terms element ends with the terms verdict |
| Rules.NotesShowVerdicts | Automate_Intelligent_Registration_System-main/Automate_Intelligent_Registration_System-main/Frugal-Registration-System-master/script.js:137-203 | after submit each element shows its field's final verdict: displayed with the message on failure, hidden with its old text on pass |
| Rules.TraceAccepted | Automate_Intelligent_Registration_System-main/Automate_Intelligent_Registration_System-main/Frugal-Registration-System-master/script.js:117-203 | `isValid` survives the sequence of calls exactly when every field rule passes and every confirmation step is a clearing one |
| Rules.DecisionsPass | Automate_Intelligent_Registration_System-main/Automate_Intelligent_Registration_System-main/Frugal-Registration-System-master/script.js:137-203 | every field's own rule passes exactly when both names are non-blank, the e-mail and phone rules pass, a gender is chosen, a password is given and the terms are accepted |
| Rules.AcceptedIff | Automate_Intelligent_Registration_System-main/Automate_Intelligent_Registration_System-main/Frugal-Registration-System-master/script.js:117-205 | the form is accepted exactly when both names are non-blank, the e-mail and phone rules pass, a gender is chosen, the password is non-empty and equals the confirmation, and the terms are accepted |
| Rules.MismatchOnlyInvalidates | Automate_Intelligent_Registration_System-main/Automate_Intelligent_Registration_System-main/Frugal-Registration-System-master/script.js:186-192 | a non-empty confirmation that differs from a non-empty password leaves the error elements exactly as a matching one would, yet the form is refused |
| Rules.BlankLastNameRefused | Automate_Intelligent_Registration_System-main/Automate_Intelligent_Registration_System-main/Frugal-Registration-System-master/automation_test.py:41-62 | a blank last name alone refuses the form and shows "Last Name is required" |
| Rules.AcceptedHidesAll | Automate_Intelligent_Registration_System-main/Automate_Intelligent_Registration_System-main/Frugal-Registration-System-master/script.js:130-135 | an accepted form leaves every error element hidden |
| Rules.EmptyEntriesShowAll | Automate_Intelligent_Registration_System-main/Automate_Intelligent_Registration_System-main/Frugal-Registration-System-master/script.js:183-187 | empty entries show every error element, and the password's shows "Confirm Password is required", overwriting "Password is required" |
| Registration.Welcome | Automate_Intelligent_Registration_System-main/Automate_Intelligent_Registration_System-main/Frugal-Registration-System-master/script.js:206 | the greeting ends with the first name exactly as typed, untrimmed |
| Registration.Dialogs | Automate_Intelligent_Registration_System-main/Automate_Intelligent_Registration_System-main/Frugal-Registration-System-master/script.js:189-206 | at most two dialogs; the mismatch warning exactly for a non-empty differing confirmation; the greeting exactly when the form is accepted |
| Registration.Form.constructor | Automate_Intelligent_Registration_System-main/Automate_Intelligent_Registration_System-main/Frugal-Registration-System-master/script.js:94-96 | every error element starts hidden and empty; the meter starts at the neutral values `checkStrength` writes for an empty score: width 0, the neutral colour and the caption "Strength: " (the page's first state itself is an assumption, see "Left out") |
| Registration.Form.CheckStrength | Automate_Intelligent_Registration_System-main/Automate_Intelligent_Registration_System-main/Frugal-Registration-System-master/script.js:82-112 | the bar width, bar colour, caption colour and caption ("Strength: " + tier) are those of the rating of the password's score |
| Registration.Form.ShowError | Automate_Intelligent_Registration_System-main/Automate_Intelligent_Registration_System-main/Frugal-Registration-System-master/script.js:120-127 | the field's element is displayed with the message |
| Registration.Form.ClearError | Automate_Intelligent_Registration_System-main/Automate_Intelligent_Registration_System-main/Frugal-Registration-System-master/script.js:130-135 | the field's element is hidden and keeps its text |
| Registration.Form.Report | Automate_Intelligent_Registration_System-main/Automate_Intelligent_Registration_System-main/Frugal-Registration-System-master/script.js:137-177 | a failing verdict shows its message and clears `isValid`; a passing one hides the element and keeps it |
| Registration.Form.CheckFields | Automate_Intelligent_Registration_System-main/Automate_Intelligent_Registration_System-main/Frugal-Registration-System-master/script.js:137-184 | the first six rules leave the elements as their calls do, and `isValid` survives exactly when all six pass |
| Registration.Form.CheckConfirm | Automate_Intelligent_Registration_System-main/Automate_Intelligent_Registration_System-main/Frugal-Registration-System-master/script.js:186-192 | an empty confirmation shows its message on the password's element, a differing one raises the mismatch dialog; `isValid` survives only an equal one |
| Registration.Form.RunRules | Automate_Intelligent_Registration_System-main/Automate_Intelligent_Registration_System-main/Frugal-Registration-System-master/script.js:117-203 | the elements end as the full sequence of calls leaves them, and `isValid` holds exactly when every rule passes |
| Registration.Form.ResetMeter | Automate_Intelligent_Registration_System-main/Automate_Intelligent_Registration_System-main/Frugal-Registration-System-master/script.js:208-210 | the bar width becomes 0 and the caption "Strength: " |
| Registration.Form.Validate | Automate_Intelligent_Registration_System-main/Automate_Intelligent_Registration_System-main/Frugal-Registration-System-master/script.js:115-211 | the elements end as the sequence of calls leaves them; accepted exactly when every rule passes; the dialogs are as `Dialogs` says; only an accepted form resets bar width and caption, the colours never change |
| Registration.Outcome | Automate_Intelligent_Registration_System-main/Automate_Intelligent_Registration_System-main/Frugal-Registration-System-master/script.js:117-203 | the three parts of the handler compose to the whole sequence, and `isValid` after them is the acceptance condition |
| Registration.Record | Automate_Intelligent_Registration_System-main/Automate_Intelligent_Registration_System-main/Frugal-Registration-System-master/script.js:117-127 | one more call extends the applied sequence by its effect and keeps `isValid` only if it clears |

## Left out

- The page markup (`index.html`) is not part of this model: the initial state of the lists, error elements and meter in the two constructors is an assumption (placeholders only, everything hidden and empty, meter at 0 with the neutral colour, and the caption reading "Strength: " before anything is typed).
- DOM plumbing: element lookup, `innerHTML`, `createElement`, and the `error-border` class that `showError` adds and `clearError` removes; only the option lists, disabled flags, selections and the (displayed, text) pair of each error element are modelled.
- `alert` dialogs are recorded as the list of their messages; `event.preventDefault()` has no counterpart.
- `registrationForm.reset()` on success: its effect on the fields is the browser's; the model only resets the meter as the code does. `reset()` puts the country, state and city controls back to their first options without firing `change`, so on the page the state and city lists keep the previous country's entries and stay enabled: `Location.LocationSelector.Valid` does not describe the page after an accepted submit.
- The field values are parameters of `Validate` and `CheckStrength` rather than being read from the page.
- Colours are kept as opaque strings; widths as whole percentages.
- `Text.Trim`: trims a fixed set of white-space characters (ASCII white space, no-break space, byte-order mark), not the full Unicode set JavaScript uses.
- The `onchange` bindings of the country and state controls live in the markup; the model assumes `loadStates` and `loadCities` are bound there and run when the value changes, as a browser fires `change`.
- `Rules.PhoneRule`: the length is counted in characters, whereas JavaScript's `phone.length` counts UTF-16 code units; five characters outside the Basic Multilingual Plane (such as mathematical digits) make 10 code units and pass on the page, but the model answers "Invalid phone number".
- `Strength.Test`, `Strength.Score`: character classes over ASCII ranges as the regular expressions are written; the password lengths of `Strength.Score` count characters, whereas JavaScript counts UTF-16 code units.
- The end-to-end browser test is not modelled; its two outcomes are stated by `Rules.BlankLastNameRefused` and `Rules.SampleEntriesAccepted`.
