/**
  The form controller of public/script.js, over explicit records instead of
  the DOM: switchForm, which changes the visible form, and validateForm, which
  applies the field validators to the required inputs of a form.

  A page is the part of the document these two routines touch: which form and
  which tab button carry the `active` class, the module-level `currentForm`,
  and every input with its error-message element.
*/
module Forms {
  import opened Text
  import opened Validation

  datatype FormName = Login | Register | ForgotPassword

  /** The tab buttons (`.tab-btn`, keyed by `data-tab`); the forgot-password
      form has none. */
  datatype Tab = LoginTab | RegisterTab

  function TabTarget(t: Tab): FormName {
    match t
    case LoginTab => Login
    case RegisterTab => Register
  }

  /** The classes `error` and `success` of an input and the text and `show`
      class of its error-message element (the element with id `<id>Error`). */
  datatype Decoration = Decoration(hasError: bool, hasSuccess: bool, errorText: string, errorShown: bool)

  /** An `<input>`: its id, its `name` attribute, `kind` the value of its
      `type` property (lower-case, and "text" for an unknown type), its
      value, whether it carries `required`, and its decoration. */
  datatype Field = Field(id: string, name: string, kind: string, value: string, required: bool, decor: Decoration)

  datatype Page = Page(currentForm: FormName, activeForms: set<FormName>, activeTabs: set<Tab>, fields: seq<Field>)

  /** No input carries `error` or `success` and no error message is shown. */
  predicate Undecorated(f: Field) {
    !f.decor.hasError && !f.decor.hasSuccess && !f.decor.errorShown
  }

  // ---------------------------------------------------------- switchForm

  /** Drops the classes switchForm removes; the error text stays. */
  function ResetDecoration(d: Decoration): Decoration {
    d.(hasError := false, hasSuccess := false, errorShown := false)
  }

  /** switchForm(target). */
  function SwitchForm(page: Page, target: FormName): (r: Page)
    ensures r.currentForm == target
    ensures forall f :: f in r.activeForms <==> f == target
    ensures forall t :: t in r.activeTabs <==> TabTarget(t) == target && target != ForgotPassword
    ensures |r.fields| == |page.fields|
    ensures forall k :: 0 <= k < |r.fields| ==>
      && Undecorated(r.fields[k])
      && r.fields[k].decor.errorText == page.fields[k].decor.errorText
      && r.fields[k].(decor := page.fields[k].decor) == page.fields[k]
  {
    var tabs := match target
      case Login => {LoginTab}
      case Register => {RegisterTab}
      case ForgotPassword => {};
    var fields := seq(|page.fields|, k requires 0 <= k < |page.fields| =>
      page.fields[k].(decor := ResetDecoration(page.fields[k].decor)));
    Page(target, {target}, tabs, fields)
  }

  /** Only the last of two switches matters: switching twice is switching once
      to the second target. */
  lemma SwitchFormLastWins(page: Page, first: FormName, second: FormName)
    ensures SwitchForm(SwitchForm(page, first), second) == SwitchForm(page, second)
  {
  }

  // -------------------------------------------------------- validateForm

  const RequiredMessage: string := "Trường này là bắt buộc"
  const InvalidEmailMessage: string := "Email không hợp lệ"
  const InvalidNameMessage: string := "Họ tên không hợp lệ"
  const WeakPasswordMessage: string := "Mật khẩu không đủ mạnh"
  const MismatchMessage: string := "Mật khẩu xác nhận không khớp"

  /** showError: mark the input as failed and show `message`. */
  function ShowError(d: Decoration, message: string): Decoration {
    d.(hasError := true, hasSuccess := false, errorText := message, errorShown := true)
  }

  /** clearError: drop the error state; `success` is left as it was. */
  function ClearError(d: Decoration): Decoration {
    d.(hasError := false, errorText := [], errorShown := false)
  }

  /** The rules validateForm holds a required input to, each stated on its
      own: a field fails when any of them is broken. `value` is the trimmed
      value; `registerPassword` is the raw value of the register password
      input, which the confirmation is compared with. */
  predicate FieldBroken(f: Field, currentForm: FormName, registerPassword: string) {
    var value := Trim(f.value);
    || value == []
    || (f.kind == "email" && !ValidateEmail(value))
    || (f.name == "name" && !ValidateName(value))
    || (f.name == "password" && currentForm == Register && !ValidatePassword(value).isValid)
    || (f.name == "confirmPassword" && value != registerPassword)
  }

  /** The message a non-empty input ends up showing: that of the last rule,
      in the order validateForm tests them, the trimmed value breaks, or
      none when it breaks no rule. Read from the last rule backwards, the
      first broken one wins. */
  function LastBrokenMessage(f: Field, currentForm: FormName, registerPassword: string): string {
    var value := Trim(f.value);
    if f.name == "confirmPassword" && value != registerPassword then MismatchMessage
    else if f.name == "password" && currentForm == Register && !ValidatePassword(value).isValid then WeakPasswordMessage
    else if f.name == "name" && !ValidateName(value) then InvalidNameMessage
    else if f.kind == "email" && !ValidateEmail(value) then InvalidEmailMessage
    else []
  }

  /** The body of validateForm's loop for one required input: clear the old
      error, stop at an empty value, otherwise run the rule checks in order,
      each failing one overwriting the message of the one before. */
  function CheckField(f: Field, currentForm: FormName, registerPassword: string): (d: Decoration)
    ensures d.errorShown == d.hasError
    ensures d.hasError ==> !d.hasSuccess
    ensures !d.hasError ==> d.errorText == [] && d.hasSuccess == f.decor.hasSuccess
    ensures d.hasError <==> d.errorText != []
    ensures Trim(f.value) == [] ==> d.errorText == RequiredMessage
    ensures Trim(f.value) != [] ==> d.errorText == LastBrokenMessage(f, currentForm, registerPassword)
    ensures Trim(f.value) != [] && f.name == "confirmPassword" && Trim(f.value) != registerPassword
      ==> d.errorText == MismatchMessage
  {
    var value := Trim(f.value);
    var cleared := ClearError(f.decor);
    if value == [] then
      ShowError(cleared, RequiredMessage)
    else
      var d1 := if f.kind == "email" && !ValidateEmail(value)
        then ShowError(cleared, InvalidEmailMessage) else cleared;
      var d2 := if f.name == "name" && !ValidateName(value)
        then ShowError(d1, InvalidNameMessage) else d1;
      var d3 := if f.name == "password" && currentForm == Register && !ValidatePassword(value).isValid
        then ShowError(d2, WeakPasswordMessage) else d2;
      if f.name == "confirmPassword" && value != registerPassword
        then ShowError(d3, MismatchMessage) else d3
  }

  /** The sequential checks flag an input exactly when one of the rules,
      read on its own, is broken. */
  lemma CheckFieldFlagsBrokenRules(f: Field, currentForm: FormName, registerPassword: string)
    ensures CheckField(f, currentForm, registerPassword).hasError <==> FieldBroken(f, currentForm, registerPassword)
  {
  }

  /** Why validateForm returns false: a required field breaks a rule, or the
      current form is the register form and the terms are not accepted. */
  predicate FormRejected(fields: seq<Field>, currentForm: FormName, registerPassword: string, agreeTerms: bool) {
    || (exists k :: 0 <= k < |fields| && fields[k].required && FieldBroken(fields[k], currentForm, registerPassword))
    || (currentForm == Register && !agreeTerms)
  }

  /** An input as validateForm leaves it: a required input gets the
      decoration its checks produce, any other input is left alone. */
  function AfterCheck(f: Field, currentForm: FormName, registerPassword: string): Field {
    if f.required then f.(decor := CheckField(f, currentForm, registerPassword)) else f
  }

  /** The loop's verdict, read off the decorations it produced, is the
      rule-by-rule verdict. */
  lemma RejectedIffSomeFieldFlagged(fields: seq<Field>, checked: seq<Field>, currentForm: FormName, registerPassword: string)
    requires |checked| == |fields|
    requires forall k :: 0 <= k < |fields| ==> checked[k] == AfterCheck(fields[k], currentForm, registerPassword)
    ensures (exists k :: 0 <= k < |fields| && fields[k].required && FieldBroken(fields[k], currentForm, registerPassword))
      <==> (exists k :: 0 <= k < |fields| && fields[k].required && checked[k].decor.hasError)
  {
  }

  /** validateForm. `fields` are the inputs of the form element in document
      order; `currentForm` is the module-level variable (not the form passed
      in); `registerPassword` is the value of the input with id
      `registerPassword`; `agreeTerms` is whether the checkbox with id
      `agreeTerms` is checked. Returns the verdict, the
      inputs with their new decorations, and whether the terms warning toast
      is raised. */
  method ValidateForm(fields: seq<Field>, currentForm: FormName, registerPassword: string, agreeTerms: bool)
    returns (isValid: bool, checked: seq<Field>, termsWarning: bool)
    ensures isValid <==> !FormRejected(fields, currentForm, registerPassword, agreeTerms)
    ensures termsWarning <==> currentForm == Register && !agreeTerms
    ensures |checked| == |fields|
    ensures forall k :: 0 <= k < |fields| && !fields[k].required ==> checked[k] == fields[k]
    ensures forall k :: 0 <= k < |fields| && fields[k].required ==>
      checked[k] == fields[k].(decor := CheckField(fields[k], currentForm, registerPassword))
  {
    isValid := true;
    checked := [];
    var i := 0;
    while i < |fields|
      invariant 0 <= i <= |fields|
      invariant |checked| == i
      invariant forall k :: 0 <= k < i ==> checked[k] == AfterCheck(fields[k], currentForm, registerPassword)
      invariant isValid <==> forall k :: 0 <= k < i ==> !(fields[k].required && checked[k].decor.hasError)
    {
      var f := AfterCheck(fields[i], currentForm, registerPassword);
      if f.required && f.decor.hasError {
        isValid := false;
      }
      checked := checked + [f];
      i := i + 1;
    }
    RejectedIffSomeFieldFlagged(fields, checked, currentForm, registerPassword);
    termsWarning := currentForm == Register && !agreeTerms;
    if termsWarning {
      isValid := false;
    }
  }
}
