/** The registration form's validator (`validate` in script.js): it reads
    the nine text fields and the terms checkbox, writes one message into each
    field's error element (the empty message clears it) and answers whether
    the form may be submitted. */
module Validation {
  import opened Text
  import opened Patterns
  import opened Wrappers

  /** What the page offers the validator: for each of the nine text inputs
      (`form.elements[name]`) its raw value, or `None` when the form has no
      element of that name, and the state of the terms checkbox. */
  datatype Form = Form(
    fullName: Option<string>, schoolName: Option<string>, email: Option<string>,
    phone: Option<string>, dob: Option<string>, gender: Option<string>,
    level: Option<string>, course: Option<string>, address: Option<string>,
    terms: bool)

  /** `getValue(name)`: the element's value trimmed, or "" when there is no
      such element. The value neither starts nor ends with whitespace. */
  function GetValue(input: Option<string>): (v: string)
    ensures input.None? ==> v == ""
    ensures input.Some? ==> v == Trim(input.value) && |v| <= |input.value|
    ensures v == [] || (!IsWs(v[0]) && !IsWs(v[|v| - 1]))
  {
    if input.Some? then Trim(input.value) else ""
  }

  /** The values one `validate` call works with: each text field through
      `getValue`, the phone also stripped of all whitespace, and the terms
      checkbox. */
  datatype Entries = Entries(
    fullName: string, schoolName: string, email: string, phone: string,
    dob: string, gender: string, level: string, course: string, address: string,
    terms: bool)

  /** Reads the form the way `validate` does. The phone entry is the raw
      phone value with every whitespace character removed, trimming or not. */
  function Read(form: Form): (e: Entries)
    ensures e.fullName == GetValue(form.fullName) && e.schoolName == GetValue(form.schoolName)
    ensures e.email == GetValue(form.email) && e.dob == GetValue(form.dob)
    ensures e.gender == GetValue(form.gender) && e.level == GetValue(form.level)
    ensures e.course == GetValue(form.course) && e.address == GetValue(form.address)
    ensures NoWs(e.phone)
    ensures e.phone == if form.phone.Some? then StripWs(form.phone.value) else ""
    ensures e.terms == form.terms
  {
    StripWsTrim(if form.phone.Some? then form.phone.value else "");
    Entries(
      GetValue(form.fullName), GetValue(form.schoolName), GetValue(form.email),
      StripWs(GetValue(form.phone)),
      GetValue(form.dob), GetValue(form.gender), GetValue(form.level),
      GetValue(form.course), GetValue(form.address),
      form.terms)
  }

  /** The validated fields, in the order `validate` treats them. */
  datatype Field =
    | FullName | SchoolName | Email | Phone | Dob | Gender | Level | Course | Address | Terms

  /** The rule each field must satisfy, stated directly: a required value,
      an email of the `EMAIL_RE` shape, ten digits for the phone, a ticked
      checkbox. */
  ghost predicate Passes(e: Entries, f: Field) {
    match f
    case FullName => e.fullName != ""
    case SchoolName => e.schoolName != ""
    case Email => e.email != "" && MatchesEmailRe(e.email)
    case Phone => IsPhone(e.phone)
    case Dob => e.dob != ""
    case Gender => e.gender != ""
    case Level => e.level != ""
    case Course => e.course != ""
    case Address => e.address != ""
    case Terms => e.terms
  }

  /** The messages `validate` can show; `Clear` is the empty message that
      `setError(id, "")` writes. */
  datatype Msg =
    | Clear
    | FullNameRequired | SchoolNameRequired | EmailRequired | EmailInvalid
    | PhoneRequired | PhoneNotTenDigits | DobRequired | GenderUnselected
    | LevelUnselected | CourseUnselected | AddressRequired | TermsUnaccepted

  /** The text a message puts into an error element: the empty string for
      `Clear` and only for it. */
  function Shows(m: Msg): (s: string)
    ensures s == "" <==> m == Clear
  {
    match m
    case Clear => ""
    case FullNameRequired => "Full name is required"
    case SchoolNameRequired => "School name is required"
    case EmailRequired => "Email is required"
    case EmailInvalid => "Invalid email format"
    case PhoneRequired => "Phone is required"
    case PhoneNotTenDigits => "Phone must be 10 digits"
    case DobRequired => "Date of birth is required"
    case GenderUnselected => "Select gender"
    case LevelUnselected => "Select level"
    case CourseUnselected => "Select course"
    case AddressRequired => "Address is required"
    case TermsUnaccepted => "You must accept terms and conditions"
  }

  /** The message for a required field: `missing` when the value is empty,
      else none. */
  function RequiredMessage(value: string, missing: Msg): Msg {
    if value == "" then missing else Clear
  }

  /** The email field's message: required first, then the `EMAIL_RE` test. */
  function EmailMessage(email: string): Msg {
    if email == "" then EmailRequired
    else if !IsEmail(email) then EmailInvalid
    else Clear
  }

  /** The phone field's message: required first, then the `PHONE_RE` test. */
  function PhoneMessage(phone: string): Msg {
    if phone == "" then PhoneRequired
    else if !IsPhone(phone) then PhoneNotTenDigits
    else Clear
  }

  /** The message `validate` gives a field. */
  function Message(e: Entries, f: Field): Msg {
    match f
    case FullName => RequiredMessage(e.fullName, FullNameRequired)
    case SchoolName => RequiredMessage(e.schoolName, SchoolNameRequired)
    case Email => EmailMessage(e.email)
    case Phone => PhoneMessage(e.phone)
    case Dob => RequiredMessage(e.dob, DobRequired)
    case Gender => RequiredMessage(e.gender, GenderUnselected)
    case Level => RequiredMessage(e.level, LevelUnselected)
    case Course => RequiredMessage(e.course, CourseUnselected)
    case Address => RequiredMessage(e.address, AddressRequired)
    case Terms => if !e.terms then TermsUnaccepted else Clear
  }

  /** A field's message is empty exactly when the field passes its rule, so
      a field that has been fixed always has its old error cleared. */
  lemma MessageEmptyIffPasses(e: Entries, f: Field)
    ensures Message(e, f) == Clear <==> Passes(e, f)
  {
    if f == Email {
      EmailMatchesRe(e.email);
    }
  }

  /** The format messages are only given to non-empty values: an empty email
      or phone gets its "required" message. */
  lemma RequiredBeforeFormat(e: Entries)
    ensures e.email == "" <==> Message(e, Email) == EmailRequired
    ensures Message(e, Email) == EmailInvalid <==> e.email != "" && !MatchesEmailRe(e.email)
    ensures e.phone == "" <==> Message(e, Phone) == PhoneRequired
    ensures Message(e, Phone) == PhoneNotTenDigits <==> e.phone != "" && !IsPhone(e.phone)
  {
    EmailMatchesRe(e.email);
  }

  /** Whitespace anywhere inside a phone number is ignored: the phone check
      gives the same message with or without it, so "123 456 7890" passes
      like "1234567890". */
  lemma {:induction false} PhoneIgnoresWs(a: string, w: string, b: string)
    requires AllWs(w)
    ensures StripWs(a + w + b) == StripWs(a + b)
    ensures PhoneMessage(StripWs(a + w + b)) == PhoneMessage(StripWs(a + b))
  {
    StripWsConcat(a + w, b);
    StripWsConcat(a, w);
    StripWsConcat(a, b);
    StripWsAllWs(w);
    assert StripWs(a) + [] == StripWs(a);
  }

  /** The input element behind a text field; the terms checkbox has none. */
  function Input(form: Form, f: Field): Option<string> {
    match f
    case FullName => form.fullName
    case SchoolName => form.schoolName
    case Email => form.email
    case Phone => form.phone
    case Dob => form.dob
    case Gender => form.gender
    case Level => form.level
    case Course => form.course
    case Address => form.address
    case Terms => None
  }

  /** The message a field gets when it is left empty. */
  function RequiredFor(f: Field): Msg {
    match f
    case FullName => FullNameRequired
    case SchoolName => SchoolNameRequired
    case Email => EmailRequired
    case Phone => PhoneRequired
    case Dob => DobRequired
    case Gender => GenderUnselected
    case Level => LevelUnselected
    case Course => CourseUnselected
    case Address => AddressRequired
    case Terms => TermsUnaccepted
  }

  /** An input that reads as empty: missing, or holding only whitespace. */
  predicate BlankInput(input: Option<string>) {
    input.None? || AllWs(input.value)
  }

  /** A text field gets its "required" message exactly when its input is
      missing or holds only whitespace, and then the form is rejected. */
  lemma BlankFieldRequired(form: Form, f: Field)
    requires f != Terms
    ensures Message(Read(form), f) == RequiredFor(f) <==> BlankInput(Input(form, f))
    ensures BlankInput(Input(form, f)) ==> !Accepts(Read(form))
  {
    match f
    case FullName => if form.fullName.Some? { TrimEmptyIffAllWs(form.fullName.value); }
    case SchoolName => if form.schoolName.Some? { TrimEmptyIffAllWs(form.schoolName.value); }
    case Email => if form.email.Some? { TrimEmptyIffAllWs(form.email.value); }
    case Phone => if form.phone.Some? { StripWsEmptyIffAllWs(form.phone.value); }
    case Dob => if form.dob.Some? { TrimEmptyIffAllWs(form.dob.value); }
    case Gender => if form.gender.Some? { TrimEmptyIffAllWs(form.gender.value); }
    case Level => if form.level.Some? { TrimEmptyIffAllWs(form.level.value); }
    case Course => if form.course.Some? { TrimEmptyIffAllWs(form.course.value); }
    case Address => if form.address.Some? { TrimEmptyIffAllWs(form.address.value); }
  }

  /** The phone field passes exactly when the form has a phone input whose
      value, with all whitespace removed (trimming included), is ten
      digits. */
  lemma PhoneFieldPasses(form: Form)
    ensures Message(Read(form), Phone) == Clear <==>
      form.phone.Some? && IsPhone(StripWs(form.phone.value))
  {
  }

  /** Five digits are not a phone number. */
  lemma ShortPhoneRejected()
    ensures PhoneMessage(StripWs("12345")) == PhoneNotTenDigits
  {
    StripWsNoWs("12345");
  }

  /** Ten digits pass the phone check. */
  lemma TenDigitsPass()
    ensures IsPhone("1234567890")
    ensures PhoneMessage("1234567890") == Clear
  {
  }

  /** Digits are not whitespace, so removing whitespace leaves a phone
      number as it is. */
  lemma PhoneNoWs(s: string)
    requires IsPhone(s)
    ensures NoWs(s)
  {
    forall i | 0 <= i < |s| ensures !IsWs(s[i]) {
      assert IsDigit(s[i]);
    }
  }

  /** Ten digits typed in three groups separated by whitespace pass: the
      whitespace is removed before the digits are counted. */
  lemma GroupedPhonePasses(a: string, w1: string, b: string, w2: string, c: string)
    requires AllWs(w1) && AllWs(w2)
    requires IsPhone(a + b + c)
    ensures PhoneMessage(StripWs(a + w1 + b + w2 + c)) == Clear
  {
    PhoneIgnoresWs(a, w1, b + w2 + c);
    assert a + w1 + (b + w2 + c) == a + w1 + b + w2 + c;
    assert a + (b + w2 + c) == (a + b) + w2 + c;
    PhoneIgnoresWs(a + b, w2, c);
    PhoneNoWs(a + b + c);
    StripWsNoWs(a + b + c);
  }

  /** "123 456 7890" is accepted as a phone number. */
  lemma SpacedPhone()
    ensures PhoneMessage(StripWs("123 456 7890")) == Clear
  {
    TenDigitsPass();
    assert "123" + "456" + "7890" == "1234567890";
    GroupedPhonePasses("123", " ", "456", " ", "7890");
    assert "123" + " " + "456" + " " + "7890" == "123 456 7890";
  }

  /** The value `validate` returns: true when no field got an error. */
  function Accepts(e: Entries): bool {
    && Message(e, FullName) == Clear && Message(e, SchoolName) == Clear
    && Message(e, Email) == Clear && Message(e, Phone) == Clear
    && Message(e, Dob) == Clear && Message(e, Gender) == Clear
    && Message(e, Level) == Clear && Message(e, Course) == Clear
    && Message(e, Address) == Clear && Message(e, Terms) == Clear
  }

  /** The form is accepted exactly when every field passes its rule: all
      nine text fields non-empty after trimming, the email of the `EMAIL_RE`
      shape, the phone ten digits once its whitespace is removed, the terms
      box ticked. */
  lemma AcceptsIffPasses(e: Entries)
    ensures Accepts(e) <==> forall f :: Passes(e, f)
  {
    forall f ensures Message(e, f) == Clear <==> Passes(e, f) {
      MessageEmptyIffPasses(e, f);
    }
    if Accepts(e) {
      forall f ensures Passes(e, f) {
        match f
        case FullName =>
        case SchoolName =>
        case Email =>
        case Phone =>
        case Dob =>
        case Gender =>
        case Level =>
        case Course =>
        case Address =>
        case Terms =>
      }
    }
  }

  /** What an accepted form holds: every text field non-empty, an email of
      the `EMAIL_RE` shape, a ten-digit phone and the terms box ticked. */
  lemma AcceptedFields(e: Entries)
    requires Accepts(e)
    ensures && e.fullName != "" && e.schoolName != ""
      && e.email != "" && MatchesEmailRe(e.email) && IsPhone(e.phone)
      && e.dob != "" && e.gender != "" && e.level != "" && e.course != "" && e.address != ""
      && e.terms
  {
    EmailMatchesRe(e.email);
  }

  /** The error elements of the page (`err_fullName` … `err_terms`), one
      slot per field: `Some(text)` for an element the page has, showing
      `text`, and `None` for one it lacks. */
  datatype Panel = Panel(
    fullName: Option<Msg>, schoolName: Option<Msg>, email: Option<Msg>,
    phone: Option<Msg>, dob: Option<Msg>, gender: Option<Msg>,
    level: Option<Msg>, course: Option<Msg>, address: Option<Msg>,
    terms: Option<Msg>)

  /** The slot of a field's error element. */
  function At(p: Panel, f: Field): Option<Msg> {
    match f
    case FullName => p.fullName
    case SchoolName => p.schoolName
    case Email => p.email
    case Phone => p.phone
    case Dob => p.dob
    case Gender => p.gender
    case Level => p.level
    case Course => p.course
    case Address => p.address
    case Terms => p.terms
  }

  /** `setError(id, message)` on the panel: only the field's own slot
      changes. */
  function Write(p: Panel, f: Field, message: Msg): (r: Panel) {
    match f
    case FullName => p.(fullName := Replace(p.fullName, message))
    case SchoolName => p.(schoolName := Replace(p.schoolName, message))
    case Email => p.(email := Replace(p.email, message))
    case Phone => p.(phone := Replace(p.phone, message))
    case Dob => p.(dob := Replace(p.dob, message))
    case Gender => p.(gender := Replace(p.gender, message))
    case Level => p.(level := Replace(p.level, message))
    case Course => p.(course := Replace(p.course, message))
    case Address => p.(address := Replace(p.address, message))
    case Terms => p.(terms := Replace(p.terms, message))
  }

  /** `setError` touches one element: the field's own element now shows
      `message` if the page has it, and every other element is unchanged. */
  lemma WriteOnly(p: Panel, f: Field, message: Msg, g: Field)
    ensures At(Write(p, f, message), g) == if g == f then Replace(At(p, f), message) else At(p, g)
  {
  }

  /** The error elements after the ten `setError` calls of `validate`, in
      its order. */
  function Written(shown: Panel, e: Entries): Panel {
    var t1 := Write(shown, FullName, Message(e, FullName));
    var t2 := Write(t1, SchoolName, Message(e, SchoolName));
    var t3 := Write(t2, Email, Message(e, Email));
    var t4 := Write(t3, Phone, Message(e, Phone));
    var t5 := Write(t4, Dob, Message(e, Dob));
    var t6 := Write(t5, Gender, Message(e, Gender));
    var t7 := Write(t6, Level, Message(e, Level));
    var t8 := Write(t7, Course, Message(e, Course));
    var t9 := Write(t8, Address, Message(e, Address));
    Write(t9, Terms, Message(e, Terms))
  }

  /** What a run of `validate` leaves in the error elements: every element
      the page has shows its field's message for `e`, whatever it showed
      before, and an element the page lacks stays absent. */
  ghost predicate Displays(text: Panel, shown: Panel, e: Entries) {
    forall f :: At(text, f) == Replace(At(shown, f), Message(e, f))
  }

  /** Two runs of `validate` in a row leave what the second one wrote: the
      first run's messages are all overwritten. */
  lemma DisplaysTwice(p0: Panel, p1: Panel, p2: Panel, e1: Entries, e2: Entries)
    requires Displays(p1, p0, e1) && Displays(p2, p1, e2)
    ensures Displays(p2, p0, e2)
  {
    forall f ensures At(p2, f) == Replace(At(p0, f), Message(e2, f)) {
      assert At(p1, f) == Replace(At(p0, f), Message(e1, f));
    }
  }

  /** Each field is written exactly once: afterwards its element shows the
      field's current message when the page has it and is still absent when
      not, whatever it showed before. */
  lemma WrittenAt(shown: Panel, e: Entries, f: Field)
    ensures At(Written(shown, e), f) == Replace(At(shown, f), Message(e, f))
  {
    match f
    case FullName =>
    case SchoolName =>
    case Email =>
    case Phone =>
    case Dob =>
    case Gender =>
    case Level =>
    case Course =>
    case Address =>
    case Terms =>
  }

  /** `validate` itself: read the entries, then a mutable `ok` flag and one
      `setError` per field, in the source's order. Each step picks the
      field's message, writes it (the empty message when the field passes)
      and clears `ok` when the message is an error. Afterwards every error
      element that exists shows its field's current message, whatever it
      showed before. */
  method Report(e: Entries, shown: Panel) returns (ok: bool, text: Panel)
    ensures ok == Accepts(e)
    ensures Displays(text, shown, e)
  {
    ok := true;
    text := shown;
    var message: Msg;

    message := RequiredMessage(e.fullName, FullNameRequired);
    text := Write(text, FullName, message);
    ok := ok && message == Clear;

    message := RequiredMessage(e.schoolName, SchoolNameRequired);
    text := Write(text, SchoolName, message);
    ok := ok && message == Clear;

    message := EmailMessage(e.email);
    text := Write(text, Email, message);
    ok := ok && message == Clear;

    message := PhoneMessage(e.phone);
    text := Write(text, Phone, message);
    ok := ok && message == Clear;

    message := RequiredMessage(e.dob, DobRequired);
    text := Write(text, Dob, message);
    ok := ok && message == Clear;

    message := RequiredMessage(e.gender, GenderUnselected);
    text := Write(text, Gender, message);
    ok := ok && message == Clear;

    message := RequiredMessage(e.level, LevelUnselected);
    text := Write(text, Level, message);
    ok := ok && message == Clear;

    message := RequiredMessage(e.course, CourseUnselected);
    text := Write(text, Course, message);
    ok := ok && message == Clear;

    message := RequiredMessage(e.address, AddressRequired);
    text := Write(text, Address, message);
    ok := ok && message == Clear;

    message := if !e.terms then TermsUnaccepted else Clear;
    text := Write(text, Terms, message);
    ok := ok && message == Clear;
    assert text == Written(shown, e);
    forall f ensures At(text, f) == Replace(At(shown, f), Message(e, f)) {
      WrittenAt(shown, e, f);
    }
  }

  /** `validate()`: read the form, then report on what was read. */
  method Validate(form: Form, shown: Panel) returns (ok: bool, text: Panel)
    ensures ok == Accepts(Read(form))
    ensures Displays(text, shown, Read(form))
  {
    ok, text := Report(Read(form), shown);
  }
}
