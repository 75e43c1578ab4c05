/** The registration page as a whole: the form, its error elements, the
    contact rows, the stored log and the submissions list, with the input
    listeners and the submit handler of script.js. */
module Registration {
  import opened Wrappers
  import opened Text
  import opened Patterns
  import opened Validation
  import opened Contacts
  import opened Submissions

  /** How a submit ends: rejected by `validate`, stopped by the exception of
      `JSON.parse` on an unreadable log, or accepted with the stored
      record. */
  datatype Outcome = Rejected | Threw(error: ParseError) | Accepted(payload: Record)

  /** The record the submit handler stores: the field values as `getValue`
      reads them, the phone without whitespace (the same values `validate`
      read), the collected contacts and the submission time. */
  function Payload(form: Form, contacts: seq<Contact>, submittedAt: string): (r: Record)
    ensures var e := Read(form);
      && r.fullName == e.fullName && r.schoolName == e.schoolName && r.email == e.email
      && r.phone == e.phone && r.dob == e.dob && r.gender == e.gender
      && r.level == e.level && r.course == e.course && r.address == e.address
    ensures r.contacts == contacts && r.submittedAt == submittedAt
    ensures NoWs(r.phone)
  {
    var e := Read(form);
    Record(
      e.fullName, e.schoolName, e.email, e.phone, e.dob, e.gender, e.level, e.course, e.address,
      contacts, submittedAt)
  }

  /** The stored record holds exactly the values `validate` just accepted,
      so every record the handler stores satisfies the field rules. */
  lemma PayloadPassed(form: Form, contacts: seq<Contact>, submittedAt: string)
    requires Accepts(Read(form))
    ensures var r := Payload(form, contacts, submittedAt);
      && r.fullName != "" && r.schoolName != ""
      && r.email != "" && MatchesEmailRe(r.email)
      && IsPhone(r.phone)
      && r.dob != "" && r.gender != "" && r.level != "" && r.course != "" && r.address != ""
  {
    AcceptedFields(Read(form));
  }

  /** The two forms have the same inputs: editing values or resetting the
      form adds and removes no element. */
  predicate SameInputs(a: Form, b: Form) {
    && a.fullName.Some? == b.fullName.Some? && a.schoolName.Some? == b.schoolName.Some?
    && a.email.Some? == b.email.Some? && a.phone.Some? == b.phone.Some?
    && a.dob.Some? == b.dob.Some? && a.gender.Some? == b.gender.Some?
    && a.level.Some? == b.level.Some? && a.course.Some? == b.course.Some?
    && a.address.Some? == b.address.Some?
  }

  /** `form.reset()`: every input goes back to its default value, taken to
      be empty, and the terms box is unticked. */
  function Reset(form: Form): (r: Form)
    ensures SameInputs(form, r)
    ensures !r.terms
  {
    Form(
      Replace(form.fullName, ""), Replace(form.schoolName, ""), Replace(form.email, ""),
      Replace(form.phone, ""), Replace(form.dob, ""), Replace(form.gender, ""),
      Replace(form.level, ""), Replace(form.course, ""), Replace(form.address, ""),
      false)
  }

  /** The entries of a blank form. */
  const Blank := Entries("", "", "", "", "", "", "", "", "", false)

  /** A reset form reads as blank, whether or not each input exists. */
  lemma ResetReadsBlank(form: Form)
    ensures Read(Reset(form)) == Blank
  {
    var r := Reset(form);
    assert GetValue(r.fullName) == "" && GetValue(r.schoolName) == "" && GetValue(r.email) == "";
    assert GetValue(r.phone) == "" && GetValue(r.dob) == "" && GetValue(r.gender) == "";
    assert GetValue(r.level) == "" && GetValue(r.course) == "" && GetValue(r.address) == "";
  }

  /** On a blank form every field fails, each with its "required" message:
      the `validate` call that ends a successful submit fills every error
      element the page has. */
  lemma BlankFailsEverywhere()
    ensures !Accepts(Blank)
    ensures forall f :: Message(Blank, f) != Clear
    ensures Message(Blank, Email) == EmailRequired && Message(Blank, Phone) == PhoneRequired
  {
    forall f ensures Message(Blank, f) != Clear {
      match f
      case FullName =>
      case SchoolName =>
      case Email =>
      case Phone =>
      case Dob =>
      case Gender =>
      case Level =>
      case Course =>
      case Address =>
      case Terms =>
    }
  }

  /** The page and the state the script keeps in it. */
  class Page {
    var form: Form
    var panel: Panel
    const members: MemberList
    const log: SubmissionLog
    const view: SummaryView

    ghost predicate Valid()
      reads this, members
    {
      members.Valid()
    }

    /** Loading the script: no contact rows yet, and the submissions list
        rendered from the stored log (left empty when the log does not
        parse, since the exception stops that render). */
    constructor (initial: Form, errors: Panel, stored: Stored)
      ensures Valid()
      ensures form == initial && panel == errors
      ensures members.rows == [] && log.stored == stored
      ensures Load(stored).Ok? ==> view.lines == Summaries(Load(stored).value)
      ensures Load(stored).Err? ==> view.lines == []
    {
      form := initial;
      panel := errors;
      members := new MemberList();
      log := new SubmissionLog(stored);
      view := new SummaryView();
      new;
      var _ := view.Render(log);
    }

    /** The input and change listeners: the user edits the values of the
        form's inputs and `validate` runs, its answer unused. */
    method OnInput(edited: Form)
      requires SameInputs(form, edited)
      modifies this
      ensures form == edited
      ensures Displays(panel, old(panel), Read(edited))
    {
      form := edited;
      var _, text := Validate(form, panel);
      panel := text;
    }

    /** The submit handler. A rejected form only updates the error
        elements. An accepted one is stored at the head of the log; when the
        stored log does not parse, the exception stops the handler there.
        Otherwise the list is rendered again, the form (contact inputs
        included) is reset and `validate` runs on the blank form. */
    method Submit(now: string) returns (outcome: Outcome)
      requires Valid()
      modifies this, members, log, view
      ensures Valid()
      ensures outcome.Rejected? <==> !Accepts(Read(old(form)))
      ensures outcome.Threw? <==> Accepts(Read(old(form))) && Load(old(log.stored)).Err?
      ensures !outcome.Accepted? ==>
        && form == old(form) && members.rows == old(members.rows)
        && log.stored == old(log.stored) && view.lines == old(view.lines)
        && Displays(panel, old(panel), Read(old(form)))
      ensures outcome.Accepted? ==>
        && outcome.payload == Payload(old(form), Collect(old(members.rows)), now)
        && Load(log.stored) == Ok([outcome.payload] + Load(old(log.stored)).value)
        && view.lines == Summaries(Load(log.stored).value)
        && form == Reset(old(form))
        && members.rows == Cleared(old(members.rows))
        && Displays(panel, old(panel), Read(form))
    {
      var ok, text := Validate(form, panel);
      panel := text;
      if !ok {
        return Rejected;
      }
      ghost var shown := panel;
      outcome := Store(now);
      if outcome.Accepted? {
        DisplaysTwice(old(panel), shown, panel, Read(old(form)), Read(form));
      }
    }

    /** The submit handler once `validate` has accepted the form: build the
        record, store it, render the list and clear the form. */
    method Store(now: string) returns (outcome: Outcome)
      requires Valid()
      modifies this, members, log, view
      ensures Valid()
      ensures outcome.Threw? <==> Load(old(log.stored)).Err?
      ensures !outcome.Rejected?
      ensures outcome.Threw? ==>
        && form == old(form) && panel == old(panel) && members.rows == old(members.rows)
        && log.stored == old(log.stored) && view.lines == old(view.lines)
      ensures outcome.Accepted? ==>
        && outcome.payload == Payload(old(form), Collect(old(members.rows)), now)
        && Load(log.stored) == Ok([outcome.payload] + Load(old(log.stored)).value)
        && view.lines == Summaries(Load(log.stored).value)
        && form == Reset(old(form))
        && members.rows == Cleared(old(members.rows))
        && Displays(panel, old(panel), Read(form))
    {
      var payload := Payload(form, Collect(members.rows), now);
      var appended := log.Append(payload);
      if appended.Err? {
        return Threw(appended.error);
      }
      var _ := view.Render(log);
      ClearForm();
      outcome := Accepted(payload);
    }

    /** The end of a successful submit: `form.reset()`, which also empties
        the contact inputs, then `validate` on the blank form. */
    method ClearForm()
      requires Valid()
      modifies this, members
      ensures Valid()
      ensures form == Reset(old(form)) && members.rows == Cleared(old(members.rows))
      ensures Displays(panel, old(panel), Read(form))
    {
      form := Reset(form);
      members.Reset();
      var _, text := Validate(form, panel);
      panel := text;
    }
  }

  /** With no contact rows, the stored record has no contacts and its
      summary line ends after the level. */
  lemma NoRowsNoSuffix(form: Form, now: string)
    ensures var r := Payload(form, Collect([]), now);
      && r.contacts == []
      && SummaryLine(r) == r.fullName + " | " + r.email + " | " + r.course + " | " + r.level
  {
    SummaryLineParts(Payload(form, Collect([]), now));
  }
}
