/** The submission log kept under the "registrations" key of local storage,
    and the summary list `renderSubmissions` builds from it. */
module Submissions {
  import opened Wrappers
  import opened Contacts

  /** One accepted registration, as the submit handler builds it. */
  datatype Record = Record(
    fullName: string, schoolName: string, email: string, phone: string,
    dob: string, gender: string, level: string, course: string, address: string,
    contacts: seq<Contact>, submittedAt: string)

  /** The stored log: no entry (or an empty one, which is just as falsy),
      text that `JSON.parse` rejects, or a list of records. */
  datatype Stored = Absent | Malformed | Saved(list: seq<Record>)

  /** The exception `JSON.parse` throws. */
  datatype ParseError = SyntaxError

  /** `raw ? JSON.parse(raw) : []`: a missing log reads as the empty list,
      unparsable text throws. */
  function Load(s: Stored): (r: Result<seq<Record>, ParseError>)
    ensures r.Err? <==> s.Malformed?
    ensures s.Absent? ==> r == Ok([])
  {
    match s
    case Absent => Ok([])
    case Malformed => Err(SyntaxError)
    case Saved(list) => Ok(list)
  }

  /** The key-value store holding the log. */
  class SubmissionLog {
    var stored: Stored

    constructor (initial: Stored)
      ensures stored == initial
    {
      stored := initial;
    }

    /** Lines 134-137 of the submit handler: read the list, `unshift` the
        payload and write the whole list back. When the stored text does
        not parse, the exception leaves the store as it was. */
    method Append(payload: Record) returns (r: Result<(), ParseError>)
      modifies this
      ensures r.Err? <==> Load(old(stored)).Err?
      ensures r.Err? ==> stored == old(stored)
      ensures r.Ok? ==> Load(stored) == Ok([payload] + Load(old(stored)).value)
    {
      var loaded := Load(stored);
      if loaded.Err? {
        return Err(loaded.error);
      }
      var list := loaded.value;
      list := [payload] + list;
      stored := Saved(list);
      r := Ok(());
    }
  }

  /** `.map((c) => c.name).filter(Boolean)`: the names that are not empty,
      in contact order. */
  function NonEmptyNames(cs: seq<Contact>): (ns: seq<string>)
    ensures |ns| <= |cs|
    ensures forall i :: 0 <= i < |ns| ==> ns[i] != ""
  {
    if cs == [] then []
    else if cs[0].name == "" then NonEmptyNames(cs[1..])
    else [cs[0].name] + NonEmptyNames(cs[1..])
  }

  /** A name is listed exactly when it is not empty and some contact has
      it. */
  lemma {:induction false} NonEmptyNamesHas(cs: seq<Contact>, n: string)
    ensures n in NonEmptyNames(cs) <==> n != "" && exists i :: 0 <= i < |cs| && cs[i].name == n
  {
    if cs != [] {
      NonEmptyNamesHas(cs[1..], n);
      if exists i :: 0 <= i < |cs[1..]| && cs[1..][i].name == n {
        var i :| 0 <= i < |cs[1..]| && cs[1..][i].name == n;
        assert cs[i + 1].name == n;
      }
      if exists i :: 0 <= i < |cs| && cs[i].name == n {
        var i :| 0 <= i < |cs| && cs[i].name == n;
        if i > 0 {
          assert cs[1..][i - 1].name == n;
        }
      }
    }
  }

  /** The filter keeps the contacts' order: it works piece by piece. */
  lemma {:induction false} NonEmptyNamesAppend(a: seq<Contact>, b: seq<Contact>)
    ensures NonEmptyNames(a + b) == NonEmptyNames(a) + NonEmptyNames(b)
  {
    if a == [] {
      assert a + b == b;
    } else {
      var ab := a + b;
      assert ab[0] == a[0] && ab[1..] == a[1..] + b;
      NonEmptyNamesAppend(a[1..], b);
      if a[0].name != "" {
        var x, y, z := [a[0].name], NonEmptyNames(a[1..]), NonEmptyNames(b);
        assert x + (y + z) == (x + y) + z;
      }
    }
  }

  /** `Array.prototype.join(sep)`: the items with `sep` between neighbours,
      "" for no items. */
  function Join(xs: seq<string>, sep: string): (s: string)
    ensures xs == [] ==> s == ""
    ensures |xs| == 1 ==> s == xs[0]
  {
    if xs == [] then ""
    else if |xs| == 1 then xs[0]
    else xs[0] + sep + Join(xs[1..], sep)
  }

  /** Joining one more item adds a separator and the item at the end. */
  lemma {:induction false} JoinSnoc(xs: seq<string>, x: string, sep: string)
    requires xs != []
    ensures Join(xs + [x], sep) == Join(xs, sep) + sep + x
  {
    if |xs| == 1 {
      assert (xs + [x])[1..] == [x];
    } else {
      assert (xs + [x])[1..] == xs[1..] + [x];
      JoinSnoc(xs[1..], x, sep);
    }
  }

  /** The contacts part of a summary line: " | Contacts: " followed by the
      non-empty names joined by ", " when the record has contacts, and
      nothing when it has none. */
  function ContactsSuffix(cs: seq<Contact>): (s: string)
    ensures s == "" <==> cs == []
  {
    if |cs| > 0 then " | Contacts: " + Join(NonEmptyNames(cs), ", ") else ""
  }

  /** The suffix is there exactly when the record has contacts, and then it
      starts with " | Contacts: "; when every contact name is empty, the
      suffix is that text and nothing more. */
  lemma SuffixWhenContacts(cs: seq<Contact>)
    ensures cs != [] <==> |ContactsSuffix(cs)| >= 13 && ContactsSuffix(cs)[..13] == " | Contacts: "
    ensures cs != [] && (forall i :: 0 <= i < |cs| ==> cs[i].name == "") ==>
      ContactsSuffix(cs) == " | Contacts: "
  {
    if cs != [] && (forall i :: 0 <= i < |cs| ==> cs[i].name == "") {
      if NonEmptyNames(cs) != [] {
        var n := NonEmptyNames(cs)[0];
        NonEmptyNamesHas(cs, n);
      }
    }
  }

  /** One line of the submissions list. */
  function SummaryLine(r: Record): (line: string) {
    r.fullName + " | " + r.email + " | " + r.course + " | " + r.level + ContactsSuffix(r.contacts)
  }

  /** A record without contacts shows only its name, email, course and
      level; a record with contacts shows them after those. */
  lemma SummaryLineParts(r: Record)
    ensures var head := r.fullName + " | " + r.email + " | " + r.course + " | " + r.level;
      && (r.contacts == [] <==> SummaryLine(r) == head)
      && SummaryLine(r)[..|head|] == head
  {
  }

  /** The list `renderSubmissions` shows: one line per record, in log
      order. */
  function Summaries(list: seq<Record>): (lines: seq<string>)
    ensures |lines| == |list|
    ensures forall i :: 0 <= i < |list| ==> lines[i] == SummaryLine(list[i])
  {
    if list == [] then [] else [SummaryLine(list[0])] + Summaries(list[1..])
  }

  /** After an append the new record's line comes first, above the earlier
      lines unchanged. */
  lemma SummariesPrepend(payload: Record, list: seq<Record>)
    ensures Summaries([payload] + list) == [SummaryLine(payload)] + Summaries(list)
  {
    assert ([payload] + list)[1..] == list;
  }

  /** The `#submissions` list element. */
  class SummaryView {
    var lines: seq<string>

    constructor ()
      ensures lines == []
    {
      lines := [];
    }

    /** `renderSubmissions`: read the log, clear the list and append one line
        per record. When the stored text does not parse, the exception comes
        before the list is cleared and the list stays as it was. */
    method Render(log: SubmissionLog) returns (ok: bool)
      modifies this
      ensures ok <==> Load(log.stored).Ok?
      ensures !ok ==> lines == old(lines)
      ensures ok ==> lines == Summaries(Load(log.stored).value)
    {
      var loaded := Load(log.stored);
      if loaded.Err? {
        return false;
      }
      var list := loaded.value;
      lines := [];
      var i := 0;
      while i < |list|
        invariant 0 <= i <= |list|
        invariant |lines| == i
        invariant forall k :: 0 <= k < i ==> lines[k] == SummaryLine(list[k])
      {
        lines := lines + [SummaryLine(list[i])];
        i := i + 1;
      }
      ok := true;
    }
  }
}
