/** The two regular expressions of the form handler, written out as
    predicates: `EMAIL_RE = /^[^\s@]+@[^\s@]+\.[^\s@]+$/` and
    `PHONE_RE = /^\d{10}$/`. */
module Patterns {
  import opened Text

  /** `\d` without the unicode flag: an ASCII decimal digit. */
  predicate IsDigit(c: char) {
    '0' <= c <= '9'
  }

  /** `PHONE_RE`: exactly ten ASCII digits and nothing else. */
  predicate IsPhone(s: string) {
    |s| == 10 && forall i :: 0 <= i < |s| ==> IsDigit(s[i])
  }

  /** One match of `[^\s@]+`: a non-empty run of characters that are neither
      whitespace nor '@'. */
  predicate IsEmailAtom(t: string) {
    |t| > 0 && forall k :: 0 <= k < |t| ==> !IsWs(t[k]) && t[k] != '@'
  }

  /** `EMAIL_RE` read as its structure: a local part, '@' at index `i`, a
      middle part, '.' at index `j`, a final part, each part one `[^\s@]+`. */
  ghost predicate MatchesEmailRe(s: string) {
    exists i, j ::
      && 0 <= i < j < |s| && s[i] == '@' && s[j] == '.'
      && IsEmailAtom(s[..i]) && IsEmailAtom(s[i + 1..j]) && IsEmailAtom(s[j + 1..])
  }

  /** Index of the first '@' in `s`, or `|s|` when there is none. */
  function FirstAt(s: string): (k: nat)
    ensures k <= |s|
    ensures forall i :: 0 <= i < k ==> s[i] != '@'
    ensures k < |s| ==> s[k] == '@'
  {
    if s == [] then 0
    else if s[0] == '@' then 0
    else 1 + FirstAt(s[1..])
  }

  /** The domain part has a '.' that is neither its first nor its last
      character. */
  predicate HasInnerDot(d: string) {
    exists k :: 0 < k < |d| - 1 && d[k] == '.'
  }

  /** The executable email test: no whitespace anywhere, one '@' that is not
      the first character and is followed by no other '@', and a domain part
      with an inner '.'. */
  predicate IsEmail(s: string) {
    var at := FirstAt(s);
    && NoWs(s)
    && 0 < at < |s|
    && (forall k :: at < k < |s| ==> s[k] != '@')
    && HasInnerDot(s[at + 1..])
  }

  /** An accepted email holds exactly one '@', and not at index 0. */
  lemma EmailAtUnique(s: string, k: nat)
    requires IsEmail(s) && k < |s| && s[k] == '@'
    ensures k == FirstAt(s) && k > 0
  {
  }

  /** A slice whose characters are neither whitespace nor '@' is one
      `[^\s@]+` match when it is non-empty. */
  lemma AtomOfSlice(s: string, lo: nat, hi: nat)
    requires lo < hi <= |s|
    requires forall m :: lo <= m < hi ==> !IsWs(s[m]) && s[m] != '@'
    ensures IsEmailAtom(s[lo..hi])
  {
    var t := s[lo..hi];
    forall m | 0 <= m < |t| ensures !IsWs(t[m]) && t[m] != '@' {
      assert t[m] == s[lo + m];
    }
  }

  /** The characters of a `[^\s@]+` match that sits in `s` at `lo`. */
  lemma SliceOfAtom(s: string, lo: nat, hi: nat)
    requires lo <= hi <= |s| && IsEmailAtom(s[lo..hi])
    ensures forall m :: lo <= m < hi ==> !IsWs(s[m]) && s[m] != '@'
  {
    var t := s[lo..hi];
    forall m | lo <= m < hi ensures !IsWs(s[m]) && s[m] != '@' {
      assert s[m] == t[m - lo];
    }
  }

  lemma EmailToRe(s: string)
    requires IsEmail(s)
    ensures MatchesEmailRe(s)
  {
    var at := FirstAt(s);
    var d := s[at + 1..];
    var k :| 0 < k < |d| - 1 && d[k] == '.';
    var j := at + 1 + k;
    assert s[j] == d[k];
    AtomOfSlice(s, 0, at);
    AtomOfSlice(s, at + 1, j);
    AtomOfSlice(s, j + 1, |s|);
    assert s[..at] == s[0..at];
    assert s[j + 1..] == s[j + 1..|s|];
  }

  lemma ReToEmail(s: string)
    requires MatchesEmailRe(s)
    ensures IsEmail(s)
  {
    var i, j :|
      && 0 <= i < j < |s| && s[i] == '@' && s[j] == '.'
      && IsEmailAtom(s[..i]) && IsEmailAtom(s[i + 1..j]) && IsEmailAtom(s[j + 1..]);
    assert s[..i] == s[0..i];
    assert s[j + 1..] == s[j + 1..|s|];
    SliceOfAtom(s, 0, i);
    SliceOfAtom(s, i + 1, j);
    SliceOfAtom(s, j + 1, |s|);
    assert !IsWs('@') && !IsWs('.');
    forall m | 0 <= m < |s| ensures !IsWs(s[m]) && (m != i ==> s[m] != '@') {
      if m == i || m == j {
      } else if m < i {
      } else if m < j {
      } else {
      }
    }
    assert FirstAt(s) == i;
    var d := s[i + 1..];
    assert d[j - i - 1] == '.';
  }

  /** The email test accepts exactly the strings `EMAIL_RE` matches. */
  lemma EmailMatchesRe(s: string)
    ensures IsEmail(s) <==> MatchesEmailRe(s)
  {
    if IsEmail(s) {
      EmailToRe(s);
    }
    if MatchesEmailRe(s) {
      ReToEmail(s);
    }
  }

  /** A plain address passes the email test. */
  lemma EmailAccepted()
    ensures IsEmail("ann@school.rw")
  {
    var s := "ann@school.rw";
    assert s[..3] == "ann" && s[4..10] == "school" && s[11..] == "rw";
    assert IsEmailAtom("ann") && IsEmailAtom("school") && IsEmailAtom("rw");
    assert s[3] == '@' && s[10] == '.';
    EmailMatchesRe(s);
  }

  /** A leading '@' is rejected. */
  lemma EmailRejectedLocal()
    ensures !IsEmail("@school.rw")
  {
  }

  /** An empty middle part and a trailing '.' are rejected. */
  lemma EmailRejectedDomain()
    ensures !IsEmail("ann@.rw")
    ensures !IsEmail("ann@school.")
  {
    assert FirstAt("ann@.rw") == 3 && "ann@.rw"[4..] == ".rw";
    assert !HasInnerDot(".rw");
    assert FirstAt("ann@school.") == 3 && "ann@school."[4..] == "school.";
    assert !HasInnerDot("school.");
  }

  /** A second '@' and a space are rejected. */
  lemma EmailRejectedChars()
    ensures !IsEmail("ann@x@school.rw")
    ensures !IsEmail("ann b@school.rw")
  {
    assert FirstAt("ann@x@school.rw") == 3;
    assert "ann@x@school.rw"[5] == '@';
    assert "ann b@school.rw"[3] == ' ';
  }
}
