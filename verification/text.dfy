/** Whitespace, trimming and whitespace removal as the form handler uses them:
    `String.prototype.trim` in `getValue` and `.replace(/\s+/g, "")` on phone
    numbers. ECMAScript's `trim` and the regular-expression class `\s` both
    stand for the same characters: WhiteSpace and LineTerminator. */
module Text {

  /** ECMAScript WhiteSpace (TAB, VT, FF, SP, NBSP, ZWNBSP and the Unicode
      space separators) and LineTerminator (LF, CR, LS, PS). */
  predicate IsWs(c: char) {
    || c == '\t' || c == '\n' || c == '\U{000B}' || c == '\U{000C}' || c == '\r'
    || c == ' ' || c == '\U{00A0}' || c == '\U{1680}'
    || ('\U{2000}' <= c <= '\U{200A}')
    || c == '\U{2028}' || c == '\U{2029}' || c == '\U{202F}' || c == '\U{205F}'
    || c == '\U{3000}' || c == '\U{FEFF}'
  }

  predicate NoWs(s: string) {
    forall i :: 0 <= i < |s| ==> !IsWs(s[i])
  }

  predicate AllWs(s: string) {
    forall i :: 0 <= i < |s| ==> IsWs(s[i])
  }

  /** The number of whitespace characters `s` starts with: the index at
      which `trim` lets the result begin. */
  function LeadingWs(s: string): (n: nat)
    ensures n <= |s|
    ensures forall i :: 0 <= i < n ==> IsWs(s[i])
    ensures n < |s| ==> !IsWs(s[n])
  {
    if |s| > 0 && IsWs(s[0]) then 1 + LeadingWs(s[1..]) else 0
  }

  /** The number of whitespace characters `s` ends with: how many `trim`
      drops at the end. */
  function TrailingWs(s: string): (n: nat)
    ensures n <= |s|
    ensures forall i :: |s| - n <= i < |s| ==> IsWs(s[i])
    ensures n < |s| ==> !IsWs(s[|s| - n - 1])
  {
    if |s| > 0 && IsWs(s[|s| - 1]) then 1 + TrailingWs(s[..|s| - 1]) else 0
  }

  /** `String.prototype.trim`: the slice of `s` that starts after its
      leading whitespace and is followed by nothing but whitespace; it is
      empty or ends with a non-whitespace character, which pins it down. A
      string without whitespace is its own trim. */
  function Trim(s: string): (r: string)
    ensures LeadingWs(s) + |r| <= |s| && r == s[LeadingWs(s)..LeadingWs(s) + |r|]
    ensures forall i :: LeadingWs(s) + |r| <= i < |s| ==> IsWs(s[i])
    ensures r == [] || (!IsWs(r[0]) && !IsWs(r[|r| - 1]))
    ensures NoWs(s) ==> r == s
  {
    var a := LeadingWs(s);
    var t := s[a..];
    var r := t[..|t| - TrailingWs(t)];
    assert r == s[a..a + |r|];
    forall i | a + |r| <= i < |s| ensures IsWs(s[i]) {
      assert s[i] == t[i - a];
    }
    r
  }

  /** `s.replace(/\s+/g, "")`: `s` with every whitespace character removed. */
  function StripWs(s: string): (r: string)
    ensures NoWs(r)
    ensures |r| <= |s|
  {
    if s == [] then []
    else if IsWs(s[0]) then StripWs(s[1..])
    else [s[0]] + StripWs(s[1..])
  }

  /** Removing whitespace works piece by piece. */
  lemma {:induction false} StripWsConcat(a: string, b: string)
    ensures StripWs(a + b) == StripWs(a) + StripWs(b)
  {
    if a == [] {
      assert a + b == b;
    } else {
      assert (a + b)[1..] == a[1..] + b;
      StripWsConcat(a[1..], b);
    }
  }

  /** Only whitespace: nothing is left. */
  lemma {:induction false} StripWsAllWs(s: string)
    requires AllWs(s)
    ensures StripWs(s) == []
  {
    if s != [] {
      StripWsAllWs(s[1..]);
    }
  }

  /** No whitespace: nothing is removed. */
  lemma {:induction false} StripWsNoWs(s: string)
    requires NoWs(s)
    ensures StripWs(s) == s
  {
    if s != [] {
      StripWsNoWs(s[1..]);
      assert [s[0]] + s[1..] == s;
    }
  }

  /** A string is its prefix followed by the rest. */
  lemma SplitAt(s: string, n: nat)
    requires n <= |s|
    ensures s[..n] + s[n..] == s
  {
  }

  /** Dropping a prefix of whitespace changes nothing once whitespace is
      removed. */
  lemma StripWsDropPrefix(s: string, n: nat)
    requires n <= |s|
    requires forall i :: 0 <= i < n ==> IsWs(s[i])
    ensures StripWs(s[n..]) == StripWs(s)
  {
    assert AllWs(s[..n]) by {
      forall i | 0 <= i < n ensures IsWs(s[..n][i]) { assert s[..n][i] == s[i]; }
    }
    SplitAt(s, n);
    StripWsConcat(s[..n], s[n..]);
    StripWsAllWs(s[..n]);
  }

  /** Dropping a suffix of whitespace changes nothing once whitespace is
      removed. */
  lemma StripWsDropSuffix(t: string, k: nat)
    requires k <= |t|
    requires forall i :: k <= i < |t| ==> IsWs(t[i])
    ensures StripWs(t[..k]) == StripWs(t)
  {
    assert AllWs(t[k..]) by {
      forall i | 0 <= i < |t| - k ensures IsWs(t[k..][i]) { assert t[k..][i] == t[k + i]; }
    }
    SplitAt(t, k);
    StripWsConcat(t[..k], t[k..]);
    StripWsAllWs(t[k..]);
  }

  /** Trimming first changes nothing once all whitespace is removed, so the
      phone value `getValue("phone").replace(/\s+/g, "")` depends only on the
      raw input's non-whitespace characters. */
  lemma StripWsTrim(s: string)
    ensures StripWs(Trim(s)) == StripWs(s)
  {
    var n := LeadingWs(s);
    var r := Trim(s);
    StripWsDropPrefix(s, n);
    StripWsDropSuffix(s[n..], |r|);
    assert s[n..][..|r|] == r;
  }

  /** `trim` gives "" exactly for an input that is all whitespace. */
  lemma TrimEmptyIffAllWs(s: string)
    ensures Trim(s) == [] <==> AllWs(s)
  {
  }

  /** Removing whitespace gives "" exactly for an input that is all
      whitespace. */
  lemma {:induction false} StripWsEmptyIffAllWs(s: string)
    ensures StripWs(s) == [] <==> AllWs(s)
  {
    if s != [] {
      StripWsEmptyIffAllWs(s[1..]);
      assert AllWs(s) <==> IsWs(s[0]) && AllWs(s[1..]) by {
        if IsWs(s[0]) && AllWs(s[1..]) {
          forall i | 0 <= i < |s| ensures IsWs(s[i]) {
            if i > 0 { assert s[i] == s[1..][i - 1]; }
          }
        }
      }
    }
  }
}
