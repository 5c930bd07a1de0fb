/**
 * Python's whitespace strip with no argument, as the script applies it to the
 * identifier columns: leading and trailing whitespace is removed, where
 * whitespace is every character Python counts as whitespace.
 */
module Text {

  /** The characters Python treats as whitespace. */
  predicate IsSpace(c: char) {
    c == ' ' || ('\t' <= c <= '\r') || ('\U{1C}' <= c <= '\U{1F}') ||
    c == '\U{85}' || c == '\U{A0}' || c == '\U{1680}' ||
    ('\U{2000}' <= c <= '\U{200A}') || c == '\U{2028}' || c == '\U{2029}' ||
    c == '\U{202F}' || c == '\U{205F}' || c == '\U{3000}'
  }

  ghost predicate AllSpace(s: string) {
    forall k :: 0 <= k < |s| ==> IsSpace(s[k])
  }

  /** Neither end of `s` is whitespace. */
  predicate IsStripped(s: string) {
    s == [] || (!IsSpace(s[0]) && !IsSpace(s[|s| - 1]))
  }

  /** Length of the whitespace run at the start of `s`. */
  function LeadingSpaces(s: string): (n: nat)
    ensures n <= |s| && AllSpace(s[..n])
    ensures n < |s| ==> !IsSpace(s[n])
  {
    if s == [] || !IsSpace(s[0]) then 0
    else
      var n := 1 + LeadingSpaces(s[1..]);
      assert forall k :: 1 <= k < n ==> s[..n][k] == s[1..][..n - 1][k - 1];
      n
  }

  /** Length of the whitespace run at the end of `s`. */
  function TrailingSpaces(s: string): (n: nat)
    ensures n <= |s| && AllSpace(s[|s| - n..])
    ensures n < |s| ==> !IsSpace(s[|s| - n - 1])
  {
    if s == [] || !IsSpace(s[|s| - 1]) then 0
    else
      var init := s[..|s| - 1];
      var n := 1 + TrailingSpaces(init);
      assert s[|s| - n..] == init[|init| - (n - 1)..] + [s[|s| - 1]];
      n
  }

  /**
   * Stripping `s`: `s` is `r` with a run of whitespace before and after it, and
   * `r` neither starts nor ends with whitespace.
   */
  function Strip(s: string): (r: string)
    ensures IsStripped(r)
    ensures var i := LeadingSpaces(s);
      i + |r| <= |s| && s[i..i + |r|] == r && AllSpace(s[..i]) && AllSpace(s[i + |r|..])
  {
    var i := LeadingSpaces(s);
    var rest := s[i..];
    var j := TrailingSpaces(rest);
    var r := rest[..|rest| - j];
    assert IsStripped(r) by {
      if r != [] {
        assert r[0] == s[i] && r[|r| - 1] == rest[|rest| - j - 1];
      }
    }
    assert s[i..i + |r|] == r;
    assert AllSpace(s[i + |r|..]) by {
      assert s[i + |r|..] == rest[|rest| - j..];
    }
    r
  }

  lemma {:induction false} LeadingSpacesAfterPad(p: string, u: string)
    requires AllSpace(p)
    ensures LeadingSpaces(p + u) == |p| + LeadingSpaces(u)
  {
    if p == [] {
      assert p + u == u;
    } else {
      assert (p + u)[0] == p[0];
      assert (p + u)[1..] == p[1..] + u;
      LeadingSpacesAfterPad(p[1..], u);
    }
  }

  lemma {:induction false} TrailingSpacesBeforePad(u: string, q: string)
    requires AllSpace(q)
    ensures TrailingSpaces(u + q) == TrailingSpaces(u) + |q|
  {
    if q == [] {
      assert u + q == u;
    } else {
      var s := u + q;
      assert s[|s| - 1] == q[|q| - 1];
      assert s[..|s| - 1] == u + q[..|q| - 1];
      TrailingSpacesBeforePad(u, q[..|q| - 1]);
    }
  }

  /** Stripping a stripped string padded with whitespace gives the string back. */
  lemma StripPadded(p: string, t: string, q: string)
    requires AllSpace(p) && AllSpace(q) && IsStripped(t)
    ensures Strip(p + t + q) == t
  {
    var s := p + t + q;
    assert s == p + (t + q);
    LeadingSpacesAfterPad(p, t + q);
    if t == [] {
      assert t + q == q + [];
      LeadingSpacesAfterPad(q, []);
    } else {
      assert (t + q)[0] == t[0];
      assert s[|p|..] == t + q;
      TrailingSpacesBeforePad(t, q);
    }
  }

  /** Stripping twice is stripping once. */
  lemma StripIdempotent(s: string)
    ensures Strip(Strip(s)) == Strip(s)
  {
    StripPadded([], Strip(s), []);
    assert [] + Strip(s) + [] == Strip(s);
  }
}
