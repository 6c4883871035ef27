/** Characters and trimming, as JavaScript has them; the case of letters is folded for ASCII only. */
module JsText {
  predicate Alphanumeric(c: char) { 'a' <= c <= 'z' || 'A' <= c <= 'Z' || '0' <= c <= '9' }

  function Lower(c: char): char { if 'A' <= c <= 'Z' then c - 'A' + 'a' else c }

  /** White space and line terminators, as `trim` and `\s` know them. */
  predicate IsSpace(c: char) {
    || c == ' ' || '\t' <= c <= '\r' || c == '\U{00a0}' || c == '\U{1680}' || '\U{2000}' <= c <= '\U{200a}'
    || c == '\U{2028}' || c == '\U{2029}' || c == '\U{202f}' || c == '\U{205f}' || c == '\U{3000}' || c == '\U{feff}'
  }

  function TrimStart(s: string): (r: string)
    ensures |r| <= |s| && (r != [] ==> !IsSpace(r[0]))
  {
    if s != [] && IsSpace(s[0]) then TrimStart(s[1..]) else s
  }

  function TrimEnd(s: string): (r: string)
    ensures |r| <= |s| && r <= s && (r != [] ==> !IsSpace(r[|r| - 1]))
  {
    if s != [] && IsSpace(s[|s| - 1]) then TrimEnd(s[..|s| - 1]) else s
  }

  function Trim(s: string): string { TrimEnd(TrimStart(s)) }

  lemma {:induction false} TrimNothing(s: string)
    requires s != [] && !IsSpace(s[0]) && !IsSpace(s[|s| - 1])
    ensures Trim(s) == s
  {
  }

  predicate Spaces(s: string) { forall i :: 0 <= i < |s| ==> IsSpace(s[i]) }

  /** Trimming at the start removes exactly the leading white space. */
  lemma {:induction false} TrimStartOf(lead: string, s: string)
    requires Spaces(lead) && s != [] && !IsSpace(s[0])
    ensures TrimStart(lead + s) == s
  {
    hide IsSpace;
    if lead == [] {
      assert lead + s == s;
    } else {
      assert (lead + s)[1..] == lead[1..] + s;
      TrimStartOf(lead[1..], s);
    }
  }

  /** Trimming at the end stops at the last character that is not white space. */
  lemma {:induction false} TrimEndOf(s: string, more: string) returns (kept: string)
    requires s != [] && !IsSpace(s[|s| - 1])
    ensures TrimEnd(s + more) == s + kept && kept <= more && (Spaces(more) ==> kept == [])
  {
    hide IsSpace;
    kept := more;
    if more == [] {
      assert s + more == s;
    } else if IsSpace(more[|more| - 1]) {
      assert (s + more)[..|s + more| - 1] == s + more[..|more| - 1];
      kept := TrimEndOf(s, more[..|more| - 1]);
    }
  }
}
