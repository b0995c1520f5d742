/**
 * trimEnd and trimStart from editor.md/lib/wasm/expat.js: strip every trailing
 * (leading) copy of charToRemove from a string. Both compare charToRemove with
 * str.charAt(...), a string of one code unit, or the empty string past either end.
 */
module Trim {
  import opened JsValues

  /** String.prototype.charAt: the unit at k as a one-unit string, or "" when k is out of range. */
  function CharAt(s: JsString, k: int): (r: JsString)
    ensures r != [] <==> 0 <= k < |s|
    ensures 0 <= k < |s| ==> r == [s[k]]
  {
    if 0 <= k < |s| then [s[k]] else []
  }

  /** s ends with the one code unit c. */
  predicate EndsWith(s: JsString, c: JsString) {
    |c| == 1 && |s| > 0 && s[|s| - 1] == c[0]
  }

  /** s starts with the one code unit c. */
  predicate StartsWith(s: JsString, c: JsString) {
    |c| == 1 && |s| > 0 && s[0] == c[0]
  }

  /**
   * The loops stop for every input except one: with charToRemove empty, charAt of
   * the empty string is "" and equals it forever.
   */
  predicate Terminates(str: JsString, charToRemove: JsString) {
    !(str == [] && charToRemove == [])
  }

  /** The string trimEnd returns: s with its trailing run of c removed. */
  function TrimmedEnd(s: JsString, c: JsString): JsString
    decreases |s|
  {
    if EndsWith(s, c) then TrimmedEnd(s[..|s| - 1], c) else s
  }

  /** The string trimStart returns: s with its leading run of c removed. */
  function TrimmedStart(s: JsString, c: JsString): JsString
    decreases |s|
  {
    if StartsWith(s, c) then TrimmedStart(s[1..], c) else s
  }

  /** trimEnd: drops the last unit while it equals charToRemove. */
  method TrimEnd(str: JsString, charToRemove: JsString) returns (r: JsString)
    requires Terminates(str, charToRemove)
    ensures r == TrimmedEnd(str, charToRemove)
  {
    r := str;
    while CharAt(r, |r| - 1) == charToRemove
      invariant TrimmedEnd(r, charToRemove) == TrimmedEnd(str, charToRemove)
      invariant Terminates(r, charToRemove)
      decreases |r|
    {
      // substring(0, -1) of "" is "", but the loop never gets here with r empty
      r := r[..|r| - 1];
    }
  }

  /** trimStart: drops the first unit while it equals charToRemove. */
  method TrimStart(str: JsString, charToRemove: JsString) returns (r: JsString)
    requires Terminates(str, charToRemove)
    ensures r == TrimmedStart(str, charToRemove)
  {
    r := str;
    while CharAt(r, 0) == charToRemove
      invariant TrimmedStart(r, charToRemove) == TrimmedStart(str, charToRemove)
      invariant Terminates(r, charToRemove)
      decreases |r|
    {
      r := r[1..];
    }
  }

  /**
   * trimEnd(s, c) is the longest prefix of s that does not end with c: a prefix of
   * s, not ending with c, and every unit it drops is c, so every longer prefix ends with c.
   */
  lemma {:induction false} TrimmedEndLongest(s: JsString, c: JsString)
    ensures var r := TrimmedEnd(s, c);
      && r <= s
      && !EndsWith(r, c)
      && forall p :: r < p <= s ==> EndsWith(p, c)
    decreases |s|
  {
    var r := TrimmedEnd(s, c);
    if EndsWith(s, c) {
      var t := s[..|s| - 1];
      TrimmedEndLongest(t, c);
      forall p | r < p <= s
        ensures EndsWith(p, c)
      {
        if p != s {
          assert p <= t by { assert p == s[..|p|] && t[..|p|] == s[..|p|]; }
        }
      }
    }
  }

  /**
   * trimStart(s, c) is the longest suffix of s that does not start with c: it is
   * s[d..] for the number d of units dropped, does not start with c, and every longer
   * suffix s[j..], j < d, starts with c.
   */
  lemma {:induction false} TrimmedStartLongest(s: JsString, c: JsString)
    ensures var r := TrimmedStart(s, c);
      && |r| <= |s| && r == s[|s| - |r|..]
      && !StartsWith(r, c)
      && forall j :: 0 <= j < |s| - |r| ==> StartsWith(s[j..], c)
    decreases |s|
  {
    var r := TrimmedStart(s, c);
    if StartsWith(s, c) {
      var t := s[1..];
      TrimmedStartLongest(t, c);
      forall j | 0 <= j < |s| - |r|
        ensures StartsWith(s[j..], c)
      {
        if j > 0 {
          assert s[j..] == t[j - 1..];
        }
      }
      assert t[|t| - |r|..] == s[|s| - |r|..];
    }
  }

  /** A string that does not end with c is its own trimEnd. */
  lemma TrimmedEndFixed(s: JsString, c: JsString)
    requires !EndsWith(s, c)
    ensures TrimmedEnd(s, c) == s
  {
  }

  /** trimEnd is idempotent. */
  lemma TrimEndIdempotent(s: JsString, c: JsString)
    ensures TrimmedEnd(TrimmedEnd(s, c), c) == TrimmedEnd(s, c)
  {
    TrimmedEndLongest(s, c);
    TrimmedEndFixed(TrimmedEnd(s, c), c);
  }

  /** trimStart is idempotent. */
  lemma TrimStartIdempotent(s: JsString, c: JsString)
    ensures TrimmedStart(TrimmedStart(s, c), c) == TrimmedStart(s, c)
  {
    TrimmedStartLongest(s, c);
  }

  /** A charToRemove that is not exactly one code unit never matches: the string comes back as it was. */
  lemma TrimNotOneUnit(s: JsString, c: JsString)
    requires |c| != 1
    ensures TrimmedEnd(s, c) == s && TrimmedStart(s, c) == s
  {
  }
}
