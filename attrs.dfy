/**
 * parseAttrs from editor.md/lib/wasm/expat.js: the expat binding hands element
 * attributes over as one string, entries separated by "\x01\x01" and each entry's
 * name and value by "\x01". String.prototype.split and Array.prototype.filter are
 * modelled as the functions Split and NonEmpty; the forEach that fills the result
 * dictionary is a loop.
 */
module Attrs {
  import opened JsValues

  const Sep: JsString := [1]
  const Sep2: JsString := [1, 1]

  /** sep occurs in s at j. */
  predicate OccursAt(s: JsString, sep: JsString, j: nat) {
    j + |sep| <= |s| && s[j..j + |sep|] == sep
  }

  /** sep occurs nowhere in s. */
  predicate Free(s: JsString, sep: JsString) {
    forall j :: 0 <= j <= |s| ==> !OccursAt(s, sep, j)
  }

  /** s.indexOf(sep, from): the first occurrence of sep at or after from, or -1. */
  function IndexOf(s: JsString, sep: JsString, from: nat): (k: int)
    requires |sep| > 0
    ensures k == -1 || (from <= k && OccursAt(s, sep, k))
    ensures forall j :: from <= j && (k == -1 || j < k) ==> !OccursAt(s, sep, j)
    decreases |s| - from
  {
    if from + |sep| > |s| then -1
    else if s[from..from + |sep|] == sep then from
    else IndexOf(s, sep, from + 1)
  }

  /** s.split(sep) for a non-empty separator: the pieces between occurrences found left to right. */
  function Split(s: JsString, sep: JsString): (parts: seq<JsString>)
    requires |sep| > 0
    ensures |parts| >= 1
    decreases |s|
  {
    var k := IndexOf(s, sep, 0);
    if k < 0 then [s] else [s[..k]] + Split(s[k + |sep|..], sep)
  }

  /** parts.join(sep). */
  function Join(parts: seq<JsString>, sep: JsString): JsString
    decreases |parts|
  {
    if parts == [] then []
    else if |parts| == 1 then parts[0]
    else parts[0] + sep + Join(parts[1..], sep)
  }

  /** filter((key) => !!key): the empty strings are falsy and dropped. */
  function NonEmpty(parts: seq<JsString>): (r: seq<JsString>)
    ensures forall i :: 0 <= i < |r| ==> r[i] != []
    ensures forall p :: p in r <==> p in parts && p != []
    ensures forall p :: multiset(r)[p] == if p == [] then 0 else multiset(parts)[p]
  {
    if parts == [] then []
    else
      assert parts == [parts[0]] + parts[1..];
      (if parts[0] == [] then [] else [parts[0]]) + NonEmpty(parts[1..])
  }

  /** The filter keeps the order of the pieces: filtering a concatenation concatenates the filtered parts. */
  lemma {:induction false} NonEmptyAppend(a: seq<JsString>, b: seq<JsString>)
    ensures NonEmpty(a + b) == NonEmpty(a) + NonEmpty(b)
    decreases |a|
  {
    if a != [] {
      assert (a + b)[1..] == a[1..] + b;
      NonEmptyAppend(a[1..], b);
    } else {
      assert a + b == b;
    }
  }

  /** parts[0] of an entry's split on "\x01": the attribute name. */
  function Key(entry: JsString): JsString {
    Split(entry, Sep)[0]
  }

  /** parts[1] of an entry's split on "\x01": the value, undefined when the entry holds no "\x01". */
  function Value(entry: JsString): Option<JsString> {
    var parts := Split(entry, Sep);
    if |parts| > 1 then Some(parts[1]) else None
  }

  /** The entries of an attribute string, as forEach visits them. */
  function Entries(attrs: JsString): seq<JsString> {
    NonEmpty(Split(attrs, Sep2))
  }

  /** The dictionary after the assignments retVal[Key(e)] = Value(e) for the entries in order. */
  function Assigned(entries: seq<JsString>): map<JsString, Option<JsString>>
    decreases |entries|
  {
    if entries == [] then map[]
    else
      var e := entries[|entries| - 1];
      Assigned(entries[..|entries| - 1])[Key(e) := Value(e)]
  }

  /** parseAttrs: the dictionary of the attribute string's entries. */
  method ParseAttrs(attrs: JsString) returns (retVal: map<JsString, Option<JsString>>)
    ensures retVal == Assigned(Entries(attrs))
  {
    retVal := map[];
    var keys := attrs;
    var entries := NonEmpty(Split(keys, Sep2));
    var i := 0;
    while i < |entries|
      invariant 0 <= i <= |entries|
      invariant retVal == Assigned(entries[..i])
    {
      var parts := Split(entries[i], Sep);
      retVal := retVal[parts[0] := if |parts| > 1 then Some(parts[1]) else None];
      assert entries[..i + 1][..i] == entries[..i];
      i := i + 1;
    }
    assert entries[..i] == entries;
  }

  // ---------------------------------------------------------------------------
  // split and join

  /** Joining the pieces of a split with its separator gives the string back. */
  lemma {:induction false} SplitJoin(s: JsString, sep: JsString)
    requires |sep| > 0
    ensures Join(Split(s, sep), sep) == s
    decreases |s|
  {
    var k := IndexOf(s, sep, 0);
    if k >= 0 {
      var head, rest := s[..k], s[k + |sep|..];
      SplitJoin(rest, sep);
      JoinCons(head, Split(rest, sep), sep);
      Around(s, sep, k);
    }
  }

  /** Joining a piece in front of a non-empty list puts one separator between them. */
  lemma JoinCons(head: JsString, tail: seq<JsString>, sep: JsString)
    requires tail != []
    ensures Join([head] + tail, sep) == head + sep + Join(tail, sep)
  {
    var parts := [head] + tail;
    assert parts[0] == head && parts[1..] == tail;
  }

  /** A string with sep at k is what lies before sep, sep, and what lies after it. */
  lemma Around(s: JsString, sep: JsString, k: nat)
    requires OccursAt(s, sep, k)
    ensures s == s[..k] + sep + s[k + |sep|..]
  {
    assert s == s[..k] + s[k..k + |sep|] + s[k + |sep|..];
  }

  /** No piece of a split holds the separator. */
  lemma {:induction false} SplitFree(s: JsString, sep: JsString)
    requires |sep| > 0
    ensures forall i :: 0 <= i < |Split(s, sep)| ==> Free(Split(s, sep)[i], sep)
    decreases |s|
  {
    var k := IndexOf(s, sep, 0);
    if k >= 0 {
      var rest := s[k + |sep|..];
      SplitFree(rest, sep);
      var head := s[..k];
      forall j | 0 <= j <= |head|
        ensures !OccursAt(head, sep, j)
      {
        if j + |sep| <= |head| {
          assert head[j..j + |sep|] == s[j..j + |sep|];
          assert !OccursAt(s, sep, j);
        }
      }
    } else {
      assert forall j :: 0 <= j <= |s| ==> !OccursAt(s, sep, j);
    }
  }

  /**
   * A piece p that can be followed by sep without the first occurrence moving into
   * p: sep occurs in p + sep only at |p|.
   */
  predicate Clean(p: JsString, sep: JsString) {
    forall j :: 0 <= j < |p| ==> !OccursAt(p + sep, sep, j)
  }

  /** The first occurrence of sep in p + sep + rest is the joint, when p is clean. */
  lemma FirstAtJoint(p: JsString, sep: JsString, rest: JsString)
    requires |sep| > 0 && Clean(p, sep)
    ensures IndexOf(p + sep + rest, sep, 0) == |p|
  {
    var s := p + sep + rest;
    assert OccursAt(s, sep, |p|) by { assert s[|p|..|p| + |sep|] == sep; }
    forall j | 0 <= j < |p|
      ensures !OccursAt(s, sep, j)
    {
      assert !OccursAt(p + sep, sep, j);
      assert s[j..j + |sep|] == (p + sep)[j..j + |sep|];
    }
    var k := IndexOf(s, sep, 0);
    assert k != -1 && k <= |p|;
  }

  /** A clean piece holds no occurrence of sep. */
  lemma CleanFree(p: JsString, sep: JsString)
    requires |sep| > 0 && Clean(p, sep)
    ensures Free(p, sep)
  {
    forall j | 0 <= j <= |p|
      ensures !OccursAt(p, sep, j)
    {
      if j + |sep| <= |p| && j < |p| {
        assert !OccursAt(p + sep, sep, j);
        assert p[j..j + |sep|] == (p + sep)[j..j + |sep|];
      }
    }
  }

  /** Splitting a join of clean pieces gives the pieces back. */
  lemma {:induction false} JoinSplit(parts: seq<JsString>, sep: JsString)
    requires |sep| > 0 && parts != []
    requires forall i :: 0 <= i < |parts| ==> Clean(parts[i], sep)
    ensures Split(Join(parts, sep), sep) == parts
    decreases |parts|
  {
    if |parts| == 1 {
      CleanFree(parts[0], sep);
      var k := IndexOf(parts[0], sep, 0);
      assert k == -1;
    } else {
      var p, rest := parts[0], Join(parts[1..], sep);
      FirstAtJoint(p, sep, rest);
      var s := p + sep + rest;
      assert s[..|p|] == p && s[|p| + |sep|..] == rest;
      JoinSplit(parts[1..], sep);
    }
  }

  // ---------------------------------------------------------------------------
  // the dictionary

  /** The names in the dictionary are exactly the names of the entries. */
  lemma {:induction false} AssignedKeys(entries: seq<JsString>)
    ensures forall k :: k in Assigned(entries) <==> exists i :: 0 <= i < |entries| && Key(entries[i]) == k
    decreases |entries|
  {
    if entries != [] {
      var n := |entries| - 1;
      var init := entries[..n];
      AssignedKeys(init);
      forall k | k in Assigned(entries)
        ensures exists i :: 0 <= i < |entries| && Key(entries[i]) == k
      {
        assert Assigned(entries) == Assigned(init)[Key(entries[n]) := Value(entries[n])];
        if k != Key(entries[n]) {
          assert k in Assigned(init);
          var i :| 0 <= i < |init| && Key(init[i]) == k;
          assert entries[i] == init[i];
        }
      }
      forall k | exists i :: 0 <= i < |entries| && Key(entries[i]) == k
        ensures k in Assigned(entries)
      {
        var i :| 0 <= i < |entries| && Key(entries[i]) == k;
        if i < n {
          assert init[i] == entries[i];
        }
      }
    }
  }

  /** A later entry with the same name overwrites an earlier one: each name holds the value of its last entry. */
  lemma {:induction false} AssignedLastWins(entries: seq<JsString>, i: nat)
    requires i < |entries|
    requires forall j :: i < j < |entries| ==> Key(entries[j]) != Key(entries[i])
    ensures Key(entries[i]) in Assigned(entries)
    ensures Assigned(entries)[Key(entries[i])] == Value(entries[i])
    decreases |entries|
  {
    var n := |entries| - 1;
    if i < n {
      var init := entries[..n];
      assert init[i] == entries[i];
      AssignedLastWins(init, i);
    }
  }

  // ---------------------------------------------------------------------------
  // round trip

  /** The attribute string for a list of name/value pairs: name "\x01" value, entries joined by "\x01\x01". */
  function Serialize(pairs: seq<(JsString, JsString)>): JsString {
    Join(EntryList(pairs), Sep2)
  }

  function EntryList(pairs: seq<(JsString, JsString)>): (r: seq<JsString>)
    ensures |r| == |pairs|
    ensures forall i :: 0 <= i < |pairs| ==> r[i] == pairs[i].0 + Sep + pairs[i].1 && r[i] != []
  {
    seq(|pairs|, i requires 0 <= i < |pairs| => pairs[i].0 + Sep + pairs[i].1)
  }

  /** The dictionary the pairs describe when a later pair overrides an earlier one. */
  function PairMap(pairs: seq<(JsString, JsString)>): map<JsString, Option<JsString>>
    decreases |pairs|
  {
    if pairs == [] then map[]
    else
      var p := pairs[|pairs| - 1];
      PairMap(pairs[..|pairs| - 1])[p.0 := Some(p.1)]
  }

  /** No unit of s is 1. */
  predicate NoSep(s: JsString) {
    forall j :: 0 <= j < |s| ==> s[j] != 1
  }

  /** A pair the attribute string can carry: neither part holds "\x01" and the value is not empty. */
  predicate Carried(p: (JsString, JsString)) {
    NoSep(p.0) && NoSep(p.1) && p.1 != []
  }

  /** An entry name "\x01" value splits back into its name and value. */
  lemma EntryParts(k: JsString, v: JsString)
    requires NoSep(k) && NoSep(v)
    ensures Key(k + Sep + v) == k && Value(k + Sep + v) == Some(v)
  {
    NoSepClean(k);
    NoSepClean(v);
    JoinSplit([k, v], Sep);
    assert Join([k, v], Sep) == k + Sep + v;
  }

  /** A string without the unit 1 is clean for "\x01". */
  lemma NoSepClean(s: JsString)
    requires NoSep(s)
    ensures Clean(s, Sep)
  {
    forall j | 0 <= j < |s|
      ensures !OccursAt(s + Sep, Sep, j)
    {
      assert (s + Sep)[j..j + 1] == [s[j]];
    }
  }

  /** An entry of a carried pair is clean for "\x01\x01": it holds no "\x01\x01" and does not end in "\x01". */
  lemma EntryClean(p: (JsString, JsString))
    requires Carried(p)
    ensures Clean(p.0 + Sep + p.1, Sep2)
  {
    var e := p.0 + Sep + p.1;
    forall j | 0 <= j < |e|
      ensures !OccursAt(e + Sep2, Sep2, j)
    {
      var t := e + Sep2;
      assert t[j..j + 2] == [t[j], t[j + 1]];
      if j < |p.0| {
        assert t[j] == p.0[j];
      } else if j == |p.0| {
        assert t[j + 1] == p.1[0];
      } else {
        assert t[j] == p.1[j - |p.0| - 1];
      }
    }
  }

  /** Entries built the same way as from pairs assign the pairs' dictionary. */
  lemma {:induction false} AssignedPairs(pairs: seq<(JsString, JsString)>)
    requires forall i :: 0 <= i < |pairs| ==> Carried(pairs[i])
    ensures Assigned(EntryList(pairs)) == PairMap(pairs)
    decreases |pairs|
  {
    if pairs != [] {
      var n := |pairs| - 1;
      var es := EntryList(pairs);
      AssignedPairs(pairs[..n]);
      assert es[..n] == EntryList(pairs[..n]);
      EntryParts(pairs[n].0, pairs[n].1);
    }
  }

  /**
   * Decoding the attribute string of carried pairs gives their dictionary back, the
   * last pair winning where names repeat.
   */
  lemma ParseSerialized(pairs: seq<(JsString, JsString)>)
    requires pairs != []
    requires forall i :: 0 <= i < |pairs| ==> Carried(pairs[i])
    ensures Assigned(Entries(Serialize(pairs))) == PairMap(pairs)
  {
    var es := EntryList(pairs);
    SerializedSplits(pairs);
    NonEmptyKeeps(es);
    assert Entries(Serialize(pairs)) == es;
    AssignedPairs(pairs);
  }

  /** The attribute string of carried pairs splits on "\x01\x01" into exactly their entries. */
  lemma SerializedSplits(pairs: seq<(JsString, JsString)>)
    requires pairs != []
    requires forall i :: 0 <= i < |pairs| ==> Carried(pairs[i])
    ensures Split(Serialize(pairs), Sep2) == EntryList(pairs)
  {
    var es := EntryList(pairs);
    forall i | 0 <= i < |es|
      ensures Clean(es[i], Sep2)
    {
      EntryClean(pairs[i]);
    }
    JoinSplit(es, Sep2);
  }

  /** filter(!!key) keeps a list without empty strings as it is. */
  lemma {:induction false} NonEmptyKeeps(parts: seq<JsString>)
    requires forall i :: 0 <= i < |parts| ==> parts[i] != []
    ensures NonEmpty(parts) == parts
    decreases |parts|
  {
    if parts != [] {
      NonEmptyKeeps(parts[1..]);
      assert [parts[0]] + parts[1..] == parts;
    }
  }

  /** The empty attribute string has no entries: split gives [""], which the filter drops. */
  lemma NoAttributes()
    ensures Entries([]) == [] && Assigned(Entries([])) == map[]
  {
    var parts: seq<JsString> := [[]];
    assert Split([], Sep2) == parts;
    assert parts[1..] == [];
  }
}
