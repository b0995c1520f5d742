/**
 * ID_RE from mdx_elementid.py as an explicit scanner. The pattern recognises a
 * trailing attribute spec: blanks, at most six '#', blanks, an opening '{' or '[',
 * blanks, a kind '#' or '.', a name of one or more characters from
 * [-._:a-zA-Z0-9 ], a closing '}' or ']', blanks, then a newline or the end of
 * the text. re.search returns the leftmost start at which the pattern matches.
 */
module IdPattern {
  import opened JsValues

  /** What a match yields: group('type') and group('id'). */
  datatype IdSpec = IdSpec(kind: char, name: string)

  /** A search result: m.start() and the groups. */
  datatype Found = Found(start: nat, spec: IdSpec)

  predicate IsBlank(c: char) { c == ' ' || c == '\t' }
  predicate IsHash(c: char) { c == '#' }
  predicate IsOpen(c: char) { c == '{' || c == '[' }
  predicate IsKind(c: char) { c == '#' || c == '.' }
  predicate IsClose(c: char) { c == '}' || c == ']' }

  /** The character class [-._:a-zA-Z0-9 ]. */
  predicate IsNameChar(c: char) {
    c == '-' || c == '.' || c == '_' || c == ':' || c == ' '
    || ('a' <= c <= 'z') || ('A' <= c <= 'Z') || ('0' <= c <= '9')
  }

  /** The three character classes the pattern repeats. */
  datatype Class = Blanks | Hashes | NameChars

  predicate In(c: char, k: Class) {
    match k
    case Blanks => IsBlank(c)
    case Hashes => IsHash(c)
    case NameChars => IsNameChar(c)
  }

  /** Every character of t[i..j] is in the class P. */
  predicate All(t: string, i: nat, j: nat, P: Class)
    decreases j - i
  {
    i <= j <= |t| && (i == j || (In(t[i], P) && All(t, i + 1, j, P)))
  }

  /** A run of P stops before any character outside P. */
  lemma {:induction false} RunStops(t: string, i: nat, j: nat, P: Class, m: nat)
    requires All(t, i, j, P) && i <= m < |t| && !In(t[m], P)
    ensures j <= m
    decreases j - i
  {
    if i < j && i < m {
      RunStops(t, i + 1, j, P, m);
    }
  }

  /** Two runs of P that meet make one run. */
  lemma {:induction false} AllJoin(t: string, i: nat, j: nat, k: nat, P: Class)
    requires All(t, i, j, P) && All(t, j, k, P)
    ensures All(t, i, k, P)
    decreases j - i
  {
    if i < j {
      AllJoin(t, i + 1, j, k, P);
    }
  }

  /** A run of P holds P at each of its positions. */
  lemma {:induction false} AllAt(t: string, i: nat, j: nat, P: Class, m: nat)
    requires All(t, i, j, P) && i <= m < j
    ensures In(t[m], P)
    decreases m - i
  {
    if i < m {
      AllAt(t, i + 1, j, P, m);
    }
  }

  /** The end of the longest run of characters in P starting at i: a greedy P*. */
  function Skip(t: string, i: nat, P: Class): (j: nat)
    requires i <= |t|
    ensures All(t, i, j, P)
    ensures j == |t| || !In(t[j], P)
    decreases |t| - i
  {
    if i == |t| || !In(t[i], P) then i else Skip(t, i + 1, P)
  }

  /** The only run end: a run of P from i that stops at a character outside P, or at the end, is where Skip stops. */
  lemma {:induction false} SkipLands(t: string, i: nat, j: nat, P: Class)
    requires All(t, i, j, P)
    requires j == |t| || !In(t[j], P)
    ensures Skip(t, i, P) == j
    decreases j - i
  {
    if i < j {
      SkipLands(t, i + 1, j, P);
    }
  }

  /** The part before the opening bracket: blanks p..a, at most six hashes a..b, blanks b..q, and the bracket at q. */
  predicate Lead(t: string, p: nat, a: nat, b: nat, q: nat) {
    && All(t, p, a, Blanks) && All(t, a, b, Hashes) && b - a <= 6 && All(t, b, q, Blanks)
    && q < |t| && IsOpen(t[q])
  }

  /**
   * The part after the opening bracket at q: blanks q+1..k, the kind at k, the name
   * k+1..c, the closing bracket at c, blanks c+1..e, and at e a newline or the end.
   */
  predicate Tail(t: string, q: nat, k: nat, c: nat, e: nat) {
    && All(t, q + 1, k, Blanks) && k < |t| && IsKind(t[k])
    && k + 1 < c && All(t, k + 1, c, NameChars) && c < |t| && IsClose(t[c])
    && All(t, c + 1, e, Blanks) && (e == |t| || t[e] == '\n')
  }

  /** The whole pattern laid out over t from p. */
  predicate Layout(t: string, p: nat, a: nat, b: nat, q: nat, k: nat, c: nat, e: nat) {
    Lead(t, p, a, b, q) && Tail(t, q, k, c, e)
  }

  /** The pattern matches t from p with these groups: some layout puts the kind and name there. */
  ghost predicate Matches(t: string, p: nat, spec: IdSpec) {
    exists a: nat, b: nat, q: nat, k: nat, c: nat, e: nat ::
      Layout(t, p, a, b, q, k, c, e) && spec == IdSpec(t[k], t[k + 1..c])
  }

  /** The scan up to the opening bracket: greedy blanks, hashes (at most six) and blanks, then '{' or '['. */
  function Opening(t: string, p: nat): (r: Option<nat>)
    requires p <= |t|
    ensures r.Some? ==> r.value < |t| && IsOpen(t[r.value])
  {
    var a := Skip(t, p, Blanks);
    var b := Skip(t, a, Hashes);
    var q := Skip(t, b, Blanks);
    if b - a > 6 || q == |t| || !IsOpen(t[q]) then None else Some(q)
  }

  /** The scan after the opening bracket at q: the groups, if the rest of the pattern follows. */
  function Closing(t: string, q: nat): Option<IdSpec>
    requires q < |t|
  {
    var k := Skip(t, q + 1, Blanks);
    if k == |t| || !IsKind(t[k]) then None
    else
      var c := Skip(t, k + 1, NameChars);
      if c == k + 1 || c == |t| || !IsClose(t[c]) then None
      else
        var e := Skip(t, c + 1, Blanks);
        if e < |t| && t[e] != '\n' then None
        else Some(IdSpec(t[k], t[k + 1..c]))
  }

  /** ID_RE.match(t, p): the groups of the match that starts at p, if there is one. */
  function MatchAt(t: string, p: nat): Option<IdSpec>
    requires p <= |t|
  {
    match Opening(t, p)
    case None => None
    case Some(q) => Closing(t, q)
  }

  /** The runs the opening scan went through are a Lead. */
  lemma OpeningSound(t: string, p: nat) returns (a: nat, b: nat)
    requires p <= |t| && Opening(t, p).Some?
    ensures Lead(t, p, a, b, Opening(t, p).value)
  {
    a := Skip(t, p, Blanks);
    b := Skip(t, a, Hashes);
  }

  /** The runs the closing scan went through are a Tail holding the kind and the name. */
  lemma ClosingSound(t: string, q: nat) returns (k: nat, c: nat, e: nat)
    requires q < |t| && Closing(t, q).Some?
    ensures Tail(t, q, k, c, e) && Closing(t, q).value == IdSpec(t[k], t[k + 1..c])
  {
    k := Skip(t, q + 1, Blanks);
    c := Skip(t, k + 1, NameChars);
    e := Skip(t, c + 1, Blanks);
  }

  /** A match found by the scanner is the pattern laid out over t, with the kind and name in their places. */
  lemma MatchSound(t: string, p: nat)
    requires p <= |t|
    ensures MatchAt(t, p).Some? ==> Matches(t, p, MatchAt(t, p).value)
  {
    if MatchAt(t, p).Some? {
      var q := Opening(t, p).value;
      var a, b := OpeningSound(t, p);
      var k, c, e := ClosingSound(t, q);
      assert Layout(t, p, a, b, q, k, c, e);
    }
  }

  /** Every Lead is found by the opening scan: its three runs end at the bracket. */
  lemma OpeningComplete(t: string, p: nat, a: nat, b: nat, q: nat)
    requires Lead(t, p, a, b, q)
    ensures Opening(t, p) == Some(q)
  {
    if a < b {
      SkipLands(t, p, a, Blanks);
      SkipLands(t, a, b, Hashes);
      SkipLands(t, b, q, Blanks);
    } else {
      AllJoin(t, p, a, q, Blanks);
      SkipLands(t, p, q, Blanks);
      SkipLands(t, q, q, Hashes);
      SkipLands(t, q, q, Blanks);
    }
  }

  /** Every Tail is found by the closing scan, with its kind and name. */
  lemma ClosingComplete(t: string, q: nat, k: nat, c: nat, e: nat)
    requires q < |t| && Tail(t, q, k, c, e)
    ensures Closing(t, q) == Some(IdSpec(t[k], t[k + 1..c]))
  {
    SkipLands(t, q + 1, k, Blanks);
    SkipLands(t, k + 1, c, NameChars);
    SkipLands(t, c + 1, e, Blanks);
  }

  /** Every layout of the pattern from p is found by the scanner, with the same kind and name. */
  lemma MatchComplete(t: string, p: nat, a: nat, b: nat, q: nat, k: nat, c: nat, e: nat)
    requires p <= |t| && Layout(t, p, a, b, q, k, c, e)
    ensures MatchAt(t, p) == Some(IdSpec(t[k], t[k + 1..c]))
  {
    OpeningComplete(t, p, a, b, q);
    ClosingComplete(t, q, k, c, e);
  }

  /** The search from p on: the first position p..|t| at which the pattern matches. */
  function SearchFrom(t: string, p: nat): (r: Option<Found>)
    requires p <= |t|
    ensures r.Some? ==> p <= r.value.start <= |t| && MatchAt(t, r.value.start) == Some(r.value.spec)
    decreases |t| - p
  {
    match MatchAt(t, p)
    case Some(spec) => Some(Found(p, spec))
    case None => if p == |t| then None else SearchFrom(t, p + 1)
  }

  /** ID_RE.search(t). */
  function Search(t: string): (r: Option<Found>)
    ensures r.Some? ==> r.value.start <= |t| && MatchAt(t, r.value.start) == Some(r.value.spec)
  {
    SearchFrom(t, 0)
  }

  /** The search from p skips no match: a match at j in p..|t| means one is found at j or before. */
  lemma {:induction false} SearchFromFirst(t: string, p: nat, j: nat)
    requires p <= j <= |t|
    ensures MatchAt(t, j).Some? ==> SearchFrom(t, p).Some? && SearchFrom(t, p).value.start <= j
    decreases j - p
  {
    if MatchAt(t, p).None? && p < j {
      SearchFromFirst(t, p + 1, j);
    }
  }

  /** re.search skips no match: a match at j means one is found at j or before. */
  lemma SearchFirst(t: string, j: nat)
    requires j <= |t|
    ensures MatchAt(t, j).Some? ==> Search(t).Some? && Search(t).value.start <= j
  {
    SearchFromFirst(t, 0, j);
  }

  /** A search result is the leftmost layout: the spec sits at its start, and nothing matches before it. */
  lemma SearchFinds(t: string, f: Found, a: nat, b: nat, q: nat, k: nat, c: nat, e: nat)
    requires f.start <= |t| && Layout(t, f.start, a, b, q, k, c, e)
    requires forall j :: 0 <= j < f.start ==> MatchAt(t, j).None?
    requires f.spec == IdSpec(t[k], t[k + 1..c])
    ensures Search(t) == Some(f)
  {
    MatchComplete(t, f.start, a, b, q, k, c, e);
    SearchFirst(t, f.start);
    var r := Search(t).value;
    assert MatchAt(t, r.start).Some?;
    assert r.start == f.start;
  }

  /** The scanner decides the pattern: it yields spec at p exactly when the pattern matches there with those groups. */
  lemma MatchIff(t: string, p: nat, spec: IdSpec)
    requires p <= |t|
    ensures MatchAt(t, p) == Some(spec) <==> Matches(t, p, spec)
  {
    if MatchAt(t, p) == Some(spec) {
      MatchSound(t, p);
    }
    if Matches(t, p, spec) {
      var a: nat, b: nat, q: nat, k: nat, c: nat, e: nat :|
        Layout(t, p, a, b, q, k, c, e) && spec == IdSpec(t[k], t[k + 1..c]);
      MatchComplete(t, p, a, b, q, k, c, e);
    }
  }

  /** No match starts before s. */
  ghost predicate NoneBefore(t: string, s: nat) {
    forall j: nat, spec: IdSpec :: j < s ==> !Matches(t, j, spec)
  }

  /** Nothing matches before what re.search finds, nor anywhere when it finds nothing. */
  lemma SearchNoneBefore(t: string)
    ensures Search(t).Some? ==> NoneBefore(t, Search(t).value.start)
    ensures Search(t).None? ==> NoneBefore(t, |t| + 1)
  {
    forall j: nat, spec: IdSpec | j <= |t|
      ensures MatchAt(t, j).Some? ==> Search(t).Some? && Search(t).value.start <= j
      ensures Matches(t, j, spec) ==> MatchAt(t, j) == Some(spec)
    {
      SearchFirst(t, j);
      MatchIff(t, j, spec);
    }
  }

  /** A match at s with nothing before it is what re.search finds. */
  lemma LeftmostSearched(t: string, s: nat, spec: IdSpec)
    requires s <= |t| && Matches(t, s, spec) && NoneBefore(t, s)
    ensures Search(t) == Some(Found(s, spec))
  {
    MatchIff(t, s, spec);
    SearchFirst(t, s);
    var f := Search(t).value;
    MatchSound(t, f.start);
    assert Matches(t, f.start, f.spec);
    assert f.start == s;
  }

  /**
   * re.search, stated without the scanner: it finds Found(s, spec) exactly when the
   * pattern matches at s with those groups and nowhere before s, and it finds
   * nothing exactly when the pattern matches nowhere in t.
   */
  lemma SearchLeftmost(t: string, s: nat, spec: IdSpec)
    ensures Search(t) == Some(Found(s, spec)) <==> s <= |t| && Matches(t, s, spec) && NoneBefore(t, s)
    ensures Search(t).None? <==> NoneBefore(t, |t| + 1)
  {
    SearchNoneBefore(t);
    if Search(t) == Some(Found(s, spec)) {
      MatchSound(t, s);
    } else if s <= |t| && Matches(t, s, spec) && NoneBefore(t, s) {
      LeftmostSearched(t, s, spec);
    }
    if Search(t).Some? {
      MatchSound(t, Search(t).value.start);
    }
  }

  /** Python 2.7's unicode.isspace (Unicode 5.2 database): what strip() removes. */
  predicate IsSpace(c: char) {
    ('\t' <= c <= '\r') || ('\U{1c}' <= c <= ' ') || c == '\U{85}' || c == '\U{a0}'
    || c == '\U{1680}' || c == '\U{180e}' || ('\U{2000}' <= c <= '\U{200a}') || c == '\U{2028}' || c == '\U{2029}'
    || c == '\U{202f}' || c == '\U{205f}' || c == '\U{3000}'
  }

  /** t.strip() is the empty string: t is empty or all whitespace. */
  predicate Blank(t: string) {
    forall i :: 0 <= i < |t| ==> IsSpace(t[i])
  }

  /** Text the pattern matches is never blank: it holds an opening bracket. */
  lemma MatchNotBlank(t: string)
    requires Search(t).Some?
    ensures !Blank(t)
  {
    var p := Search(t).value.start;
    var q := Opening(t, p).value;
    assert !IsSpace(t[q]);
  }

  /** Text without an opening bracket has no match. */
  lemma NoBracketNoMatch(t: string)
    requires '{' !in t && '[' !in t
    ensures Search(t).None?
  {
    SearchHasBracket(t);
  }

  /** A match needs an opening bracket somewhere in the text. */
  lemma SearchHasBracket(t: string)
    ensures Search(t).Some? ==> '{' in t || '[' in t
  {
    match Search(t)
    case None =>
    case Some(f) =>
      var q := Opening(t, f.start).value;
      assert t[q] in t;
  }

  /**
   * No match starts inside a prefix s that holds no opening bracket and ends in a
   * character that is neither blank nor '#': every scan from there stops inside s.
   */
  lemma NoMatchBefore(s: string, r: string)
    requires s != [] && '{' !in s && '[' !in s
    requires !IsBlank(s[|s| - 1]) && !IsHash(s[|s| - 1])
    ensures forall j :: 0 <= j < |s| ==> MatchAt(s + r, j).None?
  {
    var t := s + r;
    forall j | 0 <= j < |s|
      ensures MatchAt(t, j).None?
    {
      var a := Skip(t, j, Blanks);
      RunStops(t, j, a, Blanks, |s| - 1);
      var b := Skip(t, a, Hashes);
      RunStops(t, a, b, Hashes, |s| - 1);
      var q := Skip(t, b, Blanks);
      RunStops(t, b, q, Blanks, |s| - 1);
      assert t[q] == s[q];
      assert Opening(t, j).None?;
    }
  }

  /** A run of P keeps its place, shifted, when text is put before it. */
  lemma {:induction false} AllPrepend(s: string, r: string, i: nat, j: nat, P: Class)
    requires All(r, i, j, P)
    ensures All(s + r, |s| + i, |s| + j, P)
    decreases j - i
  {
    if i < j {
      assert (s + r)[|s| + i] == r[i];
      AllPrepend(s, r, i + 1, j, P);
    }
  }

  /** A layout of the pattern over r is one over s + r, shifted by |s|, with the same kind and name. */
  lemma LayoutPrepend(s: string, r: string, a: nat, b: nat, q: nat, k: nat, c: nat, e: nat)
    requires Layout(r, 0, a, b, q, k, c, e)
    ensures Layout(s + r, |s|, |s| + a, |s| + b, |s| + q, |s| + k, |s| + c, |s| + e)
    ensures (s + r)[|s| + k] == r[k] && (s + r)[|s| + k + 1..|s| + c] == r[k + 1..c]
  {
    AllPrepend(s, r, 0, a, Blanks);
    AllPrepend(s, r, a, b, Hashes);
    AllPrepend(s, r, b, q, Blanks);
    AllPrepend(s, r, q + 1, k, Blanks);
    AllPrepend(s, r, k + 1, c, NameChars);
    AllPrepend(s, r, c + 1, e, Blanks);
    assert (s + r)[|s| + q] == r[q] && (s + r)[|s| + c] == r[c];
    assert e < |r| ==> (s + r)[|s| + e] == r[e];
    assert (s + r)[|s| + k + 1..|s| + c] == r[k + 1..c];
  }

  /**
   * A spec laid out over r, after a text s that holds no bracket and ends in neither
   * a blank nor '#', is what re.search finds in s + r, at |s|.
   */
  lemma SearchAfter(t: string, f: Found, s: string, r: string, a: nat, b: nat, q: nat, k: nat, c: nat, e: nat)
    requires s != [] && '{' !in s && '[' !in s && !IsBlank(s[|s| - 1]) && !IsHash(s[|s| - 1])
    requires Layout(r, 0, a, b, q, k, c, e)
    requires t == s + r && f == Found(|s|, IdSpec(r[k], r[k + 1..c]))
    ensures Search(t) == Some(f)
  {
    LayoutPrepend(s, r, a, b, q, k, c, e);
    NoMatchBefore(s, r);
    SearchFinds(s + r, Found(|s|, IdSpec(r[k], r[k + 1..c])), |s| + a, |s| + b, |s| + q, |s| + k, |s| + c, |s| + e);
  }

  /**
   * The texts of the module's examples, each written as the part before the spec
   * and the spec. The list item: the id spec and the blank before it are found at 14.
   */
  lemma ExampleNode1()
    ensures Search("This is a test" + " {#node1}") == Some(Found(14, IdSpec('#', "node1")))
  {
    LayoutNode1();
    SearchAfter("This is a test" + " {#node1}", Found(14, IdSpec('#', "node1")), "This is a test", " {#node1}", 1, 1, 1, 2, 8, 9);
  }

  /** The second list item: kind '.' names the class, spaces included. */
  lemma ExampleNode2()
    ensures Search("Other" + " {.node2 node3}") == Some(Found(5, IdSpec('.', "node2 node3")))
  {
    LayoutNode2();
    SearchAfter("Other" + " {.node2 node3}", Found(5, IdSpec('.', "node2 node3")), "Other", " {.node2 node3}", 1, 1, 1, 2, 14, 15);
  }

  /** The heading: the closing '#' of the heading and the blanks around it belong to the match. */
  lemma ExampleDownloading()
    ensures Search("Download!" + " # [#downloading]") == Some(Found(9, IdSpec('#', "downloading")))
  {
    LayoutDownloading();
    SearchAfter("Download!" + " # [#downloading]", Found(9, IdSpec('#', "downloading")), "Download!", " # [#downloading]", 1, 2, 3, 4, 16, 17);
  }

  /** The paragraph: blanks after the closing bracket are part of the match too. */
  lemma ExampleList1()
    ensures Search("list:" + " {#list.1} ") == Some(Found(5, IdSpec('#', "list.1")))
  {
    LayoutList1();
    SearchAfter("list:" + " {#list.1} ", Found(5, IdSpec('#', "list.1")), "list:", " {#list.1} ", 1, 1, 1, 2, 9, 11);
  }

  /** The layout of each example spec, as its Lead and its Tail. */
  lemma LayoutNode1()
    ensures Layout(" {#node1}", 0, 1, 1, 1, 2, 8, 9) && " {#node1}"[3..8] == "node1"
  {
    LeadNode1();
    TailNode1();
  }

  lemma LeadNode1()
    ensures Lead(" {#node1}", 0, 1, 1, 1)
  {
    assert " {#node1}"[1] == '{';
  }

  lemma TailNode1()
    ensures Tail(" {#node1}", 1, 2, 8, 9) && " {#node1}"[3..8] == "node1"
  {
    assert " {#node1}"[2] == '#' && " {#node1}"[8] == '}';
  }

  lemma LayoutNode2()
    ensures Layout(" {.node2 node3}", 0, 1, 1, 1, 2, 14, 15) && " {.node2 node3}"[3..14] == "node2 node3"
  {
    LeadNode2();
    TailNode2();
  }

  lemma LeadNode2()
    ensures Lead(" {.node2 node3}", 0, 1, 1, 1)
  {
    assert " {.node2 node3}"[1] == '{';
  }

  lemma TailNode2()
    ensures Tail(" {.node2 node3}", 1, 2, 14, 15) && " {.node2 node3}"[3..14] == "node2 node3"
  {
    assert " {.node2 node3}"[2] == '.' && " {.node2 node3}"[14] == '}';
  }

  lemma LayoutDownloading()
    ensures Layout(" # [#downloading]", 0, 1, 2, 3, 4, 16, 17) && " # [#downloading]"[5..16] == "downloading"
  {
    LeadDownloading();
    TailDownloading();
  }

  lemma LeadDownloading()
    ensures Lead(" # [#downloading]", 0, 1, 2, 3)
  {
    assert " # [#downloading]"[3] == '[';
  }

  lemma TailDownloading()
    ensures Tail(" # [#downloading]", 3, 4, 16, 17) && " # [#downloading]"[5..16] == "downloading"
  {
    assert " # [#downloading]"[4] == '#' && " # [#downloading]"[16] == ']';
  }

  lemma LayoutList1()
    ensures Layout(" {#list.1} ", 0, 1, 1, 1, 2, 9, 11) && " {#list.1} "[3..9] == "list.1"
  {
    LeadList1();
    TailList1();
  }

  lemma LeadList1()
    ensures Lead(" {#list.1} ", 0, 1, 1, 1)
  {
    assert " {#list.1} "[1] == '{';
  }

  lemma TailList1()
    ensures Tail(" {#list.1} ", 1, 2, 9, 11) && " {#list.1} "[3..9] == "list.1"
  {
    assert " {#list.1} "[2] == '#' && " {#list.1} "[9] == '}';
  }
}
