/**
 * The UTF-8 byte layout of section 3 of RFC 3629 and the UTF-16 surrogate pairs
 * of section 2.1 of RFC 2781, in the form that the Emscripten string helpers of
 * editor.md/lib/wasm/expat.js apply them: the encoder's view of a string as code
 * points, the bytes it writes, the bytes that fit in a bounded buffer, and the
 * decoder's reading of a byte heap. The methods that run these loops over arrays
 * are in module Utf8Codec; this module says what they compute and proves what
 * that means.
 */
module Utf8Spec {
  import opened JsValues

  /** A value the encoder can form from one or two code units. */
  type CodePoint = x: int | 0 <= x <= 0x10_FFFF

  predicate IsSurrogate(u: int) { 0xD800 <= u <= 0xDFFF }
  predicate IsHighSurrogate(u: int) { 0xD800 <= u <= 0xDBFF }
  predicate IsLowSurrogate(u: int) { 0xDC00 <= u <= 0xDFFF }

  /**
   * Well-formed UTF-16, read from the front as section 2.2 of RFC 2781 decodes it: a
   * high surrogate must be followed by a low one, and a low surrogate never comes first.
   */
  ghost predicate WellFormed(s: JsString)
    decreases |s|
  {
    if s == [] then true
    else if IsHighSurrogate(s[0]) then |s| >= 2 && IsLowSurrogate(s[1]) && WellFormed(s[2..])
    else !IsLowSurrogate(s[0]) && WellFormed(s[1..])
  }

  /** No code unit is U+0000, whose encoding is the byte the decoder stops at. */
  ghost predicate NoNul(s: JsString) {
    forall i :: 0 <= i < |s| ==> s[i] != 0
  }

  /** The suffix of s from index n; empty when n is past the end (the encoder's index can end one past it). */
  function Drop(s: JsString, n: nat): (r: JsString)
    ensures |r| == if n <= |s| then |s| - n else 0
  {
    if n <= |s| then s[n..] else []
  }

  /** How many code units the encoder consumes at the head of s: it reads a second unit after ANY surrogate. */
  function LeadWidth(s: JsString): nat
    requires s != []
  {
    if IsSurrogate(s[0]) then 2 else 1
  }

  /**
   * The code point the encoder forms at the head of s. A surrogate, high or low, is
   * combined with the next unit as 65536 + ((u & 1023) << 10) | (u1 & 1023); the low ten
   * bits of the sum are zero, so | is +. When the surrogate is the last unit,
   * charCodeAt yields NaN, and NaN & 1023 is 0.
   */
  function LeadPoint(s: JsString): (u: CodePoint)
    requires s != []
    ensures IsSurrogate(s[0]) <==> u >= 0x1_0000
    ensures !IsSurrogate(s[0]) ==> u == s[0]
  {
    var u: int := s[0];
    if IsSurrogate(u) then
      var u1: int := if |s| > 1 then s[1] else 0;
      0x1_0000 + (u % 1024) * 1024 + u1 % 1024
    else
      u
  }

  /** The code points the encoder sees, in order. */
  function Points(s: JsString): seq<CodePoint>
    decreases |s|
  {
    if s == [] then [] else [LeadPoint(s)] + Points(Drop(s, LeadWidth(s)))
  }

  /** The number of bytes RFC 3629 uses for u. */
  function PointLength(u: CodePoint): nat {
    if u <= 0x7F then 1 else if u <= 0x7FF then 2 else if u <= 0xFFFF then 3 else 4
  }

  /**
   * The bytes of one code point (RFC 3629 section 3). The source writes 192|u>>6,
   * 128|u>>6&63 and so on; the operands of each | have no bit in common, so | is +.
   */
  function EncodePoint(u: CodePoint): (b: seq<Byte>)
    ensures |b| == PointLength(u)
    ensures u != 0 ==> forall k :: 0 <= k < |b| ==> b[k] != 0
  {
    if u <= 0x7F then [u]
    else if u <= 0x7FF then [192 + u / 64, 128 + u % 64]
    else if u <= 0xFFFF then [224 + u / 4096, 128 + (u / 64) % 64, 128 + u % 64]
    else [240 + u / 262144, 128 + (u / 4096) % 64, 128 + (u / 64) % 64, 128 + u % 64]
  }

  /** The bytes of a sequence of code points. */
  function EncodePoints(ps: seq<CodePoint>): seq<Byte> {
    if ps == [] then [] else EncodePoint(ps[0]) + EncodePoints(ps[1..])
  }

  /** The whole UTF-8 encoding of s, without a terminator. */
  function Encode(s: JsString): seq<Byte> {
    EncodePoints(Points(s))
  }

  /** The bytes of the leading code points of ps that fit in room bytes, up to the first one that does not. */
  function Fit(ps: seq<CodePoint>, room: int): (r: seq<Byte>)
    ensures room >= 0 ==> |r| <= room
  {
    if ps == [] then []
    else
      var b := EncodePoint(ps[0]);
      if |b| > room then [] else b + Fit(ps[1..], room - |b|)
  }

  /** How many code points Fit takes. */
  function FitCount(ps: seq<CodePoint>, room: int): (k: nat)
    ensures k <= |ps|
  {
    if ps == [] || PointLength(ps[0]) > room then 0
    else 1 + FitCount(ps[1..], room - PointLength(ps[0]))
  }

  /** The payload bytes that stringToUTF8Array writes for s when room payload bytes are free. */
  function EncodeBounded(s: JsString, room: int): seq<Byte> {
    Fit(Points(s), room)
  }

  /**
   * The bounded encoding as the encoding loop produces it: from unit i on, whole code
   * points while their bytes fit in room.
   */
  function Written(s: JsString, i: nat, room: int): seq<Byte>
    decreases |s| - i
  {
    if i >= |s| then []
    else
      var b := EncodePoint(LeadPoint(s[i..]));
      if |b| > room then [] else b + Written(s, i + LeadWidth(s[i..]), room - |b|)
  }

  /** The number of bytes the encoding loop counts from unit i on, code point by code point. */
  function Remaining(s: JsString, i: nat): nat
    decreases |s| - i
  {
    if i >= |s| then 0 else PointLength(LeadPoint(s[i..])) + Remaining(s, i + LeadWidth(s[i..]))
  }

  /** A heap read: an index past the end of a typed array yields undefined, which reads as 0 wherever it is used. */
  function ByteAt(h: seq<Byte>, k: nat): Byte {
    if k < |h| then h[k] else 0
  }

  /**
   * The limit test !(endPtr >= endIdx) with endIdx = idx + maxBytesToRead. An absent
   * maxBytesToRead makes endIdx NaN, and no comparison with NaN holds.
   */
  predicate AtLimit(idx: nat, maxBytesToRead: Option<int>, k: nat) {
    maxBytesToRead.Some? && k >= idx + maxBytesToRead.value
  }

  /**
   * Where UTF8ArrayToString stops reading, scanning from `from`: the first index
   * that holds a zero byte or reaches idx + maxBytesToRead, whichever comes first.
   */
  function ScanEnd(h: seq<Byte>, idx: nat, maxBytesToRead: Option<int>, from: nat): (e: nat)
    ensures from <= e
    ensures forall k :: from <= k < e ==> ByteAt(h, k) != 0 && !AtLimit(idx, maxBytesToRead, k)
    ensures ByteAt(h, e) == 0 || AtLimit(idx, maxBytesToRead, e)
    decreases |h| - from
  {
    if ByteAt(h, from) == 0 || AtLimit(idx, maxBytesToRead, from) then from
    else ScanEnd(h, idx, maxBytesToRead, from + 1)
  }

  /**
   * The code units String.fromCharCode yields for a decoded value: the value itself
   * below 65536, otherwise the pair 55296|ch>>10, 56320|ch&1023 for ch = cp - 65536
   * (again the operands of | share no bit, so | is +).
   */
  function UnitsOf(cp: int): (r: JsString)
    requires 0 <= cp < 0x20_0000
    ensures cp < 0x1_0000 ==> r == [cp]
  {
    if cp < 0x1_0000 then [cp]
    else
      var ch := cp - 0x1_0000;
      [0xD800 + ch / 1024, 0xDC00 + ch % 1024]
  }

  /**
   * The code units decoded from the sequence whose lead byte is at i, and the number
   * of bytes read. The lead byte's class decides the width (b & 128, b & 224 == 192,
   * b & 240 == 224, read here as ranges); continuation bytes are masked with & 63 and
   * never checked.
   */
  function DecodeOne(h: seq<Byte>, i: nat): (r: (JsString, nat))
    ensures 1 <= r.1 <= 4
  {
    var u0 := ByteAt(h, i);
    if u0 < 128 then ([u0], 1)
    else
      var u1 := ByteAt(h, i + 1) % 64;
      if 192 <= u0 < 224 then ([(u0 % 32) * 64 + u1], 2)
      else
        var u2 := ByteAt(h, i + 2) % 64;
        if 224 <= u0 < 240 then (UnitsOf((u0 % 16) * 4096 + u1 * 64 + u2), 3)
        else (UnitsOf((u0 % 8) * 262144 + u1 * 4096 + u2 * 64 + ByteAt(h, i + 3) % 64), 4)
  }

  /** The string the hand-written decoding loop builds from the lead bytes at i, i + width, ... below end. */
  function DecodeRange(h: seq<Byte>, i: nat, end: nat): JsString
    decreases end - i
  {
    if i >= end then [] else DecodeOne(h, i).0 + DecodeRange(h, i + DecodeOne(h, i).1, end)
  }

  // ---------------------------------------------------------------------------
  // Lemmas about the encoder

  lemma DropDrop(s: JsString, a: nat, b: nat)
    ensures Drop(Drop(s, a), b) == Drop(s, a + b)
  {
  }

  /** The encoding of a concatenation of code-point sequences is the concatenation of their encodings. */
  lemma {:induction false} EncodePointsAppend(a: seq<CodePoint>, b: seq<CodePoint>)
    ensures EncodePoints(a + b) == EncodePoints(a) + EncodePoints(b)
    decreases |a|
  {
    if a == [] {
      assert a + b == b;
    } else {
      assert (a + b)[1..] == a[1..] + b;
      EncodePointsAppend(a[1..], b);
    }
  }

  /** Fit never cuts a multi-byte sequence: what it keeps is the encoding of the first FitCount code points. */
  lemma {:induction false} FitWholePoints(ps: seq<CodePoint>, room: int)
    ensures Fit(ps, room) == EncodePoints(ps[..FitCount(ps, room)])
    decreases |ps|
  {
    if ps == [] {
    } else if PointLength(ps[0]) > room {
      assert ps[..0] == [];
    } else {
      var tail, r := ps[1..], room - PointLength(ps[0]);
      var k := FitCount(tail, r);
      FitWholePoints(tail, r);
      var q := ps[..k + 1];
      assert q[0] == ps[0] && q[1..] == tail[..k];
    }
  }

  /** Fit stops only where the next code point would overflow room. */
  lemma {:induction false} FitStops(ps: seq<CodePoint>, room: int)
    ensures FitCount(ps, room) < |ps| ==> |Fit(ps, room)| + PointLength(ps[FitCount(ps, room)]) > room
    decreases |ps|
  {
    if ps != [] && PointLength(ps[0]) <= room {
      var tail, r := ps[1..], room - PointLength(ps[0]);
      FitStops(tail, r);
      var k := FitCount(tail, r);
      if k < |tail| {
        assert ps[k + 1] == tail[k];
      }
    }
  }

  /** With room for the whole encoding, Fit keeps all of it. */
  lemma {:induction false} FitAll(ps: seq<CodePoint>, room: int)
    requires |EncodePoints(ps)| <= room
    ensures Fit(ps, room) == EncodePoints(ps)
    decreases |ps|
  {
    if ps != [] {
      FitAll(ps[1..], room - PointLength(ps[0]));
    }
  }

  /** What Fit keeps is a prefix of the whole encoding. */
  lemma FitIsPrefix(ps: seq<CodePoint>, room: int)
    requires room >= 0
    ensures Fit(ps, room) <= EncodePoints(ps)
  {
    var k := FitCount(ps, room);
    FitWholePoints(ps, room);
    assert ps == ps[..k] + ps[k..];
    EncodePointsAppend(ps[..k], ps[k..]);
  }

  /**
   * The bounded encoding of s: a prefix of the whole encoding, no longer than room,
   * made of whole code points, and either all of it or short of room for the next code point.
   */
  lemma EncodeBoundedMeaning(s: JsString, room: int)
    requires room >= 0
    ensures EncodeBounded(s, room) <= Encode(s)
    ensures |EncodeBounded(s, room)| <= room
    ensures var ps, k := Points(s), FitCount(Points(s), room);
      EncodeBounded(s, room) == EncodePoints(ps[..k]) &&
      (k < |ps| ==> |EncodeBounded(s, room)| + PointLength(ps[k]) > room)
    ensures |Encode(s)| <= room ==> EncodeBounded(s, room) == Encode(s)
  {
    var ps := Points(s);
    FitWholePoints(ps, room);
    FitStops(ps, room);
    FitIsPrefix(ps, room);
    if |Encode(s)| <= room {
      FitAll(ps, room);
    }
  }

  /** With room for the whole encoding, the bounded encoding is all of it. */
  lemma EncodeBoundedAll(s: JsString, room: int)
    requires |Encode(s)| <= room
    ensures EncodeBounded(s, room) == Encode(s)
  {
    FitAll(Points(s), room);
  }

  /** Without U+0000 in s, no byte of its encoding is zero. */
  lemma {:induction false} EncodeNonZero(s: JsString)
    requires NoNul(s)
    ensures forall k :: 0 <= k < |Encode(s)| ==> Encode(s)[k] != 0
    decreases |s|
  {
    if s != [] {
      var rest := Drop(s, LeadWidth(s));
      assert NoNul(rest);
      EncodeNonZero(rest);
      assert Encode(s) == EncodePoint(LeadPoint(s)) + Encode(rest);
    }
  }

  // ---------------------------------------------------------------------------
  // Lemmas about the decoder

  /** A chain of divisions by 64 splits a code point into the fields of its UTF-8 form. */
  lemma Fields(u: nat)
    ensures u == (u / 64) * 64 + u % 64
    ensures u / 4096 == (u / 64) / 64
    ensures u / 262144 == (u / 4096) / 64
    ensures u == (u / 4096) * 4096 + ((u / 64) % 64) * 64 + u % 64
    ensures u == (u / 262144) * 262144 + ((u / 4096) % 64) * 4096 + ((u / 64) % 64) * 64 + u % 64
  {
    var a := u / 64;
    var b := a / 64;
    var c := b / 64;
    assert u == a * 64 + u % 64;
    assert a == b * 64 + a % 64;
    assert b == c * 64 + b % 64;
    assert u == b * 4096 + (a % 64) * 64 + u % 64;
    assert u == c * 262144 + (b % 64) * 4096 + (a % 64) * 64 + u % 64;
  }

  /** The decoder reads back, at o, the code point whose encoding sits there. */
  lemma DecodePoint(p: CodePoint, h: seq<Byte>, o: nat)
    requires o + PointLength(p) <= |h| && h[o..o + PointLength(p)] == EncodePoint(p)
    ensures DecodeOne(h, o) == (UnitsOf(p), PointLength(p))
  {
    if p <= 0x7F {
      assert ByteAt(h, o) == p by { assert h[o..o + 1][0] == h[o]; }
    } else if p <= 0x7FF {
      DecodeTwo(p, h, o);
    } else if p <= 0xFFFF {
      DecodeThree(p, h, o);
    } else {
      DecodeFour(p, h, o);
    }
  }

  /** A two-byte sequence: lead 110xxxxx, then one continuation byte. */
  lemma DecodeTwo(p: CodePoint, h: seq<Byte>, o: nat)
    requires 0x80 <= p <= 0x7FF && o + 2 <= |h| && h[o..o + 2] == EncodePoint(p)
    ensures DecodeOne(h, o) == (UnitsOf(p), 2)
  {
    var b0, b1 := ByteAt(h, o), ByteAt(h, o + 1);
    assert b0 == 192 + p / 64 && b1 == 128 + p % 64 by {
      assert h[o..o + 2][0] == h[o] && h[o..o + 2][1] == h[o + 1];
    }
    assert b0 % 32 == p / 64;
    assert b1 % 64 == p % 64;
  }

  /** A three-byte sequence: lead 1110xxxx, then two continuation bytes. */
  lemma DecodeThree(p: CodePoint, h: seq<Byte>, o: nat)
    requires 0x800 <= p <= 0xFFFF && o + 3 <= |h| && h[o..o + 3] == EncodePoint(p)
    ensures DecodeOne(h, o) == (UnitsOf(p), 3)
  {
    var b0, b1, b2 := ByteAt(h, o), ByteAt(h, o + 1), ByteAt(h, o + 2);
    assert b0 == 224 + p / 4096 && b1 == 128 + (p / 64) % 64 && b2 == 128 + p % 64 by {
      assert h[o..o + 3][0] == h[o] && h[o..o + 3][1] == h[o + 1] && h[o..o + 3][2] == h[o + 2];
    }
    Fields(p);
    assert b0 % 16 == p / 4096;
    assert b1 % 64 == (p / 64) % 64;
    assert b2 % 64 == p % 64;
  }

  /** A four-byte sequence: lead 11110xxx, then three continuation bytes. */
  lemma DecodeFour(p: CodePoint, h: seq<Byte>, o: nat)
    requires 0x1_0000 <= p && o + 4 <= |h| && h[o..o + 4] == EncodePoint(p)
    ensures DecodeOne(h, o) == (UnitsOf(p), 4)
  {
    var b0, b1, b2, b3 := ByteAt(h, o), ByteAt(h, o + 1), ByteAt(h, o + 2), ByteAt(h, o + 3);
    assert b0 == 240 + p / 262144 && b1 == 128 + (p / 4096) % 64 by {
      assert h[o..o + 4][0] == h[o] && h[o..o + 4][1] == h[o + 1];
    }
    assert b2 == 128 + (p / 64) % 64 && b3 == 128 + p % 64 by {
      assert h[o..o + 4][2] == h[o + 2] && h[o..o + 4][3] == h[o + 3];
    }
    Fields(p);
    assert b0 % 8 == p / 262144;
    assert b1 % 64 == (p / 4096) % 64;
    assert b2 % 64 == (p / 64) % 64;
    assert b3 % 64 == p % 64;
  }

  /** At the head of well-formed UTF-16, the units of the encoder's code point are the units it consumed. */
  lemma LeadUnits(s: JsString)
    requires WellFormed(s) && s != []
    ensures LeadWidth(s) <= |s|
    ensures UnitsOf(LeadPoint(s)) == s[..LeadWidth(s)]
    ensures WellFormed(Drop(s, LeadWidth(s)))
  {
    if IsSurrogate(s[0]) {
      var hi: int, lo: int := s[0], s[1];
      assert LeadPoint(s) == 0x1_0000 + (hi % 1024) * 1024 + lo % 1024;
      PairUnits(hi, lo);
      assert s[..2] == [s[0], s[1]];
      assert Drop(s, 2) == s[2..];
    } else {
      assert s[..1] == [s[0]];
      assert Drop(s, 1) == s[1..];
    }
  }

  /** A high and a low surrogate combined the encoder's way split back into themselves. */
  lemma PairUnits(hi: int, lo: int)
    requires IsHighSurrogate(hi) && IsLowSurrogate(lo)
    ensures UnitsOf(0x1_0000 + (hi % 1024) * 1024 + lo % 1024) == [hi, lo]
  {
    var a, b := hi - 0xD800, lo - 0xDC00;
    assert hi % 1024 == a && lo % 1024 == b;
    var ch := a * 1024 + b;
    assert ch / 1024 == a && ch % 1024 == b;
  }


  /** The encoding of s is the bytes of its first code point followed by the encoding of the rest. */
  lemma EncodeHead(s: JsString)
    requires s != []
    ensures Encode(s) == EncodePoint(LeadPoint(s)) + Encode(Drop(s, LeadWidth(s)))
  {
    var ps := Points(s);
    assert ps[0] == LeadPoint(s) && ps[1..] == Points(Drop(s, LeadWidth(s)));
  }

  lemma TakeDrop(s: JsString, w: nat)
    requires w <= |s|
    ensures s[..w] + Drop(s, w) == s
  {
    assert Drop(s, w) == s[w..];
  }

  /** The bytes of one code point, range by range. */
  lemma EncodePointCases(u: CodePoint)
    ensures u <= 0x7F ==> EncodePoint(u) == [u]
    ensures 0x7F < u <= 0x7FF ==> EncodePoint(u) == [192 + u / 64, 128 + u % 64]
    ensures 0x7FF < u <= 0xFFFF ==> EncodePoint(u) == [224 + u / 4096, 128 + (u / 64) % 64, 128 + u % 64]
    ensures 0xFFFF < u ==>
      EncodePoint(u) == [240 + u / 262144, 128 + (u / 4096) % 64, 128 + (u / 64) % 64, 128 + u % 64]
  {
  }

  /**
   * The byte classes of section 3 of RFC 3629: the lead byte is 0xxxxxxx, 110xxxxx,
   * 1110xxxx or 11110xxx for one to four bytes, every other byte is 10xxxxxx, and the
   * x bits, lead first, spell the code point. A two-byte lead is never 0xC0 or 0xC1
   * and a four-byte lead never exceeds 0xF4, so the encoding is the shortest one.
   */
  lemma EncodePointClasses(u: CodePoint)
    ensures var b: seq<int> := EncodePoint(u);
      && (|b| == 1 ==> b[0] <= 0x7F && u == b[0])
      && (|b| == 2 ==> 0xC2 <= b[0] <= 0xDF && u == (b[0] - 0xC0) * 64 + (b[1] - 0x80))
      && (|b| == 3 ==> (0xE0 <= b[0] <= 0xEF &&
                        u == (b[0] - 0xE0) * 4096 + (b[1] - 0x80) * 64 + (b[2] - 0x80)))
      && (|b| == 4 ==> (0xF0 <= b[0] <= 0xF4 &&
                        u == (b[0] - 0xF0) * 262144 + (b[1] - 0x80) * 4096 + (b[2] - 0x80) * 64 + (b[3] - 0x80)))
      && (forall k :: 1 <= k < |b| ==> 0x80 <= b[k] <= 0xBF)
  {
    EncodePointCases(u);
    if 0xFFFF < u {
      FourBytes(u);
    } else if 0x7FF < u {
      ThreeBytes(u);
    }
  }

  lemma ThreeBytes(u: int)
    requires 0x800 <= u <= 0xFFFF
    ensures 0xE0 <= 224 + u / 4096 <= 0xEF
    ensures u == (u / 4096) * 4096 + ((u / 64) % 64) * 64 + u % 64
  {
    assert u / 64 == (u / 4096) * 64 + (u / 64) % 64;
  }

  lemma FourBytes(u: int)
    requires 0x1_0000 <= u <= 0x10_FFFF
    ensures 0xF0 <= 240 + u / 262144 <= 0xF4
    ensures u == (u / 262144) * 262144 + ((u / 4096) % 64) * 4096 + ((u / 64) % 64) * 64 + u % 64
  {
    assert u / 4096 == (u / 262144) * 64 + (u / 4096) % 64;
    assert u / 64 == (u / 4096) * 64 + (u / 64) % 64;
  }

  /**
   * A value of the supplementary planes becomes a high surrogate followed by a low
   * one (section 2.1 of RFC 2781), which the encoder combines back into the value.
   */
  lemma UnitsOfPair(cp: int)
    requires 0x1_0000 <= cp <= 0x10_FFFF
    ensures var r := UnitsOf(cp);
      && |r| == 2 && IsHighSurrogate(r[0]) && IsLowSurrogate(r[1])
      && LeadWidth(r) == 2 && LeadPoint(r) == cp
  {
    var ch := cp - 0x1_0000;
    var hi, lo := 0xD800 + ch / 1024, 0xDC00 + ch % 1024;
    assert hi % 1024 == ch / 1024 && lo % 1024 == ch % 1024;
  }

  /**
   * The count lengthBytesUTF8 adds for the unit at the head of s: 1 up to 127, 2 up to
   * 2047, 4 for a surrogate, which also consumes the next unit, and 3 otherwise.
   */
  lemma LeadLength(s: JsString)
    requires s != []
    ensures PointLength(LeadPoint(s)) ==
      if s[0] <= 127 then 1 else if s[0] <= 2047 then 2 else if IsSurrogate(s[0]) then 4 else 3
    ensures LeadWidth(s) == if IsSurrogate(s[0]) then 2 else 1
  {
  }

  /** One code point more of the bounded encoding: its bytes if they fit, and then the rest. */
  lemma FitStep(s: JsString, room: int)
    requires s != []
    ensures var b := EncodePoint(LeadPoint(s));
      Fit(Points(s), room) == if |b| > room then [] else b + Fit(Points(Drop(s, LeadWidth(s))), room - |b|)
  {
    var ps := Points(s);
    assert ps[0] == LeadPoint(s) && ps[1..] == Points(Drop(s, LeadWidth(s)));
  }

  /** The loop's view of the bounded encoding is Fit over the code points left. */
  lemma {:induction false} WrittenFit(s: JsString, i: nat, room: int)
    ensures Written(s, i, room) == Fit(Points(Drop(s, i)), room)
    decreases |s| - i
  {
    if i < |s| {
      var rest := Drop(s, i);
      assert rest == s[i..];
      FitStep(rest, room);
      DropDrop(s, i, LeadWidth(rest));
      WrittenFit(s, i + LeadWidth(rest), room - |EncodePoint(LeadPoint(rest))|);
    }
  }

  /** One turn of the encoding loop: the bytes of the code point at i, then the rest. */
  lemma WrittenStep(s: JsString, i: nat, room: int)
    requires i < |s|
    ensures var b := EncodePoint(LeadPoint(s[i..]));
      Written(s, i, room) == if |b| > room then [] else b + Written(s, i + LeadWidth(s[i..]), room - |b|)
  {
  }

  /** Counting from unit i on gives the length of the encoding of the rest of s. */
  lemma {:induction false} RemainingLength(s: JsString, i: nat)
    ensures Remaining(s, i) == |Encode(Drop(s, i))|
    decreases |s| - i
  {
    if i < |s| {
      var rest := Drop(s, i);
      assert rest == s[i..];
      var w := LeadWidth(rest);
      assert Remaining(s, i) == PointLength(LeadPoint(rest)) + Remaining(s, i + w);
      RemainingLength(s, i + w);
      DropDrop(s, i, w);
      EncodeHead(rest);
    }
  }

  /** Counting from the start gives the length of the whole encoding. */
  lemma RemainingEncode(s: JsString)
    ensures Remaining(s, 0) == |Encode(s)|
  {
    RemainingLength(s, 0);
    assert Drop(s, 0) == s;
  }

  /** From the first unit on, the loop's view is the bounded encoding itself. */
  lemma WrittenBounded(s: JsString, room: int)
    ensures Written(s, 0, room) == EncodeBounded(s, room)
  {
    WrittenFit(s, 0, room);
    assert Drop(s, 0) == s;
  }

  /** One turn of the decoding loop, with the head's units, width and next lead index named. */
  lemma DecodeRangeSplit(h: seq<Byte>, i: nat, end: nat, units: JsString, n: nat, next: nat)
    requires i < end && DecodeOne(h, i) == (units, n) && next == i + n
    ensures DecodeRange(h, i, end) == units + DecodeRange(h, next, end)
  {
  }

  lemma SliceSplit(h: seq<Byte>, o: nat, a: seq<Byte>, b: seq<Byte>)
    requires o + |a| + |b| <= |h| && h[o..o + |a| + |b|] == a + b
    ensures h[o..o + |a|] == a
    ensures h[o + |a|..o + |a| + |b|] == b
  {
    assert h[o..o + |a|] == h[o..o + |a| + |b|][..|a|];
    assert h[o + |a|..o + |a| + |b|] == h[o..o + |a| + |b|][|a|..];
  }

  /**
   * The head of an encoded well-formed string: the decoder reads back the units the
   * encoder consumed, in as many bytes as the encoder wrote, and the rest of the
   * bytes encode the rest of the string.
   */
  lemma DecodeHead(s: JsString, h: seq<Byte>, o: nat, w: nat, head: seq<Byte>, tail: seq<Byte>)
    requires WellFormed(s) && s != []
    requires w == LeadWidth(s) && head == EncodePoint(LeadPoint(s)) && tail == Encode(Drop(s, w))
    requires o + |Encode(s)| <= |h| && h[o..o + |Encode(s)|] == Encode(s)
    ensures w <= |s| && WellFormed(Drop(s, w))
    ensures DecodeOne(h, o) == (s[..w], |head|)
    ensures |Encode(s)| == |head| + |tail|
    ensures h[o + |head|..o + |head| + |tail|] == tail
  {
    var p := LeadPoint(s);
    assert Encode(s) == head + tail by { EncodeHead(s); }
    assert h[o..o + |head|] == head && h[o + |head|..o + |head| + |tail|] == tail by {
      SliceSplit(h, o, head, tail);
    }
    assert DecodeOne(h, o) == (UnitsOf(p), |head|) by { DecodePoint(p, h, o); }
    LeadUnits(s);
  }

  /** Decoding the bytes of Encode(s), when s is well-formed, gives s back. */
  lemma {:induction false} DecodeEncoded(s: JsString, h: seq<Byte>, o: nat, e: nat)
    requires WellFormed(s) && e == o + |Encode(s)|
    requires e <= |h| && h[o..e] == Encode(s)
    ensures DecodeRange(h, o, e) == s
    decreases |s|
  {
    if s != [] {
      var w := LeadWidth(s);
      var rest := Drop(s, w);
      var head, tail := EncodePoint(LeadPoint(s)), Encode(rest);
      DecodeHead(s, h, o, w, head, tail);
      DecodeEncoded(rest, h, o + |head|, e);
      DecodeRangeSplit(h, o, e, s[..w], |head|, o + |head|);
      TakeDrop(s, w);
    }
  }

  /** The scan stops at the first zero byte when no byte before it is zero or at the limit. */
  lemma {:induction false} ScanStops(h: seq<Byte>, idx: nat, maxBytesToRead: Option<int>, from: nat, e: nat)
    requires from <= e && ByteAt(h, e) == 0
    requires forall k :: from <= k < e ==> ByteAt(h, k) != 0 && !AtLimit(idx, maxBytesToRead, k)
    ensures ScanEnd(h, idx, maxBytesToRead, from) == e
    decreases e - from
  {
    if from < e {
      ScanStops(h, idx, maxBytesToRead, from + 1, e);
    }
  }

  /** No byte of a run of nonzero bytes placed at o reads as zero. */
  lemma NonZeroRun(h: seq<Byte>, o: nat, b: seq<Byte>)
    requires o + |b| <= |h| && h[o..o + |b|] == b
    requires forall k :: 0 <= k < |b| ==> b[k] != 0
    ensures forall k :: o <= k < o + |b| ==> ByteAt(h, k) != 0
  {
    forall k | o <= k < o + |b|
      ensures ByteAt(h, k) != 0
    {
      assert b[k - o] == h[k];
    }
  }

  /** With n nonzero bytes at o, a zero after them, and a limit that covers them, the scan stops at o + n. */
  lemma ScanToTerminator(h: seq<Byte>, o: nat, n: nat, maxBytesToRead: Option<int>)
    requires ByteAt(h, o + n) == 0
    requires forall k :: o <= k < o + n ==> ByteAt(h, k) != 0
    requires maxBytesToRead.None? || maxBytesToRead.value >= n
    ensures ScanEnd(h, o, maxBytesToRead, o) == o + n
  {
    assert forall k :: o <= k < o + n ==> !AtLimit(o, maxBytesToRead, k);
    ScanStops(h, o, maxBytesToRead, o, o + n);
  }

  /**
   * Round trip: when the encoding of s sits at o followed by a zero byte, and the read
   * limit (if any) covers it, the decoder stops exactly at the terminator and returns s.
   */
  lemma RoundTrip(s: JsString, h: seq<Byte>, o: nat, maxBytesToRead: Option<int>)
    requires WellFormed(s) && NoNul(s)
    requires o + |Encode(s)| < |h| && h[o..o + |Encode(s)|] == Encode(s) && h[o + |Encode(s)|] == 0
    requires maxBytesToRead.None? || maxBytesToRead.value >= |Encode(s)|
    ensures ScanEnd(h, o, maxBytesToRead, o) == o + |Encode(s)|
    ensures DecodeRange(h, o, ScanEnd(h, o, maxBytesToRead, o)) == s
  {
    var b := Encode(s);
    EncodeNonZero(s);
    NonZeroRun(h, o, b);
    ScanToTerminator(h, o, |b|, maxBytesToRead);
    DecodeEncoded(s, h, o, o + |b|);
  }
}
