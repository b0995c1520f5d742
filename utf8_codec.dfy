/**
 * Emscripten's UTF-8 string helpers from editor.md/lib/wasm/expat.js, run as the
 * loops they are: lengthBytesUTF8, stringToUTF8Array (which writes into a heap
 * view in place), UTF8ArrayToString's hand-written decoding loop, and
 * intArrayFromString, which sizes its buffer with lengthBytesUTF8. Each method is
 * proved against the specification functions of Utf8Spec.
 */
module Utf8Codec {
  import opened JsValues
  import opened Utf8Spec

  /** heapOrArray[k]: past the end of a typed array the read yields undefined, used as 0. */
  function At(heap: array<Byte>, k: nat): (b: Byte)
    reads heap
    ensures b == ByteAt(heap[..], k)
  {
    if k < heap.Length then heap[k] else 0
  }

  /** lengthBytesUTF8: the number of bytes the encoding of str takes, without the terminator. */
  method LengthBytesUTF8(str: JsString) returns (len: nat)
    ensures len == |Encode(str)|
  {
    len := 0;
    var i := 0;
    RemainingEncode(str);
    while i < |str|
      invariant 0 <= i <= |str| + 1
      invariant len + Remaining(str, i) == |Encode(str)|
      decreases |str| - i
    {
      ghost var i0, len0 := i, len;
      var c := str[i];
      if c <= 127 {
        len := len + 1;
      } else if c <= 2047 {
        len := len + 2;
      } else if 55296 <= c <= 57343 {
        len := len + 4;
        i := i + 1;
      } else {
        len := len + 3;
      }
      i := i + 1;
      Counted(str, i0, len - len0, i);
    }
  }

  /** One turn of lengthBytesUTF8's loop counts the bytes of the code point at i. */
  lemma Counted(s: JsString, i: nat, n: nat, i2: nat)
    requires i < |s| && n == PointLength(LeadPoint(s[i..])) && i2 == i + LeadWidth(s[i..])
    ensures Remaining(s, i) == n + Remaining(s, i2)
  {
  }

  /**
   * stringToUTF8Array: with maxBytesToWrite > 0, writes at outIdx the whole code
   * points of str that fit in maxBytesToWrite - 1 bytes, then a terminating 0, and
   * returns the number of payload bytes; otherwise writes nothing and returns 0.
   * The caller provides maxBytesToWrite bytes at outIdx.
   */
  method StringToUTF8Array(str: JsString, heap: array<Byte>, outIdx: nat, maxBytesToWrite: int)
    returns (written: nat)
    requires maxBytesToWrite > 0 ==> outIdx + maxBytesToWrite <= heap.Length
    modifies heap
    ensures maxBytesToWrite <= 0 ==> written == 0 && heap[..] == old(heap[..])
    ensures maxBytesToWrite > 0 ==>
      var payload := EncodeBounded(str, maxBytesToWrite - 1);
      && written == |payload|
      && outIdx + written < heap.Length
      && heap[outIdx..outIdx + written] == payload
      && heap[outIdx + written] == 0
      && heap[..outIdx] == old(heap[..outIdx])
      && heap[outIdx + written + 1..] == old(heap[outIdx + written + 1..])
  {
    if !(maxBytesToWrite > 0) {
      return 0;
    }
    var endIdx := outIdx + maxBytesToWrite - 1;
    ghost var h := heap[..];
    var o := WriteLoop(str, heap, outIdx, endIdx);
    heap[o] := 0;
    written := o - outIdx;
    Placed(h, outIdx, EncodeBounded(str, maxBytesToWrite - 1));
  }

  /**
   * The loop of stringToUTF8Array: writes at startIdx the whole code points of str
   * whose bytes fit before endIdx and returns the index after the last byte written.
   */
  method WriteLoop(str: JsString, heap: array<Byte>, startIdx: nat, endIdx: nat) returns (o: nat)
    requires startIdx <= endIdx <= heap.Length
    modifies heap
    ensures o == startIdx + |EncodeBounded(str, endIdx - startIdx)|
    ensures heap[..] == old(heap[..])[..startIdx] + EncodeBounded(str, endIdx - startIdx) + old(heap[..])[o..]
  {
    o := startIdx;
    var i := 0;
    // the bytes written so far, and the bounded encoding they are a prefix of
    ghost var acc: seq<Byte> := [];
    ghost var target := EncodeBounded(str, endIdx - startIdx);
    ghost var h := heap[..];
    WrittenBounded(str, endIdx - startIdx);
    while i < |str|
      invariant 0 <= i <= |str| + 1
      invariant startIdx <= o <= endIdx && |acc| == o - startIdx
      invariant acc + Written(str, i, endIdx - o) == target
      invariant heap[..] == h[..startIdx] + acc + h[o..]
      decreases |str| - i
    {
      var fits;
      i, o, fits, acc := Turn(str, heap, i, o, startIdx, endIdx, acc, target, h);
      if !fits {
        break;
      }
    }
    if i >= |str| {
      Exhausted(str, i, endIdx - o, acc, target);
    }
  }

  /**
   * One turn of the loop of stringToUTF8Array: reads the code point at i and, if its
   * bytes fit before endIdx, writes them at o. acc is what the loop has written at
   * startIdx so far, over the heap h it started from, and target the bounded encoding
   * it is building.
   */
  method Turn(str: JsString, heap: array<Byte>, i: nat, o: nat, startIdx: nat, endIdx: nat,
              ghost acc: seq<Byte>, ghost target: seq<Byte>, ghost h: seq<Byte>)
    returns (i2: nat, o2: nat, fits: bool, ghost acc2: seq<Byte>)
    requires i < |str| && startIdx <= o <= endIdx <= heap.Length && |h| == heap.Length
    requires |acc| == o - startIdx && acc + Written(str, i, endIdx - o) == target
    requires heap[..] == h[..startIdx] + acc + h[o..]
    modifies heap
    ensures !fits ==> i2 == i && o2 == o && acc2 == acc == target && heap[..] == old(heap[..])
    ensures fits ==> i < i2 <= |str| + 1
    ensures fits ==> startIdx <= o2 <= endIdx && |acc2| == o2 - startIdx
    ensures fits ==> acc2 + Written(str, i2, endIdx - o2) == target
    ensures fits ==> heap[..] == h[..startIdx] + acc2 + h[o2..]
  {
    ghost var h0 := heap[..];
    var u, last := ReadPoint(str, i);
    o2, fits := PutPoint(heap, o, endIdx, u);
    if !fits {
      Stopped(str, i, endIdx - o, acc, target);
      i2, acc2 := i, acc;
      return;
    }
    i2 := last + 1;
    ghost var b := EncodePoint(u);
    Advanced(str, i, endIdx - o, acc, target, b, i2, endIdx - o2);
    Grow(h, h0, heap[..], startIdx, o, o2, acc, b);
    acc2 := acc + b;
  }

  /** The code point at i does not fit in room: the bytes written so far are all of them. */
  lemma Stopped(s: JsString, i: nat, room: int, acc: seq<Byte>, target: seq<Byte>)
    requires i < |s| && room < PointLength(LeadPoint(s[i..]))
    requires acc + Written(s, i, room) == target
    ensures acc == target
  {
    WrittenStep(s, i, room);
    assert acc + [] == acc;
  }

  /** The loop has read all of s: the bytes written so far are all of them. */
  lemma Exhausted(s: JsString, i: nat, room: int, acc: seq<Byte>, target: seq<Byte>)
    requires i >= |s| && acc + Written(s, i, room) == target
    ensures acc == target
  {
    assert acc + [] == acc;
  }

  /** The code point at i fits in room: its bytes b join those written so far, and the scan goes on at i2 with room2 left. */
  lemma Advanced(s: JsString, i: nat, room: int, acc: seq<Byte>, target: seq<Byte>, b: seq<Byte>, i2: nat, room2: int)
    requires i < |s| && b == EncodePoint(LeadPoint(s[i..])) && |b| <= room
    requires i2 == i + LeadWidth(s[i..]) && room2 == room - |b|
    requires acc + Written(s, i, room) == target
    ensures (acc + b) + Written(s, i2, room2) == target
  {
    WrittenStep(s, i, room);
    Associative(acc, b, Written(s, i2, room2));
  }

  lemma Associative<T>(a: seq<T>, b: seq<T>, c: seq<T>)
    ensures a + b + c == a + (b + c)
  {
  }

  /** The heap view after b is written at o0, right after the bytes acc written at s. */
  lemma Grow(h: seq<Byte>, h0: seq<Byte>, h1: seq<Byte>, s: nat, o0: nat, o: nat, acc: seq<Byte>, b: seq<Byte>)
    requires s <= o0 && o == o0 + |b| <= |h| && |acc| == o0 - s
    requires h0 == h[..s] + acc + h[o0..]
    requires h1 == h0[..o0] + b + h0[o..]
    ensures h1 == h[..s] + (acc + b) + h[o..]
  {
    assert h0[..o0] == h[..s] + acc;
    assert h0[o..] == h[o..];
  }

  /** Bytes placed at s, a zero after them, and everything else as it was. */
  lemma Placed(h: seq<Byte>, s: nat, acc: seq<Byte>)
    requires s + |acc| < |h|
    ensures var h1 := (h[..s] + acc + h[s + |acc|..])[s + |acc| := 0];
      && h1[s..s + |acc|] == acc
      && h1[s + |acc|] == 0
      && h1[..s] == h[..s]
      && h1[s + |acc| + 1..] == h[s + |acc| + 1..]
  {
    var h1 := (h[..s] + acc + h[s + |acc|..])[s + |acc| := 0];
    assert h1[s..s + |acc|] == acc;
    assert h1[..s] == h[..s];
    assert h1[s + |acc| + 1..] == h[s + |acc| + 1..];
  }

  /**
   * The head of stringToUTF8Array's loop: the code unit at i, combined with the
   * next one when it is a surrogate; i is left on the last unit read.
   */
  method ReadPoint(str: JsString, i: nat) returns (u: CodePoint, last: nat)
    requires i < |str|
    ensures u == LeadPoint(str[i..])
    ensures last + 1 == i + LeadWidth(str[i..])
  {
    var c: int := str[i];
    last := i;
    if 55296 <= c <= 57343 {
      // charCodeAt(++i) past the end is NaN, and NaN & 1023 is 0
      var u1: int := if last + 1 < |str| then str[last + 1] else 0;
      last := last + 1;
      c := 65536 + (c % 1024) * 1024 + u1 % 1024;
    }
    u := c;
  }

  /**
   * One turn of stringToUTF8Array's loop once the code point u is formed: if its
   * bytes fit before endIdx they are written at o and o moves past them; otherwise
   * nothing is written and the loop stops.
   */
  method PutPoint(heap: array<Byte>, o: nat, endIdx: nat, u: CodePoint) returns (o2: nat, fits: bool)
    requires o <= endIdx <= heap.Length
    modifies heap
    ensures fits <==> o + PointLength(u) <= endIdx
    ensures o2 == if fits then o + PointLength(u) else o
    ensures fits ==> heap[..] == old(heap[..])[..o] + EncodePoint(u) + old(heap[..])[o2..]
    ensures !fits ==> heap[..] == old(heap[..])
  {
    EncodePointCases(u);
    o2, fits := o, true;
    if u <= 127 {
      if o >= endIdx { return o, false; }
      heap[o] := u;
      o2 := o + 1;
    } else if u <= 2047 {
      if o + 1 >= endIdx { return o, false; }
      PutTwo(heap, o, 192 + u / 64, 128 + u % 64);
      o2 := o + 2;
    } else if u <= 65535 {
      if o + 2 >= endIdx { return o, false; }
      PutThree(heap, o, 224 + u / 4096, 128 + (u / 64) % 64, 128 + u % 64);
      o2 := o + 3;
    } else {
      if o + 3 >= endIdx { return o, false; }
      PutFour(heap, o, 240 + u / 262144, 128 + (u / 4096) % 64, 128 + (u / 64) % 64, 128 + u % 64);
      o2 := o + 4;
    }
  }

  /** Two consecutive byte writes at o, as the source's heap[outIdx++] = ... statements do. */
  method PutTwo(heap: array<Byte>, o: nat, b0: Byte, b1: Byte)
    requires o + 2 <= heap.Length
    modifies heap
    ensures heap[..] == old(heap[..])[..o] + [b0, b1] + old(heap[..])[o + 2..]
  {
    heap[o] := b0;
    heap[o + 1] := b1;
  }

  /** Three consecutive byte writes at o. */
  method PutThree(heap: array<Byte>, o: nat, b0: Byte, b1: Byte, b2: Byte)
    requires o + 3 <= heap.Length
    modifies heap
    ensures heap[..] == old(heap[..])[..o] + [b0, b1, b2] + old(heap[..])[o + 3..]
  {
    heap[o] := b0;
    heap[o + 1] := b1;
    heap[o + 2] := b2;
  }

  /** Four consecutive byte writes at o. */
  method PutFour(heap: array<Byte>, o: nat, b0: Byte, b1: Byte, b2: Byte, b3: Byte)
    requires o + 4 <= heap.Length
    modifies heap
    ensures heap[..] == old(heap[..])[..o] + [b0, b1, b2, b3] + old(heap[..])[o + 4..]
  {
    heap[o] := b0;
    heap[o + 1] := b1;
    heap[o + 2] := b2;
    heap[o + 3] := b3;
  }

  /**
   * UTF8ArrayToString, hand-written branch: reads from idx up to the first zero byte
   * or idx + maxBytesToRead, whichever comes first, and decodes those bytes.
   */
  method UTF8ArrayToString(heapOrArray: array<Byte>, idx: nat, maxBytesToRead: Option<int>)
    returns (str: JsString)
    ensures str == DecodeRange(heapOrArray[..], idx, ScanEnd(heapOrArray[..], idx, maxBytesToRead, idx))
  {
    var endPtr := ScanLoop(heapOrArray, idx, maxBytesToRead);
    str := DecodeLoop(heapOrArray, idx, endPtr);
  }

  /** The first loop of UTF8ArrayToString: the index of the first zero byte or of the read limit. */
  method ScanLoop(heapOrArray: array<Byte>, idx: nat, maxBytesToRead: Option<int>) returns (endPtr: nat)
    ensures endPtr == ScanEnd(heapOrArray[..], idx, maxBytesToRead, idx)
  {
    ghost var h := heapOrArray[..];
    endPtr := idx;
    while At(heapOrArray, endPtr) != 0 && !(maxBytesToRead.Some? && endPtr >= idx + maxBytesToRead.value)
      invariant idx <= endPtr
      invariant ScanEnd(h, idx, maxBytesToRead, endPtr) == ScanEnd(h, idx, maxBytesToRead, idx)
      decreases heapOrArray.Length - endPtr
    {
      endPtr := endPtr + 1;
    }
  }

  /** The second loop of UTF8ArrayToString: decodes the lead bytes at idx, idx + width, ... below endPtr. */
  method DecodeLoop(heapOrArray: array<Byte>, idx: nat, endPtr: nat) returns (str: JsString)
    ensures str == DecodeRange(heapOrArray[..], idx, endPtr)
  {
    ghost var h := heapOrArray[..];
    ghost var target := DecodeRange(h, idx, endPtr);
    var i := idx;
    str := [];
    while i < endPtr
      invariant str + DecodeRange(h, i, endPtr) == target
      decreases endPtr - i
    {
      var units, next := ReadUnits(heapOrArray, i);
      DecodeAdvanced(h, i, endPtr, units, next - i, next, str, target);
      str := str + units;
      i := next;
    }
    DecodeDone(h, i, endPtr, str, target);
  }

  /**
   * One turn of UTF8ArrayToString's decoding loop: the lead byte at i fixes how many
   * bytes follow; their low six bits, with the lead's payload bits, form a code point,
   * returned as one UTF-16 unit or a surrogate pair; next is the index after the bytes read.
   */
  method ReadUnits(heapOrArray: array<Byte>, i: nat) returns (units: JsString, next: nat)
    ensures i < next && DecodeOne(heapOrArray[..], i) == (units, next - i)
  {
    var u0 := At(heapOrArray, i);
    if u0 < 128 {
      return [u0], i + 1;
    }
    var u1 := At(heapOrArray, i + 1) % 64;
    if 192 <= u0 < 224 {
      return [(u0 % 32) * 64 + u1], i + 2;
    }
    var u2 := At(heapOrArray, i + 2) % 64;
    var cp: int;
    if 224 <= u0 < 240 {
      cp := (u0 % 16) * 4096 + u1 * 64 + u2;
      next := i + 3;
    } else {
      cp := (u0 % 8) * 262144 + u1 * 4096 + u2 * 64 + At(heapOrArray, i + 3) % 64;
      next := i + 4;
    }
    if cp < 65536 {
      units := [cp];
    } else {
      var ch := cp - 65536;
      units := [55296 + ch / 1024, 56320 + ch % 1024];
    }
  }

  /** The decoded head at i joins the units decoded so far. */
  lemma DecodeAdvanced(h: seq<Byte>, i: nat, end: nat, units: JsString, n: nat, next: nat, str: JsString, target: JsString)
    requires i < end && DecodeOne(h, i) == (units, n) && next == i + n
    requires str + DecodeRange(h, i, end) == target
    ensures (str + units) + DecodeRange(h, next, end) == target
  {
    DecodeRangeSplit(h, i, end, units, n, next);
    Associative(str, units, DecodeRange(h, next, end));
  }

  /** Past the end, nothing is left to decode. */
  lemma DecodeDone(h: seq<Byte>, i: nat, end: nat, str: JsString, target: JsString)
    requires i >= end && str + DecodeRange(h, i, end) == target
    ensures str == target
  {
    assert str + [] == str;
  }

  /**
   * intArrayFromString: a byte array holding str's encoding. Without a positive
   * length it is sized lengthBytesUTF8(str) + 1 and so holds all of str; dontAddNull
   * cuts it to the payload. JavaScript's `new Array(len)` holds undefined where
   * nothing was written; this array holds 0 there.
   */
  method IntArrayFromString(stringy: JsString, dontAddNull: bool, length: int) returns (u8array: seq<Byte>)
    ensures length <= 0 ==> u8array == Encode(stringy) + (if dontAddNull then [] else [0])
    ensures length > 0 ==>
      var payload := EncodeBounded(stringy, length - 1);
      if dontAddNull then u8array == payload
      else |u8array| == length && u8array[..|payload|] == payload && u8array[|payload|] == 0
  {
    var len: nat;
    if length > 0 {
      len := length;
    } else {
      var n := LengthBytesUTF8(stringy);
      len := n + 1;
    }
    var a := new Byte[len];
    var numBytesWritten := StringToUTF8Array(stringy, a, 0, len);
    ghost var payload := EncodeBounded(stringy, len - 1);
    if dontAddNull {
      u8array := a[..numBytesWritten];
      assert u8array == a[0..numBytesWritten];
    } else {
      u8array := a[..];
      Terminated(u8array, payload);
    }
    if length <= 0 {
      EncodeBoundedAll(stringy, len - 1);
    }
  }

  /** A buffer holding payload at its start and a zero right after it. */
  lemma Terminated(h: seq<Byte>, payload: seq<Byte>)
    requires |payload| < |h| && h[0..|payload|] == payload && h[|payload|] == 0
    ensures h[..|payload|] == payload
    ensures |h| == |payload| + 1 ==> h == payload + [0]
  {
    assert h[..|payload|] == h[0..|payload|];
    if |h| == |payload| + 1 {
      assert h == h[..|payload|] + [h[|payload|]];
    }
  }

  /**
   * Writing a well-formed string without U+0000 into a buffer sized as
   * intArrayFromString sizes it, then reading it back with UTF8ArrayToString, gives
   * the string back.
   */
  method EncodeThenDecode(s: JsString, maxBytesToRead: Option<int>) returns (r: JsString)
    requires WellFormed(s) && NoNul(s)
    requires maxBytesToRead.None? || maxBytesToRead.value >= |Encode(s)|
    ensures r == s
  {
    var n := LengthBytesUTF8(s);
    var heap := new Byte[n + 1];
    var written := StringToUTF8Array(s, heap, 0, n + 1);
    EncodeBoundedMeaning(s, n);
    RoundTrip(s, heap[..], 0, maxBytesToRead);
    r := UTF8ArrayToString(heap, 0, maxBytesToRead);
  }
}
