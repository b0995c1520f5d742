/** Values that the modelled JavaScript helpers exchange with their host. */
module JsValues {

  /** A value that may be absent: `undefined` in JavaScript, `None` in Python. */
  datatype Option<T> = None | Some(value: T)

  /** One element of a Uint8Array heap view. */
  type Byte = x: int | 0 <= x < 0x100

  /** A UTF-16 code unit, what String.prototype.charCodeAt returns for an index in range. */
  type CodeUnit = x: int | 0 <= x < 0x1_0000

  /** A JavaScript string: a sequence of UTF-16 code units. */
  type JsString = seq<CodeUnit>

  /** A string literal of characters from the Basic Multilingual Plane, as code units. */
  function Units(s: string): (r: JsString)
    requires forall i :: 0 <= i < |s| ==> s[i] as int < 0x1_0000
    ensures |r| == |s| && forall i :: 0 <= i < |s| ==> r[i] == s[i] as int
  {
    seq(|s|, i requires 0 <= i < |s| => s[i] as int)
  }
}
