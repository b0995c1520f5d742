/**
 * StackElement and StackParser from editor.md/lib/wasm/expat.js: the SAX callback
 * sink that the expat binding drives. startElement pushes a fresh element,
 * endElement pops one, and characterData appends text to the element on top.
 * parse itself hands the document to the foreign expat parser and is not modelled.
 */
module StackParsing {
  import opened JsValues

  /** An element under construction: its tag, its attribute dictionary, and the text seen so far. */
  class StackElement {
    const tag: JsString
    const attrs: map<JsString, Option<JsString>>
    var content: JsString

    constructor (tag: JsString, attrs: map<JsString, Option<JsString>>)
      ensures this.tag == tag && this.attrs == attrs && content == []
    {
      this.tag := tag;
      this.attrs := attrs;
      content := [];
    }

    /** appendContent: the text grows by content at its end. */
    method AppendContent(content: JsString)
      modifies this
      ensures this.content == old(this.content) + content
    {
      this.content := this.content + content;
    }
  }

  /** The open elements, innermost last. */
  class StackParser {
    var stack: seq<StackElement>

    /** No element is on the stack twice, so writing to the top touches no other entry. */
    ghost predicate Valid()
      reads this
    {
      forall i, j :: 0 <= i < j < |stack| ==> stack[i] != stack[j]
    }

    /** The tags and texts of the open elements, outermost first. */
    function Snapshot(): seq<(JsString, JsString)>
      reads this, stack
    {
      seq(|stack|, i reads this, stack requires 0 <= i < |stack| => (stack[i].tag, stack[i].content))
    }

    constructor ()
      ensures Valid() && stack == []
    {
      stack := [];
    }

    /** top(): the innermost open element, or undefined (null) when none is open. */
    method Top() returns (r: StackElement?)
      ensures stack == [] ==> r == null
      ensures stack != [] ==> r == stack[|stack| - 1]
    {
      if |stack| == 0 {
        return null;
      }
      r := stack[|stack| - 1];
    }

    /** startElement: a new element with no text becomes the top; the elements below it are untouched. */
    method StartElement(tag: JsString, attrs: map<JsString, Option<JsString>>) returns (retVal: StackElement)
      requires Valid()
      modifies this
      ensures Valid()
      ensures fresh(retVal) && retVal.tag == tag && retVal.attrs == attrs && retVal.content == []
      ensures stack == old(stack) + [retVal]
      ensures Snapshot() == old(Snapshot()) + [(tag, [])]
    {
      retVal := new StackElement(tag, attrs);
      stack := stack + [retVal];
    }

    /** endElement: pops and returns the top, whatever tag closes it; undefined (null) on an empty stack. */
    method EndElement(tag: JsString) returns (r: StackElement?)
      requires Valid()
      modifies this
      ensures Valid()
      ensures old(stack) == [] ==> r == null && stack == []
      ensures old(stack) != [] ==>
        && r == old(stack)[|old(stack)| - 1]
        && stack == old(stack)[..|old(stack)| - 1]
        && Snapshot() == old(Snapshot())[..|old(stack)| - 1]
    {
      if |stack| == 0 {
        return null;
      }
      r := stack[|stack| - 1];
      stack := stack[..|stack| - 1];
    }

    /**
     * characterData: appends content to the top element's text and changes nothing
     * else. With no open element, top() is undefined and the call throws a TypeError;
     * ok is false then and nothing changes.
     */
    method CharacterData(content: JsString) returns (ok: bool)
      requires Valid()
      modifies if stack == [] then {} else {stack[|stack| - 1]}
      ensures Valid() && stack == old(stack)
      ensures ok <==> stack != []
      ensures !ok ==> Snapshot() == old(Snapshot())
      ensures ok ==>
        var n := |stack| - 1;
        Snapshot() == old(Snapshot())[n := (stack[n].tag, old(stack[n].content) + content)]
    {
      var t := Top();
      if t == null {
        return false;
      }
      t.AppendContent(content);
      ok := true;
    }
  }

  /** An element opened and then closed leaves the stack as it was and hands back the element opened. */
  method OpenThenClose(p: StackParser, tag: JsString, attrs: map<JsString, Option<JsString>>)
    returns (started: StackElement, ended: StackElement?)
    requires p.Valid()
    modifies p
    ensures p.Valid() && p.stack == old(p.stack) && ended == started
  {
    started := p.StartElement(tag, attrs);
    ended := p.EndElement(tag);
  }
}
