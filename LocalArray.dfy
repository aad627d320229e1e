/**
 * Greenfoot's LocalArray: the debugger's view of an array of objects in
 * the running program, as an object whose "instance fields" are its
 * elements.  Element i is shown as "[i] = " and a short description of its
 * value: a string in quotes, an enum constant by name, anything else
 * (null included) as an object reference.  Arrays have no static fields.
 *
 * The element values are reduced to what the descriptions use.
 * DebuggerObject, which defines the object-reference text, is not part of
 * this model; its text is taken to be "<object reference>".
 */
module LocalArrays {
  import opened Strings

  /** An array element: null, a String, an enum constant (its name), or another object. */
  datatype Value = Null | StringValue(text: string) | EnumValue(name: string) | OtherObject

  /** DebuggerObject.OBJECT_REFERENCE. */
  const ObjectReference := "<object reference>"

  /** What a query answers: a value, or UnsupportedOperationException with its message. */
  datatype Answer<T> = Answer(value: T) | Unsupported(message: string)

  /** getValueString's description of an element. */
  function ValueString(v: Value): (r: string)
    ensures v.StringValue? ==> |r| == |v.text| + 2 && r[0] == r[|r| - 1] == '"' && r[1..|r| - 1] == v.text
    ensures v.Null? || v.OtherObject? ==> r == ObjectReference
  {
    match v
    case StringValue(s) => "\"" + s + "\""
    case EnumValue(name) => name
    case _ => ObjectReference
  }

  /**
   * A string is shown in quotes and read back between them; an enum name
   * without quotes is never taken for a string, and neither is the
   * object-reference text.
   */
  lemma ValueStringDistinguishes(s: string, t: string, name: string)
    ensures var r := ValueString(StringValue(s));
            |r| == |s| + 2 && r[0] == '"' && r[|r| - 1] == '"' && r[1..|r| - 1] == s
    ensures ValueString(StringValue(s)) == ValueString(StringValue(t)) ==> s == t
    ensures '"' !in name ==> ValueString(EnumValue(name)) != ValueString(StringValue(s))
    ensures ValueString(Null) == ValueString(OtherObject) != ValueString(StringValue(s))
  {
    var r := ValueString(StringValue(s));
    assert r[1..|r| - 1] == s;
    var r' := ValueString(StringValue(t));
    assert r' == r ==> r'[1..|r'| - 1] == t;
    assert ValueString(EnumValue(name)) == r ==> name[0] == '"';
  }

  /** getInstanceFieldName(slot): "[" + slot + "]". */
  function FieldName(slot: int): (r: string)
    ensures |r| >= 3 && r[0] == '[' && r[|r| - 1] == ']' && r[1..|r| - 1] == IntToString(slot)
  {
    "[" + IntToString(slot) + "]"
  }

  /** The line getInstanceFields gives for element i. */
  function FieldLine(i: int, v: Value): string
  {
    FieldName(i) + " = " + ValueString(v)
  }

  /** A decimal integer has no closing bracket. */
  lemma NoBracketInNumber(n: int)
    ensures ']' !in IntToString(n)
  {
    var s := IntToString(n);
    if n < 0 {
      assert s[1..] == NatToString(-n);
      assert forall i :: 1 <= i < |s| ==> s[i] == s[1..][i - 1];
    }
  }

  /**
   * A field line names its slot: the first ']' closes the slot's name, the
   * number between the brackets reads back as the slot, and the value's
   * description follows " = ".
   */
  lemma FieldLineNamesSlot(i: int, v: Value)
    ensures var line := FieldLine(i, v);
            var close := IndexOfChar(line, ']');
            close == |IntToString(i)| + 1 && line[..close + 1] == FieldName(i) &&
            line[1..close] == IntToString(i) && line[close + 1..] == " = " + ValueString(v)
  {
    var digits := IntToString(i);
    var x, y := "[" + digits, " = " + ValueString(v);
    NoBracketInNumber(i);
    assert ']' !in x;
    assert FieldLine(i, v) == x + "]" + y;
    FirstClose(x, y);
    assert x[1..] == digits;
  }

  lemma FirstClose(x: string, y: string)
    requires ']' !in x && |x| >= 1
    ensures var s := x + "]" + y;
            IndexOfChar(s, ']') == |x| && s[..|x| + 1] == x + "]" && s[1..|x|] == x[1..] && s[|x| + 1..] == y
  {
    var s := x + "]" + y;
    assert s[..|x|] == x && s[|x|] == ']';
  }

  /** Different slots give different lines, whatever their values. */
  lemma FieldLinesDistinct(i: int, j: int, v: Value, w: Value)
    requires FieldLine(i, v) == FieldLine(j, w)
    ensures i == j
  {
    FieldLineNamesSlot(i, v);
    FieldLineNamesSlot(j, w);
    IntToStringInjective(i, j);
  }

  /** getStaticFieldName: arrays have no static fields. */
  function GetStaticFieldName(slot: int): (r: Answer<string>)
    ensures r.Unsupported?
  {
    Unsupported("getStaticFieldName")
  }

  /** getStaticFieldObject. */
  function GetStaticFieldObject(slot: int): (r: Answer<Value>)
    ensures r.Unsupported?
  {
    Unsupported("getStaticFieldObject")
  }

  /** getStaticFields. */
  function GetStaticFields(includeModifiers: bool): (r: Answer<seq<string>>)
    ensures r.Unsupported?
  {
    Unsupported("getStaticFields")
  }

  /** staticFieldIsPublic: its message names getStaticFieldObject, as written. */
  function StaticFieldIsPublic(slot: int): (r: Answer<bool>)
    ensures r.Unsupported?
  {
    Unsupported("getStaticFieldObject")
  }

  /** staticFieldIsObject: its message names getStaticFieldObject, as written. */
  function StaticFieldIsObject(slot: int): (r: Answer<bool>)
    ensures r.Unsupported?
  {
    Unsupported("getStaticFieldObject")
  }

  class LocalArray {
    /** The array object in the running program. */
    const elements: array<Value>
    /** The length given at construction. */
    const length: int

    /** LocalArray(Object[] object): the length is the array's. */
    constructor (elements: array<Value>)
      ensures this.elements == elements && length == elements.Length
    {
      this.elements := elements;
      length := elements.Length;
    }

    /** LocalArray(object, length): the length a subclass gives. */
    constructor WithLength(elements: array<Value>, length: int)
      ensures this.elements == elements && this.length == length
    {
      this.elements := elements;
      this.length := length;
    }

    /** getInstanceFieldCount: the stored length. */
    function GetInstanceFieldCount(): (r: int)
      ensures r == length
    {
      length
    }

    /** getValueString(index): the description of the element at index. */
    function GetValueString(index: int): (r: string)
      reads elements
      requires 0 <= index < elements.Length
      ensures elements[index].StringValue? ==> |r| >= 2 && r[1..|r| - 1] == elements[index].text
    {
      ValueString(elements[index])
    }

    /** instanceFieldIsObject: whether the element is not null. */
    function InstanceFieldIsObject(slot: int): (b: bool)
      reads elements
      requires 0 <= slot < elements.Length
      ensures b <==> elements[slot] != Null
      ensures !b ==> GetValueString(slot) == ObjectReference
    {
      elements[slot] != Null
    }

    /** instanceFieldIsPublic: every element is public. */
    function InstanceFieldIsPublic(slot: int): (b: bool)
      ensures b
    {
      true
    }

    /**
     * getInstanceFields: one line per element up to the stored length, the
     * i-th naming slot i and describing element i.
     */
    method GetInstanceFields(includeModifiers: bool) returns (fields: seq<string>)
      requires 0 <= length <= elements.Length
      ensures |fields| == GetInstanceFieldCount()
      ensures forall i :: 0 <= i < |fields| ==>
                StartsWith(fields[i], FieldName(i)) && fields[i] == FieldLine(i, elements[i])
    {
      fields := [];
      for i := 0 to length
        invariant |fields| == i
        invariant forall k :: 0 <= k < i ==> fields[k] == FieldLine(k, elements[k])
      {
        var valString := GetValueString(i);
        fields := fields + ["[" + IntToString(i) + "]" + " = " + valString];
      }
      forall i | 0 <= i < |fields|
        ensures StartsWith(fields[i], FieldName(i))
      {
        assert fields[i][..|FieldName(i)|] == FieldName(i);
      }
    }
  }
}
