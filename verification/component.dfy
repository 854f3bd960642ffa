/**
 * Python component properties (python_component.c): the property records,
 * the classification of the class's `args` values, property creation and
 * the reconciliation of a new argument list with the old property list.
 *
 * Every allocated node carries an address `addr`, so that "moved", "copied"
 * and "freed" can be told apart; fresh addresses come from a counter.
 */
module Component {
  import opened Common

  /** Size of the buffer an argument key is copied into. */
  const ArgNameSize: nat := 64

  /** MAX_PROPSTRING of Blender's property DNA header, which is not part of this model. */
  const MaxPropString: nat := 128

  /**
   * The C string a Python str is read as: everything before its first NUL.
   * Characters stand for bytes here; see the README for what that leaves out.
   */
  function CString(s: string): (r: string)
    ensures |r| <= |s| && r == s[..|r|]
    ensures forall j | 0 <= j < |r| :: r[j] != '\0'
    ensures |r| < |s| ==> s[|r|] == '\0'
    decreases |s|
  {
    if |s| == 0 || s[0] == '\0' then [] else [s[0]] + CString(s[1..])
  }

  /**
   * BLI_strncpy of that C string into a buffer of `size` characters: the
   * longest NUL-free prefix of at most size - 1 characters.
   */
  function StrNCopy(s: string, size: nat): (r: string)
    requires size > 0
    ensures |r| <= size - 1 && |r| <= |s| && r == s[..|r|]
    ensures forall j | 0 <= j < |r| :: r[j] != '\0'
    ensures |r| < size - 1 && |r| < |s| ==> s[|r|] == '\0'
    ensures |s| < size && (forall j | 0 <= j < |s| :: s[j] != '\0') ==> r == s
  {
    var c := CString(s);
    if |c| < size then c else c[..size - 1]
  }

  datatype PropType = IntProp | FloatProp | BooleanProp | StringProp | SetProp

  /** One entry of the EnumPropertyItem array built for a set. */
  datatype EnumItem = EnumItem(value: int, identifier: string, name: string)

  /** The `data` field: an int, or the bits of a float. */
  datatype PropData = IntData(i: int) | FloatData(f: real)

  /** The `ptr` field: nothing, a string buffer or an enum item array. */
  datatype PropPtr = NoPtr | StrPtr(s: string) | ItemsPtr(items: seq<EnumItem>)

  datatype ComponentProperty = ComponentProperty(
    addr: nat,
    name: string,
    ptype: PropType,
    data: PropData,
    ptr: PropPtr,
    ptr2: Option<string>)

  datatype PythonComponent = PythonComponent(
    addr: nat,
    moduleName: string,
    className: string,
    properties: seq<ComponentProperty>)

  /** A key of the class's `args` dictionary. */
  datatype PyKey = StrKey(s: string) | OtherKey

  /** A value of the class's `args` dictionary; a set's strings are in iteration order. */
  datatype PyValue =
    | PyBool(b: bool)
    | PyInt(i: int)
    | PyFloat(f: real)
    | PyStr(s: string)
    | PySet(items: seq<string>)
    | PyOther

  /** PyLong_Check: Python's bool is a subclass of int, so booleans pass it too. */
  predicate IsLong(v: PyValue) {
    v.PyBool? || v.PyInt?
  }

  const LongMin: int := -0x8000_0000_0000_0000
  const LongMax: int := 0x7fff_ffff_ffff_ffff

  /** PyLong_AsLong for a 64-bit long: -1 when the value does not fit. */
  function PyLongAsLong(v: PyValue): (r: int)
    requires IsLong(v)
    ensures LongMin <= r <= LongMax
  {
    match v
    case PyBool(b) => if b then 1 else 0
    case PyInt(i) => if LongMin <= i <= LongMax then i else -1
  }

  /** Conversion of a long to a 32-bit C int, wrapping modulo 2^32. */
  function NarrowToInt(x: int): (r: int)
    ensures -0x8000_0000 <= r < 0x8000_0000
    ensures (x - r) % 0x1_0000_0000 == 0
    ensures -0x8000_0000 <= x < 0x8000_0000 ==> r == x
  {
    var m := x % 0x1_0000_0000;
    if m < 0x8000_0000 then m else m - 0x1_0000_0000
  }

  /** A classified argument: name, type, data and pointer for create_property. */
  datatype Arg = Arg(name: string, ptype: PropType, data: PropData, ptr: PropPtr)

  /** The enum items built from a set's strings: item j has value j. */
  function SetItems(strs: seq<string>): (items: seq<EnumItem>)
    ensures |items| == |strs|
    ensures forall j | 0 <= j < |strs| ::
              items[j].value == j && items[j].identifier == StrNCopy(strs[j], MaxPropString)
              && items[j].name == items[j].identifier
  {
    seq(|strs|, j requires 0 <= j < |strs| =>
      EnumItem(j, StrNCopy(strs[j], MaxPropString), StrNCopy(strs[j], MaxPropString)))
  }

  /**
   * The type tests of create_properties, in the source's order: bool before
   * int, then float, str and set; other keys and values are skipped.
   */
  function Classify(key: PyKey, value: PyValue): (r: Option<Arg>)
    ensures r.Some? <==> key.StrKey? && !value.PyOther?
    ensures r.Some? ==> r.value.name == StrNCopy(key.s, ArgNameSize)
    ensures r.Some? && value.PyBool? ==>
              r.value.ptype == BooleanProp && r.value.data == IntData(if value.b then 1 else 0)
    ensures r.Some? && value.PyInt? ==>
              r.value.ptype == IntProp && r.value.data == IntData(NarrowToInt(PyLongAsLong(value)))
    ensures r.Some? && value.PyFloat? ==> r.value.ptype == FloatProp && r.value.data == FloatData(value.f)
    ensures r.Some? && value.PyStr? ==>
              r.value.ptype == StringProp && r.value.ptr == StrPtr(StrNCopy(value.s, MaxPropString))
    ensures r.Some? && value.PySet? ==>
              r.value.ptype == SetProp && r.value.data == IntData(0) && r.value.ptr == ItemsPtr(SetItems(value.items))
  {
    if !key.StrKey? then None
    else
      var name := StrNCopy(key.s, ArgNameSize);
      if value.PyBool? then Some(Arg(name, BooleanProp, IntData(if PyLongAsLong(value) != 0 then 1 else 0), NoPtr))
      else if IsLong(value) then Some(Arg(name, IntProp, IntData(NarrowToInt(PyLongAsLong(value))), NoPtr))
      else if value.PyFloat? then Some(Arg(name, FloatProp, FloatData(value.f), NoPtr))
      else if value.PyStr? then Some(Arg(name, StringProp, IntData(0), StrPtr(StrNCopy(value.s, MaxPropString))))
      else if value.PySet? then Some(Arg(name, SetProp, IntData(0), ItemsPtr(SetItems(value.items))))
      else None
  }

  /** A bool is never classified as an int, although it passes the int check. */
  lemma BoolIsNeverInt(key: string, b: bool)
    ensures IsLong(PyBool(b))
    ensures Classify(StrKey(key), PyBool(b)).value.ptype == BooleanProp
  {
  }

  /**
   * create_property: the fields not used by the type are cleared; a set
   * keeps its item array in `ptr` and its first identifier in `ptr2`.
   */
  function CreateProperty(addr: nat, name: string, ptype: PropType, data: PropData, ptr: PropPtr): (p: ComponentProperty)
    ensures p.addr == addr && p.name == name && p.ptype == ptype
    ensures ptype == IntProp || ptype == BooleanProp || ptype == FloatProp ==>
              p.data == data && p.ptr == NoPtr && p.ptr2 == None
    ensures ptype == StringProp ==> p.data == IntData(0) && p.ptr == ptr && p.ptr2 == None
    ensures ptype == SetProp ==> p.data == IntData(0) && p.ptr == ptr
    ensures ptype == SetProp && ptr.ItemsPtr? && |ptr.items| > 0 ==> p.ptr2 == Some(ptr.items[0].identifier)
    ensures ptype == SetProp && (!ptr.ItemsPtr? || |ptr.items| == 0) ==> p.ptr2 == None
  {
    var blank := ComponentProperty(addr, name, ptype, IntData(0), NoPtr, None);
    match ptype
    case IntProp => blank.(data := data)
    case FloatProp => blank.(data := data)
    case BooleanProp => blank.(data := data)
    case StringProp => blank.(ptr := ptr)
    case SetProp =>
      var first := if ptr.ItemsPtr? && |ptr.items| > 0 then Some(ptr.items[0].identifier) else None;
      blank.(ptr := ptr, ptr2 := first, data := IntData(0))
  }

  function MakeProperty(addr: nat, a: Arg): ComponentProperty {
    CreateProperty(addr, a.name, a.ptype, a.data, a.ptr)
  }

  /** A set argument becomes a SET property whose item j is (j, j-th string) and whose ptr2 is the first string. */
  lemma SetPropertyShape(addr: nat, key: string, strs: seq<string>)
    ensures var p := MakeProperty(addr, Classify(StrKey(key), PySet(strs)).value);
            && p.ptype == SetProp && p.data == IntData(0)
            && p.ptr.ItemsPtr? && |p.ptr.items| == |strs|
            && (forall j | 0 <= j < |strs| ::
                  p.ptr.items[j].value == j && p.ptr.items[j].identifier == StrNCopy(strs[j], MaxPropString)
                  && p.ptr.items[j].name == p.ptr.items[j].identifier)
            && (|strs| > 0 ==> p.ptr2 == Some(p.ptr.items[0].identifier))
            && (|strs| == 0 ==> p.ptr2 == None)
  {
  }

  /** The accepted arguments, classified, in iteration order. */
  function Accepted(args: seq<(PyKey, PyValue)>): (r: seq<Arg>)
    ensures |r| <= |args|
    decreases |args|
  {
    if |args| == 0 then []
    else match Classify(args[0].0, args[0].1)
      case None => Accepted(args[1..])
      case Some(a) => [a] + Accepted(args[1..])
  }

  /**
   * Every accepted argument is the classification of some entry, and every
   * entry that classifies is accepted.
   */
  lemma {:induction false} AcceptedSound(args: seq<(PyKey, PyValue)>)
    ensures forall i | 0 <= i < |Accepted(args)| ::
              exists j | 0 <= j < |args| :: Classify(args[j].0, args[j].1) == Some(Accepted(args)[i])
    ensures forall j | 0 <= j < |args| && Classify(args[j].0, args[j].1).Some? ::
              Classify(args[j].0, args[j].1).value in Accepted(args)
    decreases |args|
  {
    if |args| > 0 {
      var tail := args[1..];
      AcceptedSound(tail);
      var acc, rest := Accepted(args), Accepted(tail);
      var k := |acc| - |rest|;
      assert k == 0 || k == 1;
      assert k == 1 ==> acc == [Classify(args[0].0, args[0].1).value] + rest;
      assert k == 0 ==> acc == rest;
      forall i | 0 <= i < |acc|
        ensures exists j | 0 <= j < |args| :: Classify(args[j].0, args[j].1) == Some(acc[i])
      {
        if i < k {
          assert Classify(args[0].0, args[0].1) == Some(acc[i]);
        } else {
          var j :| 0 <= j < |tail| && Classify(tail[j].0, tail[j].1) == Some(rest[i - k]);
          assert args[j + 1] == tail[j];
        }
      }
      forall j | 0 <= j < |args| && Classify(args[j].0, args[j].1).Some?
        ensures Classify(args[j].0, args[j].1).value in acc
      {
        if j > 0 {
          assert args[j] == tail[j - 1];
        }
      }
    } else {
      assert Accepted(args) == [];
    }
  }

  /** When every argument is accepted, there is one classified argument per entry, in order. */
  lemma {:induction false} AcceptedAll(args: seq<(PyKey, PyValue)>)
    requires forall i | 0 <= i < |args| :: Classify(args[i].0, args[i].1).Some?
    ensures |Accepted(args)| == |args|
    ensures forall i | 0 <= i < |args| :: Accepted(args)[i] == Classify(args[i].0, args[i].1).value
    decreases |args|
  {
    if |args| > 0 {
      var tail := args[1..];
      var a := Classify(args[0].0, args[0].1).value;
      var acc := Accepted(tail);
      assert |acc| == |tail| && forall i | 0 <= i < |tail| :: acc[i] == Classify(tail[i].0, tail[i].1).value by {
        assert forall i | 0 <= i < |tail| :: tail[i] == args[i + 1];
        AcceptedAll(tail);
      }
      assert Accepted(args) == [a] + acc;
      forall i | 0 <= i < |args|
        ensures Accepted(args)[i] == Classify(args[i].0, args[i].1).value
      {
        if i > 0 {
          assert args[i] == tail[i - 1];
        }
      }
    }
  }

  /** The properties create_property builds, at consecutive fresh addresses. */
  function FreshProperties(accepted: seq<Arg>, next: nat): (ps: seq<ComponentProperty>)
    ensures |ps| == |accepted|
    ensures forall i | 0 <= i < |ps| :: ps[i].addr == next + i
    ensures forall i | 0 <= i < |ps| :: ps[i].name == accepted[i].name && ps[i].ptype == accepted[i].ptype
  {
    seq(|accepted|, i requires 0 <= i < |accepted| => MakeProperty(next + i, accepted[i]))
  }
}
