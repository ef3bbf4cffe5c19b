/** The structures of sanei/sanei_wire.c and sanei/sanei_net.c as codecs, with the sizes of a 64-bit machine, and
    what their fields must satisfy to travel. */
module WireMessages {
  import opened Machine
  import opened WireSpec
  import opened WireReceived
  import opened WireRoundTrip

  const RANGE := CPair(CPair(CWord, CWord), CWord)
  const DEVICE := CPair(CPair(CPair(CString, CString), CString), CString)
  const PARAMETERS := CPair(CPair(CPair(CPair(CPair(CWord, CWord), CWord), CWord), CWord), CWord)

  /** name, title, desc, type, unit, size, cap and constraint_type, which selects the constraint. */
  const OPTION_HEAD :=
    CPair(CPair(CPair(CPair(CPair(CPair(CPair(CString, CString), CString), CWord), CWord), CWord), CWord), CWord)
  const CONSTRAINTS := [CVoid, CPtr(RANGE, 12), CArray(SelfCounted, CWord, 4), CArray(Terminated(false), CString, 8)]
  const OPTION_DESCRIPTOR := CCase(OPTION_HEAD, ByConstraint, CONSTRAINTS)
  const OPTION_DESCRIPTOR_ARRAY := CArray(Stored, CPtr(OPTION_DESCRIPTOR, 56), 8)

  /** The status and a list that ends with NULL. */
  const GET_DEVICES_REPLY := CPair(CWord, CArray(Terminated(true), CPtr(DEVICE, 32), 8))

  /** w_option_value: the last two words before it are the type and the size. */
  const OPTION_VALUES := [CArray(OfSize, CWord, 4), CArray(OfSize, CByte, 1), CArray(OfSize, CVoid, 0)]
  const OPTION_SETTING := CCase(CPair(CWord, CWord), ByType, OPTION_VALUES)
  /** handle, option and action; up to version 2 an option value follows even for SET_AUTO. */
  const CONTROL_OPTION_REQ :=
    CCase(CPair(CPair(CWord, CWord), CWord), ByAction, [OPTION_SETTING, CVoid])
  /** status, info, type, size, the value, and the resource to authorize. */
  const CONTROL_OPTION_REPLY :=
    CPair(CCase(CPair(CPair(CPair(CWord, CWord), CWord), CWord), ByType, OPTION_VALUES), CString)

  const INIT_REQ := CPair(CWord, CString)
  const INIT_REPLY := CPair(CWord, CWord)
  const OPEN_REPLY := CPair(CPair(CWord, CWord), CString)
  const GET_PARAMETERS_REPLY := CPair(CWord, PARAMETERS)
  const START_REPLY := CPair(CPair(CPair(CWord, CWord), CWord), CString)
  const AUTHORIZATION_REQ := CPair(CPair(CString, CString), CString)

  // ---- Validity -----------------------------------------------------------------------------

  /** c has no continuation that depends on an option type. */
  predicate Total(c: Codec) {
    match c
    case CVoid => true
    case CByte => true
    case CWord => true
    case CString => true
    case CPtr(target, _) => Total(target)
    case CArray(_, element, _) => Total(element)
    case CPair(first, second) => Total(first) && Total(second)
    case CCase(head, tag, cases) =>
      Total(head) && tag == ByConstraint && |cases| == 4 && forall k | 0 <= k < |cases| :: Total(cases[k])
  }

  lemma {:induction false} TotalIsValid(c: Codec, version: int, context: int, v: Value)
    requires Total(c) && WellFormed(c, version, context, v)
    ensures Enc(c, version, context, v).valid
    decreases c, 0, 0
  {
    match c
    case CVoid =>
    case CByte =>
    case CWord =>
    case CString =>
    case CPtr(target, _) =>
      if v.Ref? {
        TotalIsValid(target, version, 0, v.value);
      }
    case CArray(_, element, _) =>
      if v.Elems? {
        AllTotalValid(element, version, v.vs);
      }
    case CPair(first, second) =>
      TotalIsValid(first, version, 0, v.fst);
      TotalIsValid(second, version, 0, v.snd);
    case CCase(head, tag, cases) =>
      TotalIsValid(head, version, 0, v.fst);
      TotalIsValid(cases[CaseOf(tag, version, v.fst)], version, Last(v.fst), v.snd);
  }

  lemma {:induction false} AllTotalValid(c: Codec, version: int, vs: seq<Value>)
    requires Total(c) && AllWellFormed(c, version, vs)
    ensures EncAll(c, version, vs).valid
    decreases c, 1, |vs|
  {
    if vs != [] {
      TotalIsValid(c, version, 0, vs[0]);
      AllTotalValid(c, version, vs[1..]);
    }
  }

  // ---- Strings, devices and options ---------------------------------------------------------

  datatype Text = NoText | Text(s: seq<Byte>)
  {
    /** A C string: free of NULs, and with its terminator shorter than a word can say. */
    predicate Valid() {
      Text? ==> |s| < 0x7fff_ffff && forall i | 0 <= i < |s| :: s[i] != 0
    }

    function AsValue(): Value {
      if NoText? then Null else Str(s)
    }
  }

  datatype Device = Device(name: Text, vendor: Text, model: Text, kind: Text)
  {
    predicate Valid() {
      name.Valid() && vendor.Valid() && model.Valid() && kind.Valid()
    }

    function AsValue(): Value {
      Pair(Pair(Pair(name.AsValue(), vendor.AsValue()), model.AsValue()), kind.AsValue())
    }
  }

  datatype Constraint =
    | Unconstrained
    | InRange(min: int, max: int, quant: int)
    | InWords(words: seq<int>)
    | InStrings(strings: seq<seq<Byte>>)
  {
    predicate Valid() {
      match this
      case Unconstrained => true
      case InRange(min, max, quant) => IsWord(min) && IsWord(max) && IsWord(quant)
      case InWords(words) => |words| < 0x7fff_ffff && forall i | 0 <= i < |words| :: IsWord(words[i])
      case InStrings(strings) => |strings| < 0x7fff_ffff && forall i | 0 <= i < |strings| :: Text(strings[i]).Valid()
    }

    function Type(): int {
      match this
      case Unconstrained => 0
      case InRange(_, _, _) => SANE_CONSTRAINT_RANGE
      case InWords(_) => SANE_CONSTRAINT_WORD_LIST
      case InStrings(_) => SANE_CONSTRAINT_STRING_LIST
    }

    /** A word list starts with its length, and a string list ends with NULL. */
    function AsValue(): Value {
      match this
      case Unconstrained => Nothing
      case InRange(min, max, quant) => Ref(Pair(Pair(Num(min), Num(max)), Num(quant)))
      case InWords(words) => Elems(Nums([|words|] + words))
      case InStrings(strings) => Elems(Strs(strings) + [Null])
    }
  }

  function Nums(words: seq<int>): (vs: seq<Value>)
    ensures |vs| == |words|
  {
    if words == [] then [] else [Num(words[0])] + Nums(words[1..])
  }

  function Strs(strings: seq<seq<Byte>>): (vs: seq<Value>)
    ensures |vs| == |strings|
  {
    if strings == [] then [] else [Str(strings[0])] + Strs(strings[1..])
  }

  function Devices(devices: seq<Device>): (vs: seq<Value>)
    ensures |vs| == |devices|
  {
    if devices == [] then [] else [Ref(devices[0].AsValue())] + Devices(devices[1..])
  }

  datatype OptionDescriptor = OptionDescriptor(name: Text, title: Text, desc: Text, valueType: int, unit: int,
                                               size: int, cap: int, constraint: Constraint)
  {
    predicate Valid() {
      && name.Valid() && title.Valid() && desc.Valid()
      && IsWord(valueType) && IsWord(unit) && IsWord(size) && IsWord(cap) && constraint.Valid()
    }

    function AsValue(): Value {
      var strings := Pair(Pair(name.AsValue(), title.AsValue()), desc.AsValue());
      var words := Pair(Pair(Pair(Pair(strings, Num(valueType)), Num(unit)), Num(size)), Num(cap));
      Pair(Pair(words, Num(constraint.Type())), constraint.AsValue())
    }
  }

  lemma {:induction false} NumsAreWellFormed(words: seq<int>, version: int)
    requires forall i | 0 <= i < |words| :: IsWord(words[i])
    ensures AllWellFormed(CWord, version, Nums(words))
  {
    if words != [] {
      NumsAreWellFormed(words[1..], version);
    }
  }

  /** The loop that looks for the NULL finds the one at the end. */
  lemma {:induction false} StrsAreWellFormed(strings: seq<seq<Byte>>, version: int)
    requires forall i | 0 <= i < |strings| :: Text(strings[i]).Valid()
    ensures var vs := Strs(strings) + [Null]; AllWellFormed(CString, version, vs) && FirstNull(vs) == |strings|
  {
    var vs := Strs(strings) + [Null];
    if strings != [] {
      StrsAreWellFormed(strings[1..], version);
      assert vs[1..] == Strs(strings[1..]) + [Null];
      assert WellFormed(CString, version, 0, vs[0]) by {
        assert Text(strings[0]).Valid();
      }
    } else {
      assert vs[0] == Null && vs[1..] == [] && AllWellFormed(CString, version, vs[1..]);
    }
  }

  lemma {:induction false} DevicesAreWellFormed(devices: seq<Device>, version: int)
    requires forall i | 0 <= i < |devices| :: devices[i].Valid()
    ensures var vs := Devices(devices) + [Null];
            AllWellFormed(CPtr(DEVICE, 32), version, vs)
            && FirstNull(vs) == |devices|
  {
    var vs := Devices(devices) + [Null];
    if devices != [] {
      DevicesAreWellFormed(devices[1..], version);
      assert vs[1..] == Devices(devices[1..]) + [Null];
      DeviceIsWellFormed(devices[0], version);
    } else {
      assert vs[0] == Null && vs[1..] == [] && AllWellFormed(CPtr(DEVICE, 32), version, vs[1..]);
    }
  }

  lemma DeviceIsWellFormed(d: Device, version: int)
    requires d.Valid()
    ensures WellFormed(CPtr(DEVICE, 32), version, 0, Ref(d.AsValue()))
  {
    assert WellFormed(DEVICE, version, 0, d.AsValue());
  }

  /** The constraint that follows the descriptor's head is the one that its type announces. */
  lemma ConstraintIsWellFormed(c: Constraint, version: int, context: int)
    requires c.Valid()
    ensures 0 <= c.Type() < 4 && WellFormed(CONSTRAINTS[c.Type()], version, context, c.AsValue())
  {
    match c
    case Unconstrained =>
    case InRange(min, max, quant) => assert WellFormed(RANGE, version, 0, Pair(Pair(Num(min), Num(max)), Num(quant)));
    case InWords(words) => NumsAreWellFormed([|words|] + words, version);
    case InStrings(strings) => StrsAreWellFormed(strings, version);
  }

  lemma CaseIsWellFormed(head: Codec, tag: Tag, cases: seq<Codec>, version: int, a: Value, b: Value)
    requires WellFormed(head, version, 0, a) && CaseOf(tag, version, a) < |cases|
    requires WellFormed(cases[CaseOf(tag, version, a)], version, Last(a), b)
    ensures WellFormed(CCase(head, tag, cases), version, 0, Pair(a, b))
  {
    hide CaseOf, Last;
  }

  lemma HeadIsWellFormed(d: OptionDescriptor, version: int)
    requires d.Valid()
    ensures WellFormed(OPTION_HEAD, version, 0, d.AsValue().fst)
    ensures CaseOf(ByConstraint, version, d.AsValue().fst) == d.constraint.Type()
  {
  }

  lemma DescriptorIsWellFormed(d: OptionDescriptor, version: int)
    requires d.Valid()
    ensures WellFormed(OPTION_DESCRIPTOR, version, 0, d.AsValue())
  {
    var head := d.AsValue().fst;
    HeadIsWellFormed(d, version);
    hide WellFormed, CaseOf;
    ConstraintIsWellFormed(d.constraint, version, Last(head));
    CaseIsWellFormed(OPTION_HEAD, ByConstraint, CONSTRAINTS, version, head, d.AsValue().snd);
  }

  // ---- Arrival ------------------------------------------------------------------------------

  /** v arrives as it was sent, whatever follows it, if it fits; and freeing it then gives back what it took. */
  ghost predicate Arrives(c: Codec, version: int, v: Value) {
    && WellFormed(c, version, 0, v)
    && forall rest: seq<Byte>, alloc: nat {:trigger Dec(c, version, Enc(c, version, 0, v).bytes + rest, alloc)} |
         alloc + Mem(c, version, v) <= MAX_MEM ::
         Dec(c, version, Enc(c, version, 0, v).bytes + rest, alloc) == Got(v, rest, alloc + Freed(c, version, 0, v))
  }

  lemma ValidArrives(c: Codec, version: int, v: Value)
    requires Sized(c) && WellFormed(c, version, 0, v) && Enc(c, version, 0, v).valid
    ensures Arrives(c, version, v)
  {
    hide Dec, Enc, Mem, Freed, WellFormed, Sized, Fits;
    forall rest: seq<Byte>, alloc: nat | alloc + Mem(c, version, v) <= MAX_MEM
      ensures Dec(c, version, Enc(c, version, 0, v).bytes + rest, alloc)
                == Got(v, rest, alloc + Freed(c, version, 0, v))
    {
      RoundTrip(c, version, 0, v, rest, alloc);
      SmallFits(c, version, 0, v, alloc);
      FreeingUndoesReceiving(c, version, 0, v);
    }
  }

  lemma TotalArrives(c: Codec, version: int, v: Value)
    requires Sized(c) && Total(c) && WellFormed(c, version, 0, v)
    ensures Arrives(c, version, v)
  {
    hide Dec, Enc, Mem, Freed, WellFormed, Sized, Total, Arrives;
    TotalIsValid(c, version, 0, v);
    ValidArrives(c, version, v);
  }

  lemma OptionsAreSized()
    ensures Sized(OPTION_DESCRIPTOR) && Total(OPTION_DESCRIPTOR)
  {
    assert Sized(OPTION_HEAD) && Total(OPTION_HEAD);
    assert Sized(RANGE) && Total(RANGE);
  }

  lemma DevicesAreSized()
    ensures Sized(GET_DEVICES_REPLY) && Total(GET_DEVICES_REPLY)
  {
    assert Sized(DEVICE) && Total(DEVICE);
  }

  lemma PairIsPlain(first: Codec, second: Codec)
    ensures Plain(CPair(first, second)) == (Plain(first) && Plain(second))
  {
  }

  lemma CaseIsPlain(head: Codec, tag: Tag, cases: seq<Codec>)
    requires Plain(head) && forall k | 0 <= k < |cases| :: Plain(cases[k])
    ensures Plain(CCase(head, tag, cases))
  {
  }

  lemma DescriptorIsPlain()
    ensures Plain(OPTION_DESCRIPTOR)
  {
    assert Plain(OPTION_HEAD);
    assert Plain(CPtr(RANGE, 12));
    CaseIsPlain(OPTION_HEAD, ByConstraint, CONSTRAINTS);
  }

  lemma OptionsArePlain()
    ensures Plain(OPTION_DESCRIPTOR_ARRAY)
  {
    DescriptorIsPlain();
    assert Plain(CPtr(OPTION_DESCRIPTOR, 56));
  }

  lemma ValuesArePlain()
    ensures Plain(CONTROL_OPTION_REPLY)
  {
    var head := CPair(CPair(CPair(CWord, CWord), CWord), CWord);
    assert Plain(head);
    CaseIsPlain(head, ByType, OPTION_VALUES);
    hide Plain;
    assert Plain(CString) by { StringIsPlain(); }
    PairIsPlain(CCase(head, ByType, OPTION_VALUES), CString);
  }

  lemma StringIsPlain()
    ensures Plain(CString)
  {
  }

  lemma DevicesArePlain()
    ensures Plain(GET_DEVICES_REPLY)
  {
    assert Plain(DEVICE);
  }

  lemma WordsAndStringsArePlain()
    ensures Plain(INIT_REPLY) && Plain(OPEN_REPLY) && Plain(GET_PARAMETERS_REPLY) && Plain(START_REPLY)
  {
    assert Plain(PARAMETERS);
  }

  /** ReceivedFrees speaks of all replies. */
  lemma RepliesArePlain()
    ensures Plain(GET_DEVICES_REPLY) && Plain(OPTION_DESCRIPTOR_ARRAY) && Plain(CONTROL_OPTION_REPLY)
    ensures Plain(INIT_REPLY) && Plain(OPEN_REPLY) && Plain(GET_PARAMETERS_REPLY) && Plain(START_REPLY)
  {
    hide Plain;
    DevicesArePlain();
    OptionsArePlain();
    ValuesArePlain();
    WordsAndStringsArePlain();
  }

  lemma PairIsWellFormed(first: Codec, second: Codec, version: int, a: Value, b: Value)
    requires WellFormed(first, version, 0, a) && WellFormed(second, version, 0, b)
    ensures WellFormed(CPair(first, second), version, 0, Pair(a, b))
  {
  }

  lemma TerminatedIsWellFormed(nullable: bool, element: Codec, size: nat, version: int, vs: seq<Value>)
    requires AllWellFormed(element, version, vs) && FirstNull(vs) + 1 == |vs| < 0x8000_0000
    ensures WellFormed(CArray(Terminated(nullable), element, size), version, 0, Elems(vs))
  {
    hide AllWellFormed, FirstNull;
  }

  lemma CaseIsValid(head: Codec, tag: Tag, cases: seq<Codec>, version: int, a: Value, b: Value)
    requires WellFormed(head, version, 0, a) && Enc(head, version, 0, a).valid
    requires CaseOf(tag, version, a) < |cases|
    requires var c := cases[CaseOf(tag, version, a)];
             WellFormed(c, version, Last(a), b) && Enc(c, version, Last(a), b).valid
    ensures WellFormed(CCase(head, tag, cases), version, 0, Pair(a, b))
    ensures Enc(CCase(head, tag, cases), version, 0, Pair(a, b)).valid
  {
    hide CaseOf, Last;
  }

  /** A list of devices. */
  lemma DevicesArrive(status: int, devices: seq<Device>, version: int)
    requires IsWord(status) && |devices| < 0x7fff_ffff && forall i | 0 <= i < |devices| :: devices[i].Valid()
    ensures Arrives(GET_DEVICES_REPLY, version, Pair(Num(status), Elems(Devices(devices) + [Null])))
  {
    assert WellFormed(CWord, version, 0, Num(status));
    hide Arrives, AllWellFormed, FirstNull, WellFormed, Sized, Total;
    var vs := Devices(devices) + [Null];
    DevicesAreWellFormed(devices, version);
    TerminatedIsWellFormed(true, CPtr(DEVICE, 32), 8, version, vs);
    PairIsWellFormed(CWord, CArray(Terminated(true), CPtr(DEVICE, 32), 8), version, Num(status), Elems(vs));
    DevicesAreSized();
    TotalArrives(GET_DEVICES_REPLY, version, Pair(Num(status), Elems(vs)));
  }

  /** An option descriptor with any of the constraints. */
  lemma DescriptorArrives(d: OptionDescriptor, version: int)
    requires d.Valid()
    ensures Arrives(OPTION_DESCRIPTOR, version, d.AsValue())
  {
    hide Arrives, WellFormed, Sized, Total;
    DescriptorIsWellFormed(d, version);
    OptionsAreSized();
    TotalArrives(OPTION_DESCRIPTOR, version, d.AsValue());
  }

  /** The value of an option: words, characters or nothing. */
  datatype OptionData = Words(words: seq<int>) | Chars(chars: seq<Byte>) | NoData
  {
    /** The data are what an option of this type and size has. */
    predicate Suits(valueType: int, size: int) {
      && IsWord(size)
      && if SANE_TYPE_BOOL <= valueType <= SANE_TYPE_FIXED then
           Words? && |words| == Quotient(size, 4) && forall i | 0 <= i < |words| :: IsWord(words[i])
         else if valueType == SANE_TYPE_STRING then Chars? && |chars| == size
         else NoData? && SANE_TYPE_STRING < valueType <= SANE_TYPE_GROUP
    }

    function AsValue(): Value {
      match this
      case Words(words) => if words == [] then Null else Elems(Nums(words))
      case Chars(chars) => if chars == [] then Null else Elems(CharNums(chars))
      case NoData => Null
    }
  }

  function CharNums(chars: seq<Byte>): (vs: seq<Value>)
    ensures |vs| == |chars|
  {
    if chars == [] then [] else [Num(chars[0] as int)] + CharNums(chars[1..])
  }

  lemma {:induction false} CharsAreWellFormed(chars: seq<Byte>, version: int)
    ensures AllWellFormed(CByte, version, CharNums(chars)) && EncAll(CByte, version, CharNums(chars)).valid
  {
    if chars != [] {
      CharsAreWellFormed(chars[1..], version);
    }
  }

  lemma DataIsWellFormed(valueType: int, size: int, data: OptionData, version: int, head: Value)
    requires IsWord(valueType) && data.Suits(valueType, size) && Last(head) == size && LastButOne(head) == valueType
    ensures var k := CaseOf(ByType, version, head);
            && k < 3 && WellFormed(OPTION_VALUES[k], version, size, data.AsValue())
            && Enc(OPTION_VALUES[k], version, size, data.AsValue()).valid
  {
    match data
    case Words(words) =>
      NumsAreWellFormed(words, version);
      AllTotalValid(CWord, version, Nums(words));
    case Chars(chars) => CharsAreWellFormed(chars, version);
    case NoData =>
  }

  /** A request to set an option: with an option value if the version or the action calls for one. */
  function OptionRequest(version: int, handle: int, option: int, action: int, valueType: int, size: int,
                         data: OptionData): Value {
    Pair(Pair(Pair(Num(handle), Num(option)), Num(action)),
         if version < 3 || action != SANE_ACTION_SET_AUTO then Pair(Pair(Num(valueType), Num(size)), data.AsValue())
         else Nothing)
  }

  lemma SettingIsValid(version: int, context: int, valueType: int, size: int, data: OptionData)
    requires IsWord(valueType) && data.Suits(valueType, size)
    ensures var v := Pair(Pair(Num(valueType), Num(size)), data.AsValue());
            WellFormed(OPTION_SETTING, version, context, v) && Enc(OPTION_SETTING, version, context, v).valid
  {
    DataIsWellFormed(valueType, size, data, version, Pair(Num(valueType), Num(size)));
  }

  lemma SettingsAreSized()
    ensures Sized(CONTROL_OPTION_REQ)
  {
    assert Sized(OPTION_SETTING) && Sized(CVoid);
  }

  /** A request to set or get an option arrives, between ends that use the same version. */
  lemma OptionRequestArrives(version: int, handle: int, option: int, action: int, valueType: int, size: int,
                             data: OptionData)
    requires IsWord(handle) && IsWord(option) && IsWord(action) && IsWord(valueType) && data.Suits(valueType, size)
    ensures Arrives(CONTROL_OPTION_REQ, version, OptionRequest(version, handle, option, action, valueType, size, data))
  {
    var a := Pair(Pair(Num(handle), Num(option)), Num(action));
    var head := CPair(CPair(CWord, CWord), CWord);
    assert WellFormed(head, version, 0, a) && Enc(head, version, 0, a).valid;
    assert WellFormed(CVoid, version, action, Nothing) && Enc(CVoid, version, action, Nothing).valid;
    SettingIsValid(version, action, valueType, size, data);
    SettingsAreSized();
    hide Arrives, WellFormed, Sized, Enc;
    var v := OptionRequest(version, handle, option, action, valueType, size, data);
    CaseIsValid(head, ByAction, [OPTION_SETTING, CVoid], version, a, v.snd);
    ValidArrives(CONTROL_OPTION_REQ, version, v);
  }

  /** The answer to such a request. */
  lemma OptionReplyArrives(version: int, status: int, info: int, valueType: int, size: int, data: OptionData,
                           resource: Text)
    requires IsWord(status) && IsWord(info) && IsWord(valueType) && data.Suits(valueType, size) && resource.Valid()
    ensures Arrives(CONTROL_OPTION_REPLY, version,
                    Pair(Pair(Pair(Pair(Pair(Num(status), Num(info)), Num(valueType)), Num(size)), data.AsValue()),
                         resource.AsValue()))
  {
    var a := Pair(Pair(Pair(Num(status), Num(info)), Num(valueType)), Num(size));
    var head := CPair(CPair(CPair(CWord, CWord), CWord), CWord);
    assert WellFormed(head, version, 0, a) && Enc(head, version, 0, a).valid;
    assert WellFormed(CString, version, 0, resource.AsValue()) && Enc(CString, version, 0, resource.AsValue()).valid;
    DataIsWellFormed(valueType, size, data, version, a);
    ReplyIsSized();
    hide Arrives, WellFormed, Sized, Enc;
    CaseIsValid(head, ByType, OPTION_VALUES, version, a, data.AsValue());
    PairIsWellFormed(CCase(head, ByType, OPTION_VALUES), CString, version, Pair(a, data.AsValue()), resource.AsValue());
    EncPair(CCase(head, ByType, OPTION_VALUES), CString, version, 0, Pair(Pair(a, data.AsValue()), resource.AsValue()));
    ValidArrives(CONTROL_OPTION_REPLY, version, Pair(Pair(a, data.AsValue()), resource.AsValue()));
  }

  lemma ReplyIsSized()
    ensures Sized(CONTROL_OPTION_REPLY)
  {
    assert Sized(CPair(CPair(CPair(CWord, CWord), CWord), CWord)) && Sized(CString);
  }

  function Descriptors(ds: seq<OptionDescriptor>): (vs: seq<Value>)
    ensures |vs| == |ds|
  {
    if ds == [] then [] else [Ref(ds[0].AsValue())] + Descriptors(ds[1..])
  }

  lemma {:induction false} DescriptorsAreWellFormed(ds: seq<OptionDescriptor>, version: int)
    requires forall i | 0 <= i < |ds| :: ds[i].Valid()
    ensures AllWellFormed(CPtr(OPTION_DESCRIPTOR, 56), version, Descriptors(ds))
  {
    if ds != [] {
      DescriptorIsWellFormed(ds[0], version);
      PointerIsWellFormed(OPTION_DESCRIPTOR, 56, version, ds[0].AsValue());
      DescriptorsAreWellFormed(ds[1..], version);
      hide WellFormed, OptionDescriptor.AsValue;
      assert Descriptors(ds)[1..] == Descriptors(ds[1..]);
    }
  }

  lemma PointerIsWellFormed(target: Codec, size: nat, version: int, v: Value)
    requires WellFormed(target, version, 0, v)
    ensures WellFormed(CPtr(target, size), version, 0, Ref(v))
  {
  }

  lemma StoredIsWellFormed(element: Codec, size: nat, version: int, vs: seq<Value>)
    requires 0 < |vs| < 0x8000_0000 && AllWellFormed(element, version, vs)
    ensures WellFormed(CArray(Stored, element, size), version, 0, Elems(vs))
  {
    hide AllWellFormed;
  }

  /** All the options of a device; none of them travel as NULL. */
  lemma DescriptorsArrive(ds: seq<OptionDescriptor>, version: int)
    requires |ds| < 0x8000_0000 && forall i | 0 <= i < |ds| :: ds[i].Valid()
    ensures Arrives(OPTION_DESCRIPTOR_ARRAY, version, if ds == [] then Null else Elems(Descriptors(ds)))
  {
    DescriptorsAreWellFormed(ds, version);
    OptionsAreSized();
    ArrayIsSized(Stored, CPtr(OPTION_DESCRIPTOR, 56), 8);
    NoneIsWellFormed(CPtr(OPTION_DESCRIPTOR, 56), 8, version);
    hide Arrives, AllWellFormed, WellFormed, OptionDescriptor.AsValue, Descriptors, Sized, Total;
    if ds == [] {
      TotalArrives(OPTION_DESCRIPTOR_ARRAY, version, Null);
    } else {
      StoredIsWellFormed(CPtr(OPTION_DESCRIPTOR, 56), 8, version, Descriptors(ds));
      TotalArrives(OPTION_DESCRIPTOR_ARRAY, version, Elems(Descriptors(ds)));
    }
  }

  lemma NoneIsWellFormed(element: Codec, size: nat, version: int)
    ensures WellFormed(CArray(Stored, element, size), version, 0, Null)
  {
  }

  lemma ArrayIsSized(count: Count, element: Codec, size: nat)
    requires Sized(element) && Total(element) && size > 0
    ensures Sized(CArray(count, element, size)) && Total(CArray(count, element, size))
  {
  }

  /** The messages that hold only words and strings. */
  lemma SimpleMessagesArrive(c: Codec, version: int, v: Value)
    requires c in {INIT_REQ, INIT_REPLY, OPEN_REPLY, GET_PARAMETERS_REPLY, START_REPLY, AUTHORIZATION_REQ}
    requires WellFormed(c, version, 0, v)
    ensures Arrives(c, version, v)
  {
    hide Arrives, WellFormed;
    assert Sized(CWord) && Total(CWord) && Sized(CString) && Total(CString);
    assert Sized(c) && Total(c);
    hide Sized, Total;
    TotalArrives(c, version, v);
  }
}
