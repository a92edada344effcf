/** Messages on the wire: [length, head, body], a head of fixed-width parts, and the registry that
    names message types by id. */
module Codec {
  import opened Wrappers
  import opened Bytes
  import Framing

  datatype Error =
    | InvalidMsgID | IDTaken | NotRegistered | EncodeFailed | DecodeFailed
    | TooShort | ValueListTooShort | OutOfRange | NameNotFound | NamesMismatch | NameRepeated

  datatype Result<+T> = Ok(value: T) | Err(error: Error)

  // ---------------------------------------------------------------- head parts

  datatype Part = Uint8 | Uint16 | Uint32 | Uint64 {
    function Size(): (w: nat)
      ensures w > 0
    {
      match this
      case Uint8 => 1
      case Uint16 => 2
      case Uint32 => 4
      case Uint64 => 8
    }

    /** A one-byte part checks its range; the wider ones truncate, as Go's conversions do. */
    function Marshal(order: Order, value: int): Result<seq<Byte>> {
      if Uint8? && !(0 <= value <= 255) then Err(OutOfRange) else Ok(Write(order, value, Size()))
    }

    /** int(uint64) wraps at 2^63. */
    function Unmarshal(order: Order, data: seq<Byte>): int
      requires |data| == Size()
    {
      var n := Read(order, data);
      if Uint64? && n >= 0x8000_0000_0000_0000 then n - 0x1_0000_0000_0000_0000 else n
    }

    /** The values a part carries without loss. */
    predicate Fits(value: int) {
      match this
      case Uint8 => 0 <= value <= 255
      case Uint16 => 0 <= value <= 65535
      case Uint32 => 0 <= value <= 0xFFFF_FFFF
      case Uint64 => -0x8000_0000_0000_0000 <= value < 0x8000_0000_0000_0000
    }
  }

  lemma Pow256Values()
    ensures Pow256(1) == 256 && Pow256(2) == 65536 && Pow256(4) == 0x1_0000_0000
    ensures Pow256(8) == 0x1_0000_0000_0000_0000
  {
    assert Pow256(2) == 256 * Pow256(1);
    assert Pow256(4) == 65536 * Pow256(2);
    assert Pow256(6) == 65536 * Pow256(4);
    assert Pow256(8) == 65536 * Pow256(6);
  }

  /** A 64-bit two's complement number survives the way through uint64. */
  lemma TwosComplement(value: int)
    requires -0x8000_0000_0000_0000 <= value < 0x8000_0000_0000_0000
    ensures value % 0x1_0000_0000_0000_0000 == if value >= 0 then value else value + 0x1_0000_0000_0000_0000
  {
  }

  /** A remainder modulo the part's width is the value itself exactly when the value fits. */
  lemma KeptIffFits(p: Part, value: int, n: nat)
    requires n == value % Pow256(p.Size())
    ensures p.Fits(value) <==>
      (if p.Uint64? && n >= 0x8000_0000_0000_0000 then n - 0x1_0000_0000_0000_0000 else n) == value
  {
    Pow256Values();
    if p.Fits(value) {
      if p.Uint64? {
        TwosComplement(value);
      }
    }
  }

  lemma PartRoundTrip(p: Part, order: Order, value: int)
    requires p.Marshal(order, value).Ok?
    ensures |p.Marshal(order, value).value| == p.Size()
    ensures p.Fits(value) <==> p.Unmarshal(order, p.Marshal(order, value).value) == value
  {
    var bytes := Write(order, value, p.Size());
    RoundTrip(order, value, p.Size());
    KeptIffFits(p, value, Read(order, bytes));
  }

  // ---------------------------------------------------------------- the head

  function SizeOf(parts: seq<Part>): nat {
    if parts == [] then 0 else parts[0].Size() + SizeOf(parts[1..])
  }

  /** The bytes of a head, part after part; the first value that is out of range fails it. */
  function Encoded(parts: seq<Part>, order: Order, values: seq<int>): Result<seq<Byte>>
    requires |parts| <= |values|
  {
    if parts == [] then Ok([])
    else
      var first := parts[0].Marshal(order, values[0]);
      if first.Err? then first
      else
        var rest := Encoded(parts[1..], order, values[1..]);
        if rest.Err? then rest else Ok(first.value + rest.value)
  }

  lemma {:induction false} SizeOfTake(parts: seq<Part>, i: nat)
    requires i < |parts|
    ensures SizeOf(parts[..i + 1]) == SizeOf(parts[..i]) + parts[i].Size()
    ensures SizeOf(parts[..i + 1]) <= SizeOf(parts)
    decreases i
  {
    if i == 0 {
      assert parts[..1][1..] == [] && parts[..0] == [];
    } else {
      SizeOfTake(parts[1..], i - 1);
      assert parts[..i + 1][1..] == parts[1..][..i] && parts[..i][1..] == parts[1..][..i - 1];
    }
  }

  lemma {:induction false} EncodedSize(parts: seq<Part>, order: Order, values: seq<int>)
    requires |parts| <= |values| && Encoded(parts, order, values).Ok?
    ensures |Encoded(parts, order, values).value| == SizeOf(parts)
    decreases |parts|
  {
    if parts != [] {
      EncodedSize(parts[1..], order, values[1..]);
    }
  }

  /** Part i's encoded value is at its place in the bytes of a head. */
  ghost predicate PartAt(parts: seq<Part>, order: Order, values: seq<int>, i: nat, bytes: seq<Byte>)
    requires i < |parts| <= |values|
  {
    var at, n := SizeOf(parts[..i]), parts[i].Size();
    && at + n <= |bytes|
    && parts[i].Marshal(order, values[i]) == Ok(bytes[at..at + n])
  }

  lemma PartAtTail(parts: seq<Part>, order: Order, values: seq<int>, i: nat, first: seq<Byte>, rest: seq<Byte>)
    requires 0 < i < |parts| <= |values| && |first| == parts[0].Size()
    requires PartAt(parts[1..], order, values[1..], i - 1, rest)
    ensures PartAt(parts, order, values, i, first + rest)
  {
    assert parts[..i][1..] == parts[1..][..i - 1];
    SliceShift(first, rest, SizeOf(parts[1..][..i - 1]), parts[i].Size());
  }

  /** Where part i of an encoded head is, and what is there. */
  lemma {:induction false} EncodedAt(parts: seq<Part>, order: Order, values: seq<int>, i: nat)
    requires |parts| <= |values| && i < |parts| && Encoded(parts, order, values).Ok?
    ensures PartAt(parts, order, values, i, Encoded(parts, order, values).value)
    decreases |parts|
  {
    FirstThenRest(parts, order, values);
    var first := parts[0].Marshal(order, values[0]).value;
    var rest := Encoded(parts[1..], order, values[1..]).value;
    if i == 0 {
      SliceFirst(first, rest);
    } else {
      EncodedAt(parts[1..], order, values[1..], i - 1);
      PartAtTail(parts, order, values, i, first, rest);
    }
  }

  lemma FirstThenRest(parts: seq<Part>, order: Order, values: seq<int>)
    requires |parts| <= |values| && parts != [] && Encoded(parts, order, values).Ok?
    ensures parts[0].Marshal(order, values[0]).Ok? && Encoded(parts[1..], order, values[1..]).Ok?
    ensures |parts[0].Marshal(order, values[0]).value| == parts[0].Size()
    ensures Encoded(parts, order, values).value
         == parts[0].Marshal(order, values[0]).value + Encoded(parts[1..], order, values[1..]).value
  {
  }

  lemma SliceOfTake(s: seq<Byte>, size: nat, at: nat, n: nat)
    requires at + n <= size <= |s|
    ensures s[..size][at..at + n] == s[at..at + n]
  {
  }

  lemma ThreeParts(s: seq<Byte>, a: nat, b: nat)
    requires a <= b <= |s|
    ensures s == s[..a] + s[a..b] + s[b..]
  {
  }

  lemma SliceFirst(first: seq<Byte>, rest: seq<Byte>)
    ensures (first + rest)[0..|first|] == first
  {
  }

  lemma SliceShift(first: seq<Byte>, rest: seq<Byte>, at: nat, n: nat)
    requires at + n <= |rest|
    ensures (first + rest)[|first| + at..|first| + at + n] == rest[at..at + n]
  {
  }

  lemma Layout(field: seq<Byte>, head: seq<Byte>, body: seq<Byte>)
    ensures (field + head + body)[|field|..] == head + body
    ensures (field + head + body)[|field|..][..|head|] == head
    ensures (field + head + body)[|field| + |head|..] == body
  {
  }

  const MSG_ID := "msgID"
  const MAX_HEAD_PARTS := 8

  class PacketHead {
    const parts: seq<Part>
    const size: nat
    const order: Order
    var nameMap: map<string, nat>

    constructor (parts: seq<Part>, order: Order)
      requires |parts| <= MAX_HEAD_PARTS
      ensures Valid() && this.parts == parts && this.order == order
      ensures nameMap == if parts == [] then map[] else map[MSG_ID := 0]
    {
      this.parts, this.order, this.size := parts, order, SizeOf(parts);
      this.nameMap := if |parts| > 0 then map[MSG_ID := 0] else map[];
    }

    ghost predicate Valid()
      reads this
    {
      size == SizeOf(parts) && forall n :: n in nameMap ==> nameMap[n] < |parts|
    }

    /** Names every part; a wrong count or a repeated name leaves the head as it was. */
    method SetNames(names: seq<string>) returns (err: Option<Error>)
      requires Valid()
      modifies this
      ensures Valid()
      ensures err == if |names| != |parts| then Some(NamesMismatch)
                     else if exists i, j :: 0 <= i < j < |names| && names[i] == names[j] then Some(NameRepeated)
                     else None
      ensures err.Some? ==> nameMap == old(nameMap)
      ensures err.None? ==> forall i :: 0 <= i < |names| ==> names[i] in nameMap && nameMap[names[i]] == i
      ensures err.None? ==> forall n :: n in nameMap ==> nameMap[n] < |names| && names[nameMap[n]] == n
    {
      if |names| != |parts| {
        return Some(NamesMismatch);
      }
      var m: map<string, nat> := map[];
      for i := 0 to |names|
        invariant forall k :: 0 <= k < i ==> names[k] in m && m[names[k]] == k
        invariant forall n :: n in m ==> m[n] < i && names[m[n]] == n
        invariant nameMap == old(nameMap)
      {
        if names[i] in m {
          assert names[m[names[i]]] == names[i];
          return Some(NameRepeated);
        }
        m := m[names[i] := i];
      }
      forall i, j | 0 <= i < j < |names| ensures names[i] != names[j] {
        assert m[names[i]] == i && m[names[j]] == j;
      }
      nameMap := m;
      return None;
    }

    /** Writes the head into data[from..]; nothing else of data changes. */
    method Marshal(data: array<Byte>, from: nat, values: seq<int>) returns (err: Option<Error>)
      requires Valid() && from <= data.Length
      modifies data
      ensures data.Length - from < size ==> err == Some(TooShort)
      ensures data.Length - from >= size && |values| < |parts| ==> err == Some(ValueListTooShort)
      ensures data.Length - from >= size && |values| >= |parts| ==>
        && (err.None? <==> Encoded(parts, order, values).Ok?)
        && (err.None? ==> data[from..from + size] == Encoded(parts, order, values).value)
        && (err.Some? ==> err == Some(Encoded(parts, order, values).error))
      ensures forall k :: 0 <= k < data.Length && !(from <= k < from + size) ==> data[k] == old(data[k])
    {
      if data.Length - from < size {
        return Some(TooShort);
      }
      if |values| < |parts| {
        return Some(ValueListTooShort);
      }
      err := MarshalParts(data, from, values);
    }

    method MarshalParts(data: array<Byte>, from: nat, values: seq<int>) returns (err: Option<Error>)
      requires Valid() && from + size <= data.Length && |values| >= |parts|
      modifies data
      ensures err.None? <==> Encoded(parts, order, values).Ok?
      ensures err.None? ==> data[from..from + size] == Encoded(parts, order, values).value
      ensures err.Some? ==> err == Some(Encoded(parts, order, values).error)
      ensures forall k :: 0 <= k < data.Length && !(from <= k < from + size) ==> data[k] == old(data[k])
    {
      var offset := 0;
      assert parts[..0] == [] && data[from..from] == [];
      ContinuesFirst(parts, order, values);
      ghost var done: seq<Byte> := [];
      for i := 0 to |parts|
        invariant offset == SizeOf(parts[..i]) <= size
        invariant Continues(parts, order, values, i, done) && done == data[from..from + offset]
        invariant forall k :: 0 <= k < data.Length && !(from <= k < from + offset) ==> data[k] == old(data[k])
      {
        SizeOfTake(parts, i);
        err, done := MarshalPart(data, from, offset, i, values, done);
        if err.Some? {
          return;
        }
        offset := offset + parts[i].Size();
      }
      assert parts[..|parts|] == parts;
      ContinuesLast(parts, order, values, done);
      return None;
    }

    /** Part i, behind the `done` bytes of the parts before it. */
    method MarshalPart(data: array<Byte>, from: nat, offset: nat, i: nat, values: seq<int>, ghost done: seq<Byte>)
      returns (err: Option<Error>, ghost done': seq<Byte>)
      requires i < |parts| <= |values| && from + offset + parts[i].Size() <= data.Length
      requires Continues(parts, order, values, i, done) && done == data[from..from + offset]
      modifies data
      ensures err.Some? ==> Encoded(parts, order, values) == Err(err.value)
      ensures err.None? ==>
        Continues(parts, order, values, i + 1, done') && done' == data[from..from + offset + parts[i].Size()]
      ensures forall k :: 0 <= k < data.Length && !(from + offset <= k < from + offset + parts[i].Size()) ==>
        data[k] == old(data[k])
    {
      var bytes := parts[i].Marshal(order, values[i]);
      ContinuesNext(parts, order, values, i, done);
      done' := done;
      if bytes.Err? {
        err := Some(bytes.error);
      } else {
        Append(data, from, offset, bytes.value);
        err, done' := None, done + bytes.value;
      }
    }

    /** The values of a head that is long enough. */
    method Unmarshal(headBytes: seq<Byte>) returns (r: Result<seq<int>>)
      requires Valid()
      ensures r.Ok? <==> |headBytes| >= size
      ensures r.Err? ==> r.error == TooShort
      ensures r.Ok? ==> |r.value| == |parts|
      ensures r.Ok? ==> forall i :: 0 <= i < |parts| ==> r.value[i] == ValueAt(headBytes, i)
    {
      if |headBytes| < size {
        return Err(TooShort);
      }
      var list: seq<int> := [];
      var offset := 0;
      for i := 0 to |parts|
        invariant offset == SizeOf(parts[..i]) <= size && |list| == i
        invariant forall k :: 0 <= k < i ==> list[k] == ValueAt(headBytes, k)
      {
        SizeOfTake(parts, i);
        list := list + [parts[i].Unmarshal(order, headBytes[offset..offset + parts[i].Size()])];
        offset := offset + parts[i].Size();
      }
      return Ok(list);
    }

    /** The same into a caller's list, which is replaced when it is too short. */
    method UnmarshalTo(headBytes: seq<Byte>, valueList: array<int>) returns (r: Result<array<int>>)
      requires Valid()
      modifies valueList
      ensures r.Ok? <==> |headBytes| >= size && |parts| > 0
      ensures r.Err? ==> r.error == TooShort && valueList[..] == old(valueList[..])
      ensures r.Ok? ==> (if valueList.Length < |parts| then fresh(r.value) else r.value == valueList)
      ensures r.Ok? ==> r.value.Length >= |parts|
      ensures r.Ok? ==> forall i :: 0 <= i < |parts| ==> r.value[i] == ValueAt(headBytes, i)
    {
      if |headBytes| < size || |parts| == 0 {
        return Err(TooShort);
      }
      var list := valueList;
      if valueList.Length < |parts| {
        list := new int[|parts|];
      }
      var offset := 0;
      for i := 0 to |parts|
        invariant offset == SizeOf(parts[..i]) <= size
        invariant forall k :: 0 <= k < i ==> list[k] == ValueAt(headBytes, k)
      {
        SizeOfTake(parts, i);
        list[i] := parts[i].Unmarshal(order, headBytes[offset..offset + parts[i].Size()]);
        offset := offset + parts[i].Size();
      }
      return Ok(list);
    }

    /** Where part i ends. */
    ghost function EndOf(i: nat): (end: nat)
      requires i < |parts|
      ensures end <= SizeOf(parts)
    {
      SizeOfTake(parts, i);
      SizeOf(parts[..i]) + parts[i].Size()
    }

    /** The value of part i. */
    ghost function ValueAt(headBytes: seq<Byte>, i: nat): int
      requires i < |parts| && |headBytes| >= EndOf(i)
    {
      parts[i].Unmarshal(order, headBytes[SizeOf(parts[..i])..EndOf(i)])
    }

    /** Every value that fits its part is read back from where it was written. */
    lemma HeadRoundTrip(headBytes: seq<Byte>, values: seq<int>, i: nat)
      requires Valid() && |headBytes| >= size && |values| == |parts| && i < |parts|
      requires Encoded(parts, order, values) == Ok(headBytes[..size]) && parts[i].Fits(values[i])
      ensures ValueAt(headBytes, i) == values[i]
    {
      PartBytes(headBytes, values, i);
      PartRoundTrip(parts[i], order, values[i]);
    }

    /** The part's bytes in a head are its encoded value. */
    lemma PartBytes(headBytes: seq<Byte>, values: seq<int>, i: nat)
      requires Valid() && |headBytes| >= size && |values| == |parts| && i < |parts|
      requires Encoded(parts, order, values) == Ok(headBytes[..size])
      ensures var at := SizeOf(parts[..i]);
        && at + parts[i].Size() <= |headBytes|
        && parts[i].Marshal(order, values[i]) == Ok(headBytes[at..at + parts[i].Size()])
    {
      EncodedSize(parts, order, values);
      EncodedAt(parts, order, values, i);
      SliceOfTake(headBytes, size, SizeOf(parts[..i]), parts[i].Size());
    }

    /** The value of the named part. */
    method ReadValueByName(headBytes: seq<Byte>, name: string) returns (r: Result<int>)
      requires Valid()
      requires name in nameMap ==> EndOf(nameMap[name]) <= |headBytes|
      ensures r == if name in nameMap then Ok(ValueAt(headBytes, nameMap[name])) else Err(NameNotFound)
    {
      if name !in nameMap {
        return Err(NameNotFound);
      }
      var idx := nameMap[name];
      var offset := 0;
      for i := 0 to idx
        invariant offset == SizeOf(parts[..i])
      {
        SizeOfTake(parts, i);
        offset := offset + parts[i].Size();
      }
      SizeOfTake(parts, idx);
      return Ok(parts[idx].Unmarshal(order, headBytes[offset..offset + parts[idx].Size()]));
    }
  }

  /** Copies bytes behind the `used` bytes already at `from`. */
  method Append(data: array<Byte>, from: nat, used: nat, bytes: seq<Byte>)
    requires from + used + |bytes| <= data.Length
    modifies data
    ensures data[from..from + used + |bytes|] == old(data[from..from + used]) + bytes
    ensures forall k :: 0 <= k < data.Length && !(from + used <= k < from + used + |bytes|) ==> data[k] == old(data[k])
  {
    forall k | 0 <= k < |bytes| { data[from + used + k] := bytes[k]; }
  }

  /** A buffer that holds the size field and the body, with room for the head between them. */
  method Reserved(field: seq<Byte>, room: nat, body: seq<Byte>) returns (data: array<Byte>)
    ensures fresh(data) && data.Length == |field| + room + |body|
    ensures data[..|field|] == field && data[|field| + room..] == body
  {
    data := new Byte[|field| + room + |body|](_ => 0);
    forall k | 0 <= k < |body| { data[|field| + room + k] := body[k]; }
    forall k | 0 <= k < |field| { data[k] := field[k]; }
  }

  /** Encoding has come to part i and has produced `done`. */
  ghost predicate Continues(parts: seq<Part>, order: Order, values: seq<int>, i: nat, done: seq<Byte>)
    requires |parts| <= |values| && i <= |parts|
  {
    var rest := Encoded(parts[i..], order, values[i..]);
    Encoded(parts, order, values) == if rest.Err? then rest else Ok(done + rest.value)
  }

  lemma ContinuesFirst(parts: seq<Part>, order: Order, values: seq<int>)
    requires |parts| <= |values|
    ensures Continues(parts, order, values, 0, [])
  {
    assert parts[0..] == parts && values[0..] == values;
    var whole := Encoded(parts, order, values);
    assert whole.Ok? ==> [] + whole.value == whole.value;
  }

  lemma ContinuesLast(parts: seq<Part>, order: Order, values: seq<int>, done: seq<Byte>)
    requires |parts| <= |values| && Continues(parts, order, values, |parts|, done)
    ensures Encoded(parts, order, values) == Ok(done)
  {
    assert parts[|parts|..] == [] && done + [] == done;
  }

  lemma ContinuesNext(parts: seq<Part>, order: Order, values: seq<int>, i: nat, done: seq<Byte>)
    requires |parts| <= |values| && i < |parts| && Continues(parts, order, values, i, done)
    ensures parts[i].Marshal(order, values[i]).Err? ==>
      Encoded(parts, order, values) == parts[i].Marshal(order, values[i])
    ensures parts[i].Marshal(order, values[i]).Ok? ==>
      Continues(parts, order, values, i + 1, done + parts[i].Marshal(order, values[i]).value)
  {
    assert parts[i..][1..] == parts[i + 1..] && values[i..][1..] == values[i + 1..];
    var first := parts[i].Marshal(order, values[i]);
    var rest := Encoded(parts[i + 1..], order, values[i + 1..]);
    if first.Ok? && rest.Ok? {
      assert done + (first.value + rest.value) == done + first.value + rest.value;
    }
  }

  // ---------------------------------------------------------------- registry

  /** Message types are opaque; 0 stands for no type. */
  type TypeID = nat

  const MAX_ID := 0xFFFF_FFFF

  /** A registered type's id leads back to the type, whatever was registered in between. */
  ghost predicate Consistent(typeToId: map<TypeID, nat>, idToType: map<nat, TypeID>) {
    && (forall t :: t in typeToId ==> typeToId[t] in idToType && idToType[typeToId[t]] == t)
    && (forall id :: id in idToType ==> idToType[id] in typeToId && 0 < id <= MAX_ID)
  }

  class MsgRouter {
    var typeToId: map<TypeID, nat>
    var idToType: map<nat, TypeID>
    var idToRoute: map<nat, string>

    constructor ()
      ensures Valid() && typeToId == map[] && idToType == map[]
    {
      typeToId, idToType, idToRoute := map[], map[], map[];
    }

    ghost predicate Valid()
      reads this
    {
      Consistent(typeToId, idToType) && idToRoute.Keys == idToType.Keys
    }

    /** An id keeps the type it was first registered for; a type may move to another id, and its
        former ids still name it. */
    method Register(id: nat, t: TypeID, route: string) returns (err: Option<Error>)
      requires Valid() && id <= MAX_ID
      modifies this
      ensures Valid()
      ensures err == if id == 0 then Some(InvalidMsgID)
                     else if id in old(idToType) && old(idToType)[id] != t then Some(IDTaken)
                     else None
      ensures typeToId == if err.None? then old(typeToId)[t := id] else old(typeToId)
      ensures idToType == if err.None? then old(idToType)[id := t] else old(idToType)
      ensures idToRoute == if err.None? then old(idToRoute)[id := route] else old(idToRoute)
    {
      if id == 0 {
        return Some(InvalidMsgID);
      }
      if id in idToType && idToType[id] != t {
        return Some(IDTaken);
      }
      typeToId := typeToId[t := id];
      idToType := idToType[id := t];
      idToRoute := idToRoute[id := route];
      return None;
    }

    /** 0 for a type that is not registered. */
    function GetMsgID(t: TypeID): (id: nat)
      requires Valid()
      reads this
      ensures id != 0 <==> t in typeToId
      ensures id != 0 ==> GetMsgType(id) == Some(t)
    {
      if t in typeToId then typeToId[t] else 0
    }

    function GetMsgType(id: nat): Option<TypeID>
      reads this
    {
      if id in idToType then Some(idToType[id]) else None
    }
  }

  // ---------------------------------------------------------------- encode and decode

  /** The body codec: any encoding that its decoder undoes for values of the right type. */
  datatype BodyCodec<!V> = BodyCodec(
    typeOf: V -> TypeID, encode: V -> Option<seq<Byte>>, decode: (TypeID, seq<Byte>) -> Option<V>)
  {
    ghost predicate Undoes(v: V) {
      encode(v).Some? ==> decode(typeOf(v), encode(v).value) == Some(v)
    }
  }

  class Packer<!V> {
    const format: Framing.Format
    const head: PacketHead
    const router: MsgRouter
    const body: BodyCodec<V>

    constructor (format: Framing.Format, head: PacketHead, router: MsgRouter, body: BodyCodec<V>)
      requires format.Valid()
      ensures this.format == format && this.head == head && this.router == router && this.body == body
    {
      this.format, this.head, this.router, this.body := format, head, router, body;
    }

    ghost predicate Valid()
      reads head, router
    {
      format.Valid() && head.Valid() && router.Valid()
    }

    /** The packet of a message: the size field, the head that holds the id, the body. */
    ghost function Packet(v: V, id: nat): seq<Byte>
      requires |head.parts| <= 1 && Encoded(head.parts, head.order, [id]).Ok? && body.encode(v).Some?
    {
      var h := Encoded(head.parts, head.order, [id]).value;
      Write(format.order, |h| + |body.encode(v).value|, format.lfb) + h + body.encode(v).value
    }

    /** EncodeStream: reserves room in front of the body, then fills in the size and the head. */
    method EncodeStream(v: V) returns (bb: Result<array<Byte>>)
      requires Valid()
      ensures var id := router.GetMsgID(body.typeOf(v));
        && (bb.Ok? <==>
              id != 0 && body.encode(v).Some? && |head.parts| <= 1 && Encoded(head.parts, head.order, [id]).Ok?)
        && (bb.Ok? ==> fresh(bb.value) && bb.value[..] == Packet(v, id))
        && (bb.Err? ==> bb.error == if id == 0 then NotRegistered
                                    else if body.encode(v).None? then EncodeFailed
                                    else if |head.parts| > 1 then ValueListTooShort
                                    else OutOfRange)
    {
      var id := router.GetMsgID(body.typeOf(v));
      if id == 0 {
        return Err(NotRegistered);
      }
      var b := body.encode(v);
      if b.None? {
        return Err(EncodeFailed);
      }
      var lfb, size := format.lfb, head.size;
      var data := Reserved(Write(format.order, size + |b.value|, lfb), size, b.value);
      var err := FillHead(data, lfb, id);
      if err.Some? {
        return Err(err.value);
      }
      EncodedSize(head.parts, head.order, [id]);
      return Ok(data);
    }

    /** Writes the id's head between the size field and the body. */
    method FillHead(data: array<Byte>, from: nat, id: nat) returns (err: Option<Error>)
      requires head.Valid() && from + head.size <= data.Length
      modifies data
      ensures |head.parts| > 1 ==> err == Some(ValueListTooShort)
      ensures |head.parts| <= 1 ==>
        err == if Encoded(head.parts, head.order, [id]).Ok? then None else Some(OutOfRange)
      ensures err.None? ==>
        data[..] == old(data[..from]) + Encoded(head.parts, head.order, [id]).value + old(data[from + head.size..])
    {
      err := head.Marshal(data, from, [id]);
      if |head.parts| <= 1 {
        OneErrorOnly(head.parts, head.order, id);
      }
      ThreeParts(data[..], from, from + head.size);
      assert data[..from] == old(data[..from]);
      assert data[from + head.size..] == old(data[from + head.size..]);
    }

    /** DecodePacket, with its checks in the order they are made. */
    method DecodePacket(packet: seq<Byte>) returns (r: Result<V>)
      requires Valid()
      ensures r == Decoded(packet)
      ensures r == Err(TooShort) <==> |packet| < format.lfb + head.size
      ensures r == Err(NameNotFound) <==> |packet| >= format.lfb + head.size && MSG_ID !in head.nameMap
      ensures r == Err(NotRegistered) <==> HasId(packet) && IdIn(packet) !in router.idToType
      ensures r == Err(DecodeFailed) <==>
        && HasId(packet) && IdIn(packet) in router.idToType
        && body.decode(router.idToType[IdIn(packet)], packet[format.lfb + head.size..]) == None
      ensures forall v :: r == Ok(v) <==>
        && HasId(packet) && IdIn(packet) in router.idToType
        && body.decode(router.idToType[IdIn(packet)], packet[format.lfb + head.size..]) == Some(v)
    {
      if |packet| < format.lfb {
        return Err(TooShort);
      }
      var message := packet[format.lfb..];
      if |message| < head.size {
        return Err(TooShort);
      }
      var bodyBytes := message[head.size..];
      var id := head.ReadValueByName(message, MSG_ID);
      if id.Err? {
        return Err(id.error);
      }
      var t := router.GetMsgType(id.value % 0x1_0000_0000);
      if t.None? {
        return Err(NotRegistered);
      }
      var v := body.decode(t.value, bodyBytes);
      if v.None? {
        return Err(DecodeFailed);
      }
      return Ok(v.value);
    }

    /** The packet is long enough and its head has a message id. */
    ghost predicate HasId(packet: seq<Byte>)
      requires Valid()
      reads head, router
    {
      |packet| >= format.lfb + head.size && MSG_ID in head.nameMap
    }

    /** The message id in a packet's head. */
    ghost function IdIn(packet: seq<Byte>): nat
      requires Valid() && HasId(packet)
      reads head, router
    {
      head.ValueAt(packet[format.lfb..], head.nameMap[MSG_ID]) % 0x1_0000_0000
    }

    ghost function Decoded(packet: seq<Byte>): Result<V>
      requires Valid()
      reads head, router
    {
      if |packet| < format.lfb + head.size then Err(TooShort)
      else if MSG_ID !in head.nameMap then Err(NameNotFound)
      else
        var id := head.ValueAt(packet[format.lfb..], head.nameMap[MSG_ID]);
        var t := router.GetMsgType(id % 0x1_0000_0000);
        if t.None? then Err(NotRegistered)
        else
          var v := body.decode(t.value, packet[format.lfb + head.size..]);
          if v.None? then Err(DecodeFailed) else Ok(v.value)
    }

    /** With a head of one part named msgID, a packet of a size field, any id that fits and any body
        bytes decodes as the id's type says, and fails exactly on an id nobody registered and on a
        body its decoder rejects. */
    lemma DecodedById(field: seq<Byte>, id: nat, b: seq<Byte>)
      requires Valid() && |field| == format.lfb && id <= MAX_ID
      requires |head.parts| == 1 && head.nameMap == map[MSG_ID := 0] && head.parts[0].Fits(id)
      ensures Encoded(head.parts, head.order, [id]).Ok?
      ensures var r := Decoded(field + Encoded(head.parts, head.order, [id]).value + b);
        if id !in router.idToType then r == Err(NotRegistered)
        else
          var v := body.decode(router.idToType[id], b);
          r == if v.None? then Err(DecodeFailed) else Ok(v.value)
    {
      HeadOf(head.parts, head.order, id);
      var h := Encoded(head.parts, head.order, [id]).value;
      EncodedSize(head.parts, head.order, [id]);
      Layout(field, h, b);
      head.HeadRoundTrip((field + h + b)[format.lfb..], [id], 0);
      FitsWord(id);
    }

    /** Whatever was registered before: with a head of one part named msgID that is wide enough for
        the id, decoding undoes encoding. */
    lemma DecodeUndoesEncode(v: V)
      requires Valid() && body.Undoes(v) && body.encode(v).Some?
      requires |head.parts| == 1 && head.nameMap == map[MSG_ID := 0]
      requires router.GetMsgID(body.typeOf(v)) != 0
      requires head.parts[0].Fits(router.GetMsgID(body.typeOf(v)))
      ensures Encoded(head.parts, head.order, [router.GetMsgID(body.typeOf(v))]).Ok?
      ensures Decoded(Packet(v, router.GetMsgID(body.typeOf(v)))) == Ok(v)
    {
      var id := router.GetMsgID(body.typeOf(v));
      HeadOf(head.parts, head.order, id);
      var h := Encoded(head.parts, head.order, [id]).value;
      var b := body.encode(v).value;
      DecodedById(Write(format.order, |h| + |b|, format.lfb), id, b);
    }

    /** The frame check accepts the packet exactly when it fits the maximum. */
    lemma CheckAccepts(v: V, id: nat)
      requires format.Valid() && |head.parts| <= 1 && body.encode(v).Some?
      requires Encoded(head.parts, head.order, [id]).Ok?
      ensures Framing.CheckPacket(format, Packet(v, id)).Ok? <==> |Packet(v, id)| <= format.maxSize
    {
      var h := Encoded(head.parts, head.order, [id]).value;
      var message := h + body.encode(v).value;
      var packet := Packet(v, id);
      assert packet == Write(format.order, |message|, format.lfb) + message;
      if |packet| <= format.maxSize {
        Framing.HeaderOf(format, message, message);
      }
    }
  }

  lemma FitsWord(id: nat)
    requires id <= MAX_ID
    ensures id % 0x1_0000_0000 == id
  {
  }

  lemma OneErrorOnly(parts: seq<Part>, order: Order, id: nat)
    requires |parts| <= 1
    ensures Encoded(parts, order, [id]).Err? ==> Encoded(parts, order, [id]).error == OutOfRange
  {
    if |parts| == 1 {
      assert parts[1..] == [] && [id][1..] == [];
    }
  }

  lemma HeadOf(parts: seq<Part>, order: Order, id: nat)
    requires |parts| == 1 && parts[0].Fits(id)
    ensures Encoded(parts, order, [id]).Ok?
  {
    Pow256Values();
    assert parts[1..] == [] && [id][1..] == [];
  }

  /** A part too narrow for the id makes encoding fail, for one byte, or another id be read. */
  lemma NarrowHead(p: Part, order: Order, id: nat)
    requires 0 < id <= MAX_ID && !p.Fits(id)
    ensures p.Uint8? ==> p.Marshal(order, id).Err?
    ensures p.Uint16? ==> p.Unmarshal(order, p.Marshal(order, id).value) == id % 65536 != id
    ensures p.Uint8? || p.Uint16?
  {
    Pow256Values();
    if p.Uint16? {
      RoundTrip(order, id, 2);
    }
  }
}
