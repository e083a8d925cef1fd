/** The byte keys behind nominal ids (artifact-identity/src/semantic.rs), with a decoder.
    Strings are their UTF-8 bytes. */
module NominalKey {
  import opened ByteStrings
  import opened Wrappers

  datatype DeclarationKind = TypeKind | AliasKind | InterfaceKind | CallableKind | ConstKind | InstanceKind

  datatype Anchor = Anchor(publication: Bytes, epoch: nat, path: seq<Bytes>, symbol: Bytes, kind: DeclarationKind)

  /** An id: what it names, where that was declared, and the ids of its type arguments. */
  datatype Nominal = Nominal(kind: DeclarationKind, anchor: Anchor, arguments: seq<Nominal>)

  const U32: nat := 0x1_0000_0000

  // ----- Writing -----

  /** The lowest `width` bytes of a number, lowest first. */
  function LittleEndian(n: nat, width: nat): (bytes: Bytes)
    ensures |bytes| == width
  {
    if width == 0 then [] else [n % 256] + LittleEndian(n / 256, width - 1)
  }

  /** A length is cut to 32 bits. */
  function Frame(value: Bytes): Bytes {
    LittleEndian(|value|, 4) + (value + [0])
  }

  function Frames(values: seq<Bytes>): Bytes {
    if values == [] then [] else Frame(values[0]) + Frames(values[1..])
  }

  function KindTag(kind: DeclarationKind): Byte {
    match kind
    case TypeKind => 0
    case AliasKind => 1
    case InterfaceKind => 2
    case CallableKind => 3
    case ConstKind => 4
    case InstanceKind => 5
  }

  /** The ASCII bytes of "type", "alias", "interface", "callable", "const" and "instance". */
  function KindName(kind: DeclarationKind): Bytes {
    match kind
    case TypeKind => [116, 121, 112, 101]
    case AliasKind => [97, 108, 105, 97, 115]
    case InterfaceKind => [105, 110, 116, 101, 114, 102, 97, 99, 101]
    case CallableKind => [99, 97, 108, 108, 97, 98, 108, 101]
    case ConstKind => [99, 111, 110, 115, 116]
    case InstanceKind => [105, 110, 115, 116, 97, 110, 99, 101]
  }

  /** The key of an anchor, followed by `rest`. */
  function KeyThen(name: Bytes, anchor: Anchor, arguments: seq<Bytes>, rest: Bytes): Bytes {
    Frame(name) + (Frame(anchor.publication) + (LittleEndian(anchor.epoch, 4) + ([0] + PathThen(anchor, arguments, rest))))
  }

  function PathThen(anchor: Anchor, arguments: seq<Bytes>, rest: Bytes): Bytes {
    LittleEndian(|anchor.path|, 4) + (Frames(anchor.path) + (Frame(anchor.symbol) + SymbolThen(anchor, arguments, rest)))
  }

  function SymbolThen(anchor: Anchor, arguments: seq<Bytes>, rest: Bytes): Bytes {
    [KindTag(anchor.kind), 0] + (LittleEndian(|arguments|, 4) + (Frames(arguments) + rest))
  }

  function AnchorKey(name: Bytes, anchor: Anchor, arguments: seq<Bytes>): Bytes {
    KeyThen(name, anchor, arguments, [])
  }

  method WriteFramed(output: Bytes, value: Bytes) returns (output': Bytes)
    ensures output' == output + Frame(value)
  {
    output' := output + LittleEndian(|value|, 4);
    output' := output' + value;
    output' := output' + [0];
  }

  method WriteAllFramed(output: Bytes, values: seq<Bytes>) returns (output': Bytes)
    ensures output' == output + Frames(values)
  {
    hide Frame;
    output' := output;
    for i := 0 to |values|
      invariant output' == output + Frames(values[..i])
    {
      FramesAppend(values[..i], values[i]);
      assert values[..i + 1] == values[..i] + [values[i]];
      output' := WriteFramed(output', values[i]);
    }
    assert values[..|values|] == values;
  }

  lemma {:induction false} FramesAppend(values: seq<Bytes>, value: Bytes)
    ensures Frames(values + [value]) == Frames(values) + Frame(value)
  {
    hide Frame;
    if values == [] {
      assert values + [value] == [value];
      assert [value][1..] == [];
    } else {
      FramesAppend(values[1..], value);
      assert (values + [value])[1..] == values[1..] + [value];
    }
  }

  method SourceAnchorKey(name: Bytes, anchor: Anchor, arguments: seq<Bytes>) returns (bytes: Bytes)
    ensures bytes == AnchorKey(name, anchor, arguments)
  {
    hide Frame, Frames, LittleEndian;
    bytes := [];
    bytes := WriteFramed(bytes, name);
    bytes := WriteFramed(bytes, anchor.publication);
    bytes := bytes + LittleEndian(anchor.epoch, 4);
    bytes := bytes + [0];
    ghost var head := bytes;
    var tail := bytes + LittleEndian(|anchor.path|, 4);
    tail := WriteAllFramed(tail, anchor.path);
    tail := WriteFramed(tail, anchor.symbol);
    ghost var middle := tail;
    tail := tail + [KindTag(anchor.kind)];
    tail := tail + [0];
    tail := tail + LittleEndian(|arguments|, 4);
    tail := WriteAllFramed(tail, arguments);
    assert tail == middle + SymbolThen(anchor, arguments, []);
    assert tail == head + PathThen(anchor, arguments, []);
    bytes := tail;
  }

  /** The key of an id embeds the keys of its type arguments. */
  function Key(id: Nominal): Bytes {
    AnchorKey(KindName(id.kind), id.anchor, Keys(id, id.arguments))
  }

  function Keys(parent: Nominal, ids: seq<Nominal>): (keys: seq<Bytes>)
    requires forall i :: 0 <= i < |ids| ==> ids[i] < parent
    ensures |keys| == |ids| && forall i :: 0 <= i < |ids| ==> keys[i] == Key(ids[i])
    decreases parent, 0
  {
    seq(|ids|, i requires 0 <= i < |ids| => Key(ids[i]))
  }

  ghost predicate AnchorFits(anchor: Anchor) {
    && |anchor.publication| < U32 && anchor.epoch < U32 && |anchor.path| < U32 && |anchor.symbol| < U32
    && forall i :: 0 <= i < |anchor.path| ==> |anchor.path[i]| < U32
  }

  /** Every length fits in 32 bits. */
  ghost predicate Fits(id: Nominal) {
    && AnchorFits(id.anchor)
    && |id.arguments| < U32
    && forall i :: 0 <= i < |id.arguments| ==> |Key(id.arguments[i])| < U32 && Fits(id.arguments[i])
  }

  // ----- Reading -----

  datatype Parsed<T> = Parsed(value: T, rest: Bytes)

  function Number(bytes: Bytes): nat {
    if bytes == [] then 0 else bytes[0] + 256 * Number(bytes[1..])
  }

  function ReadNumber(bytes: Bytes): Option<Parsed<nat>> {
    if |bytes| < 4 then None else Some(Parsed(Number(bytes[..4]), bytes[4..]))
  }

  function ReadFrame(bytes: Bytes): (r: Option<Parsed<Bytes>>)
    ensures r.Some? ==> |r.value.value| + |r.value.rest| < |bytes|
  {
    match ReadNumber(bytes)
    case None => None
    case Some(Parsed(n, rest)) =>
      if |rest| <= n || rest[n] != 0 then None else Some(Parsed(rest[..n], rest[n + 1..]))
  }

  function ReadFrames(count: nat, bytes: Bytes): (r: Option<Parsed<seq<Bytes>>>)
    ensures r.Some? ==> |r.value.value| == count && |r.value.rest| <= |bytes|
    ensures r.Some? ==> forall i :: 0 <= i < count ==> |r.value.value[i]| < |bytes|
  {
    if count == 0 then Some(Parsed([], bytes))
    else
      match ReadFrame(bytes)
      case None => None
      case Some(Parsed(first, rest)) =>
        match ReadFrames(count - 1, rest)
        case None => None
        case Some(Parsed(others, rest')) => Some(Parsed([first] + others, rest'))
  }

  /** A number of frames, then the frames. */
  function ReadList(bytes: Bytes): (r: Option<Parsed<seq<Bytes>>>)
    ensures r.Some? ==> |r.value.rest| <= |bytes|
    ensures r.Some? ==> forall i :: 0 <= i < |r.value.value| ==> |r.value.value[i]| < |bytes|
  {
    match ReadNumber(bytes)
    case None => None
    case Some(Parsed(count, rest)) => ReadFrames(count, rest)
  }

  function TagKind(tag: Byte): Option<DeclarationKind> {
    if tag == 0 then Some(TypeKind)
    else if tag == 1 then Some(AliasKind)
    else if tag == 2 then Some(InterfaceKind)
    else if tag == 3 then Some(CallableKind)
    else if tag == 4 then Some(ConstKind)
    else if tag == 5 then Some(InstanceKind)
    else None
  }

  function NameKind(name: Bytes): Option<DeclarationKind> {
    if name == KindName(TypeKind) then Some(TypeKind)
    else if name == KindName(AliasKind) then Some(AliasKind)
    else if name == KindName(InterfaceKind) then Some(InterfaceKind)
    else if name == KindName(CallableKind) then Some(CallableKind)
    else if name == KindName(ConstKind) then Some(ConstKind)
    else if name == KindName(InstanceKind) then Some(InstanceKind)
    else None
  }

  datatype Raw = Raw(name: Bytes, anchor: Anchor, arguments: seq<Bytes>)

  function ReadKey(bytes: Bytes): (r: Option<Parsed<Raw>>)
    ensures r.Some? ==> forall i :: 0 <= i < |r.value.value.arguments| ==> |r.value.value.arguments[i]| < |bytes|
  {
    match ReadFrame(bytes)
    case None => None
    case Some(Parsed(name, rest1)) =>
      match ReadFrame(rest1)
      case None => None
      case Some(Parsed(publication, rest2)) =>
        match ReadNumber(rest2)
        case None => None
        case Some(Parsed(epoch, rest3)) =>
          if rest3 == [] || rest3[0] != 0 then None else ReadPath(name, publication, epoch, rest3[1..])
  }

  function ReadPath(name: Bytes, publication: Bytes, epoch: nat, bytes: Bytes): (r: Option<Parsed<Raw>>)
    ensures r.Some? ==> forall i :: 0 <= i < |r.value.value.arguments| ==> |r.value.value.arguments[i]| < |bytes|
  {
    match ReadList(bytes)
    case None => None
    case Some(Parsed(path, rest1)) =>
      match ReadFrame(rest1)
      case None => None
      case Some(Parsed(symbol, rest2)) =>
        if |rest2| < 2 || TagKind(rest2[0]).None? || rest2[1] != 0 then None
        else
          match ReadList(rest2[2..])
          case None => None
          case Some(Parsed(arguments, rest3)) =>
            Some(Parsed(Raw(name, Anchor(publication, epoch, path, symbol, TagKind(rest2[0]).value), arguments), rest3))
  }

  function Decode(bytes: Bytes): Option<Parsed<Nominal>>
    decreases |bytes|, 0
  {
    match ReadKey(bytes)
    case None => None
    case Some(Parsed(raw, rest)) =>
      match NameKind(raw.name)
      case None => None
      case Some(kind) =>
        match DecodeAll(raw.arguments, |bytes|)
        case None => None
        case Some(arguments) => Some(Parsed(Nominal(kind, raw.anchor, arguments), rest))
  }

  function DecodeAll(keys: seq<Bytes>, bound: nat): (r: Option<seq<Nominal>>)
    requires forall i :: 0 <= i < |keys| ==> |keys[i]| < bound
    decreases bound, 0, |keys|
  {
    if keys == [] then Some([])
    else
      match Decode(keys[0])
      case None => None
      case Some(Parsed(first, rest)) =>
        if rest != [] then None
        else
          match DecodeAll(keys[1..], bound)
          case None => None
          case Some(others) => Some([first] + others)
  }

  // ----- Reading back what was written -----

  function Power(width: nat): nat { if width == 0 then 1 else 256 * Power(width - 1) }

  lemma {:induction false} NumberBack(n: nat, width: nat)
    requires n < Power(width)
    ensures Number(LittleEndian(n, width)) == n
  {
    if width > 0 {
      NumberBack(n / 256, width - 1);
      assert LittleEndian(n, width)[1..] == LittleEndian(n / 256, width - 1);
    }
  }

  lemma Power4()
    ensures Power(4) == U32
  {
    assert Power(1) == 256;
    assert Power(2) == 0x1_0000;
    assert Power(3) == 0x100_0000;
  }

  lemma ReadNumberBack(n: nat, rest: Bytes)
    requires n < U32
    ensures ReadNumber(LittleEndian(n, 4) + rest) == Some(Parsed(n, rest))
  {
    hide LittleEndian, Number;
    var bytes := LittleEndian(n, 4);
    assert (bytes + rest)[..4] == bytes;
    assert (bytes + rest)[4..] == rest;
    Power4();
    NumberBack(n, 4);
  }

  lemma ReadFrameBack(value: Bytes, rest: Bytes)
    requires |value| < U32
    ensures ReadFrame(Frame(value) + rest) == Some(Parsed(value, rest))
  {
    hide LittleEndian;
    var tail := (value + [0]) + rest;
    assert Frame(value) + rest == LittleEndian(|value|, 4) + tail;
    ReadNumberBack(|value|, tail);
    assert tail[..|value|] == value && tail[|value|] == 0 && tail[|value| + 1..] == rest;
  }

  lemma {:induction false} ReadFramesBack(values: seq<Bytes>, rest: Bytes)
    requires forall i :: 0 <= i < |values| ==> |values[i]| < U32
    ensures ReadFrames(|values|, Frames(values) + rest) == Some(Parsed(values, rest))
  {
    hide Frame;
    if values == [] {
      assert [] + rest == rest;
    } else {
      var tail := Frames(values[1..]) + rest;
      assert Frames(values) + rest == Frame(values[0]) + tail;
      ReadFrameBack(values[0], tail);
      ReadFramesBack(values[1..], rest);
      assert [values[0]] + values[1..] == values;
    }
  }

  lemma ReadListBack(values: seq<Bytes>, rest: Bytes)
    requires |values| < U32 && forall i :: 0 <= i < |values| ==> |values[i]| < U32
    ensures ReadList(LittleEndian(|values|, 4) + (Frames(values) + rest)) == Some(Parsed(values, rest))
  {
    hide LittleEndian, Frames, ReadFrames;
    ReadNumberBack(|values|, Frames(values) + rest);
    ReadFramesBack(values, rest);
  }

  lemma ReadPathBack(name: Bytes, anchor: Anchor, arguments: seq<Bytes>, rest: Bytes)
    requires AnchorFits(anchor) && |arguments| < U32 && forall i :: 0 <= i < |arguments| ==> |arguments[i]| < U32
    ensures ReadPath(name, anchor.publication, anchor.epoch, PathThen(anchor, arguments, rest)) ==
      Some(Parsed(Raw(name, anchor, arguments), rest))
  {
    hide LittleEndian, Frames, Frame, ReadList, ReadFrame;
    var symbol := SymbolThen(anchor, arguments, rest);
    ReadListBack(anchor.path, Frame(anchor.symbol) + symbol);
    ReadFrameBack(anchor.symbol, symbol);
    assert symbol[2..] == LittleEndian(|arguments|, 4) + (Frames(arguments) + rest);
    ReadListBack(arguments, rest);
  }

  /** Reading a key gives back all its parts and whatever followed it. */
  lemma ReadKeyBack(name: Bytes, anchor: Anchor, arguments: seq<Bytes>, rest: Bytes)
    requires |name| < U32 && AnchorFits(anchor)
    requires |arguments| < U32 && forall i :: 0 <= i < |arguments| ==> |arguments[i]| < U32
    ensures ReadKey(KeyThen(name, anchor, arguments, rest)) == Some(Parsed(Raw(name, anchor, arguments), rest))
  {
    hide LittleEndian, Frame, ReadFrame, ReadNumber, ReadPath, PathThen;
    var path := PathThen(anchor, arguments, rest);
    var epoch := LittleEndian(anchor.epoch, 4) + ([0] + path);
    ReadFrameBack(name, Frame(anchor.publication) + epoch);
    ReadFrameBack(anchor.publication, epoch);
    ReadNumberBack(anchor.epoch, [0] + path);
    assert ([0] + path)[1..] == path;
    ReadPathBack(name, anchor, arguments, rest);
  }

  lemma KeyThenAppends(name: Bytes, anchor: Anchor, arguments: seq<Bytes>, rest: Bytes)
    ensures AnchorKey(name, anchor, arguments) + rest == KeyThen(name, anchor, arguments, rest)
  {
    hide LittleEndian, Frame, Frames;
    assert SymbolThen(anchor, arguments, []) + rest == SymbolThen(anchor, arguments, rest);
    assert PathThen(anchor, arguments, []) + rest == PathThen(anchor, arguments, rest);
  }

  lemma NameBack(kind: DeclarationKind)
    ensures NameKind(KindName(kind)) == Some(kind) && |KindName(kind)| < 10
  {
  }

  /** The decoder inverts the encoder on whole trees of ids, whatever follows. */
  lemma {:induction false} DecodeBack(id: Nominal, rest: Bytes)
    requires Fits(id)
    ensures Decode(Key(id) + rest) == Some(Parsed(id, rest))
    decreases id, 1
  {
    hide KindName, NameKind, ReadKey, KeyThen, AnchorKey;
    var keys := Keys(id, id.arguments);
    NameBack(id.kind);
    KeyThenAppends(KindName(id.kind), id.anchor, keys, rest);
    ReadKeyBack(KindName(id.kind), id.anchor, keys, rest);
    DecodeAllBack(id, id.arguments, |Key(id) + rest|);
  }

  lemma {:induction false} DecodeAllBack(parent: Nominal, ids: seq<Nominal>, bound: nat)
    requires forall i :: 0 <= i < |ids| ==> ids[i] < parent && Fits(ids[i]) && |Key(ids[i])| < bound
    ensures DecodeAll(Keys(parent, ids), bound) == Some(ids)
    decreases parent, 0, |ids|
  {
    hide Fits, Decode, Key;
    var keys := Keys(parent, ids);
    if ids != [] {
      DecodeBack(ids[0], []);
      assert Key(ids[0]) + [] == keys[0];
      assert keys[1..] == Keys(parent, ids[1..]);
      DecodeAllBack(parent, ids[1..], bound);
      assert [ids[0]] + ids[1..] == ids;
    }
  }

  /** No key is a proper prefix of another, and equal keys come from equal ids. */
  lemma KeyPrefixFree(a: Nominal, b: Nominal)
    requires Fits(a) && Fits(b)
    ensures Key(a) <= Key(b) <==> a == b
  {
    hide Key, Fits, Decode;
    if Key(a) <= Key(b) {
      var rest := Key(b)[|Key(a)|..];
      assert Key(a) + rest == Key(b) + [];
      DecodeBack(a, rest);
      DecodeBack(b, []);
    }
  }

  // ----- Writing back what was read -----

  lemma {:induction false} NumberForth(bytes: Bytes)
    ensures LittleEndian(Number(bytes), |bytes|) == bytes && Number(bytes) < Power(|bytes|)
  {
    if bytes != [] {
      NumberForth(bytes[1..]);
      assert bytes == [bytes[0]] + bytes[1..];
    }
  }

  lemma ReadNumberForth(bytes: Bytes, n: nat, rest: Bytes)
    requires ReadNumber(bytes) == Some(Parsed(n, rest))
    ensures n < U32 && bytes == LittleEndian(n, 4) + rest
  {
    hide LittleEndian, Number;
    NumberForth(bytes[..4]);
    Power4();
    assert bytes == bytes[..4] + bytes[4..];
  }

  lemma ReadFrameForth(bytes: Bytes, value: Bytes, rest: Bytes)
    requires ReadFrame(bytes) == Some(Parsed(value, rest))
    ensures |value| < U32 && bytes == Frame(value) + rest
  {
    hide LittleEndian, ReadNumber;
    var Parsed(n, tail) := ReadNumber(bytes).value;
    ReadNumberForth(bytes, n, tail);
    assert tail == value + ([0] + rest);
  }

  lemma {:induction false} ReadFramesForth(count: nat, bytes: Bytes, values: seq<Bytes>, rest: Bytes)
    requires ReadFrames(count, bytes) == Some(Parsed(values, rest))
    ensures |values| == count && bytes == Frames(values) + rest
    ensures forall i :: 0 <= i < |values| ==> |values[i]| < U32
  {
    hide Frame, ReadFrame;
    if count > 0 {
      var Parsed(first, tail) := ReadFrame(bytes).value;
      var Parsed(others, _) := ReadFrames(count - 1, tail).value;
      ReadFrameForth(bytes, first, tail);
      ReadFramesForth(count - 1, tail, others, rest);
      assert values[1..] == others;
      assert bytes == Frame(first) + (Frames(others) + rest);
    }
  }

  lemma ReadListForth(bytes: Bytes, values: seq<Bytes>, rest: Bytes)
    requires ReadList(bytes) == Some(Parsed(values, rest))
    ensures |values| < U32 && forall i :: 0 <= i < |values| ==> |values[i]| < U32
    ensures bytes == LittleEndian(|values|, 4) + (Frames(values) + rest)
  {
    hide LittleEndian, Frames, ReadNumber, ReadFrames;
    var Parsed(count, tail) := ReadNumber(bytes).value;
    ReadNumberForth(bytes, count, tail);
    ReadFramesForth(count, tail, values, rest);
  }

  lemma ReadPathForth(name: Bytes, publication: Bytes, epoch: nat, bytes: Bytes, raw: Raw, rest: Bytes)
    requires ReadPath(name, publication, epoch, bytes) == Some(Parsed(raw, rest))
    requires |publication| < U32 && epoch < U32
    ensures raw.name == name && raw.anchor.publication == publication && raw.anchor.epoch == epoch
    ensures AnchorFits(raw.anchor) && |raw.arguments| < U32 && forall i :: 0 <= i < |raw.arguments| ==> |raw.arguments[i]| < U32
    ensures bytes == PathThen(raw.anchor, raw.arguments, rest)
  {
    hide LittleEndian, Frames, Frame, ReadList, ReadFrame;
    var Parsed(path, rest1) := ReadList(bytes).value;
    var Parsed(symbol, rest2) := ReadFrame(rest1).value;
    ReadListForth(bytes, path, rest1);
    ReadFrameForth(rest1, symbol, rest2);
    ReadListForth(rest2[2..], raw.arguments, rest);
    assert rest2 == [rest2[0], rest2[1]] + rest2[2..];
    assert rest2[0] == KindTag(raw.anchor.kind);
  }

  lemma ReadKeyForth(bytes: Bytes, raw: Raw, rest: Bytes)
    requires ReadKey(bytes) == Some(Parsed(raw, rest))
    ensures AnchorFits(raw.anchor) && |raw.arguments| < U32 && forall i :: 0 <= i < |raw.arguments| ==> |raw.arguments[i]| < U32
    ensures bytes == KeyThen(raw.name, raw.anchor, raw.arguments, rest)
  {
    hide LittleEndian, Frame, ReadFrame, ReadNumber, ReadPath, PathThen;
    var Parsed(name, rest1) := ReadFrame(bytes).value;
    var Parsed(publication, rest2) := ReadFrame(rest1).value;
    var Parsed(epoch, rest3) := ReadNumber(rest2).value;
    ReadFrameForth(bytes, name, rest1);
    ReadFrameForth(rest1, publication, rest2);
    ReadNumberForth(rest2, epoch, rest3);
    ReadPathForth(name, publication, epoch, rest3[1..], raw, rest);
    assert rest3 == [0] + rest3[1..];
  }

  /** The decoder accepts nothing but keys. */
  lemma {:induction false} DecodeForth(bytes: Bytes, id: Nominal, rest: Bytes)
    requires Decode(bytes) == Some(Parsed(id, rest))
    ensures Fits(id) && bytes == Key(id) + rest
    decreases |bytes|, 0
  {
    hide KindName, ReadKey, KeyThen, AnchorKey;
    var Parsed(raw, _) := ReadKey(bytes).value;
    ReadKeyForth(bytes, raw, rest);
    DecodeAllForth(raw.arguments, |bytes|, id.arguments);
    assert Keys(id, id.arguments) == raw.arguments;
    NameForth(raw.name);
    KeyThenAppends(raw.name, raw.anchor, raw.arguments, rest);
  }

  lemma NameForth(name: Bytes)
    requires NameKind(name).Some?
    ensures KindName(NameKind(name).value) == name
  {
  }

  lemma {:induction false} DecodeAllForth(keys: seq<Bytes>, bound: nat, ids: seq<Nominal>)
    requires forall i :: 0 <= i < |keys| ==> |keys[i]| < bound
    requires DecodeAll(keys, bound) == Some(ids)
    ensures |ids| == |keys| && forall i :: 0 <= i < |ids| ==> Fits(ids[i]) && Key(ids[i]) == keys[i]
    decreases bound, 0, |keys|
  {
    hide Fits, Key, Decode;
    if keys != [] {
      var Parsed(first, _) := Decode(keys[0]).value;
      DecodeForth(keys[0], first, []);
      var others := DecodeAll(keys[1..], bound).value;
      DecodeAllForth(keys[1..], bound, others);
      assert Key(first) + [] == Key(first);
      assert ids == [first] + others;
    }
  }
}
