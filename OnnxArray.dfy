/** The tract operators that the ONNX array builders produce, as values.
    Their own evaluation and inference code lives in tract's core crate
    and, apart from `Slice` (module SliceOp), is not part of this model. */
module TractOps {
  import opened Wrappers
  import opened Facts

  /** A signed 64-bit integer, the type of ONNX integer attributes. */
  type Int64 = x: int | -0x8000_0000_0000_0000 <= x < 0x8000_0000_0000_0000

  /** An IEEE 754 single-precision value, kept as its bit pattern: the
      builders pass float attributes along and never compute with them. */
  datatype F32Bits = F32Bits(bits: bv32)

  /** `0.0`. */
  const Zero: F32Bits := F32Bits(0)

  datatype PadMode = Constant(value: F32Bits) | Reflect | Edge

  /** A constant tensor of the given element type and shape whose every
      element is `value` converted to that type. */
  datatype ConstFill = ConstFill(datumType: DatumType, shape: seq<nat>, value: F32Bits)

  datatype Op =
    | Concat(axis: nat)
    | Const(fill: ConstFill)
    | ConstantLike(value: F32Bits)
    | MultiBroadcastTo
    | EyeLike(eyeType: Option<DatumType>, k: Int64)
    | Flatten(axis: nat)
    | Pad(pads: seq<(nat, nat)>, mode: PadMode)
    | Reshape
    | Shape(datumType: DatumType)
    | Size(datumType: DatumType)
    | PermuteAxes(perm: Option<seq<nat>>)
    | Slice(axes: Option<seq<nat>>, starts: seq<Int64>, ends: seq<Int64>)
    | Split(axis: nat, outputs: nat, split: Option<seq<nat>>)
    | Squeeze(axes: Option<seq<nat>>)
    | AddDims(newAxes: seq<nat>)
}

/** Translation of the ONNX array operators into tract operators: one
    builder per ONNX operator name, each reading, checking and defaulting
    the attributes of a node, and the register that binds the names to the
    builders (`onnx/src/ops/array/mod.rs`). */
module OnnxArray {
  import opened Wrappers
  import opened Facts
  import Ops = TractOps

  type Int64 = Ops.Int64
  type F32Bits = Ops.F32Bits

  /** The attribute values the builders read. */
  datatype Attribute = Int(i: Int64) | Ints(ints: seq<Int64>) | Float(f: F32Bits) | Str(s: string)

  datatype AttrKind = IntKind | IntsKind | FloatKind | StrKind

  predicate HasKind(a: Attribute, k: AttrKind) {
    match k
    case IntKind => a.Int?
    case IntsKind => a.Ints?
    case FloatKind => a.Float?
    case StrKind => a.Str?
  }

  /** An ONNX node as the builders see it: its inputs and outputs by name
      and its attributes by name. */
  datatype NodeProto = NodeProto(inputs: seq<string>, outputs: seq<string>, attributes: map<string, Attribute>)

  datatype BuildError =
    | MissingAttribute(name: string)
    | WrongAttributeType(name: string)
    | UnknownDataType(code: Int64)
    | NotANumber(datumType: DatumType)

  type Build = Result<Ops.Op, BuildError>

  // ---------------------------------------------------------------------
  // Attribute access

  /** An optional attribute: `None` when absent, an error when present with
      another kind. */
  function GetAttrOpt(node: NodeProto, name: string, kind: AttrKind): (r: Result<Option<Attribute>, BuildError>)
    ensures r == Ok(None) <==> name !in node.attributes
    ensures r.Err? <==> name in node.attributes && !HasKind(node.attributes[name], kind)
    ensures r.Err? ==> r.error == WrongAttributeType(name)
    ensures r.Ok? && r.value.Some? ==> name in node.attributes && r.value.value == node.attributes[name]
    ensures r.Ok? && r.value.Some? ==> HasKind(r.value.value, kind)
  {
    if name !in node.attributes then Ok(None)
    else if HasKind(node.attributes[name], kind) then Ok(Some(node.attributes[name]))
    else Err(WrongAttributeType(name))
  }

  /** A required attribute: an error when absent or of another kind. */
  function GetAttr(node: NodeProto, name: string, kind: AttrKind): (r: Result<Attribute, BuildError>)
    ensures r.Ok? <==> name in node.attributes && HasKind(node.attributes[name], kind)
    ensures r.Ok? ==> r.value == node.attributes[name]
    ensures name !in node.attributes ==> r == Err(MissingAttribute(name))
    ensures name in node.attributes && !HasKind(node.attributes[name], kind) ==> r == Err(WrongAttributeType(name))
  {
    var a :- GetAttrOpt(node, name, kind);
    if a.None? then Err(MissingAttribute(name)) else Ok(a.value)
  }

  /** The attribute `name` is absent or has the given kind. */
  predicate OptKindOk(node: NodeProto, name: string, kind: AttrKind) {
    name !in node.attributes || HasKind(node.attributes[name], kind)
  }

  /** The attribute `name` is present with the given kind. */
  predicate KindOk(node: NodeProto, name: string, kind: AttrKind) {
    name in node.attributes && HasKind(node.attributes[name], kind)
  }

  // ---------------------------------------------------------------------
  // Casts

  const TwoTo64: int := 0x1_0000_0000_0000_0000

  /** `x as usize` on a 64-bit target: the two's-complement bit pattern
      read as unsigned. */
  function ToUsize(x: Int64): (u: nat)
    ensures u < TwoTo64
    ensures u % TwoTo64 == x % TwoTo64
  {
    if x < 0 then x + TwoTo64 else x
  }

  /** Casting to `usize` and back to `i64` gives the value back: no
      information is lost, a negative value only reads as a large one. */
  lemma ToUsizeInjective(x: Int64, y: Int64)
    ensures ToUsize(x) == ToUsize(y) <==> x == y
    ensures x >= 0 <==> ToUsize(x) < 0x8000_0000_0000_0000
  {
  }

  function CastAll(xs: seq<Int64>): (us: seq<nat>)
    ensures |us| == |xs|
    ensures forall i :: 0 <= i < |xs| ==> us[i] == ToUsize(xs[i])
    ensures forall i :: 0 <= i < |xs| ==> us[i] < TwoTo64 && (us[i] - xs[i]) % TwoTo64 == 0
    ensures forall i :: 0 <= i < |xs| ==> (xs[i] >= 0 <==> us[i] == xs[i])
  {
    seq(|xs|, i requires 0 <= i < |xs| => ToUsize(xs[i]))
  }

  /** `x as i32`: the low 32 bits read as a signed number. */
  function ToI32(x: Int64): (y: int)
    ensures -0x8000_0000 <= y < 0x8000_0000
    ensures (y - x) % 0x1_0000_0000 == 0
  {
    var low := x % 0x1_0000_0000;
    if low >= 0x8000_0000 then low - 0x1_0000_0000 else low
  }

  // ---------------------------------------------------------------------
  // Element types

  /** The element types named by the codes of the ONNX `TensorProto`
      data-type enumeration that tract supports. */
  const DataTypes: map<int, DatumType> := map[
    1 := F32, 2 := U8, 3 := I8, 4 := U16, 5 := I16, 6 := I32, 7 := I64,
    8 := String, 9 := Bool, 10 := F16, 11 := F64]

  /** A `dtype` attribute, cast to 32 bits and looked up. */
  function DataTypeOf(code: Int64): (r: Result<DatumType, BuildError>)
    ensures r.Ok? <==> ToI32(code) in DataTypes
    ensures r.Ok? ==> r.value == DataTypes[ToI32(code)]
    ensures r.Err? ==> r.error == UnknownDataType(code)
  {
    var c := ToI32(code);
    if c in DataTypes then Ok(DataTypes[c]) else Err(UnknownDataType(code))
  }

  /** The element types a constant can be built for. */
  predicate IsNumber(dt: DatumType) {
    dt in {U8, U16, I8, I16, I32, I64, F32, F64}
  }

  /** `make_const`, dispatched on the element type. */
  function MakeConst(dt: DatumType, shape: seq<nat>, value: F32Bits): (r: Result<Ops.ConstFill, BuildError>)
    ensures r.Ok? <==> IsNumber(dt)
    ensures r.Ok? ==> r.value == Ops.ConstFill(dt, shape, value)
    ensures r.Err? ==> r.error == NotANumber(dt)
  {
    if IsNumber(dt) then Ok(Ops.ConstFill(dt, shape, value)) else Err(NotANumber(dt))
  }

  // ---------------------------------------------------------------------
  // Builders

  /** `concat`: the axis is required. */
  function Concat(node: NodeProto): (r: Build)
    ensures r.Ok? <==> KindOk(node, "axis", IntKind)
    ensures r.Ok? ==> r.value == Ops.Concat(ToUsize(node.attributes["axis"].i))
    ensures "axis" !in node.attributes ==> r == Err(MissingAttribute("axis"))
  {
    var axis :- GetAttr(node, "axis", IntKind);
    Ok(Ops.Concat(ToUsize(axis.i)))
  }

  /** The `value` attribute of `ConstantLike`, 0.0 when absent. */
  function FloatOr(a: Option<Attribute>, default: F32Bits): F32Bits
    requires a.Some? ==> a.value.Float?
  {
    if a.Some? then a.value.f else default
  }

  /** The `dtype` attribute is absent, or an integer naming a supported
      element type. */
  predicate DtypeOk(node: NodeProto) {
    && OptKindOk(node, "dtype", IntKind)
    && ("dtype" in node.attributes ==> ToI32(node.attributes["dtype"].i) in DataTypes)
  }

  /** The element type named by `dtype`, when there is one. */
  function Dtype(node: NodeProto): Option<DatumType>
    requires DtypeOk(node)
  {
    if "dtype" in node.attributes then Some(DataTypes[ToI32(node.attributes["dtype"].i)]) else None
  }

  /** The `value` attribute, 0.0 when absent. */
  function ValueOr0(node: NodeProto): F32Bits
    requires OptKindOk(node, "value", FloatKind)
  {
    if "value" in node.attributes then node.attributes["value"].f else Ops.Zero
  }

  /** `constant_like`: without inputs, a constant tensor of the `shape`
      attribute filled with `value` (0.0 by default), of element type
      `dtype` (f32 by default); with inputs, a `ConstantLike` of `value`.
      `value` is read, and checked, in both cases. */
  function ConstantLike(node: NodeProto): (r: Build)
    ensures !OptKindOk(node, "value", FloatKind) ==> r == Err(WrongAttributeType("value"))
    ensures |node.inputs| > 0 ==>
      (r.Ok? <==> OptKindOk(node, "value", FloatKind))
    ensures |node.inputs| > 0 && r.Ok? ==> r.value == Ops.ConstantLike(ValueOr0(node))
    ensures |node.inputs| == 0 ==>
      (r.Ok? <==>
        && OptKindOk(node, "value", FloatKind)
        && DtypeOk(node)
        && KindOk(node, "shape", IntsKind)
        && IsNumber(Dtype(node).GetOr(F32)))
    ensures |node.inputs| == 0 && r.Ok? ==>
      r.value == Ops.Const(Ops.ConstFill(Dtype(node).GetOr(F32), CastAll(node.attributes["shape"].ints), ValueOr0(node)))
    ensures |node.inputs| == 0 && OptKindOk(node, "value", FloatKind) && KindOk(node, "dtype", IntKind)
            && ToI32(node.attributes["dtype"].i) !in DataTypes
            ==> r == Err(UnknownDataType(node.attributes["dtype"].i))
  {
    var value :- GetAttrOpt(node, "value", FloatKind);
    var v := FloatOr(value, Ops.Zero);
    if |node.inputs| == 0 then
      var code :- GetAttrOpt(node, "dtype", IntKind);
      var dt :- if code.Some? then DataTypeOf(code.value.i) else Ok(F32);
      var shape :- GetAttr(node, "shape", IntsKind);
      var fill :- MakeConst(dt, CastAll(shape.ints), v);
      Ok(Ops.Const(fill))
    else
      Ok(Ops.ConstantLike(v))
  }

  /** `eye_like`: the element type is optional and stays `None` when
      absent; the diagonal offset `k` defaults to 0. */
  function EyeLike(node: NodeProto): (r: Build)
    ensures r.Ok? <==> DtypeOk(node) && OptKindOk(node, "k", IntKind)
    ensures KindOk(node, "dtype", IntKind) && ToI32(node.attributes["dtype"].i) !in DataTypes
            ==> r == Err(UnknownDataType(node.attributes["dtype"].i))
    ensures r.Ok? ==> r.value == Ops.EyeLike(Dtype(node), if "k" in node.attributes then node.attributes["k"].i else 0)
  {
    var code :- GetAttrOpt(node, "dtype", IntKind);
    var dt :- if code.Some? then (var t :- DataTypeOf(code.value.i); Ok(Some(t))) else Ok(None);
    var k :- GetAttrOpt(node, "k", IntKind);
    Ok(Ops.EyeLike(dt, if k.Some? then k.value.i else 0))
  }

  /** `flatten`: the axis defaults to 1. */
  function Flatten(node: NodeProto): (r: Build)
    ensures r.Ok? <==> OptKindOk(node, "axis", IntKind)
    ensures "axis" !in node.attributes ==> r == Ok(Ops.Flatten(1))
    ensures "axis" in node.attributes && r.Ok? ==> r == Ok(Ops.Flatten(ToUsize(node.attributes["axis"].i)))
  {
    var axis :- GetAttrOpt(node, "axis", IntKind);
    Ok(Ops.Flatten(if axis.Some? then ToUsize(axis.value.i) else 1))
  }

  /** The padding mode: `reflect` and `edge` by name, anything else
      (including no mode) pads with `value`, 0.0 by default. */
  function PadModeOf(mode: Option<string>, value: Option<F32Bits>): (m: Ops.PadMode)
    ensures m.Reflect? <==> mode == Some("reflect")
    ensures m.Edge? <==> mode == Some("edge")
    ensures m.Constant? ==> m.value == value.GetOr(Ops.Zero)
  {
    match mode
    case Some("reflect") => Ops.Reflect
    case Some("edge") => Ops.Edge
    case _ => Ops.Constant(value.GetOr(Ops.Zero))
  }

  /** The ONNX `pads` layout, all beginnings and then all ends, cut into
      one (beginning, end) pair per axis; an odd last entry is ignored. */
  function PadPairs(pads: seq<Int64>): (ps: seq<(nat, nat)>)
    ensures |ps| == |pads| / 2
  {
    var rank := |pads| / 2;
    seq(rank, ax requires 0 <= ax < rank => (ToUsize(pads[ax]), ToUsize(pads[ax + rank])))
  }

  /** The inverse layout: the beginnings of every axis, then the ends. */
  function PadsLayout(ps: seq<(nat, nat)>): (pads: seq<int>)
    ensures |pads| == 2 * |ps|
  {
    seq(|ps|, ax requires 0 <= ax < |ps| => ps[ax].0) + seq(|ps|, ax requires 0 <= ax < |ps| => ps[ax].1)
  }

  /** Axis `ax` receives the `ax`-th entry of each half. */
  lemma PadPairsAxis(pads: seq<Int64>, ax: nat)
    requires ax < |pads| / 2
    ensures PadPairs(pads)[ax] == (ToUsize(pads[ax]), ToUsize(pads[ax + |pads| / 2]))
  {
  }

  /** Laying out the pairs of a non-negative even-length `pads` list gives
      the list back. */
  lemma {:induction false} PadPairsLayout(pads: seq<Int64>)
    requires |pads| % 2 == 0
    requires forall i :: 0 <= i < |pads| ==> pads[i] >= 0
    ensures PadsLayout(PadPairs(pads)) == pads
  {
    var ps := PadPairs(pads);
    var rank := |pads| / 2;
    var out := PadsLayout(ps);
    forall i | 0 <= i < |pads|
      ensures out[i] == pads[i]
    {
      if i < rank {
        assert out[i] == ps[i].0;
      } else {
        assert out[i] == ps[i - rank].1;
      }
    }
  }

  /** Cutting the layout of pairs of 64-bit sizes gives the pairs back. */
  lemma {:induction false} LayoutPadPairs(ps: seq<(nat, nat)>)
    requires forall ax :: 0 <= ax < |ps| ==> ps[ax].0 < 0x8000_0000_0000_0000 && ps[ax].1 < 0x8000_0000_0000_0000
    ensures var pads := PadsLayout(ps);
      && (forall i :: 0 <= i < |pads| ==> -0x8000_0000_0000_0000 <= pads[i] < 0x8000_0000_0000_0000)
      && PadPairs(seq(|pads|, i requires 0 <= i < |pads| => pads[i] as Int64)) == ps
  {
    var pads := PadsLayout(ps);
    forall i | 0 <= i < |pads|
      ensures 0 <= pads[i] < 0x8000_0000_0000_0000
    {
      if i < |ps| {
        assert pads[i] == ps[i].0;
      } else {
        assert pads[i] == ps[i - |ps|].1;
      }
    }
    var typed := seq(|pads|, i requires 0 <= i < |pads| => pads[i] as Int64);
    var back := PadPairs(typed);
    forall ax | 0 <= ax < |ps|
      ensures back[ax] == ps[ax]
    {
      assert typed[ax] == pads[ax] == ps[ax].0;
      assert typed[ax + |ps|] == pads[ax + |ps|] == ps[ax].1;
    }
  }

  /** `pad`: `mode` and `value` are optional, `pads` is required. */
  function Pad(node: NodeProto): (r: Build)
    ensures r.Ok? <==>
      && OptKindOk(node, "mode", StrKind)
      && OptKindOk(node, "value", FloatKind)
      && KindOk(node, "pads", IntsKind)
    ensures OptKindOk(node, "mode", StrKind) && OptKindOk(node, "value", FloatKind) && "pads" !in node.attributes
            ==> r == Err(MissingAttribute("pads"))
    ensures r.Ok? ==> r.value.Pad? && r.value.pads == PadPairs(node.attributes["pads"].ints)
    ensures r.Ok? ==> r.value.mode == PadModeOf(
      if "mode" in node.attributes then Some(node.attributes["mode"].s) else None,
      if "value" in node.attributes then Some(node.attributes["value"].f) else None)
  {
    var mode :- GetAttrOpt(node, "mode", StrKind);
    var value :- GetAttrOpt(node, "value", FloatKind);
    var m := PadModeOf(if mode.Some? then Some(mode.value.s) else None,
                       if value.Some? then Some(value.value.f) else None);
    var pads :- GetAttr(node, "pads", IntsKind);
    Ok(Ops.Pad(PadPairs(pads.ints), m))
  }

  /** `slice`: `starts` and `ends` are required, `axes` is optional and
      stays `None` when absent. */
  function Slice(node: NodeProto): (r: Build)
    ensures r.Ok? <==>
      && OptKindOk(node, "axes", IntsKind)
      && KindOk(node, "starts", IntsKind)
      && KindOk(node, "ends", IntsKind)
    ensures OptKindOk(node, "axes", IntsKind) && "starts" !in node.attributes ==> r == Err(MissingAttribute("starts"))
    ensures r.Ok? ==> r.value == Ops.Slice(
      if "axes" in node.attributes then Some(CastAll(node.attributes["axes"].ints)) else None,
      node.attributes["starts"].ints, node.attributes["ends"].ints)
  {
    var axes :- GetAttrOpt(node, "axes", IntsKind);
    var begin :- GetAttr(node, "starts", IntsKind);
    var end :- GetAttr(node, "ends", IntsKind);
    Ok(Ops.Slice(if axes.Some? then Some(CastAll(axes.value.ints)) else None, begin.ints, end.ints))
  }

  /** `split`: the axis defaults to 0, the number of outputs is the
      node's, the split sizes are optional. */
  function Split(node: NodeProto): (r: Build)
    ensures r.Ok? <==> OptKindOk(node, "axis", IntKind) && OptKindOk(node, "split", IntsKind)
    ensures r.Ok? ==> r.value == Ops.Split(
      if "axis" in node.attributes then ToUsize(node.attributes["axis"].i) else 0,
      |node.outputs|,
      if "split" in node.attributes then Some(CastAll(node.attributes["split"].ints)) else None)
  {
    var axis :- GetAttrOpt(node, "axis", IntKind);
    var split :- GetAttrOpt(node, "split", IntsKind);
    Ok(Ops.Split(if axis.Some? then ToUsize(axis.value.i) else 0,
                 |node.outputs|,
                 if split.Some? then Some(CastAll(split.value.ints)) else None))
  }

  /** An optional list of axes, cast to `usize`. */
  function OptAxes(node: NodeProto, name: string): (r: Result<Option<seq<nat>>, BuildError>)
    ensures r.Ok? <==> OptKindOk(node, name, IntsKind)
    ensures r.Ok? ==> r.value == if name in node.attributes then Some(CastAll(node.attributes[name].ints)) else None
  {
    var axes :- GetAttrOpt(node, name, IntsKind);
    Ok(if axes.Some? then Some(CastAll(axes.value.ints)) else None)
  }

  /** `squeeze`: the axes are optional and stay `None` when absent. */
  function Squeeze(node: NodeProto): (r: Build)
    ensures r.Ok? <==> OptKindOk(node, "axes", IntsKind)
    ensures "axes" !in node.attributes ==> r == Ok(Ops.Squeeze(None))
    ensures "axes" in node.attributes && r.Ok? ==> r == Ok(Ops.Squeeze(Some(CastAll(node.attributes["axes"].ints))))
  {
    var axes :- OptAxes(node, "axes");
    Ok(Ops.Squeeze(axes))
  }

  /** `transpose`: the permutation is optional and stays `None` when
      absent. */
  function Transpose(node: NodeProto): (r: Build)
    ensures r.Ok? <==> OptKindOk(node, "perm", IntsKind)
    ensures "perm" !in node.attributes ==> r == Ok(Ops.PermuteAxes(None))
    ensures "perm" in node.attributes && r.Ok? ==> r == Ok(Ops.PermuteAxes(Some(CastAll(node.attributes["perm"].ints))))
  {
    var perm :- OptAxes(node, "perm");
    Ok(Ops.PermuteAxes(perm))
  }

  /** `unsqueeze`: the axes are required. */
  function Unsqueeze(node: NodeProto): (r: Build)
    ensures r.Ok? <==> KindOk(node, "axes", IntsKind)
    ensures "axes" !in node.attributes ==> r == Err(MissingAttribute("axes"))
    ensures r.Ok? ==> r == Ok(Ops.AddDims(CastAll(node.attributes["axes"].ints)))
  {
    var axes :- GetAttr(node, "axes", IntsKind);
    Ok(Ops.AddDims(CastAll(axes.ints)))
  }

  /** The builders of `Expand`, `Reshape`, `Shape` and `Size`, which read
      no attribute and cannot fail. */
  function Expand(node: NodeProto): (r: Build)
    ensures r.Ok?
  {
    Ok(Ops.MultiBroadcastTo)
  }

  function Reshape(node: NodeProto): (r: Build)
    ensures r.Ok?
  {
    Ok(Ops.Reshape)
  }

  function Shape(node: NodeProto): (r: Build)
    ensures r.Ok?
  {
    Ok(Ops.Shape(I64))
  }

  function Size(node: NodeProto): (r: Build)
    ensures r.Ok?
  {
    Ok(Ops.Size(I64))
  }

  // ---------------------------------------------------------------------
  // Registration

  type Builder = NodeProto -> Build

  /** The names bound by `register_all_ops`. */
  const ArrayOpNames: set<string> := {
    "Concat", "ConstantLike", "Expand", "EyeLike", "Flatten", "Pad", "Reshape",
    "Shape", "Size", "Transpose", "Slice", "Split", "Squeeze", "Unsqueeze"}

  /** The table of ONNX operator names to builders. */
  class OpRegister {
    var builders: map<string, Builder>

    constructor()
      ensures builders == map[]
    {
      builders := map[];
    }

    /** Binds `name`, replacing any earlier binding. */
    method Insert(name: string, b: Builder)
      modifies this
      ensures builders == old(builders)[name := b]
    {
      builders := builders[name := b];
    }
  }

  /** The table after the fourteen insertions of `register_all_ops`, in
      its order. */
  function Registered(before: map<string, Builder>): (after: map<string, Builder>)
  {
    before["Concat" := Concat]["ConstantLike" := ConstantLike]["Expand" := Expand]
      ["EyeLike" := EyeLike]["Flatten" := Flatten]["Pad" := Pad]["Reshape" := Reshape]
      ["Shape" := Shape]["Size" := Size]["Transpose" := Transpose]["Slice" := Slice]
      ["Split" := Split]["Squeeze" := Squeeze]["Unsqueeze" := Unsqueeze]
  }

  /** `register_all_ops`: inserts the fourteen array operator names, each
      with its builder. */
  method RegisterAllOps(reg: OpRegister)
    modifies reg
    ensures reg.builders == Registered(old(reg.builders))
  {
    reg.Insert("Concat", Concat);
    reg.Insert("ConstantLike", ConstantLike);
    reg.Insert("Expand", Expand);
    reg.Insert("EyeLike", EyeLike);
    reg.Insert("Flatten", Flatten);
    reg.Insert("Pad", Pad);
    reg.Insert("Reshape", Reshape);
    reg.Insert("Shape", Shape);
    reg.Insert("Size", Size);
    reg.Insert("Transpose", Transpose);
    reg.Insert("Slice", Slice);
    reg.Insert("Split", Split);
    reg.Insert("Squeeze", Squeeze);
    reg.Insert("Unsqueeze", Unsqueeze);
  }

  /** Registration binds exactly the fourteen array operator names on top
      of what was there, and keeps every other binding. */
  lemma RegisteredNames(before: map<string, Builder>)
    ensures Registered(before).Keys == before.Keys + ArrayOpNames
    ensures forall name :: name in before && name !in ArrayOpNames ==> Registered(before)[name] == before[name]
  {
  }

  /** After registration each of the fourteen names is bound to its own
      builder: `Pad` to `pad`, `Slice` to `slice`, and so on. The
      builders that read attributes: */
  lemma RegisteredBuilders(before: map<string, Builder>)
    ensures var m := Registered(before);
      && m["Concat"] == Concat && m["ConstantLike"] == ConstantLike
      && m["EyeLike"] == EyeLike && m["Flatten"] == Flatten && m["Pad"] == Pad
      && m["Transpose"] == Transpose && m["Slice"] == Slice && m["Split"] == Split
      && m["Squeeze"] == Squeeze && m["Unsqueeze"] == Unsqueeze
  {
  }

  /** and those that read none. */
  lemma RegisteredFixedBuilders(before: map<string, Builder>, node: NodeProto)
    ensures var m := Registered(before);
      && m["Expand"](node) == Ok(Ops.MultiBroadcastTo)
      && m["Reshape"](node) == Ok(Ops.Reshape)
      && m["Shape"](node) == Ok(Ops.Shape(I64))
      && m["Size"](node) == Ok(Ops.Size(I64))
  {
  }
}
