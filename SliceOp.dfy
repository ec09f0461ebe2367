/** The `Slice` operator of tract's core (`core/src/ops/array/slice.rs`):
    on every axis it prunes `a` leading and `b` trailing elements. Its
    evaluation on dense tensors, its shape and type inference rules, and
    its rewriting into a delay on a streamed axis. */
module SliceOp {
  import opened Wrappers
  import opened Facts

  // ---------------------------------------------------------------------
  // Dense tensors

  /** `a * b`, as repeated addition. */
  function Mul(a: nat, b: nat): nat {
    if a == 0 then 0 else Mul(a - 1, b) + b
  }

  /** The number of elements of a tensor of the given shape. */
  function Product(shape: seq<nat>): nat {
    if shape == [] then 1 else Mul(shape[0], Product(shape[1..]))
  }

  /** A dense tensor: element type, shape and elements in row-major order
      (the last axis varies fastest). Elements are opaque values. */
  datatype NdArray = NdArray(datumType: DatumType, shape: seq<nat>, data: seq<int>)

  type DenseTensor = x: NdArray | |x.data| == Product(x.shape) witness NdArray(Bool, [], [0])

  /** A multi-index inside the shape. */
  predicate InBounds(shape: seq<nat>, idx: seq<nat>) {
    |idx| == |shape| && forall ax :: 0 <= ax < |idx| ==> idx[ax] < shape[ax]
  }

  /** Row `i` of rows of `p` ends before row `n` starts when `i < n`. */
  lemma {:induction false} MulStep(i: nat, n: nat, p: nat, o: nat)
    ensures i < n && o < p ==> Mul(i, p) + o < Mul(n, p)
  {
    if i < n && o < p && i < n - 1 {
      MulStep(i, n - 1, p, o);
    }
  }

  lemma {:induction false} MulMono(a: nat, b: nat, p: nat)
    ensures a <= b ==> Mul(a, p) <= Mul(b, p)
  {
    if a < b {
      MulMono(a, b - 1, p);
    }
  }

  lemma {:induction false} MulZero(n: nat)
    ensures Mul(n, 0) == 0
  {
    if n > 0 {
      MulZero(n - 1);
    }
  }

  /** The position in `data` of the element at `idx`. */
  function Offset(shape: seq<nat>, idx: seq<nat>): (o: nat)
    requires InBounds(shape, idx)
    ensures o < Product(shape)
  {
    if shape == [] then 0
    else
      var o := Offset(shape[1..], idx[1..]);
      MulStep(idx[0], shape[0], Product(shape[1..]), o);
      Mul(idx[0], Product(shape[1..])) + o
  }

  /** Row `i`, column `o` of rows of `p` is a unique position. */
  lemma RowUnique(i: nat, j: nat, p: nat, o: nat, o': nat)
    requires o < p && o' < p && Mul(i, p) + o == Mul(j, p) + o'
    ensures i == j && o == o'
  {
    MulStep(i, j, p, o);
    MulStep(j, i, p, o');
  }

  /** Position `k` in rows of `p` is column `RowColumn(k, p).1` of row
      `RowColumn(k, p).0`. */
  function RowColumn(k: nat, p: nat): (rc: (nat, nat))
    requires p > 0
    ensures rc.1 < p && Mul(rc.0, p) + rc.1 == k
    decreases k
  {
    if k < p then (0, k)
    else
      var rc := RowColumn(k - p, p);
      (rc.0 + 1, rc.1)
  }

  /** In `n` rows of `p`, every position lies in one of the rows. */
  lemma RowBound(k: nat, n: nat, p: nat)
    requires k < Mul(n, p)
    ensures p > 0 && RowColumn(k, p).0 < n
  {
    MulZero(n);
    MulMono(n, RowColumn(k, p).0, p);
  }

  /** The position of an index is that of its first coordinate's row plus
      that of the rest inside the row. */
  lemma OffsetCons(shape: seq<nat>, i: nat, rest: seq<nat>)
    requires shape != [] && i < shape[0] && InBounds(shape[1..], rest)
    ensures InBounds(shape, [i] + rest)
    ensures Offset(shape, [i] + rest) == Mul(i, Product(shape[1..])) + Offset(shape[1..], rest)
  {
    assert ([i] + rest)[1..] == rest;
  }

  /** The multi-index of the element at position `k`, row by row. */
  function Unravel(shape: seq<nat>, k: nat): (idx: seq<nat>)
    requires k < Product(shape)
    ensures InBounds(shape, idx) && Offset(shape, idx) == k
  {
    if shape == [] then []
    else
      var p := Product(shape[1..]);
      RowBound(k, shape[0], p);
      var rc := RowColumn(k, p);
      var rest := Unravel(shape[1..], rc.1);
      OffsetCons(shape, rc.0, rest);
      [rc.0] + rest
  }

  /** Distinct indices have distinct positions. */
  lemma {:induction false} OffsetInjective(shape: seq<nat>, idx: seq<nat>, idx': seq<nat>)
    requires InBounds(shape, idx) && InBounds(shape, idx')
    requires Offset(shape, idx) == Offset(shape, idx')
    ensures idx == idx'
  {
    if shape != [] {
      RowUnique(idx[0], idx'[0], Product(shape[1..]), Offset(shape[1..], idx[1..]), Offset(shape[1..], idx'[1..]));
      OffsetInjective(shape[1..], idx[1..], idx'[1..]);
      assert idx == [idx[0]] + idx[1..];
      assert idx' == [idx'[0]] + idx'[1..];
    }
  }

  /** Every element has exactly one position: `Offset` and `Unravel` are
      inverse to each other. */
  lemma UnravelOffset(shape: seq<nat>, idx: seq<nat>)
    requires InBounds(shape, idx)
    ensures Unravel(shape, Offset(shape, idx)) == idx
  {
    OffsetInjective(shape, Unravel(shape, Offset(shape, idx)), idx);
  }

  /** The element at `idx`. */
  function At(x: DenseTensor, idx: seq<nat>): int
    requires InBounds(x.shape, idx)
  {
    x.data[Offset(x.shape, idx)]
  }

  // ---------------------------------------------------------------------
  // The operator

  /** `Slice { prune }`: one (leading, trailing) pair per axis. */
  datatype Slice = Slice(prune: seq<(nat, nat)>)

  datatype SliceError = WrongArity(count: nat) | Panic | Unimplemented

  /** Where the kept range of an axis of length `len` ends: `b` before the
      end, written as the negative end `-b`, or the end of the axis itself
      when `b` is 0 (an end of `-0` would be the start of the axis, hence
      no end at all). An end before the start gives an empty range. */
  function Stop(len: nat, a: nat, b: nat): (e: nat)
    requires a <= len && b <= len
    ensures a <= e <= len
    ensures a + b <= len ==> e == len - b
    ensures a + b > len ==> e == a
  {
    var end := if b != 0 then len - b else len;
    if end < a then a else end
  }

  /** The slicing is possible: one pair per axis (a mismatch makes the
      slicing panic), and neither bound past the end of its axis. */
  predicate Sliceable(prune: seq<(nat, nat)>, shape: seq<nat>) {
    && |prune| == |shape|
    && forall ax :: 0 <= ax < |shape| ==> prune[ax].0 <= shape[ax] && prune[ax].1 <= shape[ax]
  }

  function SlicedShape(prune: seq<(nat, nat)>, shape: seq<nat>): (out: seq<nat>)
    requires Sliceable(prune, shape)
    ensures |out| == |shape|
    ensures forall ax :: 0 <= ax < |shape| ==>
      out[ax] == if prune[ax].0 + prune[ax].1 <= shape[ax] then shape[ax] - prune[ax].0 - prune[ax].1 else 0
  {
    seq(|shape|, ax requires 0 <= ax < |shape| => Stop(shape[ax], prune[ax].0, prune[ax].1) - prune[ax].0)
  }

  /** An index of the sliced tensor, moved back to the input. */
  function Shift(idx: seq<nat>, prune: seq<(nat, nat)>): (moved: seq<nat>)
    requires |prune| == |idx|
    ensures |moved| == |idx|
  {
    seq(|idx|, ax requires 0 <= ax < |idx| => idx[ax] + prune[ax].0)
  }

  lemma ShiftInBounds(prune: seq<(nat, nat)>, shape: seq<nat>, idx: seq<nat>)
    requires Sliceable(prune, shape) && InBounds(SlicedShape(prune, shape), idx)
    ensures InBounds(shape, Shift(idx, prune))
  {
  }

  /** `eval_t`: copies the elements kept on every axis into a new tensor of
      the same element type; panics when the pairs do not fit the tensor. */
  function EvalT(s: Slice, x: DenseTensor): (r: Result<DenseTensor, SliceError>)
    ensures r.Ok? <==> Sliceable(s.prune, x.shape)
    ensures r.Err? ==> r.error == Panic
    ensures r.Ok? ==> r.value.datumType == x.datumType && r.value.shape == SlicedShape(s.prune, x.shape)
  {
    if !Sliceable(s.prune, x.shape) then Err(Panic)
    else
      var shape := SlicedShape(s.prune, x.shape);
      var data := seq(Product(shape), k requires 0 <= k < Product(shape) =>
        ShiftInBounds(s.prune, x.shape, Unravel(shape, k));
        At(x, Shift(Unravel(shape, k), s.prune)));
      Ok(NdArray(x.datumType, shape, data))
  }

  /** The sliced tensor holds, at every index, the input's element at that
      index moved by the leading prunes: on each axis exactly the elements
      from `a` up to `len - b` (to the end when `b` is 0). */
  lemma {:induction false} EvalTAt(s: Slice, x: DenseTensor, idx: seq<nat>)
    requires EvalT(s, x).Ok? && InBounds(EvalT(s, x).value.shape, idx)
    ensures InBounds(x.shape, Shift(idx, s.prune))
    ensures At(EvalT(s, x).value, idx) == At(x, Shift(idx, s.prune))
  {
    var y := EvalT(s, x).value;
    ShiftInBounds(s.prune, x.shape, idx);
    UnravelOffset(y.shape, idx);
  }

  /** Pairs of zeros leave the tensor as it was. */
  lemma {:induction false} EvalTZero(s: Slice, x: DenseTensor)
    requires |s.prune| == |x.shape| && forall ax :: 0 <= ax < |s.prune| ==> s.prune[ax] == (0, 0)
    ensures EvalT(s, x) == Ok(x)
  {
    var y := EvalT(s, x).value;
    assert y.shape == x.shape;
    forall k | 0 <= k < |x.data|
      ensures y.data[k] == x.data[k]
    {
      var idx := Unravel(x.shape, k);
      assert Shift(idx, s.prune) == idx;
    }
    assert y.data == x.data;
  }

  /** `eval`: exactly one input, sliced. */
  function Eval(s: Slice, inputs: seq<DenseTensor>): (r: Result<seq<DenseTensor>, SliceError>)
    ensures |inputs| != 1 ==> r == Err(WrongArity(|inputs|))
    ensures |inputs| == 1 ==> (r.Ok? <==> Sliceable(s.prune, inputs[0].shape))
    ensures r.Ok? ==> |r.value| == 1 && r.value[0] == EvalT(s, inputs[0]).value
    ensures r.Ok? ==> r.value[0].datumType == inputs[0].datumType
  {
    if |inputs| != 1 then Err(WrongArity(|inputs|))
    else
      var out :- EvalT(s, inputs[0]);
      Ok([out])
  }

  // ---------------------------------------------------------------------
  // Inference rules

  /** What the rules constrain of a tensor: its element type and shape. */
  datatype TensorType = TensorType(datumType: DatumType, shape: seq<nat>)

  function TypeOf(x: DenseTensor): TensorType {
    TensorType(x.datumType, x.shape)
  }

  /** The constraints of `rules`: one input, one output, the same element
      type and rank, and on every pruned axis the input dimension is the
      output dimension plus both prunes. */
  predicate Rules(s: Slice, inputs: seq<TensorType>, outputs: seq<TensorType>) {
    && |inputs| == 1 && |outputs| == 1
    && inputs[0].datumType == outputs[0].datumType
    && |inputs[0].shape| == |outputs[0].shape|
    && forall ix :: 0 <= ix < |s.prune| ==>
         ix < |inputs[0].shape| && inputs[0].shape[ix] == outputs[0].shape[ix] + s.prune[ix].0 + s.prune[ix].1
  }

  /** The pairs fit the tensor without overlapping. */
  predicate Fits(prune: seq<(nat, nat)>, shape: seq<nat>) {
    && |prune| == |shape|
    && forall ax :: 0 <= ax < |shape| ==> prune[ax].0 + prune[ax].1 <= shape[ax]
  }

  /** The rules agree with evaluation exactly when the pairs fit: then the
      evaluated output satisfies them, and when the leading and trailing
      prunes of some axis overlap, evaluation yields an empty axis that the
      rules reject. */
  lemma EvalTRules(s: Slice, x: DenseTensor)
    requires EvalT(s, x).Ok?
    ensures Rules(s, [TypeOf(x)], [TypeOf(EvalT(s, x).value)]) <==> Fits(s.prune, x.shape)
  {
    var y := EvalT(s, x).value;
    if !Fits(s.prune, x.shape) {
      var ax :| 0 <= ax < |x.shape| && s.prune[ax].0 + s.prune[ax].1 > x.shape[ax];
      assert y.shape[ax] == 0;
    }
  }

  /** Conversely the rules determine the output: an output type that
      satisfies them with an input whose rank is the number of pairs is the
      type of the evaluated output. */
  lemma RulesDetermineOutput(s: Slice, x: DenseTensor, out: TensorType)
    requires |s.prune| == |x.shape| && Rules(s, [TypeOf(x)], [out])
    ensures Fits(s.prune, x.shape) && EvalT(s, x).Ok?
    ensures out == TypeOf(EvalT(s, x).value)
  {
    var y := EvalT(s, x).value;
    assert out.shape == y.shape;
  }

  // ---------------------------------------------------------------------
  // Pulsification

  /** A dimension that may depend on the length `S` of the stream:
      `stream * S + constant`. */
  datatype StreamDim = StreamDim(stream: int, constant: int)

  function DimValue(d: StreamDim, streamLength: nat): int {
    d.stream * streamLength + d.constant
  }

  /** What is known of a tensor flowing as a stream of pulses along `axis`:
      the total length `dim` of that axis and the `delay` (in elements)
      after which its first valid element arrives. */
  datatype PulsedFact = PulsedFact(datumType: DatumType, shape: seq<nat>, axis: nat, dim: StreamDim, delay: nat)

  datatype PulsedOp = Identity

  datatype PulsifiedOp = PulsifiedOp(op: PulsedOp, outputs: seq<PulsedFact>)

  /** Every axis but `axis` is left untouched. */
  predicate OnlyOnAxis(prune: seq<(nat, nat)>, axis: nat) {
    forall ax :: 0 <= ax < |prune| ==> ax == axis || prune[ax] == (0, 0)
  }

  /** `pulsify`: a slice that only prunes the streamed axis becomes the
      identity, its leading prune turned into extra delay and taken off
      the stream's length; the trailing prune of the streamed axis is not
      looked at. Any other slice is not supported. */
  function Pulsify(s: Slice, inputs: seq<PulsedFact>): (r: Result<seq<PulsifiedOp>, SliceError>)
    ensures |inputs| != 1 ==> r == Err(WrongArity(|inputs|))
    ensures |inputs| == 1 ==>
      (r.Ok? <==> OnlyOnAxis(s.prune, inputs[0].axis) && inputs[0].axis < |s.prune|)
    ensures |inputs| == 1 && !OnlyOnAxis(s.prune, inputs[0].axis) ==> r == Err(Unimplemented)
    ensures r.Ok? ==> |r.value| == 1 && r.value[0].op == Identity && |r.value[0].outputs| == 1
    ensures r.Ok? ==>
      var f := inputs[0];
      var g := r.value[0].outputs[0];
      && g.delay == f.delay + s.prune[f.axis].0
      && g.dim == StreamDim(f.dim.stream, f.dim.constant - s.prune[f.axis].0)
      && g.(delay := f.delay, dim := f.dim) == f
  {
    if |inputs| != 1 then Err(WrongArity(|inputs|))
    else
      var input := inputs[0];
      if OnlyOnAxis(s.prune, input.axis) then
        if input.axis < |s.prune| then
          var delay := s.prune[input.axis].0;
          var fact := input.(delay := input.delay + delay, dim := StreamDim(input.dim.stream, input.dim.constant - delay));
          Ok([PulsifiedOp(Identity, [fact])])
        else Err(Panic)
      else Err(Unimplemented)
  }

  /** What pulsification keeps: the delay grows by what the length of the
      streamed axis loses, so their sum is unchanged. */
  lemma PulsifyKeepsEnd(s: Slice, f: PulsedFact, streamLength: nat)
    requires Pulsify(s, [f]).Ok?
    ensures var g := Pulsify(s, [f]).value[0].outputs[0];
      g.delay + DimValue(g.dim, streamLength) == f.delay + DimValue(f.dim, streamLength)
  {
  }

  /** Pulsification agrees with evaluation when the streamed axis has no
      trailing prune: a whole tensor whose streamed axis has the stream's
      length is sliced to the new length on that axis and left unchanged on
      every other axis. */
  lemma PulsifyMatchesEval(s: Slice, f: PulsedFact, x: DenseTensor, streamLength: nat)
    requires Pulsify(s, [f]).Ok?
    requires |x.shape| == |s.prune| && x.shape[f.axis] == DimValue(f.dim, streamLength)
    requires s.prune[f.axis].1 == 0 && s.prune[f.axis].0 <= x.shape[f.axis]
    ensures EvalT(s, x).Ok?
    ensures var g := Pulsify(s, [f]).value[0].outputs[0];
      && EvalT(s, x).value.shape[f.axis] == DimValue(g.dim, streamLength)
      && forall ax :: 0 <= ax < |x.shape| && ax != f.axis ==> EvalT(s, x).value.shape[ax] == x.shape[ax]
  {
  }
}
