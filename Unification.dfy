/** Unification of tensor facts (`unify`, `unify_datatype`, `unify_shape`,
    `unify_value`): the meet of two facts in the refinement order of module
    Facts, or an error when no tensor can satisfy both. */
module Unification {
  import opened Wrappers
  import opened Facts

  /** Which component made a unification fail, in the order they are tried. */
  datatype UnifyError = DatatypeMismatch | DimMismatch | RankMismatch | ValueMismatch

  function Max(a: nat, b: nat): nat {
    if a < b then b else a
  }

  /** The meet of two single facts, `None` when two known values differ.
      This is the common core of `unify_datatype`, `unify_value` and the
      per-dimension rule of `unify_shape`. */
  function Meet<T(==, !new)>(x: Fact<T>, y: Fact<T>): (r: Option<Fact<T>>)
    ensures r.Some? ==> FactLe(r.value, x) && FactLe(r.value, y)
    ensures forall z :: FactLe(z, x) && FactLe(z, y) ==> r.Some? && FactLe(z, r.value)
  {
    match (x, y)
    case (_, Any) => Some(x)
    case (Any, _) => Some(y)
    case (Only(a), Only(b)) => if a == b then Some(x) else None
  }

  /** `unify_datatype`: `Any` is a two-sided identity, equal known types
      unify to themselves and different known types fail. */
  function UnifyDatatype(x: TypeFact, y: TypeFact): (r: Result<TypeFact, UnifyError>)
    ensures x.Any? ==> r == Ok(y)
    ensures y.Any? ==> r == Ok(x)
    ensures x.Only? && y.Only? ==> r == (if x == y then Ok(x) else Err(DatatypeMismatch))
  {
    match Meet(x, y)
    case Some(t) => Ok(t)
    case None => Err(DatatypeMismatch)
  }

  /** `unify_value`: the same laws as `unify_datatype`, on tensor values. */
  function UnifyValue(x: ValueFact, y: ValueFact): (r: Result<ValueFact, UnifyError>)
    ensures x.Any? ==> r == Ok(y)
    ensures y.Any? ==> r == Ok(x)
    ensures x.Only? && y.Only? ==> r == (if x == y then Ok(x) else Err(ValueMismatch))
  {
    match Meet(x, y)
    case Some(v) => Ok(v)
    case None => Err(ValueMismatch)
  }

  /** The dimensions of two shapes can be unified: the common positions
      agree, and the longer list may only run on when the other is open. */
  predicate DimsCompatible(xs: seq<DimFact>, ys: seq<DimFact>, xOpen: bool, yOpen: bool) {
    && (forall i :: 0 <= i < |xs| && i < |ys| ==> Meet(xs[i], ys[i]).Some?)
    && (|ys| < |xs| ==> yOpen)
    && (|xs| < |ys| ==> xOpen)
  }

  /** Some common position holds two different known dimensions. */
  predicate SomeDimClash(xs: seq<DimFact>, ys: seq<DimFact>) {
    exists i :: 0 <= i < |xs| && i < |ys| && Meet(xs[i], ys[i]).None?
  }

  /** Position `i` of `zip_longest`'s combination of `xs` and `ys`. */
  function ZipDim(xs: seq<DimFact>, ys: seq<DimFact>, i: nat): DimFact
    requires i < |xs| || i < |ys|
    requires i < |xs| && i < |ys| ==> Meet(xs[i], ys[i]).Some?
  {
    if i < |xs| && i < |ys| then Meet(xs[i], ys[i]).value
    else if i < |xs| then xs[i]
    else ys[i]
  }

  /** The `zip_longest` loop of `unify_shape`, position by position; the
      first failing position decides the error. */
  function UnifyDims(xs: seq<DimFact>, ys: seq<DimFact>, xOpen: bool, yOpen: bool)
    : (r: Result<seq<DimFact>, UnifyError>)
    decreases |xs| + |ys|
    ensures r.Ok? <==> DimsCompatible(xs, ys, xOpen, yOpen)
    ensures r.Ok? ==> |r.value| == Max(|xs|, |ys|)
    ensures r.Ok? ==> forall i :: 0 <= i < |r.value| ==> r.value[i] == ZipDim(xs, ys, i)
    ensures r.Err? ==> (r.error == DimMismatch <==> SomeDimClash(xs, ys))
    ensures r.Err? ==> r.error == DimMismatch || r.error == RankMismatch
  {
    if xs == [] && ys == [] then Ok([])
    else if ys == [] then (if yOpen then Ok(xs) else Err(RankMismatch))
    else if xs == [] then (if xOpen then Ok(ys) else Err(RankMismatch))
    else
      match Meet(xs[0], ys[0])
      case None =>
        assert Meet(xs[0], ys[0]).None?;
        Err(DimMismatch)
      case Some(d) =>
        match UnifyDims(xs[1..], ys[1..], xOpen, yOpen)
        case Err(e) =>
          assert SomeDimClash(xs[1..], ys[1..]) ==> SomeDimClash(xs, ys) by {
            if SomeDimClash(xs[1..], ys[1..]) {
              var i :| 0 <= i < |xs[1..]| && i < |ys[1..]| && Meet(xs[1..][i], ys[1..][i]).None?;
              assert Meet(xs[i + 1], ys[i + 1]).None?;
            }
          }
          Err(e)
        case Ok(rest) =>
          assert DimsCompatible(xs, ys, xOpen, yOpen) by {
            forall i | 0 <= i < |xs| && i < |ys|
              ensures Meet(xs[i], ys[i]).Some?
            {
              if i > 0 {
                assert Meet(xs[1..][i - 1], ys[1..][i - 1]).Some?;
              }
            }
          }
          assert forall i :: 1 <= i < 1 + |rest| ==> ([d] + rest)[i] == ZipDim(xs, ys, i) by {
            forall i | 1 <= i < 1 + |rest|
              ensures ([d] + rest)[i] == ZipDim(xs, ys, i)
            {
              assert rest[i - 1] == ZipDim(xs[1..], ys[1..], i - 1);
            }
          }
          Ok([d] + rest)
  }

  /** `unify_shape`: unify the dimensions position by position; the result
      is open exactly when both inputs are open. */
  function UnifyShape(x: ShapeFact, y: ShapeFact): (r: Result<ShapeFact, UnifyError>)
    ensures r.Ok? <==> DimsCompatible(x.dims, y.dims, x.open, y.open)
    ensures r.Ok? ==> (r.value.open <==> x.open && y.open)
    ensures r.Ok? ==> |r.value.dims| == Max(|x.dims|, |y.dims|)
    ensures r.Err? ==> (r.error == DimMismatch <==> SomeDimClash(x.dims, y.dims))
    ensures r.Err? ==> r.error == DimMismatch || r.error == RankMismatch
  {
    match UnifyDims(x.dims, y.dims, x.open, y.open)
    case Err(e) => Err(e)
    case Ok(dims) => Ok(ShapeFact(x.open && y.open, dims))
  }

  /** `unify`: the three components are unified in turn and the first
      failure is reported; on success the result is their combination. */
  function Unify(x: TensorFact, y: TensorFact): (r: Result<TensorFact, UnifyError>)
    ensures r.Ok? <==>
      UnifyDatatype(x.datumType, y.datumType).Ok? && UnifyShape(x.shape, y.shape).Ok? && UnifyValue(x.value, y.value).Ok?
    ensures r.Ok? ==>
      && r.value.datumType == UnifyDatatype(x.datumType, y.datumType).value
      && r.value.shape == UnifyShape(x.shape, y.shape).value
      && r.value.value == UnifyValue(x.value, y.value).value
    ensures UnifyDatatype(x.datumType, y.datumType).Err? ==> r == Err(DatatypeMismatch)
    ensures UnifyDatatype(x.datumType, y.datumType).Ok? && UnifyShape(x.shape, y.shape).Err?
            ==> r == Err(UnifyShape(x.shape, y.shape).error)
  {
    var datumType :- UnifyDatatype(x.datumType, y.datumType);
    var shape :- UnifyShape(x.shape, y.shape);
    var value :- UnifyValue(x.value, y.value);
    Ok(TensorFact(datumType, shape, value))
  }

  /** Unifying a shape with itself gives it back. */
  lemma UnifyShapeIdempotent(s: ShapeFact)
    ensures UnifyShape(s, s) == Ok(s)
  {
    var r := UnifyDims(s.dims, s.dims, s.open, s.open);
    assert DimsCompatible(s.dims, s.dims, s.open, s.open);
    assert r.value == s.dims;
  }

  /** A known dimension beats `Any`, two different known dimensions fail,
      and the extra dimensions of the longer shape are kept as they are. */
  lemma UnifyShapeDims(x: ShapeFact, y: ShapeFact, i: nat)
    requires i < |x.dims| || i < |y.dims|
    ensures (i < |x.dims| && i < |y.dims| && x.dims[i].Only? && y.dims[i].Only?
             && x.dims[i] != y.dims[i]) ==> UnifyShape(x, y) == Err(DimMismatch)
    ensures UnifyShape(x, y).Ok? && i < |x.dims| && i < |y.dims| && x.dims[i].Only?
            ==> UnifyShape(x, y).value.dims[i] == x.dims[i]
    ensures UnifyShape(x, y).Ok? && i < |x.dims| && i < |y.dims| && y.dims[i].Only?
            ==> UnifyShape(x, y).value.dims[i] == y.dims[i]
    ensures UnifyShape(x, y).Ok? && |y.dims| <= i ==> UnifyShape(x, y).value.dims[i] == x.dims[i]
    ensures UnifyShape(x, y).Ok? && |x.dims| <= i ==> UnifyShape(x, y).value.dims[i] == y.dims[i]
  {
    var r := UnifyDims(x.dims, y.dims, x.open, y.open);
    if i < |x.dims| && i < |y.dims| && Meet(x.dims[i], y.dims[i]).None? {
      assert SomeDimClash(x.dims, y.dims);
    }
    if r.Ok? {
      assert r.value[i] == ZipDim(x.dims, y.dims, i);
    }
  }

  /** Two closed shapes of different rank never unify. */
  lemma UnifyClosedRankMismatch(x: ShapeFact, y: ShapeFact)
    requires !x.open && !y.open && |x.dims| != |y.dims|
    ensures UnifyShape(x, y).Err?
  {
  }

  /** The result of `unify_shape` is below both inputs. */
  lemma UnifyShapeLowerBound(x: ShapeFact, y: ShapeFact)
    requires UnifyShape(x, y).Ok?
    ensures ShapeLe(UnifyShape(x, y).value, x) && ShapeLe(UnifyShape(x, y).value, y)
  {
    var r := UnifyShape(x, y).value;
    forall i | 0 <= i < |x.dims|
      ensures FactLe(r.dims[i], x.dims[i])
    {
      assert r.dims[i] == ZipDim(x.dims, y.dims, i);
    }
    forall i | 0 <= i < |y.dims|
      ensures FactLe(r.dims[i], y.dims[i])
    {
      assert r.dims[i] == ZipDim(x.dims, y.dims, i);
    }
  }

  /** Any shape below both inputs is below the result of `unify_shape`,
      which therefore succeeds: unification is the greatest lower bound. */
  lemma UnifyShapeGreatest(x: ShapeFact, y: ShapeFact, z: ShapeFact)
    requires ShapeLe(z, x) && ShapeLe(z, y)
    ensures UnifyShape(x, y).Ok? && ShapeLe(z, UnifyShape(x, y).value)
  {
    assert DimsCompatible(x.dims, y.dims, x.open, y.open) by {
      forall i | 0 <= i < |x.dims| && i < |y.dims|
        ensures Meet(x.dims[i], y.dims[i]).Some?
      {
        assert FactLe(z.dims[i], x.dims[i]) && FactLe(z.dims[i], y.dims[i]);
      }
    }
    var r := UnifyShape(x, y).value;
    forall i | 0 <= i < |r.dims|
      ensures FactLe(z.dims[i], r.dims[i])
    {
      assert r.dims[i] == ZipDim(x.dims, y.dims, i);
      if i < |x.dims| {
        assert FactLe(z.dims[i], x.dims[i]);
      }
      if i < |y.dims| {
        assert FactLe(z.dims[i], y.dims[i]);
      }
    }
  }

  /** A concrete shape agrees with the unification of two shapes exactly
      when it agrees with both; when unification fails, no shape agrees
      with both. */
  lemma UnifyShapeAdmits(x: ShapeFact, y: ShapeFact, c: seq<nat>)
    ensures UnifyShape(x, y).Ok? ==>
      (ShapeAdmits(UnifyShape(x, y).value, c) <==> ShapeAdmits(x, c) && ShapeAdmits(y, c))
    ensures UnifyShape(x, y).Err? ==> !(ShapeAdmits(x, c) && ShapeAdmits(y, c))
  {
    if ShapeAdmits(x, c) && ShapeAdmits(y, c) {
      var z := ShapeFact(false, seq(|c|, i requires 0 <= i < |c| => Only(c[i])));
      assert ShapeLe(z, x) && ShapeLe(z, y);
      UnifyShapeGreatest(x, y, z);
      assert ShapeAdmits(UnifyShape(x, y).value, c);
    }
    if UnifyShape(x, y).Ok? && ShapeAdmits(UnifyShape(x, y).value, c) {
      UnifyShapeLowerBound(x, y);
      ShapeLeSound(UnifyShape(x, y).value, x, c);
      ShapeLeSound(UnifyShape(x, y).value, y, c);
    }
  }

  /** `unify` computes a lower bound of its two arguments. */
  lemma UnifyLowerBound(x: TensorFact, y: TensorFact)
    requires Unify(x, y).Ok?
    ensures Le(Unify(x, y).value, x) && Le(Unify(x, y).value, y)
  {
    UnifyShapeLowerBound(x.shape, y.shape);
  }

  /** `unify` succeeds whenever some fact refines both arguments, and its
      result is the greatest such fact. */
  lemma UnifyGreatest(x: TensorFact, y: TensorFact, z: TensorFact)
    requires Le(z, x) && Le(z, y)
    ensures Unify(x, y).Ok? && Le(z, Unify(x, y).value)
  {
    UnifyShapeGreatest(x.shape, y.shape, z.shape);
  }

  /** Shape unification does not depend on the order of its arguments,
      neither in the shape it builds nor in the error it reports. */
  lemma UnifyShapeCommutes(x: ShapeFact, y: ShapeFact)
    ensures UnifyShape(x, y) == UnifyShape(y, x)
  {
    var ux := UnifyShape(x, y);
    var uy := UnifyShape(y, x);
    assert SomeDimClash(x.dims, y.dims) ==> SomeDimClash(y.dims, x.dims) by {
      if SomeDimClash(x.dims, y.dims) {
        var i :| 0 <= i < |x.dims| && i < |y.dims| && Meet(x.dims[i], y.dims[i]).None?;
        assert Meet(y.dims[i], x.dims[i]).None?;
      }
    }
    assert SomeDimClash(y.dims, x.dims) ==> SomeDimClash(x.dims, y.dims) by {
      if SomeDimClash(y.dims, x.dims) {
        var i :| 0 <= i < |y.dims| && i < |x.dims| && Meet(y.dims[i], x.dims[i]).None?;
        assert Meet(x.dims[i], y.dims[i]).None?;
      }
    }
    if ux.Ok? {
      assert DimsCompatible(y.dims, x.dims, y.open, x.open) by {
        forall i | 0 <= i < |y.dims| && i < |x.dims|
          ensures Meet(y.dims[i], x.dims[i]).Some?
        {
          assert Meet(x.dims[i], y.dims[i]).Some?;
        }
      }
      UnifyShapeLowerBound(x, y);
      UnifyShapeLowerBound(y, x);
      UnifyShapeGreatest(x, y, uy.value);
      UnifyShapeGreatest(y, x, ux.value);
      assert ux.value.dims == uy.value.dims;
    }
  }

  /** The order of the arguments of `unify` does not matter, errors included. */
  lemma UnifyCommutes(x: TensorFact, y: TensorFact)
    ensures Unify(x, y) == Unify(y, x)
  {
    UnifyShapeCommutes(x.shape, y.shape);
  }

  /** Unifying again with the same fact changes nothing: this is why `hint`
      may meet an edge twice without effect. */
  lemma UnifyAbsorbs(f: TensorFact, e: TensorFact)
    requires Unify(f, e).Ok?
    ensures Unify(f, Unify(f, e).value) == Ok(Unify(f, e).value)
  {
    var r := Unify(f, e).value;
    UnifyLowerBound(f, e);
    LeReflexive(r);
    UnifyGreatest(f, r, r);
    UnifyLowerBound(f, r);
    LeAntisymmetric(r, Unify(f, r).value);
  }
}
