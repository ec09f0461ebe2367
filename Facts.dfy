/** The partial knowledge the analyser keeps about a tensor: its element
    type, its shape and its value, each possibly unknown. A fact stands for
    every concrete tensor that agrees with it; `Le(a, b)` says that `a` is at
    least as specific as `b`, and unification (module Unification) computes
    the greatest fact below two others. */
module Facts {

  /** Element types of tensors. */
  datatype DatumType = Bool | U8 | U16 | I8 | I16 | I32 | I64 | F16 | F32 | F64 | TDim | String

  /** A concrete tensor, treated as an opaque value with decidable equality. */
  datatype Tensor = Tensor(datumType: DatumType, shape: seq<nat>, elements: seq<int>)

  /** `Any` is the unknown element; `Only(v)` says the value is exactly `v`. */
  datatype Fact<T> = Any | Only(value: T)

  type TypeFact = Fact<DatumType>
  type DimFact = Fact<nat>
  type ValueFact = Fact<Tensor>

  /** The known leading dimensions of a shape; an open shape may have more
      dimensions after `dims`, a closed one has exactly `dims`. */
  datatype ShapeFact = ShapeFact(open: bool, dims: seq<DimFact>)

  datatype TensorFact = TensorFact(datumType: TypeFact, shape: ShapeFact, value: ValueFact)

  /** `TensorFact::new()`: nothing is known. */
  const Unknown: TensorFact := TensorFact(Any, ShapeFact(true, []), Any)

  /** `a` refines `b`: whatever `b` pins down, `a` pins down the same way. */
  predicate FactLe<T(==)>(a: Fact<T>, b: Fact<T>) {
    b.Any? || a == b
  }

  predicate ShapeLe(a: ShapeFact, b: ShapeFact) {
    && (b.open || (!a.open && |a.dims| == |b.dims|))
    && |b.dims| <= |a.dims|
    && forall i :: 0 <= i < |b.dims| ==> FactLe(a.dims[i], b.dims[i])
  }

  predicate Le(a: TensorFact, b: TensorFact) {
    FactLe(a.datumType, b.datumType) && ShapeLe(a.shape, b.shape) && FactLe(a.value, b.value)
  }

  /** A concrete shape agrees with a shape fact. */
  predicate ShapeAdmits(s: ShapeFact, c: seq<nat>) {
    && (if s.open then |s.dims| <= |c| else |s.dims| == |c|)
    && forall i :: 0 <= i < |s.dims| ==> FactLe(Only(c[i]), s.dims[i])
  }

  /** `Le` on shapes is exactly inclusion of the concrete shapes they admit:
      a more specific fact admits fewer shapes. */
  lemma ShapeLeSound(a: ShapeFact, b: ShapeFact, c: seq<nat>)
    requires ShapeLe(a, b) && ShapeAdmits(a, c)
    ensures ShapeAdmits(b, c)
  {
  }

  /** The converse of ShapeLeSound: when every shape `a` admits is admitted
      by `b`, then `a` refines `b`. The witnesses are the shapes obtained
      from `a` by filling each unknown dimension with 0 or 1, optionally
      followed by one extra dimension when `a` is open. */
  lemma {:induction false} ShapeLeComplete(a: ShapeFact, b: ShapeFact)
    requires forall c :: ShapeAdmits(a, c) ==> ShapeAdmits(b, c)
    ensures ShapeLe(a, b)
  {
    var c0 := Fill(a.dims, 0);
    assert ShapeAdmits(a, c0);
    assert ShapeAdmits(b, c0);
    if a.open {
      var c1 := c0 + [0];
      assert ShapeAdmits(a, c1);
      assert ShapeAdmits(b, c1);
      assert b.open;
    }
    forall i | 0 <= i < |b.dims|
      ensures FactLe(a.dims[i], b.dims[i])
    {
      if a.dims[i].Any? {
        var c1 := Fill(a.dims, 1);
        assert ShapeAdmits(a, c1);
        assert ShapeAdmits(b, c1);
        assert c0[i] != c1[i];
      }
    }
  }

  /** The concrete shape that puts `d` wherever `dims` is unknown. */
  function Fill(dims: seq<DimFact>, d: nat): (c: seq<nat>)
    ensures |c| == |dims|
    ensures forall i :: 0 <= i < |dims| ==> c[i] == (if dims[i].Only? then dims[i].value else d)
  {
    seq(|dims|, i requires 0 <= i < |dims| => if dims[i].Only? then dims[i].value else d)
  }

  lemma LeReflexive(a: TensorFact)
    ensures Le(a, a)
  {
  }

  lemma LeTransitive(a: TensorFact, b: TensorFact, c: TensorFact)
    requires Le(a, b) && Le(b, c)
    ensures Le(a, c)
  {
    assert ShapeLe(a.shape, c.shape) by {
      forall i | 0 <= i < |c.shape.dims|
        ensures FactLe(a.shape.dims[i], c.shape.dims[i])
      {
        assert FactLe(b.shape.dims[i], c.shape.dims[i]);
      }
    }
  }

  lemma LeAntisymmetric(a: TensorFact, b: TensorFact)
    requires Le(a, b) && Le(b, a)
    ensures a == b
  {
    assert a.shape.dims == b.shape.dims;
  }

  /** Nothing is less specific than the fact of a freshly created edge. */
  lemma UnknownIsTop(a: TensorFact)
    ensures Le(a, Unknown)
  {
  }
}
