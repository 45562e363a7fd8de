/**
  The similarity functions of `royalflush/similarity/function.py`: each walks
  the first layer map in its order and, for every layer, requires the same
  layer in the second map, stopping at the first one missing.

  Layer tensors are opaque values of type T; the Euclidean norm of their
  difference is a distance function passed in. The result is the vector the
  function builds; how `SimilarityVector` wraps it is not part of this model.
*/
module SimilarityFunction {
  import opened Wrappers
  import opened Dicts

  datatype SimilarityError =
    /** The ValueError naming the missing layer and the layers present in the second map. */
    | MissingLayer(layer: string, present: seq<string>)
    /** The TypeError raised by calling `typing.Dict()`. */
    | DictNotInstantiable

  /** Every layer of the first map is also a layer of the second. */
  predicate Covers<T>(layers1: Dict<string, T>, layers2: Dict<string, T>)
  {
    forall k | k in layers1.entries :: k in layers2.entries
  }

  /** Position m holds the first layer of `layers1` that `layers2` lacks. */
  predicate FirstMissingAt<T>(layers1: Dict<string, T>, layers2: Dict<string, T>, m: int)
  {
    && 0 <= m < |layers1.order|
    && layers1.order[m] !in layers2.entries
    && forall j | 0 <= j < m :: layers1.order[j] in layers2.entries
  }

  /**
    `OnesFunction.get_similarity_vector`: a vector with exactly the layers of
    `layers1`, in their order, each at 1, provided `layers2` has them all;
    otherwise the error names the first missing one.
  */
  method OnesVector<T>(layers1: Dict<string, T>, layers2: Dict<string, T>)
    returns (r: Result<Dict<string, real>, SimilarityError>)
    ensures r.Success? <==> Covers(layers1, layers2)
    ensures r.Success? ==> r.value.order == layers1.order && r.value.entries.Keys == layers1.entries.Keys
    ensures r.Success? ==> forall k | k in r.value.entries :: r.value.entries[k] == 1.0
    ensures r.Failure? ==> exists m :: FirstMissingAt(layers1, layers2, m)
                                       && r.error == MissingLayer(layers1.order[m], layers2.order)
  {
    var vector: Dict<string, real> := Empty();
    for i := 0 to |layers1.order|
      invariant vector.order == layers1.order[..i]
      invariant forall k | k in vector.entries :: vector.entries[k] == 1.0
      invariant forall j | 0 <= j < i :: layers1.order[j] in layers2.entries
    {
      var layer := layers1.order[i];
      if layer !in layers2.entries {
        assert FirstMissingAt(layers1, layers2, i);
        return Failure(MissingLayer(layer, layers2.order));
      }
      assert layer !in vector.entries by {
        assert forall j | 0 <= j < i :: layers1.order[j] != layer;
      }
      vector := Insert(vector, layer, 1.0);
      assert layers1.order[..i + 1] == layers1.order[..i] + [layer];
    }
    assert layers1.order[..|layers1.order|] == layers1.order;
    r := Success(vector);
  }

  /**
    `EuclideanDistanceFunction.get_similarity_vector`: a vector with exactly
    the layers of `layers1`, in their order, each at the distance between the
    two maps' values for that layer; layers only in `layers2` play no part.
    A layer missing from `layers2` is reported as in `OnesVector`.
  */
  method EuclideanVector<T>(layers1: Dict<string, T>, layers2: Dict<string, T>, dist: (T, T) -> real)
    returns (r: Result<Dict<string, real>, SimilarityError>)
    ensures r.Success? <==> Covers(layers1, layers2)
    ensures r.Success? ==> r.value.order == layers1.order && r.value.entries.Keys == layers1.entries.Keys
    ensures r.Success? ==> forall k | k in r.value.entries ::
      k in layers2.entries && r.value.entries[k] == dist(layers1.entries[k], layers2.entries[k])
    ensures r.Failure? ==> exists m :: FirstMissingAt(layers1, layers2, m)
                                       && r.error == MissingLayer(layers1.order[m], layers2.order)
  {
    var vector: Dict<string, real> := Empty();
    for i := 0 to |layers1.order|
      invariant vector.order == layers1.order[..i]
      invariant Distances(vector.entries, layers1.entries, layers2.entries, dist)
      invariant forall j | 0 <= j < i :: layers1.order[j] in layers2.entries
    {
      var layer := layers1.order[i];
      if layer !in layers2.entries {
        assert FirstMissingAt(layers1, layers2, i);
        return Failure(MissingLayer(layer, layers2.order));
      }
      assert layer !in vector.entries by {
        assert forall j | 0 <= j < i :: layers1.order[j] != layer;
      }
      var distance := dist(layers1.entries[layer], layers2.entries[layer]);
      DistancesGrow(vector.entries, layers1.entries, layers2.entries, dist, layer);
      vector := Insert(vector, layer, distance);
      assert layers1.order[..i + 1] == layers1.order[..i] + [layer];
    }
    assert layers1.order[..|layers1.order|] == layers1.order;
    r := Success(vector);
  }

  /** Every entry of the vector is the distance between the two maps' values for its layer. */
  ghost predicate Distances<T>(vector: map<string, real>, layers1: map<string, T>, layers2: map<string, T>,
                               dist: (T, T) -> real)
  {
    forall k | k in vector :: k in layers1 && k in layers2 && vector[k] == dist(layers1[k], layers2[k])
  }

  lemma DistancesGrow<T>(vector: map<string, real>, layers1: map<string, T>, layers2: map<string, T>,
                         dist: (T, T) -> real, layer: string)
    requires Distances(vector, layers1, layers2, dist) && layer in layers1 && layer in layers2
    ensures Distances(vector[layer := dist(layers1[layer], layers2[layer])], layers1, layers2, dist)
  {
  }

  /** Both functions as written: `typing.Dict()` raises before any layer is looked at. */
  function OnesVectorAsWritten<T>(layers1: Dict<string, T>, layers2: Dict<string, T>)
    : (r: Result<Dict<string, real>, SimilarityError>)
    ensures r.Failure? && r.error.DictNotInstantiable?
  {
    Failure(DictNotInstantiable)
  }

  function EuclideanVectorAsWritten<T>(layers1: Dict<string, T>, layers2: Dict<string, T>, dist: (T, T) -> real)
    : (r: Result<Dict<string, real>, SimilarityError>)
    ensures r.Failure? && r.error.DictNotInstantiable?
  {
    Failure(DictNotInstantiable)
  }

  /**
    Comparing a layer map with itself is covered, so `OnesVector` and
    `EuclideanVector` return a vector, yet the code as written fails on it.
  */
  lemma AsWrittenFailsOnCoveredLayers<T>(layers: Dict<string, T>, dist: (T, T) -> real)
    ensures Covers(layers, layers)
    ensures OnesVectorAsWritten(layers, layers).Failure?
    ensures EuclideanVectorAsWritten(layers, layers, dist).Failure?
  {
  }
}
