/** The "multipliers" of the static-data baker. Before positions or offsets are packed, they are
    divided by a multiplier so that they fall in [-1, 1]; the engine multiplies them back.
    Each multiplier is the largest absolute component over the measured vectors, padded by
    the precision offset, scaled, rounded up to an integer and clamped to at least 1. */
module Multipliers {
  import opened Wrappers
  import opened Numeric

  /** The baker settings every multiplier reads: the precision offset (at least 1.0 in the
      user interface), the export scale (at least 0.001) and an optional origin object whose
      location positions are taken relative to. */
  datatype MultiplierSettings = MultiplierSettings(precisionOffset: real, scale: real, origin: Option<Vec3>)

  /** The settings the user interface allows, or any weaker choice that keeps the bound:
      a non-negative precision offset and a positive scale. */
  predicate Sane(s: MultiplierSettings) {
    s.precisionOffset >= 0.0 && s.scale > 0.0
  }

  // ---------------------------------------------------------------------------
  // The shared tail: largest component, padding, ceiling, clamp
  // ---------------------------------------------------------------------------

  function LargestComponent(v: Vec3): (r: real)
    ensures r >= Abs(v.x) && r >= Abs(v.y) && r >= Abs(v.z)
    ensures r == Abs(v.x) || r == Abs(v.y) || r == Abs(v.z)
  {
    MaxReal(Abs(v.x), MaxReal(Abs(v.y), Abs(v.z)))
  }

  /** The running maximum the source keeps while looping over the measured vectors, starting
      from 0.0. */
  function LargestOver(vs: seq<Vec3>): (r: real)
    ensures r >= 0.0
  {
    if |vs| == 0 then 0.0 else MaxReal(LargestOver(vs[..|vs| - 1]), LargestComponent(vs[|vs| - 1]))
  }

  /** The running maximum bounds every component of every vector, and it is either the
      starting 0.0 or attained by one of them. */
  lemma {:induction false} LargestOverBounds(vs: seq<Vec3>)
    ensures forall v :: v in vs ==> LargestComponent(v) <= LargestOver(vs)
    ensures LargestOver(vs) == 0.0 || exists v :: v in vs && LargestOver(vs) == LargestComponent(v)
  {
    if |vs| > 0 {
      var init := vs[..|vs| - 1];
      LargestOverBounds(init);
      assert vs == init + [vs[|vs| - 1]];
      forall v | v in vs
        ensures LargestComponent(v) <= LargestOver(vs)
      {
        if v != vs[|vs| - 1] {
          assert v in init;
        }
      }
      if LargestOver(vs) != 0.0 && LargestOver(vs) != LargestComponent(vs[|vs| - 1]) {
        var w :| w in init && LargestOver(init) == LargestComponent(w);
        assert w in vs;
      }
    }
  }

  /** The multiplier computed from a largest component. */
  function Multiplier(largest: real, precisionOffset: real, scale: real): (r: int)
    ensures r >= 1
    ensures largest > 0.0 ==> (largest + precisionOffset) * scale <= r as real
    ensures largest <= 0.0 ==> r == 1
    ensures r == 1 || (r - 1) as real < (largest + precisionOffset) * scale
  {
    var padded := if largest > 0.0 then (largest + precisionOffset) * scale else 0.0;
    MaxInt(Ceil(padded), 1)
  }

  /** Scaling is monotone in the absolute value for a positive scale. */
  lemma ScaleBound(x: real, bound: real, scale: real)
    requires Abs(x) <= bound && scale > 0.0
    ensures Abs(x * scale) <= bound * scale
  {
    if x >= 0.0 {
      MulCancel(x, bound, scale);
    } else {
      MulCancel(-x, bound, scale);
      assert Abs(x * scale) == (-x) * scale;
    }
  }

  /** A value, scaled, is within `bound` in magnitude. */
  predicate Within(x: real, scale: real, bound: real) {
    Abs(x * scale) <= bound
  }

  /** A value no larger in magnitude than the largest component, once scaled, is within the
      multiplier. */
  lemma MultiplierBounds(x: real, largest: real, precisionOffset: real, scale: real)
    requires Abs(x) <= largest && precisionOffset >= 0.0 && scale > 0.0
    ensures Within(x, scale, Multiplier(largest, precisionOffset, scale) as real)
  {
    var m := Multiplier(largest, precisionOffset, scale);
    ScaleBound(x, largest + precisionOffset, scale);
    if largest > 0.0 {
      assert (largest + precisionOffset) * scale <= m as real;
    } else {
      assert x == 0.0;
    }
  }

  /** The property the multiplier exists for: any value no larger in magnitude than the
      largest component, once scaled and divided by the multiplier, lies in [-1, 1]. */
  lemma MultiplierNormalises(x: real, largest: real, precisionOffset: real, scale: real)
    requires Abs(x) <= largest && precisionOffset >= 0.0 && scale > 0.0
    ensures -1.0 <= x * scale / Multiplier(largest, precisionOffset, scale) as real <= 1.0
  {
    MultiplierBounds(x, largest, precisionOffset, scale);
    UnitQuotient(x * scale, Multiplier(largest, precisionOffset, scale) as real);
  }

  lemma UnitQuotient(y: real, m: real)
    requires m > 0.0 && Abs(y) <= m
    ensures -1.0 <= y / m <= 1.0
  {
    var q := y / m;
    assert q * m == y;
    if q > 1.0 {
      MulCancel(1.0, q, m);
    } else if q < -1.0 {
      MulCancel(-q, 1.0, m);
    }
  }

  /** Every component of `v`, scaled, is within `bound` in magnitude. */
  predicate ScaledWithin(v: Vec3, scale: real, bound: real) {
    Within(v.x, scale, bound) && Within(v.y, scale, bound) && Within(v.z, scale, bound)
  }

  /** Every component of a vector whose largest component is within `largest`, once scaled,
      is within the multiplier for `largest`. */
  lemma MultiplierBoundsVector(v: Vec3, largest: real, precisionOffset: real, scale: real)
    requires LargestComponent(v) <= largest && precisionOffset >= 0.0 && scale > 0.0
    ensures ScaledWithin(v, scale, Multiplier(largest, precisionOffset, scale) as real)
  {
    MultiplierBounds(v.x, largest, precisionOffset, scale);
    MultiplierBounds(v.y, largest, precisionOffset, scale);
    MultiplierBounds(v.z, largest, precisionOffset, scale);
  }

  /** Every component of a vector, once scaled, is bounded by the multiplier computed over any
      collection of vectors that contains it. */
  lemma MultiplierBoundsMember(v: Vec3, vs: seq<Vec3>, precisionOffset: real, scale: real)
    requires v in vs && precisionOffset >= 0.0 && scale > 0.0
    ensures ScaledWithin(v, scale, Multiplier(LargestOver(vs), precisionOffset, scale) as real)
  {
    LargestOverBounds(vs);
    MultiplierBoundsVector(v, LargestOver(vs), precisionOffset, scale);
  }

  function Minus(a: Vec3, b: Vec3): Vec3 {
    Vec3(a.x - b.x, a.y - b.y, a.z - b.z)
  }

  /** A location relative to the origin object, when there is one. */
  function Relative(location: Vec3, origin: Option<Vec3>): Vec3 {
    if origin.Some? then Minus(location, origin.value) else location
  }

  // ---------------------------------------------------------------------------
  // Into the unit interval before packing
  // ---------------------------------------------------------------------------

  function ClampUnit(x: real): (r: real)
    ensures -1.0 <= r <= 1.0
    ensures -1.0 <= x <= 1.0 ==> r == x
  {
    if x > 1.0 then 1.0 else if x < -1.0 then -1.0 else x
  }

  /** What the packed parent bake does to a scaled component before packing it: divide by
      the multiplier, clamp to [-1, 1], and shift into [0, 1]. */
  function ToUnitInterval(x: real, multiplier: int): (r: real)
    requires multiplier >= 1
    ensures 0.0 <= r <= 1.0
  {
    (ClampUnit(x * (1.0 / multiplier as real)) + 1.0) * 0.5
  }

  /** Within the multiplier the clamp never bites, so the engine's decode `(r * 2 - 1) * m`
      gives the component back exactly. */
  lemma ToUnitRoundTrip(x: real, multiplier: int)
    requires multiplier >= 1 && Abs(x) <= multiplier as real
    ensures (ToUnitInterval(x, multiplier) * 2.0 - 1.0) * multiplier as real == x
  {
    var m := multiplier as real;
    assert x * (1.0 / m) == x / m;
    UnitQuotient(x, m);
    assert x / m * m == x;
  }

  // ---------------------------------------------------------------------------
  // Scene objects
  // ---------------------------------------------------------------------------

  datatype ObjectKind = Mesh | Empty | OtherKind

  /** An object of the scene: its type, its world location and its parent, if any. */
  datatype SceneObject = SceneObject(kind: ObjectKind, location: Vec3, parent: Option<SceneObject>)

  /** Only meshes and empties carry baked data or count as parents. */
  predicate Bakeable(o: SceneObject) {
    o.kind == Mesh || o.kind == Empty
  }

  // ---------------------------------------------------------------------------
  // Position multiplier
  // ---------------------------------------------------------------------------

  /** The measured locations: those of the objects that count, each relative to the origin.
      With a transform object every listed object counts; otherwise only meshes and empties. */
  function PositionSamples(objs: seq<SceneObject>, anyKind: bool, origin: Option<Vec3>): seq<Vec3> {
    if |objs| == 0 then []
    else
      var last := objs[|objs| - 1];
      PositionSamples(objs[..|objs| - 1], anyKind, origin)
        + (if anyKind || Bakeable(last) then [Relative(last.location, origin)] else [])
  }

  /** Every object that counts contributes its relative location, and nothing else does. */
  lemma {:induction false} PositionSamplesMembers(objs: seq<SceneObject>, anyKind: bool, origin: Option<Vec3>)
    ensures forall o :: o in objs && (anyKind || Bakeable(o)) ==>
      Relative(o.location, origin) in PositionSamples(objs, anyKind, origin)
    ensures forall v :: v in PositionSamples(objs, anyKind, origin) ==>
      exists o :: o in objs && (anyKind || Bakeable(o)) && v == Relative(o.location, origin)
  {
    if |objs| > 0 {
      var init := objs[..|objs| - 1];
      PositionSamplesMembers(init, anyKind, origin);
      assert objs == init + [objs[|objs| - 1]];
      forall o | o in objs && (anyKind || Bakeable(o))
        ensures Relative(o.location, origin) in PositionSamples(objs, anyKind, origin)
      {
        if o != objs[|objs| - 1] {
          assert o in init;
        }
      }
      forall v | v in PositionSamples(objs, anyKind, origin)
        ensures exists o :: o in objs && (anyKind || Bakeable(o)) && v == Relative(o.location, origin)
      {
        if v in PositionSamples(init, anyKind, origin) {
          var o :| o in init && (anyKind || Bakeable(o)) && v == Relative(o.location, origin);
          assert o in objs;
        } else {
          assert objs[|objs| - 1] in objs;
        }
      }
    }
  }

  /** The objects measured for positions: the transform object alone when one is set, the
      selection otherwise. */
  function PositionObjects(transform: Option<SceneObject>, selected: seq<SceneObject>): seq<SceneObject> {
    if transform.Some? then [transform.value] else selected
  }

  /** The position multiplier normalises the baked position of every object it looks at:
      the transform object, or each selected mesh or empty. */
  function PositionMultiplier(s: MultiplierSettings, transform: Option<SceneObject>, selected: seq<SceneObject>): (r: int)
    ensures r >= 1
    ensures Sane(s) && transform.Some? ==> ScaledWithin(Relative(transform.value.location, s.origin), s.scale, r as real)
    ensures Sane(s) && transform.None? ==>
      forall o :: o in selected && Bakeable(o) ==> ScaledWithin(Relative(o.location, s.origin), s.scale, r as real)
  {
    var objs := PositionObjects(transform, selected);
    var samples := PositionSamples(objs, transform.Some?, s.origin);
    var r := Multiplier(LargestOver(samples), s.precisionOffset, s.scale);
    assert Sane(s) ==> forall o :: o in objs && (transform.Some? || Bakeable(o)) ==>
      ScaledWithin(Relative(o.location, s.origin), s.scale, r as real) by {
      if Sane(s) {
        PositionSamplesMembers(objs, transform.Some?, s.origin);
        forall o | o in objs && (transform.Some? || Bakeable(o))
          ensures ScaledWithin(Relative(o.location, s.origin), s.scale, r as real)
        {
          MultiplierBoundsMember(Relative(o.location, s.origin), samples, s.precisionOffset, s.scale);
        }
      }
    }
    assert transform.Some? ==> transform.value in objs;
    r
  }

  // ---------------------------------------------------------------------------
  // Shape-key offset multiplier
  // ---------------------------------------------------------------------------

  /** A mesh with shape keys: the vertex each face corner (loop) uses, and the vertex
      positions of every key block by name. */
  datatype KeyedMesh = KeyedMesh(vertexCount: nat, loopVertices: seq<nat>, keyBlocks: map<string, seq<Vec3>>)

  /** What the host guarantees: loops use existing vertices and every key block holds one
      position per vertex. */
  predicate WellFormed(m: KeyedMesh) {
    && (forall l :: 0 <= l < |m.loopVertices| ==> m.loopVertices[l] < m.vertexCount)
    && (forall name :: name in m.keyBlocks ==> |m.keyBlocks[name]| == m.vertexCount)
  }

  predicate HasKeys(m: KeyedMesh, key: string, restKey: string) {
    key in m.keyBlocks && restKey in m.keyBlocks
  }

  /** The offset of loop `l`'s vertex between the shape key and the rest key. */
  function LoopOffset(m: KeyedMesh, key: string, restKey: string, l: nat): Vec3
    requires WellFormed(m) && HasKeys(m, key, restKey) && l < |m.loopVertices|
  {
    var v := m.loopVertices[l];
    Minus(m.keyBlocks[key][v], m.keyBlocks[restKey][v])
  }

  function MeshOffsets(m: KeyedMesh, key: string, restKey: string): (r: seq<Vec3>)
    requires WellFormed(m)
    ensures |r| == (if HasKeys(m, key, restKey) then |m.loopVertices| else 0)
  {
    if HasKeys(m, key, restKey) then seq(|m.loopVertices|, l requires 0 <= l < |m.loopVertices| => LoopOffset(m, key, restKey, l))
    else []
  }

  /** All offsets measured over the selection, mesh after mesh; meshes lacking either key
      contribute nothing. */
  function ShapekeyOffsets(meshes: seq<KeyedMesh>, key: string, restKey: string): seq<Vec3>
    requires forall i :: 0 <= i < |meshes| ==> WellFormed(meshes[i])
  {
    if |meshes| == 0 then []
    else ShapekeyOffsets(meshes[..|meshes| - 1], key, restKey) + MeshOffsets(meshes[|meshes| - 1], key, restKey)
  }

  lemma {:induction false} ShapekeyOffsetsContain(meshes: seq<KeyedMesh>, key: string, restKey: string, i: nat, l: nat)
    requires forall j :: 0 <= j < |meshes| ==> WellFormed(meshes[j])
    requires i < |meshes| && HasKeys(meshes[i], key, restKey) && l < |meshes[i].loopVertices|
    ensures LoopOffset(meshes[i], key, restKey, l) in ShapekeyOffsets(meshes, key, restKey)
  {
    var n := |meshes| - 1;
    if i < n {
      ShapekeyOffsetsContain(meshes[..n], key, restKey, i, l);
    } else {
      assert MeshOffsets(meshes[n], key, restKey)[l] == LoopOffset(meshes[i], key, restKey, l);
    }
  }

  /** The shape-key multiplier normalises the offset of every loop of every mesh carrying both
      keys. */
  function ShapekeyMultiplier(s: MultiplierSettings, meshes: seq<KeyedMesh>, key: string, restKey: string): (r: int)
    requires forall i :: 0 <= i < |meshes| ==> WellFormed(meshes[i])
    ensures r >= 1
    ensures Sane(s) ==>
      forall i, l :: 0 <= i < |meshes| && HasKeys(meshes[i], key, restKey) && 0 <= l < |meshes[i].loopVertices|
        ==> ScaledWithin(LoopOffset(meshes[i], key, restKey, l), s.scale, r as real)
  {
    var offsets := ShapekeyOffsets(meshes, key, restKey);
    var r := Multiplier(LargestOver(offsets), s.precisionOffset, s.scale);
    assert Sane(s) ==>
      forall i, l :: 0 <= i < |meshes| && HasKeys(meshes[i], key, restKey) && 0 <= l < |meshes[i].loopVertices|
        ==> ScaledWithin(LoopOffset(meshes[i], key, restKey, l), s.scale, r as real) by {
      if Sane(s) {
        forall i, l | 0 <= i < |meshes| && HasKeys(meshes[i], key, restKey) && 0 <= l < |meshes[i].loopVertices|
          ensures ScaledWithin(LoopOffset(meshes[i], key, restKey, l), s.scale, r as real)
        {
          ShapekeyOffsetsContain(meshes, key, restKey, i, l);
          MultiplierBoundsMember(LoopOffset(meshes[i], key, restKey, l), offsets, s.precisionOffset, s.scale);
        }
      }
    }
    r
  }

  // ---------------------------------------------------------------------------
  // Parent hierarchy as the parent bake sees it
  // ---------------------------------------------------------------------------

  datatype ParentMode = Automatic | Manual

  /** The parent-bake settings: the mode, the manual depth, the maximum depth, and the
      settings shared by all multipliers. */
  datatype ParentSettings = ParentSettings(mode: ParentMode, depth: int, maxDepth: int, common: MultiplierSettings)

  /** An object has a parent the bake walks to: one that exists and is a mesh or an empty. */
  predicate HasValidParent(o: SceneObject) {
    o.parent.Some? && Bakeable(o.parent.value)
  }

  /** The hierarchy walk of the parent bake: at most `n` valid ancestors, nearest first. */
  function Ancestors(o: SceneObject, n: nat): (r: seq<SceneObject>)
    ensures |r| <= n
    decreases n
  {
    if n == 0 || !HasValidParent(o) then [] else [o.parent.value] + Ancestors(o.parent.value, n - 1)
  }

  /** The list the bake loops over: the ancestors root first, padded with "no parent" up to
      the maximum depth. */
  function ParentLevels(o: SceneObject, maxDepth: nat): (r: seq<Option<SceneObject>>)
    ensures |r| == maxDepth
  {
    var chain := Ancestors(o, maxDepth);
    seq(|chain|, i requires 0 <= i < |chain| => Some(chain[|chain| - 1 - i]))
      + seq(maxDepth - |chain|, _ => None)
  }

  /** The only depth manual mode processes: the clamped manual depth plus one. */
  function ManualTarget(depth: int, maxDepth: int): int {
    MaxInt(MinInt(depth, maxDepth), 1) + 1
  }

  /** The parents whose data the bake writes: every present level in automatic mode, only
      the level at the manual target otherwise. */
  function BakedParents(levels: seq<Option<SceneObject>>, mode: ParentMode, target: int): seq<SceneObject> {
    if |levels| == 0 then []
    else
      var d := |levels| - 1;
      var earlier := BakedParents(levels[..d], mode, target);
      if (mode == Manual && d != target) || levels[d].None? then earlier else earlier + [levels[d].value]
  }

  /** In automatic mode the bake writes exactly the ancestors of the walk. */
  lemma {:induction false} AutomaticBakesAncestors(levels: seq<Option<SceneObject>>, target: int)
    ensures forall p :: p in BakedParents(levels, Automatic, target) <==> Some(p) in levels
  {
    if |levels| > 0 {
      var d := |levels| - 1;
      AutomaticBakesAncestors(levels[..d], target);
      assert levels == levels[..d] + [levels[d]];
    }
  }

  lemma LevelsHoldAncestors(o: SceneObject, maxDepth: nat)
    ensures forall p :: Some(p) in ParentLevels(o, maxDepth) <==> p in Ancestors(o, maxDepth)
  {
    var chain := Ancestors(o, maxDepth);
    var levels := ParentLevels(o, maxDepth);
    forall p | p in chain
      ensures Some(p) in levels
    {
      var i :| 0 <= i < |chain| && chain[i] == p;
      assert levels[|chain| - 1 - i] == Some(p);
    }
  }

  /** In manual mode the bake writes at most one parent: the one at the target level. */
  lemma {:induction false} ManualBakesTarget(levels: seq<Option<SceneObject>>, target: int)
    ensures BakedParents(levels, Manual, target)
      == if 0 <= target < |levels| && levels[target].Some? then [levels[target].value] else []
  {
    if |levels| > 0 {
      var d := |levels| - 1;
      ManualBakesTarget(levels[..d], target);
    }
  }

  // ---------------------------------------------------------------------------
  // Parent position multiplier
  // ---------------------------------------------------------------------------

  datatype MultiplierError = NoSelectedObject

  /** The hierarchy walk of the parent multiplier as written: at depth index `d`, stop unless
      the current object has a valid parent; in manual mode skip every index but the target
      WITHOUT moving up; otherwise move to the parent and record it. */
  function WalkAsWritten(p: SceneObject, d: nat, maxDepth: nat, mode: ParentMode, target: int): seq<SceneObject>
    decreases maxDepth - d
  {
    if d >= maxDepth || !HasValidParent(p) then []
    else if mode == Manual && d != target then WalkAsWritten(p, d + 1, maxDepth, mode, target)
    else [p.parent.value] + WalkAsWritten(p.parent.value, d + 1, maxDepth, mode, target)
  }

  /** In automatic mode the walk is the same hierarchy walk the bake makes. */
  lemma {:induction false} AutomaticWalkIsAncestors(p: SceneObject, d: nat, maxDepth: nat, target: int)
    requires d <= maxDepth
    ensures WalkAsWritten(p, d, maxDepth, Automatic, target) == Ancestors(p, maxDepth - d)
    decreases maxDepth - d
  {
    if d < maxDepth && HasValidParent(p) {
      AutomaticWalkIsAncestors(p.parent.value, d + 1, maxDepth, target);
    }
  }

  lemma {:induction false} ManualWalkPastTarget(p: SceneObject, d: nat, maxDepth: nat, target: int)
    requires d > target
    ensures WalkAsWritten(p, d, maxDepth, Manual, target) == []
    decreases maxDepth - d
  {
    if d < maxDepth && HasValidParent(p) {
      ManualWalkPastTarget(p, d + 1, maxDepth, target);
    }
  }

  /** In manual mode the walk never moves up before the target index, so it records the
      immediate parent at most, whatever the target depth. */
  lemma {:induction false} ManualWalkIsImmediateParent(p: SceneObject, d: nat, maxDepth: nat, target: int)
    requires d <= target
    ensures WalkAsWritten(p, d, maxDepth, Manual, target)
      == if target < maxDepth && HasValidParent(p) then [p.parent.value] else []
    decreases maxDepth - d
  {
    if d < maxDepth && HasValidParent(p) {
      if d != target {
        ManualWalkIsImmediateParent(p, d + 1, maxDepth, target);
      } else {
        ManualWalkPastTarget(p.parent.value, d + 1, maxDepth, target);
      }
    }
  }

  function Locations(objs: seq<SceneObject>, origin: Option<Vec3>): (r: seq<Vec3>)
    ensures |r| == |objs|
    ensures forall i :: 0 <= i < |objs| ==> r[i] == Relative(objs[i].location, origin)
  {
    seq(|objs|, i requires 0 <= i < |objs| => Relative(objs[i].location, origin))
  }

  /** The parent multiplier as written. A maximum depth of zero or less gives 0; without a
      transform object the source reads an attribute the host context does not have, which
      raises. Otherwise it measures the locations its own walk visits. */
  function ParentMultiplierAsWritten(s: ParentSettings, transform: Option<SceneObject>): (r: Result<int, MultiplierError>)
    ensures r.Failure? <==> s.maxDepth > 0 && transform.None?
    ensures r.Success? ==> (r.value == 0 <==> s.maxDepth <= 0)
  {
    if s.maxDepth <= 0 then Success(0)
    else if transform.None? then Failure(NoSelectedObject)
    else
      var walked := WalkAsWritten(transform.value, 0, s.maxDepth, s.mode, ManualTarget(s.depth, s.maxDepth));
      Success(Multiplier(LargestOver(Locations(walked, s.common.origin)), s.common.precisionOffset, s.common.scale))
  }

  /** The parents the bake writes for one reference object. */
  function BakedParentsOf(s: ParentSettings, o: SceneObject): seq<SceneObject>
    requires s.maxDepth >= 0
  {
    BakedParents(ParentLevels(o, s.maxDepth), s.mode, ManualTarget(s.depth, s.maxDepth))
  }

  /** The world locations of the parents the bake writes, for each reference object in turn. */
  function BakedParentLocations(s: ParentSettings, refs: seq<SceneObject>): seq<Vec3>
    requires s.maxDepth >= 0
  {
    if |refs| == 0 then []
    else
      BakedParentLocations(s, refs[..|refs| - 1])
        + Locations(BakedParentsOf(s, refs[|refs| - 1]), None)
  }

  lemma {:induction false} BakedParentLocationsContain(s: ParentSettings, refs: seq<SceneObject>, o: SceneObject, p: SceneObject)
    requires s.maxDepth >= 0
    requires o in refs && p in BakedParentsOf(s, o)
    ensures p.location in BakedParentLocations(s, refs)
  {
    var n := |refs| - 1;
    if o == refs[n] {
      var i :| 0 <= i < |BakedParentsOf(s, o)| && BakedParentsOf(s, o)[i] == p;
      assert Locations(BakedParentsOf(s, o), None)[i] == p.location;
    } else {
      assert refs == refs[..n] + [refs[n]];
      BakedParentLocationsContain(s, refs[..n], o, p);
    }
  }

  /** The reference objects of the parent bake: the transform object when one is set, every
      baked mesh otherwise. */
  function ParentReferences(transform: Option<SceneObject>, meshes: seq<SceneObject>): seq<SceneObject> {
    if transform.Some? then [transform.value] else meshes
  }

  /** The corrected parent multiplier: the largest component over exactly the world
      locations the parent bake writes. It is 0 when there is no level to bake, and otherwise
      normalises every parent position the bake writes, in both modes. */
  function ParentMultiplier(s: ParentSettings, transform: Option<SceneObject>, meshes: seq<SceneObject>): (r: int)
    ensures r == 0 <==> s.maxDepth <= 0
    ensures Sane(s.common) && s.maxDepth > 0 ==>
      forall o, p :: o in ParentReferences(transform, meshes) && p in BakedParentsOf(s, o)
        ==> ScaledWithin(p.location, s.common.scale, r as real)
  {
    if s.maxDepth <= 0 then 0
    else
      var refs := ParentReferences(transform, meshes);
      var located := BakedParentLocations(s, refs);
      var r := Multiplier(LargestOver(located), s.common.precisionOffset, s.common.scale);
      assert Sane(s.common) ==>
        forall o, p :: o in refs && p in BakedParentsOf(s, o) ==> ScaledWithin(p.location, s.common.scale, r as real) by {
        if Sane(s.common) {
          forall o, p | o in refs && p in BakedParentsOf(s, o)
            ensures ScaledWithin(p.location, s.common.scale, r as real)
          {
            BakedParentLocationsContain(s, refs, o, p);
            MultiplierBoundsMember(p.location, located, s.common.precisionOffset, s.common.scale);
          }
        }
      }
      r
  }

  /** In automatic mode every ancestor the walk reaches is baked, so the corrected multiplier
      bounds each of them. */
  lemma AutomaticParentBounds(s: ParentSettings, transform: Option<SceneObject>, meshes: seq<SceneObject>,
                              o: SceneObject, p: SceneObject)
    requires Sane(s.common) && s.maxDepth > 0 && s.mode == Automatic
    requires o in ParentReferences(transform, meshes) && p in Ancestors(o, s.maxDepth)
    ensures ScaledWithin(p.location, s.common.scale, ParentMultiplier(s, transform, meshes) as real)
  {
    LevelsHoldAncestors(o, s.maxDepth);
    AutomaticBakesAncestors(ParentLevels(o, s.maxDepth), ManualTarget(s.depth, s.maxDepth));
  }

  /** A hierarchy where the as-written multiplier misses the baked parent: a mesh under four
      empties, the third of them (counting from the mesh) far from the origin. With maximum
      depth 4 and manual depth 1 the bake writes the parent at level 2 of the root-first list,
      which is that distant empty, but the walk only measured the mesh's immediate parent. */
  lemma ManualMultiplierMissesBakedParent()
    ensures var s := ParentSettings(Manual, 1, 4, MultiplierSettings(1.0, 1.0, None));
      var p4 := SceneObject(Empty, Vec3(0.0, 0.0, 0.0), None);
      var p3 := SceneObject(Empty, Vec3(0.0, 0.0, 0.0), Some(p4));
      var p2 := SceneObject(Empty, Vec3(50.0, 0.0, 0.0), Some(p3));
      var p1 := SceneObject(Empty, Vec3(1.0, 0.0, 0.0), Some(p2));
      var mesh := SceneObject(Mesh, Vec3(0.0, 0.0, 0.0), Some(p1));
      && ParentMultiplierAsWritten(s, Some(mesh)) == Success(2)
      && BakedParentsOf(s, mesh) == [p2]
      && Abs(p2.location.x * s.common.scale) > 2.0
      && ParentMultiplier(s, Some(mesh), []) == 51
  {
    var s := ParentSettings(Manual, 1, 4, MultiplierSettings(1.0, 1.0, None));
    var p4 := SceneObject(Empty, Vec3(0.0, 0.0, 0.0), None);
    var p3 := SceneObject(Empty, Vec3(0.0, 0.0, 0.0), Some(p4));
    var p2 := SceneObject(Empty, Vec3(50.0, 0.0, 0.0), Some(p3));
    var p1 := SceneObject(Empty, Vec3(1.0, 0.0, 0.0), Some(p2));
    var mesh := SceneObject(Mesh, Vec3(0.0, 0.0, 0.0), Some(p1));
    assert ManualTarget(1, 4) == 2;
    ManualWalkIsImmediateParent(mesh, 0, 4, 2);
    assert Locations([p1], None) == [p1.location];
    assert LargestOver([p1.location]) == 1.0;
    assert Ceil(2.0) == 2;
    assert Ancestors(p4, 1) == [];
    assert Ancestors(mesh, 4) == [p1, p2, p3, p4];
    var levels := ParentLevels(mesh, 4);
    assert levels == [Some(p4), Some(p3), Some(p2), Some(p1)];
    ManualBakesTarget(levels, 2);
    assert Locations([p2], None) == [p2.location];
    assert BakedParentLocations(s, [mesh]) == [] + [p2.location];
    assert LargestOver([p2.location]) == 50.0;
    assert Ceil(51.0) == 51;
  }
}
