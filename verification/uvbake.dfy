/** How the static-data baker writes one float into a UV map of a mesh, and how the parent
    bake hands out UV channels one after the other in automatic mode. A mesh is modelled by
    its loops (face corners) and its UV layers; every loop belongs to exactly one face, so
    visiting the faces' loops visits every loop once. */
module UVBake {
  import opened Wrappers
  import opened Numeric

  datatype Channel = U | V

  /** The UV coordinate of one loop: `u` is channel U, `v` is channel V. */
  datatype UV = UV(u: real, v: real)

  datatype Layer = Layer(name: string, uvs: seq<UV>)

  datatype MeshUV = MeshUV(loopCount: nat, layers: seq<Layer>)

  /** Every layer holds one coordinate per loop. */
  predicate WellFormed(m: MeshUV) {
    forall k :: 0 <= k < |m.layers| ==> |m.layers[k].uvs| == m.loopCount
  }

  /** The largest UV map index a mesh may have (eight maps). */
  const MaxUVIndex: int := 7

  // ---------------------------------------------------------------------------
  // Layer creation and naming
  // ---------------------------------------------------------------------------

  /** The coordinate a fresh layer starts with: 0 in U, and in V the value that reads back
      as 0 once the V flip is undone. */
  function FreshUV(invertV: bool): UV {
    UV(0.0, if invertV then 1.0 else 0.0)
  }

  /** Adds layers until index `uvIndex` exists. The host names new layers; `hostName` stands
      for that name. */
  function AddLayers(m: MeshUV, uvIndex: nat, invertV: bool, hostName: string): (r: MeshUV)
    requires WellFormed(m)
    ensures WellFormed(r) && r.loopCount == m.loopCount
    ensures |r.layers| == MaxInt(|m.layers|, uvIndex + 1)
    ensures r.layers[..|m.layers|] == m.layers
    ensures forall k :: |m.layers| <= k < |r.layers| ==>
      r.layers[k] == Layer(hostName, seq(m.loopCount, _ => FreshUV(invertV)))
    decreases uvIndex + 1 - |m.layers|
  {
    if uvIndex < |m.layers| then m
    else AddLayers(MeshUV(m.loopCount, m.layers + [Layer(hostName, seq(m.loopCount, _ => FreshUV(invertV)))]),
                   uvIndex, invertV, hostName)
  }

  /** The decimal digit of a UV map index. */
  function Digit(n: nat): char
    requires n <= 9
  {
    (48 + n) as char
  }

  /** The name the baked layer gets: the user's UV map name, or "UVMap.BakedData" when it is
      empty, followed by a dot and the index. */
  function LayerName(uvName: string, uvIndex: nat): (r: string)
    requires uvIndex <= MaxUVIndex
    ensures |r| >= 2 && r[|r| - 2] == '.' && r[|r| - 1] == Digit(uvIndex)
    ensures uvName != "" ==> |r| == |uvName| + 2 && r[..|uvName|] == uvName
  {
    (if uvName != "" then uvName else "UVMap.BakedData") + "." + [Digit(uvIndex)]
  }

  // ---------------------------------------------------------------------------
  // Writing one value
  // ---------------------------------------------------------------------------

  /** The value stored for `data`: as is in U; in V flipped to `1 - data` when the V axis is
      inverted for the target engine. */
  function Stored(data: real, channel: Channel, invertV: bool): real {
    if channel == V && invertV then 1.0 - data else data
  }

  /** What a reader undoing the flip recovers from a stored value. */
  function Read(stored: real, channel: Channel, invertV: bool): real {
    if channel == V && invertV then 1.0 - stored else stored
  }

  /** Reading back what was stored gives the data, in both channels and with or without the
      flip; and a fresh layer reads back as 0 in both channels. */
  lemma StoredReadsBack(data: real, channel: Channel, invertV: bool)
    ensures Read(Stored(data, channel, invertV), channel, invertV) == data
    ensures Read(FreshUV(invertV).u, U, invertV) == 0.0 && Read(FreshUV(invertV).v, V, invertV) == 0.0
  {
  }

  /** One coordinate with only the chosen channel replaced. */
  function WriteChannel(uv: UV, channel: Channel, value: real): (r: UV)
    ensures channel == U ==> r.u == value && r.v == uv.v
    ensures channel == V ==> r.v == value && r.u == uv.u
  {
    if channel == U then uv.(u := value) else uv.(v := value)
  }

  datatype BakeOutcome = Skipped | Written(mesh: MeshUV)

  datatype BakeError = LoopOutOfRange(loopId: nat, loopCount: nat)

  /** The UV path of the baker's write routine. An index outside [0, 7] is refused and the mesh
      is left alone. Otherwise missing layers are added, the target layer is renamed, and the
      value is written to the chosen channel of every loop, or of loop `loopId` alone when it
      is not negative; a mesh without loops has nothing to write, and a loop id past the last
      loop is an index error. */
  function BakeUV(m: MeshUV, data: real, uvIndex: int, channel: Channel, uvName: string,
                  invertV: bool, loopId: int, hostName: string): (r: Result<BakeOutcome, BakeError>)
    requires WellFormed(m)
    ensures r == Success(Skipped) <==> uvIndex < 0 || uvIndex > MaxUVIndex
    ensures r.Failure? <==> 0 <= uvIndex <= MaxUVIndex && 0 < m.loopCount <= loopId
    ensures r.Success? && r.value.Written? ==> WellFormed(r.value.mesh) && r.value.mesh.loopCount == m.loopCount
  {
    if uvIndex < 0 || uvIndex > MaxUVIndex then Success(Skipped)
    else
      var grown := AddLayers(m, uvIndex, invertV, hostName);
      var target := grown.layers[uvIndex];
      var value := Stored(data, channel, invertV);
      if loopId >= 0 && m.loopCount > 0 && loopId >= m.loopCount then Failure(LoopOutOfRange(loopId, m.loopCount))
      else
        var uvs :=
          if loopId < 0 then seq(m.loopCount, l requires 0 <= l < m.loopCount => WriteChannel(target.uvs[l], channel, value))
          else if m.loopCount == 0 then target.uvs
          else target.uvs[loopId := WriteChannel(target.uvs[loopId], channel, value)];
        Success(Written(MeshUV(m.loopCount, grown.layers[uvIndex := Layer(LayerName(uvName, uvIndex), uvs)])))
  }

  /** A write over every loop: the target layer carries the new name, every loop holds the
      stored value in the chosen channel and keeps its other channel, and every other layer
      that existed before is unchanged. */
  lemma BakeUVAllLoops(m: MeshUV, data: real, uvIndex: int, channel: Channel, uvName: string,
                       invertV: bool, hostName: string)
    requires WellFormed(m) && 0 <= uvIndex <= MaxUVIndex
    ensures var r := BakeUV(m, data, uvIndex, channel, uvName, invertV, -1, hostName);
      var before := AddLayers(m, uvIndex, invertV, hostName).layers[uvIndex];
      && r.Success? && r.value.Written?
      && |r.value.mesh.layers| == MaxInt(|m.layers|, uvIndex + 1)
      && r.value.mesh.layers[uvIndex].name == LayerName(uvName, uvIndex)
      && (forall l :: 0 <= l < m.loopCount ==>
            r.value.mesh.layers[uvIndex].uvs[l]
              == WriteChannel(before.uvs[l], channel, Stored(data, channel, invertV)))
      && (forall k :: 0 <= k < |m.layers| && k != uvIndex ==> r.value.mesh.layers[k] == m.layers[k])
  {
    var grown := AddLayers(m, uvIndex, invertV, hostName);
    forall k | 0 <= k < |m.layers| && k != uvIndex
      ensures grown.layers[k] == m.layers[k]
    {
      assert grown.layers[..|m.layers|][k] == grown.layers[k];
    }
  }

  /** A write to one loop changes that loop's chosen channel only. */
  lemma BakeUVOneLoop(m: MeshUV, data: real, uvIndex: int, channel: Channel, uvName: string,
                      invertV: bool, loopId: int, hostName: string)
    requires WellFormed(m) && 0 <= uvIndex <= MaxUVIndex && 0 <= loopId < m.loopCount
    ensures var r := BakeUV(m, data, uvIndex, channel, uvName, invertV, loopId, hostName);
      var before := AddLayers(m, uvIndex, invertV, hostName).layers[uvIndex];
      && r.Success? && r.value.Written?
      && r.value.mesh.layers[uvIndex].uvs[loopId]
           == WriteChannel(before.uvs[loopId], channel, Stored(data, channel, invertV))
      && (forall l :: 0 <= l < m.loopCount && l != loopId ==>
            r.value.mesh.layers[uvIndex].uvs[l] == before.uvs[l])
  {
  }

  // ---------------------------------------------------------------------------
  // Automatic UV channels of the parent bake
  // ---------------------------------------------------------------------------

  /** The running channel index a UV map index and channel start from: two channels per map,
      U first. */
  function StartIndex(uvIndex: nat, channel: Channel): nat {
    2 * uvIndex + (if channel == U then 0 else 1)
  }

  /** The UV map index and channel a running index stands for. */
  function Slot(k: nat): (nat, Channel) {
    (k / 2, if k % 2 == 0 then U else V)
  }

  /** Start index and slot are inverse to each other. */
  lemma SlotRoundTrip(uvIndex: nat, channel: Channel, k: nat)
    ensures Slot(StartIndex(uvIndex, channel)) == (uvIndex, channel)
    ensures StartIndex(Slot(k).0, Slot(k).1) == k
  {
  }

  /** Moving to the next index moves from U to V of the same map, or from V to U of the
      next map. */
  lemma NextSlot(k: nat)
    ensures Slot(k + 1) == if Slot(k).1 == U then (Slot(k).0, V) else (Slot(k).0 + 1, U)
  {
  }

  /** Distinct running indices never share a slot. */
  lemma SlotInjective(j: nat, k: nat)
    requires j != k
    ensures Slot(j) != Slot(k)
  {
    SlotRoundTrip(0, U, j);
    SlotRoundTrip(0, U, k);
  }

  /** What one component of a parent datum does: it is switched off, or it is written to a
      vertex color, or to a UV channel. */
  datatype ComponentWrite = Disabled | ToVertexColor | ToUV

  function CountUV(comps: seq<ComponentWrite>): nat {
    if |comps| == 0 then 0 else CountUV(comps[..|comps| - 1]) + (if comps[|comps| - 1] == ToUV then 1 else 0)
  }

  /** The automatic allocation: each component looks up the slot of the running index; a
      disabled component is skipped, and only a component written to a UV channel moves the
      index on. Returns the slots of the UV writes in order and the index after them. */
  method AllocateSlots(start: nat, comps: seq<ComponentWrite>) returns (slots: seq<(nat, Channel)>, next: nat)
    ensures |slots| == CountUV(comps)
    ensures next == start + CountUV(comps)
    ensures forall j :: 0 <= j < |slots| ==> slots[j] == Slot(start + j)
  {
    slots := [];
    next := start;
    var i := 0;
    while i < |comps|
      invariant 0 <= i <= |comps|
      invariant |slots| == CountUV(comps[..i])
      invariant next == start + |slots|
      invariant forall j :: 0 <= j < |slots| ==> slots[j] == Slot(start + j)
    {
      assert comps[..i + 1][..i] == comps[..i];
      var slot := Slot(next);
      if comps[i] == Disabled {
        i := i + 1;
        continue;
      }
      if comps[i] == ToUV {
        slots := slots + [slot];
        next := next + 1;
      }
      i := i + 1;
    }
    assert comps[..|comps|] == comps;
  }

  /** The slots of one allocation are pairwise distinct: no two UV components share a
      channel. */
  lemma AllocatedSlotsDistinct(start: nat, n: nat, i: nat, j: nat)
    requires i < j < n
    ensures Slot(start + i) != Slot(start + j)
  {
    SlotInjective(start + i, start + j);
  }

  /** Every slot of an allocation passes the write routine's index guard exactly when the
      last one does: when the start index plus the number of UV writes stays within the
      sixteen channels of eight maps. */
  lemma AllocationFitsIff(start: nat, n: nat)
    requires n > 0
    ensures (forall k :: start <= k < start + n ==> Slot(k).0 <= MaxUVIndex) <==> start + n <= 16
  {
    if start + n > 16 {
      assert Slot(start + n - 1).0 > MaxUVIndex;
    }
  }

  // ---------------------------------------------------------------------------
  // The zero written for a missing parent's Y axis
  // ---------------------------------------------------------------------------

  /** The write routine's reading of its channel argument: "U" means U, anything else V. */
  function ChannelOf(arg: string): Channel {
    if arg == "U" then U else V
  }

  function ChannelName(c: Channel): string {
    if c == U then "U" else "V"
  }

  /** The map index, channel and layer name the zero for a missing parent's Y axis goes to in
      automatic mode, as written: the call passes the UV map name where the channel belongs
      and the channel name where the UV map name belongs. */
  function NullAxisYTargetAsWritten(slot: (nat, Channel), uvName: string): (r: (nat, Channel, string))
    requires slot.0 <= MaxUVIndex
    ensures r.0 == slot.0
  {
    (slot.0, ChannelOf(uvName), LayerName(ChannelName(slot.1), slot.0))
  }

  /** The same write with the arguments in their places, as every other automatic call
      passes them. */
  function NullAxisYTarget(slot: (nat, Channel), uvName: string): (r: (nat, Channel, string))
    requires slot.0 <= MaxUVIndex
    ensures r.0 == slot.0
  {
    (slot.0, ChannelOf(ChannelName(slot.1)), LayerName(uvName, slot.0))
  }

  /** With the arguments in place the zero lands in the allocated slot, like the other
      components. */
  lemma NullAxisYTargetIsSlot(slot: (nat, Channel), uvName: string)
    requires slot.0 <= MaxUVIndex
    ensures NullAxisYTarget(slot, uvName).1 == slot.1
    ensures NullAxisYTarget(slot, uvName).2 == LayerName(uvName, slot.0)
  {
  }

  /** As written, with the default empty UV map name and an allocated U channel, the zero
      goes to channel V and the layer is renamed "U.1". */
  lemma NullAxisYMisplaced()
    ensures NullAxisYTargetAsWritten((1, U), "") == (1, V, "U.1")
    ensures NullAxisYTarget((1, U), "") == (1, U, "UVMap.BakedData.1")
  {
    assert Digit(1) == '1';
    assert LayerName("U", 1) == "U" + "." + ['1'] == "U.1";
    assert LayerName("", 1) == "UVMap.BakedData" + "." + ['1'] == "UVMap.BakedData.1";
  }
}
