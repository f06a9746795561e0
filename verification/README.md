# blender-data-baker core, modelled in Dafny

This project models the computational core of two Blender add-ons.

- **Vertex animation baker** (`VertexAnimation/Functions.py`). It samples an animated mesh frame by frame and writes each vertex's offset and normal into the pixels of two RGBA textures. The model covers:
  - which NLA strips and frames are baked, and where loop padding frames are inserted;
  - the texture size and sampling mode;
  - the UV each vertex receives, and where its values land in the flat buffers;
  - the V flip (row inversion) and the [0, 1] remaps applied before the buffers become images;
  - the buffer-length guard;
  - the export path helpers.
- **Static data baker** (`DataBaker/Functions.py`). It writes per-vertex data into spare UV channels of a mesh. The model covers:
  - the two float packers (AB and XYZ);
  - the position, shape-key and parent-position multipliers that normalise data for packing;
  - the evenly spread "uniform random" values for objects, collections and polygons;
  - how one float is written into a UV channel (the index guard and the V flip);
  - the automatic allocation of UV channels in the parent bake;
  - the bake summary;
  - the same export path helpers.

Conventions:

- Python floats are modelled as exact reals; Python ints are unbounded `int`/`nat`.
- A Python exception (division by zero, `list.index` of a missing element, a missing attribute) is a `Failure` of a `Result`.
- Everything the host application supplies is an input. That covers resolved NLA strips, object locations, shape-key coordinates, loop counts and the name the host gives a new UV layer.

Modules, one file each:

- `Wrappers`: `Option` and `Result`.
- `Numeric`: floor and ceiling, min and max, powers of two, and small arithmetic lemmas.
- `FrameScheduler`: padding eligibility, strip coalescing, frame lists, padding insertion.
- `TextureLayout`: `get_best_texture_resolution`.
- `BufferAddressing`: global vertex indices, texel-centre UVs, buffer slots.
- `BufferEncoder`: row inversion, offset and normal remaps, the length guard.
- `ExportPaths`: `replace_tags`, `get_path`, the XML export path.
- `StaticPacking`: `get_packed_ab_vector` and `get_packed_xyz_vector`.
- `Multipliers`: the three `get_*_data_multiplier` functions, and the parent hierarchy walk of `bake_parent`.
- `UniformValues`: the uniform spread values and their blend with a random draw.
- `UVBake`: the UV path of `bake_data`, and automatic UV channel allocation in `bake_parent`.
- `BakeInfo`: `get_bake_info`.

## Model

| member | source | states |
|---|---|---|
| FrameScheduler.AllowPaddingFrom | VertexAnimation/Functions.py:158-195 | walking from object `k` on, the comparison fails with the error of iterating a missing NLA track list exactly when it reaches an object without NLA tracks after a run of objects that each matched the one before; otherwise it succeeds, with true exactly when every object from `k` on has the (start, end) boundary list of the object before it |
| FrameScheduler.BoundariesMatch | VertexAnimation/Functions.py:183-191 | two objects' boundary lists are equal exactly when their strip counts agree and every strip's start and end agree, names ignored |
| FrameScheduler.AllowPadding | VertexAnimation/Functions.py:158-195 | with at most one object padding is allowed and nothing is looked up; otherwise the check fails exactly when the first object, or an object the comparison reaches, has no NLA tracks, and otherwise succeeds with true exactly when all objects pairwise have the same strip boundaries |
| FrameScheduler.ChainedEquality | VertexAnimation/Functions.py:179-193 | comparing only consecutive objects, as the loop does, is equivalent to comparing every pair |
| FrameScheduler.ApplyPadding | VertexAnimation/Functions.py:228-233 | fails exactly when the boundary comparison fails, whatever the settings; otherwise padding is applied exactly when all objects share the first object's strip boundaries, the padding amount is positive, the bake mode is animation and the range mode is NLA |
| FrameScheduler.StripUses | VertexAnimation/Functions.py:199-205 | the (strip, object) pairs are exactly the strips found on each object |
| FrameScheduler.OtherSharers | VertexAnimation/Functions.py:212-221 | the objects collected for pair `i` are exactly the objects of other pairs with the same name, start and end on a different object |
| FrameScheduler.CoalesceCovers | VertexAnimation/Functions.py:207-226 | every strip of every object is baked: some kept entry has its key and lists its object |
| FrameScheduler.CoalesceEntries | VertexAnimation/Functions.py:207-226 | a kept entry lists its own object first, then exactly the other objects that play the same strip key |
| FrameScheduler.Coalesce | VertexAnimation/Functions.py:207-226 | every kept entry lists at least one object, and its strip with its first object is one of the (strip, object) pairs; two kept entries with the same strip key start with the same object |
| FrameScheduler.CoalesceStrips | VertexAnimation/Functions.py:207-226 | the nested loop with its list of dropped indices computes the reference coalescing `Coalesce` |
| FrameScheduler.FrameRange | VertexAnimation/Functions.py:439-443 | `range(start, end + 1, step)`: element `i` is `start + i*step`, all are at most `end`, the next step would pass `end`, and the list is non-empty when `start <= end` |
| FrameScheduler.FrameRangeIncreasing | VertexAnimation/Functions.py:439-443 | the stepped range strictly increases |
| FrameScheduler.FrameRangeMembers | VertexAnimation/Functions.py:439-443 | a frame is in `range(start, end + 1, step)` exactly when it lies between start and end and a whole number of steps from start |
| FrameScheduler.SortedUnique | VertexAnimation/Functions.py:433-434 | `sorted(set(s))` is strictly increasing and has exactly the elements of `s` |
| FrameScheduler.StripFrames | VertexAnimation/Functions.py:422-428 | the concatenated strip ranges hold exactly the frames on some kept strip's stepped range |
| FrameScheduler.NlaFrames | VertexAnimation/Functions.py:422-434 | the NLA frame list is strictly increasing and holds exactly the frames of the kept strips' stepped ranges |
| FrameScheduler.NlaFramesOfObjects | VertexAnimation/Functions.py:422-434 | coalescing loses no frame and adds none: the NLA frames are exactly the frames some object plays on one of its strips at the custom step |
| FrameScheduler.StripIsKept | VertexAnimation/Functions.py:199-226 | every strip an object plays keeps an entry in the coalesced list |
| FrameScheduler.KeptFrameIsPlayed | VertexAnimation/Functions.py:199-226 | a frame on a kept strip's range is played by some object |
| FrameScheduler.PlayedFrameIsKept | VertexAnimation/Functions.py:199-226 | a frame an object plays lies on the range of some kept strip |
| FrameScheduler.BaseFrames | VertexAnimation/Functions.py:419-447 | the unpadded frame list strictly increases; a mesh sequence gets frames 0 to n - 1, NLA mode exactly the frames some object plays on its strips, and custom and scene mode exactly the frames on their own stepped range |
| FrameScheduler.SeqMin | VertexAnimation/Functions.py:455 | `min(frames_to_bake)` is an element no larger than any other |
| FrameScheduler.SeqMax | VertexAnimation/Functions.py:458 | `max(frames_to_bake)` is an element no smaller than any other |
| FrameScheduler.IndexOf | VertexAnimation/Functions.py:497-503 | `list.index` finds the first occurrence, or fails exactly when the frame is absent |
| FrameScheduler.InsertAfterFirst | VertexAnimation/Functions.py:495-499 | suffix insertion fails, naming the frame, exactly when the end frame is absent; otherwise `n` copies of the inserted frame follow its first occurrence, the rest of the list is unchanged on both sides, and the elements are those of the list plus the inserted frame when `n > 0` |
| FrameScheduler.InsertBeforeFirst | VertexAnimation/Functions.py:501-505 | prefix insertion fails, naming the frame, exactly when the start frame is absent; otherwise `n` copies of the inserted frame precede its first occurrence, the rest of the list is unchanged, and the elements are those of the list plus the inserted frame when `n > 0` |
| FrameScheduler.PadAmount | VertexAnimation/Functions.py:472-478 | each padded side adds `frame_padding` frames per strip |
| FrameScheduler.PadStrip | VertexAnimation/Functions.py:487-505 | a strip whose start or end is in the list fails exactly when a frame its padding looks up is missing (the clamped end for suffix padding, the clamped start for prefix padding unless suffix copies of it were just inserted) and names that frame; on success it grows the list by exactly the padding of each applied side and adds no element but the clamped start (suffix) and clamped end (prefix); any other strip leaves the list unchanged |
| FrameScheduler.PadStripSuffix | VertexAnimation/Functions.py:495-499 | suffix padding puts `p` copies of the clamped start right after the first occurrence of the clamped end, keeping the rest of the list on both sides |
| FrameScheduler.PadStripPrefix | VertexAnimation/Functions.py:501-505 | prefix padding puts `p` copies of the clamped end right before the first occurrence of the clamped start, keeping the rest of the list on both sides |
| FrameScheduler.PadStripSurrounds | VertexAnimation/Functions.py:487-505 | padding both sides: the start copies follow the first clamped end; the end copies precede the first clamped start when it occurs up to that end, and precede the start copies otherwise |
| FrameScheduler.SuffixEndMissing | VertexAnimation/Functions.py:495-497 | suffix padding of a strip whose clamped end is not in the list fails, naming that frame |
| FrameScheduler.PadStrips | VertexAnimation/Functions.py:482-505 | on success the list keeps every frame and has grown by a whole number of per-strip paddings; a failure names a frame missing from the list that is a clamped boundary of some strip; when every strip finds the frames it looks up, padding succeeds |
| FrameScheduler.GetBakeFrames | VertexAnimation/Functions.py:401-519 | fails with the missing-NLA-track error exactly when the boundary comparison does; otherwise fails with too few frames exactly when there are fewer than two base frames; without padding it then succeeds, and with padding it succeeds when every frame a strip looks up is present, while a padding failure names a missing clamped strip boundary; on success the start and end frames are the minimum and maximum of the base frames, the list holds every base frame and equals the base list when padding is not applied |
| FrameScheduler.Schedule | VertexAnimation/Functions.py:449-505 | the list is rejected as too short exactly when it has fewer than two frames; an unpadded schedule then succeeds and a padded one succeeds when every looked-up frame is present; a padding failure names a frame absent from the list that is a clamped boundary of a strip |
| FrameScheduler.StepSkipsStripEnd | VertexAnimation/Functions.py:495-497 | one object with strips 1..10 and 1..20, step 2 and suffix padding 1: the frames are 1, 3, .., 19, so looking up the end frame 10 fails |
| FrameScheduler.ClipPaddedBothSides | VertexAnimation/Functions.py:487-505 | padding a clip `start..end` on both sides by `p` puts `p` copies of its end before it and `p` copies of its start after it |
| TextureLayout.PowerOfTwoAtLeast | VertexAnimation/Functions.py:3400-3403 | the doubling loop from 2 yields a power of two at least the bound, and its half is below the bound (or it is 2) |
| TextureLayout.PowerOfTwoAtLeastIsLeast | VertexAnimation/Functions.py:3400-3403 | the doubling loop's result is the least power of two that is at least 2 and reaches the bound |
| TextureLayout.PowerOfTwoLoop | VertexAnimation/Functions.py:3428-3431 | the height loop computes `PowerOfTwoAtLeast` |
| TextureLayout.InitialWidth | VertexAnimation/Functions.py:3400-3407 | the width is `min(num_vertices, max_width)` without power of two; with it, the least power of two of at least 2 that reaches `num_vertices` or the max width |
| TextureLayout.FrameHeight | VertexAnimation/Functions.py:3409-3411 | rows per frame are `num_vertices / width` in continuous mode and its ceiling in skip mode |
| TextureLayout.TextureHeight | VertexAnimation/Functions.py:3428-3433 | the height covers `num_frames * frame_height` rows; with power of two it is the least power of two of at least 2 that does, and otherwise the rounded-up row count |
| TextureLayout.SamplingFor | VertexAnimation/Functions.py:3448-3458 | STACK_SINGLE exactly when `num_vertices == width`; otherwise CONTINUOUS or STACK_MULT by packing mode |
| TextureLayout.BestTextureResolution | VertexAnimation/Functions.py:3392-3462 | succeeds exactly when the first width is positive and within the max width and its height is within the max height; fails with division by zero exactly when power of two is off and there are no vertices, and with an unassigned height exactly when the first width exceeds the max width while its rows fit; on success the sides respect the maxima unless square power of two raised them, power of two gives powers of two, square gives equal sides, and the sampling mode matches the width |
| TextureLayout.FallbackNeverSucceeds | VertexAnimation/Functions.py:3414-3438 | when the first width's rows exceed the max height, the fallback to the max width keeps the old frame height and so always fails |
| TextureLayout.SuccessfulLayoutShape | VertexAnimation/Functions.py:3400-3446 | a successful layout uses the first width and its frame height; its sides are at least that width and the height before squaring |
| TextureLayout.PlainWidth | VertexAnimation/Functions.py:3404-3407 | without power of two a successful width is `min(num_vertices, max_width)` |
| TextureLayout.PowerOfTwoWidth | VertexAnimation/Functions.py:3400-3403 | with power of two and not square, the width is the least power of two that reaches `num_vertices` or the max width |
| TextureLayout.LayoutCapacity | VertexAnimation/Functions.py:3409-3446 | a successful layout has room for every vertex of every frame: `width * height >= num_vertices * num_frames`, in both packing modes |
| TextureLayout.OvershootingWidthFails | VertexAnimation/Functions.py:3400-3423 | with power of two, a max width that is not a power of two and more vertices than it, the width overshoots and the layout fails |
| TextureLayout.SquareExceedsMaxWidth | VertexAnimation/Functions.py:3437-3446 | square power of two raises the width after the max checks: with max width 2 the result is 8 by 8 |
| BufferAddressing.GlobalIndex | VertexAnimation/Functions.py:784-799 | vertex `i` of object `k` gets an index inside object `k`'s block of the running vertex count |
| BufferAddressing.GlobalIndexInjective | VertexAnimation/Functions.py:784-799 | two different vertices never share a global index |
| BufferAddressing.GlobalIndexOnto | VertexAnimation/Functions.py:784-799 | every index below the total vertex count belongs to some vertex of some object |
| BufferAddressing.TexelUV | VertexAnimation/Functions.py:869-876 | the UV lies strictly inside the texture horizontally, and vertically too for an index among the `w * h` texels, with or without the V mirror |
| BufferAddressing.ObjectOffsets | VertexAnimation/Functions.py:2955-3119 | the UV offset of each object is the number of vertices before it, and its buffer offset is four times that |
| BufferAddressing.TexelUVDecodes | VertexAnimation/Functions.py:869-876 | the UV of index `j` lies in the centre of texel column `j % w` and row `j // w`, after undoing the V mirror |
| BufferAddressing.TexelUVToIndex | VertexAnimation/Functions.py:869-876 | reading the texel at a vertex's UV gives back its global index |
| BufferAddressing.BufferSlot | VertexAnimation/Functions.py:3052-3055 | the slot of vertex `j` in frame `f` is `4 * (f * stride + j)`, with stride `width * frame_height` in skip mode and `num_vertices` otherwise |
| BufferAddressing.UVMatchesFrameZeroSlot | VertexAnimation/Functions.py:869-876 | in frame 0, the texel a vertex's UV points at is the texel of its buffer slot |
| BufferAddressing.SkipFrameShiftsRows | VertexAnimation/Functions.py:3052-3055 | in skip mode frame `f` of a vertex sits exactly `f * frame_height` rows past its frame-0 texel, in the same column |
| BufferAddressing.LayoutSlotsInBuffer | VertexAnimation/Functions.py:3052-3055 | with any successful layout, all four entries of every vertex in every frame fall inside the `width * height * 4` buffer |
| BufferAddressing.SkipStrideFits | VertexAnimation/Functions.py:3409-3433 | in skip mode a frame's rows hold all vertices, and all frames' strides fit in the image |
| BufferEncoder.Mirror | VertexAnimation/Functions.py:3240-3244 | the V flip moves entry `n` to row `h - 1 - row`, same position in the row, and stays in range |
| BufferEncoder.MirrorInvolutive | VertexAnimation/Functions.py:3240-3244 | mirroring twice gives back the entry |
| BufferEncoder.InvertRowsMirrors | VertexAnimation/Functions.py:3225-3246 | every entry of the inverted buffer is the mirrored entry of the input |
| BufferEncoder.InvertRowsInvolution | VertexAnimation/Functions.py:3225-3246 | for a `w * h * 4` buffer, inversion keeps the length, and inverting twice gives back the buffer |
| BufferEncoder.InvertedRow | VertexAnimation/Functions.py:3240-3244 | output row `r` is input row `h - 1 - r` |
| BufferEncoder.InvertRows | VertexAnimation/Functions.py:3240-3244 | with Python's clamped slices the result has `min(len(buf), w * h * 4)` entries |
| BufferEncoder.InvertedBuffers | VertexAnimation/Functions.py:3238-3246 | the loop over reversed rows builds both inverted buffers |
| BufferEncoder.MaxOffset | VertexAnimation/Functions.py:3250-3252 | each axis of the remap range is the larger of the magnitudes of the bounds' minimum and maximum offsets on that axis |
| BufferEncoder.OffsetRoundTrip | VertexAnimation/Functions.py:3258-3260 | with a nonzero range `m`, decoding an encoded offset as the preview does gives the offset back |
| BufferEncoder.EncodedOffsetInUnit | VertexAnimation/Functions.py:3252-3260 | an offset within the range encodes into [0, 1] |
| BufferEncoder.NormalRoundTrip | VertexAnimation/Functions.py:3270-3272 | the normal remap is undone by `r*2 - 1`, and maps exactly [-1, 1] onto [0, 1] |
| BufferEncoder.RemapOffsets | VertexAnimation/Functions.py:3248-3263 | the remapped buffer has the input's length, keeps alpha and partial-pixel entries, puts an offset within a positive range into [0, 1], and with a range of nonzero components is turned back into the input by the preview decode |
| BufferEncoder.RemapOffsetBuffer | VertexAnimation/Functions.py:3248-3263 | the range is the per-axis maximum magnitude of the bound offsets; the remap fails with division by zero exactly when a pixel exists and a range component is 0; otherwise x, y and z of every whole pixel are encoded and the rest is kept |
| BufferEncoder.RemapNormals | VertexAnimation/Functions.py:3265-3275 | the remapped buffer has the input's length, keeps alpha and partial-pixel entries, has a remapped entry in [0, 1] exactly when the component is in [-1, 1], and is turned back into the input by the preview decode |
| BufferEncoder.RemapNormalBuffer | VertexAnimation/Functions.py:3265-3275 | the loop remaps x, y and z of every whole pixel and leaves alpha and any partial pixel alone |
| BufferEncoder.CheckBufferLength | VertexAnimation/Functions.py:3338-3340 | the guard accepts a buffer exactly when its length is `w * h * 4`, and reports the length otherwise |
| BufferEncoder.GuardAfterInversion | VertexAnimation/Functions.py:3225-3340 | an inverted buffer passes the guard exactly when the input had at least `w * h * 4` entries |
| ExportPaths.FindIsFirst | VertexAnimation/Functions.py:3587-3588 | the search finds the first occurrence of a tag, or reports that none exists |
| ExportPaths.ReplaceAllFindsOccurrences | VertexAnimation/Functions.py:3588 | `str.replace` equals replacing the first occurrence and continuing after it |
| ExportPaths.ReplaceAllWithoutOccurrence | VertexAnimation/Functions.py:3587-3588 | a name without the tag is unchanged |
| ExportPaths.ReplaceAll | VertexAnimation/Functions.py:3588 | replacing a tag by itself changes nothing, and a replacement as long as the tag keeps the length |
| ExportPaths.ReplaceTagsWithoutTags | DataBaker/Functions.py:2376-2383 | a name containing none of the tags is returned unchanged |
| ExportPaths.ReplaceTags | DataBaker/Functions.py:2376-2383 | mapping every tag to its own marker leaves the name unchanged, and values as long as their markers keep its length |
| ExportPaths.ObjectNameTag | VertexAnimation/Functions.py:3583-3590 | `T_<ObjectName>` with ObjectName = Cube becomes `T_Cube` |
| ExportPaths.GetPath | DataBaker/Functions.py:2363-2374 | fails with an invalid extension exactly when the extension is not .png, .exr or .fbx; otherwise the file name has its tags replaced and the extension appended |
| ExportPaths.XmlExportPath | VertexAnimation/Functions.py:3556-3566 | the XML export path is found exactly in mesh-path mode with a mesh path, next to the mesh; every other case fails with an invalid extension, because `.xml` is not a whitelisted extension |
| StaticPacking.QuantiseBounds | DataBaker/Functions.py:248-252 | a unit value quantises into [0, 4095] and lies within one step of 1/4095 above its lane value |
| StaticPacking.PackAB | DataBaker/Functions.py:245-254 | integer division and remainder by 4096 recover both quantised components, given a unit low component; two unit components pack into [0, 2^24) |
| StaticPacking.ABPrecision | DataBaker/Functions.py:245-254 | each component decodes to within one step of 1/4095 below its value |
| StaticPacking.PackXYZMonotone | DataBaker/Functions.py:240-243 | the XYZ packer is monotone in every component |
| StaticPacking.PackXYZ | DataBaker/Functions.py:240-243 | a unit vector in the positive octant packs into [0, 1010.1] |
| StaticPacking.PackXYZCollides | DataBaker/Functions.py:240-243 | the decimal lanes overlap: (0.01, 0, 0) and (0, 1, 0) both pack to 10, so no decoder exists |
| Multipliers.LargestComponent | DataBaker/Functions.py:128 | the largest absolute component bounds all three and is one of them |
| Multipliers.LargestOverBounds | DataBaker/Functions.py:119-128 | the running maximum bounds the largest component of every sample, and is 0 or attained by one |
| Multipliers.Multiplier | DataBaker/Functions.py:130-135 | the multiplier is at least 1, exactly 1 when the largest component is not positive, at least `(largest + offset) * scale` otherwise, and the least integer with these properties |
| Multipliers.MultiplierBounds | DataBaker/Functions.py:130-135 | any value no larger in magnitude than `largest` stays within the multiplier once scaled |
| Multipliers.MultiplierNormalises | DataBaker/Functions.py:130-135 | scaling and dividing by the multiplier lands in [-1, 1] |
| Multipliers.MultiplierBoundsMember | DataBaker/Functions.py:119-135 | every sample's three scaled components are within the multiplier of the samples |
| Multipliers.ClampUnit | DataBaker/Functions.py:1609-1613 | the clamp lands in [-1, 1] and leaves values already there alone |
| Multipliers.ToUnitInterval | DataBaker/Functions.py:1609-1615 | the packed-position normalisation lands in [0, 1] |
| Multipliers.ToUnitRoundTrip | DataBaker/Functions.py:1609-1615 | a location within the multiplier is recovered by `(r*2 - 1) * multiplier` |
| Multipliers.PositionSamplesMembers | DataBaker/Functions.py:117-128 | the measured locations are exactly those of the transform object or of each selected mesh or empty, relative to the origin |
| Multipliers.PositionMultiplier | DataBaker/Functions.py:112-135 | the multiplier is at least 1 and bounds the scaled location of the transform object, or without one of every selected mesh or empty, relative to the origin |
| Multipliers.MeshOffsets | DataBaker/Functions.py:151-170 | a mesh with both shape keys contributes one offset per loop, any other mesh none |
| Multipliers.ShapekeyOffsetsContain | DataBaker/Functions.py:150-170 | the offset of every loop of every mesh with both keys is measured |
| Multipliers.ShapekeyMultiplier | DataBaker/Functions.py:143-181 | the multiplier is at least 1 and bounds the scaled offset of every loop of every mesh that has both shape keys |
| Multipliers.ParentLevels | DataBaker/Functions.py:1411-1423 | the parent list has exactly `parent_max_depth` levels |
| Multipliers.LevelsHoldAncestors | DataBaker/Functions.py:1411-1423 | the levels hold exactly the mesh or empty ancestors reached within the max depth |
| Multipliers.AutomaticBakesAncestors | DataBaker/Functions.py:1426-1433 | in automatic mode every ancestor present in the levels is baked, and nothing else |
| Multipliers.ManualBakesTarget | DataBaker/Functions.py:1426-1431 | in manual mode only the level `max(min(depth, max_depth), 1) + 1` is baked, when present |
| Multipliers.AutomaticWalkIsAncestors | DataBaker/Functions.py:205-229 | in automatic mode the multiplier's walk visits exactly the ancestors the parent bake writes |
| Multipliers.ManualWalkIsImmediateParent | DataBaker/Functions.py:209-218 | in manual mode the multiplier's `continue` never moves up, so it visits only the immediate parent |
| Multipliers.ParentMultiplierAsWritten | DataBaker/Functions.py:189-236 | returns 0 exactly when `parent_max_depth <= 0`; otherwise it fails exactly when no transform object is set |
| Multipliers.BakedParentLocationsContain | DataBaker/Functions.py:1399-1433 | the location of every parent the parent bake writes is measured |
| Multipliers.ParentMultiplier | DataBaker/Functions.py:1399-1433 | the corrected multiplier is 0 exactly when there is no level to bake, and otherwise bounds the scaled location of every parent the bake writes, in both modes |
| Multipliers.AutomaticParentBounds | DataBaker/Functions.py:1399-1433 | in automatic mode the corrected multiplier bounds every ancestor within the max depth |
| Multipliers.ManualMultiplierMissesBakedParent | DataBaker/Functions.py:209-216 | in a four-level chain with manual depth 1, the multiplier as written is 2 while the baked parent sits at x = 50; the corrected one is 51 |
| UniformValues.SpreadValues | DataBaker/Functions.py:1295-1308 | the loop yields one spread value per item, 0.5 for a single item, and succeeds exactly when there is an item |
| UniformValues.Spread | DataBaker/Functions.py:1292-1303 | one value per item, 0.5 for a single item, and every value in [0, 1] |
| UniformValues.SpreadEnds | DataBaker/Properties.py:249 | with two items or more the values start at 0 and end at 1 |
| UniformValues.SpreadEvenlySpaced | DataBaker/Functions.py:1292-1303 | consecutive values are `1 / (n - 1)` apart |
| UniformValues.SpreadIncreasing | DataBaker/Functions.py:1301-1305 | the values strictly increase, so no two items share one |
| UniformValues.SpreadSymmetric | DataBaker/Functions.py:1297-1303 | values from both ends add to 1 |
| UniformValues.PolySpreadValues | DataBaker/Functions.py:1336-1354 | the nested loop yields the per-polygon values and succeeds exactly when some polygon exists |
| UniformValues.PolySpread | DataBaker/Functions.py:1344-1351 | one value per polygon, every one in [0, 1): the largest value never reaches 1 |
| UniformValues.PolySpreadMissesOne | DataBaker/Properties.py:258 | 101 polygons give a last value of 100/101, not the 1.0 promised; the object spread gives 0.01 steps up to 1 |
| UniformValues.FlattenMembers | DataBaker/Functions.py:1246-1250 | every collection of every mesh is gathered |
| UniformValues.DedupeIsSet | DataBaker/Functions.py:1246-1250 | the gathered collections are the distinct collections of the meshes, without repeats |
| UniformValues.CollectionValue | DataBaker/Functions.py:1269-1277 | a mesh receives a value exactly when it is in some collection |
| UniformValues.CollectionValueSameIffSameCollection | DataBaker/Functions.py:1269-1277 | two meshes receive the same value exactly when their first collections are the same |
| UniformValues.Blend | DataBaker/Functions.py:1278 | with a weight in [0, 1] the blend lies between the spread value and the draw, so two unit values blend into [0, 1]; weight 1 gives the spread value and weight 0 the draw |
| UVBake.AddLayers | DataBaker/Functions.py:489-496 | layers are added until the index exists; existing layers are kept, and new ones start at (0, 1 if V is inverted else 0) on every loop |
| UVBake.LayerName | DataBaker/Functions.py:498-500 | the layer name ends in `.` and the index digit, and starts with the given name when one is given |
| UVBake.StoredReadsBack | DataBaker/Functions.py:534-538 | what is stored in a channel reads back as the value once the V flip is undone, and a fresh layer reads back as 0 |
| UVBake.WriteChannel | DataBaker/Functions.py:533-538 | writing one channel preserves the other |
| UVBake.BakeUV | DataBaker/Functions.py:482-568 | nothing is written exactly when the UV index is outside [0, 7]; a loop index past the mesh's loops fails; the mesh stays well formed |
| UVBake.BakeUVAllLoops | DataBaker/Functions.py:525-538 | without a loop index, the layer is named, every loop gets the value in the chosen channel, and other layers are unchanged |
| UVBake.BakeUVOneLoop | DataBaker/Functions.py:529-566 | with a loop index, only that loop is written |
| UVBake.SlotRoundTrip | DataBaker/Functions.py:1403-1440 | the starting channel index decodes back to the chosen map and channel, and every index is the start index of its slot |
| UVBake.NextSlot | DataBaker/Functions.py:1439-1465 | advancing the index moves from U to V of the same map, or from V to U of the next map |
| UVBake.SlotInjective | DataBaker/Functions.py:1439-1440 | distinct channel indices never share a slot |
| UVBake.AllocateSlots | DataBaker/Functions.py:1437-1465 | the UV components get consecutive slots from the start index, and the index advances once per UV component, not for vertex-color or disabled ones |
| UVBake.AllocatedSlotsDistinct | DataBaker/Functions.py:1437-1465 | no two UV components of one allocation share a channel |
| UVBake.AllocationFitsIff | DataBaker/Functions.py:485-486 | every allocated slot passes the index guard exactly when the start index plus the number of UV writes is at most 16 |
| UVBake.NullAxisYTargetIsSlot | DataBaker/Functions.py:1484-1497 | with the arguments in place, the zero goes to the allocated channel and the usual layer name |
| UVBake.NullAxisYMisplaced | DataBaker/Functions.py:1497 | for slot (1, U) and an empty map name, the write as written goes to channel V of a layer named `U.1` |
| BakeInfo.GetBakeInfo | DataBaker/Functions.py:1769-1784 | the loop computes the concatenation, in order, of the uv, vcol and normal lists of the enabled bakes |
| BakeInfo.GatheredMembers | DataBaker/Functions.py:1776-1782 | an entry is in a summary list exactly when some enabled bake reports it |
| BakeInfo.DisabledContributeNothing | DataBaker/Functions.py:1779 | the summary depends only on the enabled bakes |
| BakeInfo.GatheredAppend | DataBaker/Functions.py:1776-1782 | the summary of two report lists in sequence is the concatenation of their summaries |

## Left out

- Host application calls. These are left out because they are not computations of the add-ons:
  - scene frame changes, depsgraph evaluation, `to_mesh`, object duplication and joining;
  - image creation, FBX/EXR/XML writing, and `check_path`'s filesystem access.
- NLA track lookup through the object, its parent or an armature modifier (`get_obj_nla_tracks`). Each object arrives with the strips the lookup resolves, or with no track list when it finds none.
- Vertex sampling: BVH nearest-surface lookups, barycentric interpolation and world transforms. Only the buffer index arithmetic is modelled.
- Randomness: `random.shuffle`, `random.uniform` and the `np.random` directions. The values before the shuffle are modelled, and the blend takes the draw as a parameter.
- The VCOL and NORMALS modes of `bake_data`. Only the UV path is modelled.
- Axis, mask, direction and fixed-value bakes, and the `*_needs_multiplier` predicates. They are plumbing or matrix and quaternion code outside the core.
- Geometry-node preview builders and the report bookkeeping. They are UI wiring.
- Float rounding of Python floats. Reals are exact, so `1.0 / 4095` and the XYZ packer's 0.1 and 0.001 weights are exact values.
- The `bake_data` loop over faces is modelled as a loop over all loops. This assumes every loop belongs to one face.
- The name the host gives a new UV layer is the `hostName` parameter.
- The parent bake's substitution of `(1/65536) * multiplier` (or `1/256` for XYZ) for a parent location shorter than 1 (DataBaker/Functions.py:1603-1607). It only shifts values that already lie within the multiplier.
- Multipliers.ParentMultiplier: ignores the origin object. The multiplier as written subtracts it, but `bake_parent` writes world locations without it, and the corrected multiplier measures what is written.
- Multipliers.ShapekeyMultiplier: the selection is modelled as a sequence of meshes. A selected non-mesh object would raise on `.data.shape_keys`, which is not modelled.
- FrameScheduler.GetBakeFrames: leaves out the padded strip times and the report lines (VertexAnimation/Functions.py:506-517). They only feed the report.
- FrameScheduler.StripUses: strip start and end frames arrive truncated to integers. The source compares the float frames when coalescing, so two strips that differ only in their fractions are merged here but not in the source.
- UVBake.AllocateSlots: models one datum's components. The whole chain of position, axis and missing-parent writes across depths repeats the same step.
- UVBake.NullAxisYMisplaced: models the automatic-mode Y write at DataBaker/Functions.py:1497. The manual-mode X write at line 1493 swaps the same two arguments, with the manual index and channel settings in place of the allocated slot.

## Findings

| source | as written | input that shows it | evidently intended | confidence | as-written member | corrected member |
|---|---|---|---|---|---|---|
| DataBaker/Functions.py:209-216 | in manual mode `continue` skips a depth without moving to the parent, so the multiplier measures only the immediate parent | chain mesh ← p1 (1,0,0) ← p2 (50,0,0) ← p3 ← p4, max depth 4, depth 1, offset 1, scale 1: multiplier 2, but `bake_parent` writes p2 at x = 50 | measure the parents `bake_parent` writes (DataBaker/Functions.py:1411-1431) | not executed | Multipliers.ManualMultiplierMissesBakedParent | Multipliers.ParentMultiplier |
| DataBaker/Functions.py:200 | without a transform object, reads `context.selected_object`, which does not exist, so the call raises | any positive max depth and no transform object | iterate the meshes to bake, as `bake_parent` does | not executed | Multipliers.ParentMultiplierAsWritten | Multipliers.ParentMultiplier |
| DataBaker/Functions.py:1346 | per-polygon values divide by the polygon count, so the largest value is `(n-1)/n` | 101 polygons: last value 100/101 instead of the 1.0 promised at DataBaker/Properties.py:258 | divide by `n - 1` as for objects and collections, so values run from 0 to 1 | not executed | UniformValues.PolySpreadMissesOne | UniformValues.SpreadEnds |
| DataBaker/Functions.py:1493-1497 | the zero written for a missing parent's axis passes the UV map name and the channel in swapped positions: for Y in automatic mode (line 1497) and for X in manual mode (line 1493) | slot (1, U) with an empty map name, automatic mode: written to channel V of a layer renamed `U.1` | write to the allocated channel of the usual layer name | not executed | UVBake.NullAxisYMisplaced | UVBake.NullAxisYTargetIsSlot |
