/** Frame scheduling of the vertex-animation baker: which animation strips
    take part in a bake, which frames are sampled, and where loop padding
    frames are inserted. Object lookups in the host application (resolving
    an object's NLA tracks through itself, its parent or an armature
    modifier) are inputs: every object arrives with what that lookup finds. */
module FrameScheduler {
  import opened Wrappers
  import opened Numeric

  /** One NLA strip: its name and its start and end frames, already truncated to integers. */
  datatype Strip = Strip(name: string, start: int, end: int)

  /** An object to bake, identified by `id`. `tracks` holds the strips of the NLA tracks the lookup
      resolves, in track order, or `None` when it finds no NLA track at all. */
  datatype BakeObject = BakeObject(id: nat, tracks: Option<seq<Strip>>)

  /** The strips an object plays; an object without NLA tracks plays none. */
  function Strips(o: BakeObject): seq<Strip> {
    if o.tracks.Some? then o.tracks.value else []
  }

  datatype BakeMode = Animation | MeshSequence
  datatype RangeMode = Nla | Scene | Custom
  datatype PaddingMode = Prefix | Suffix | PrefixSuffix

  /** The frame-related baker settings. The custom range and step, the scene range and step and
      the padding amount are what the property panel and the scene hold. */
  datatype FrameSettings = FrameSettings(
    bakeMode: BakeMode,
    rangeMode: RangeMode,
    customStart: int,
    customEnd: int,
    customStep: int,
    sceneStart: int,
    sceneEnd: int,
    sceneStep: int,
    padding: int,
    paddingMode: PaddingMode)

  /** The property panel forbids steps below 1 and negative padding. */
  predicate ValidSettings(s: FrameSettings) {
    s.customStep >= 1 && s.sceneStep >= 1 && s.padding >= 0
  }

  datatype FrameError =
    | TooFewFrames(count: nat)
    | FrameNotInList(frame: int)
    | NoNlaTracks    // the boundary comparison iterates over the lookup's `None`

  /** The frames to sample, in sampling order, with the first and last frame of the unpadded list. */
  datatype BakeFrames = BakeFrames(frames: seq<int>, startFrame: int, endFrame: int)

  // ---------------------------------------------------------------------------
  // Padding eligibility
  // ---------------------------------------------------------------------------

  /** The (start, end) pairs of an object's strips, names dropped. */
  function Boundaries(o: BakeObject): seq<(int, int)> {
    var strips := Strips(o);
    seq(|strips|, i requires 0 <= i < |strips| => (strips[i].start, strips[i].end))
  }

  /** Strip-by-strip comparison of start and end frames from index `i` on. */
  function MatchFrom(a: seq<Strip>, b: seq<Strip>, i: nat): (r: bool)
    requires |a| == |b| && i <= |a|
    ensures r <==> forall j :: i <= j < |a| ==> a[j].start == b[j].start && a[j].end == b[j].end
    decreases |a| - i
  {
    i == |a| || (a[i].start == b[i].start && a[i].end == b[i].end && MatchFrom(a, b, i + 1))
  }

  /** Walking from object `k` on, the comparison reaches an object without NLA tracks: every
      object between `k` and it matched the object before it. */
  predicate LookupFailsFrom(objs: seq<BakeObject>, k: nat)
    requires 1 <= k <= |objs|
  {
    exists j :: k <= j < |objs| && objs[j].tracks.None? && MatchesFrom(objs, k, j)
  }

  /** Objects `k..j-1` each have the boundaries of the object before them. */
  predicate MatchesFrom(objs: seq<BakeObject>, k: nat, j: nat)
    requires 1 <= k && j <= |objs|
  {
    forall i :: k <= i < j ==> Boundaries(objs[i - 1]) == Boundaries(objs[i])
  }

  /** Compares each object from index `k` on with the object before it. Each object's strips are
      looked up before the comparison, so an object without NLA tracks that the walk reaches
      raises. */
  function AllowPaddingFrom(objs: seq<BakeObject>, k: nat): (r: Result<bool, FrameError>)
    requires 1 <= k <= |objs|
    ensures r.Failure? <==> LookupFailsFrom(objs, k)
    ensures r.Failure? ==> r.error == NoNlaTracks
    ensures r.Success? ==> (r.value <==> MatchesFrom(objs, k, |objs|))
    decreases |objs| - k
  {
    if k == |objs| then Success(true)
    else if objs[k].tracks.None? then
      assert MatchesFrom(objs, k, k);
      Failure(NoNlaTracks)
    else
      var prev := Strips(objs[k - 1]);
      var cur := Strips(objs[k]);
      BoundariesMatch(objs[k - 1], objs[k]);
      if |prev| != |cur| || !MatchFrom(prev, cur, 0) then Success(false)
      else
        var r := AllowPaddingFrom(objs, k + 1);
        MatchesFromStep(objs, k);
        r
  }

  /** Once object `k` has a lookup result and matches the object before it, the walk from `k`
      fails or succeeds as the walk from `k + 1` does. */
  lemma MatchesFromStep(objs: seq<BakeObject>, k: nat)
    requires 1 <= k < |objs| && objs[k].tracks.Some?
    requires Boundaries(objs[k - 1]) == Boundaries(objs[k])
    ensures LookupFailsFrom(objs, k) <==> LookupFailsFrom(objs, k + 1)
    ensures MatchesFrom(objs, k, |objs|) <==> MatchesFrom(objs, k + 1, |objs|)
  {
    if LookupFailsFrom(objs, k) {
      var j :| k <= j < |objs| && objs[j].tracks.None? && MatchesFrom(objs, k, j);
      assert MatchesFrom(objs, k + 1, j);
    }
    if LookupFailsFrom(objs, k + 1) {
      var j :| k + 1 <= j < |objs| && objs[j].tracks.None? && MatchesFrom(objs, k + 1, j);
      assert MatchesFrom(objs, k, j);
    }
  }

  /** Equal boundaries are exactly equal strip counts with equal starts and ends at every index. */
  lemma BoundariesMatch(a: BakeObject, b: BakeObject)
    ensures Boundaries(a) == Boundaries(b) <==> |Strips(a)| == |Strips(b)| && MatchFrom(Strips(a), Strips(b), 0)
  {
    var sa, sb := Strips(a), Strips(b);
    if Boundaries(a) == Boundaries(b) {
      assert |Boundaries(a)| == |sa| && |Boundaries(b)| == |sb|;
      forall j | 0 <= j < |sa|
        ensures sa[j].start == sb[j].start && sa[j].end == sb[j].end
      {
        assert Boundaries(a)[j] == Boundaries(b)[j];
      }
    }
  }

  /** The source's boundary comparison raises: there are at least two objects, and the walk
      reaches an object whose NLA track lookup found nothing (the first object is looked up
      before any comparison). */
  predicate NlaLookupFails(objs: seq<BakeObject>) {
    |objs| >= 2 && (objs[0].tracks.None? || LookupFailsFrom(objs, 1))
  }

  /** Padding is allowed when there is at most one object, or when every object's strip
      boundaries equal those of the object before it; strip names are not compared. The
      comparison raises when it reaches an object without NLA tracks. */
  function AllowPadding(objs: seq<BakeObject>): (r: Result<bool, FrameError>)
    ensures r.Failure? <==> NlaLookupFails(objs)
    ensures r.Failure? ==> r.error == NoNlaTracks
    ensures r.Success? ==> (r.value <==> forall k, l :: 0 <= k < l < |objs| ==> Boundaries(objs[k]) == Boundaries(objs[l]))
  {
    if |objs| <= 1 then Success(true)
    else if objs[0].tracks.None? then Failure(NoNlaTracks)
    else
      var r := AllowPaddingFrom(objs, 1);
      ChainedEquality(objs);
      r
  }

  lemma {:induction false} ChainedEquality(objs: seq<BakeObject>)
    requires |objs| >= 1
    ensures MatchesFrom(objs, 1, |objs|)
        <==> (forall k, l :: 0 <= k < l < |objs| ==> Boundaries(objs[k]) == Boundaries(objs[l]))
  {
    if MatchesFrom(objs, 1, |objs|) {
      forall k, l | 0 <= k < l < |objs|
        ensures Boundaries(objs[k]) == Boundaries(objs[l])
      {
        ChainStep(objs, k, l);
      }
    }
  }

  lemma {:induction false} ChainStep(objs: seq<BakeObject>, k: nat, l: nat)
    requires k <= l < |objs|
    requires MatchesFrom(objs, 1, |objs|)
    ensures Boundaries(objs[k]) == Boundaries(objs[l])
    decreases l - k
  {
    if k < l {
      ChainStep(objs, k, l - 1);
      assert Boundaries(objs[l - 1]) == Boundaries(objs[l]);
    }
  }

  /** All objects have the strip boundaries of the first. */
  predicate UniformBoundaries(objs: seq<BakeObject>) {
    forall k :: 0 <= k < |objs| ==> Boundaries(objs[k]) == Boundaries(objs[0])
  }

  /** Padding is applied only when allowed, requested (`padding > 0`), baking an animation,
      and deriving the range from the NLA strips. The boundary comparison runs first, whatever
      the settings, so its failure is this function's failure in every bake mode. */
  function ApplyPadding(settings: FrameSettings, objs: seq<BakeObject>): (r: Result<bool, FrameError>)
    ensures r.Failure? <==> NlaLookupFails(objs)
    ensures r.Failure? ==> r.error == NoNlaTracks
    ensures r.Success? ==> (r.value <==> && UniformBoundaries(objs)
                                         && settings.padding > 0
                                         && settings.bakeMode == Animation
                                         && settings.rangeMode == Nla)
  {
    var allowed :- AllowPadding(objs);
    Success(allowed && settings.padding > 0 && settings.bakeMode == Animation && settings.rangeMode == Nla)
  }

  // ---------------------------------------------------------------------------
  // Strip coalescing
  // ---------------------------------------------------------------------------

  /** A strip together with the object whose tracks it was found on. */
  datatype StripUse = StripUse(strip: Strip, obj: nat)

  /** A strip kept for baking with every object found playing it. */
  datatype SharedStrip = SharedStrip(strip: Strip, objs: seq<nat>)

  /** Every (strip, object) pair, objects in order, strips in track order. */
  function StripUses(objs: seq<BakeObject>): (r: seq<StripUse>)
    ensures forall u :: u in r <==> exists k :: 0 <= k < |objs| && u.obj == objs[k].id && u.strip in Strips(objs[k])
  {
    if |objs| == 0 then []
    else
      var here := seq(|Strips(objs[0])|, i requires 0 <= i < |Strips(objs[0])| => StripUse(Strips(objs[0])[i], objs[0].id));
      assert forall u :: u in here <==> u.obj == objs[0].id && u.strip in Strips(objs[0]) by {
        forall u
          ensures u in here <==> u.obj == objs[0].id && u.strip in Strips(objs[0])
        {
          if u.obj == objs[0].id && u.strip in Strips(objs[0]) {
            var i :| 0 <= i < |Strips(objs[0])| && Strips(objs[0])[i] == u.strip;
            assert here[i] == u;
          }
        }
      }
      var rest := StripUses(objs[1..]);
      assert forall u :: u in rest <==> exists k :: 1 <= k < |objs| && u.obj == objs[k].id && u.strip in Strips(objs[k]) by {
        forall u
          ensures u in rest <==> exists k :: 1 <= k < |objs| && u.obj == objs[k].id && u.strip in Strips(objs[k])
        {
          if u in rest {
            var k' :| 0 <= k' < |objs[1..]| && u.obj == objs[1..][k'].id && u.strip in Strips(objs[1..][k']);
            assert objs[1..][k'] == objs[k' + 1];
          }
          if exists k :: 1 <= k < |objs| && u.obj == objs[k].id && u.strip in Strips(objs[k]) {
            var k :| 1 <= k < |objs| && u.obj == objs[k].id && u.strip in Strips(objs[k]);
            assert objs[1..][k - 1] == objs[k];
          }
        }
      }
      here + rest
  }

  /** Two pairs share a strip key (same name, start and end) on different objects. */
  predicate Shares(a: StripUse, b: StripUse) {
    a.obj != b.obj && a.strip == b.strip
  }

  /** Pair `i` is folded into an earlier pair: some earlier pair has its key on another object. */
  predicate Absorbed(uses: seq<StripUse>, i: nat)
    requires i < |uses|
  {
    exists j :: 0 <= j < i && Shares(uses[j], uses[i])
  }

  /** The objects of the pairs from index `j` on, other than `i`, that share pair `i`'s key. */
  function OtherSharers(uses: seq<StripUse>, i: nat, j: nat): (r: seq<nat>)
    requires i < |uses| && j <= |uses|
    ensures forall o :: o in r <==> exists m :: j <= m < |uses| && m != i && Shares(uses[i], uses[m]) && uses[m].obj == o
    decreases |uses| - j
  {
    if j == |uses| then []
    else if j != i && Shares(uses[i], uses[j]) then [uses[j].obj] + OtherSharers(uses, i, j + 1)
    else OtherSharers(uses, i, j + 1)
  }

  /** One step of `CoalesceFrom`: pair `i` contributes an entry exactly when it is not absorbed. */
  lemma CoalesceFromStep(uses: seq<StripUse>, i: nat)
    requires i < |uses|
    ensures CoalesceFrom(uses, i)
         == (if Absorbed(uses, i) then [] else [SharedStrip(uses[i].strip, [uses[i].obj] + OtherSharers(uses, i, 0))])
            + CoalesceFrom(uses, i + 1)
  {
  }

  /** The kept entries from pair `i` on, in pair order. */
  function CoalesceFrom(uses: seq<StripUse>, i: nat): (r: seq<SharedStrip>)
    requires i <= |uses|
    ensures forall a :: 0 <= a < |r| ==> |r[a].objs| >= 1 && StripUse(r[a].strip, r[a].objs[0]) in uses[i..]
    decreases |uses| - i
  {
    if i == |uses| then []
    else if Absorbed(uses, i) then CoalesceFrom(uses, i + 1)
    else [SharedStrip(uses[i].strip, [uses[i].obj] + OtherSharers(uses, i, 0))] + CoalesceFrom(uses, i + 1)
  }

  /** Strips shared by several objects at the same position are baked once. Every entry starts
      with the object of a pair playing its strip, and two entries with the same strip key
      start with the same object: a key is kept twice only when one object plays it twice. */
  function Coalesce(uses: seq<StripUse>): (r: seq<SharedStrip>)
    ensures forall a :: 0 <= a < |r| ==> |r[a].objs| >= 1 && StripUse(r[a].strip, r[a].objs[0]) in uses
    ensures SameKeySameOwner(r)
  {
    CoalesceFromKeys(uses, 0);
    assert uses[0..] == uses;
    CoalesceFrom(uses, 0)
  }

  /** Kept entries from pair `i` on that share a key share their first object: a later pair with
      the key of a kept pair on another object is absorbed. */
  lemma {:induction false} CoalesceFromKeys(uses: seq<StripUse>, i: nat)
    requires i <= |uses|
    ensures SameKeySameOwner(CoalesceFrom(uses, i))
    decreases |uses| - i
  {
    if i < |uses| {
      CoalesceFromKeys(uses, i + 1);
      if !Absorbed(uses, i) {
        var rest := CoalesceFrom(uses, i + 1);
        var head := SharedStrip(uses[i].strip, [uses[i].obj] + OtherSharers(uses, i, 0));
        var r := [head] + rest;
        assert r == CoalesceFrom(uses, i);
        forall a, b | 0 <= a < b < |r| && r[a].strip == r[b].strip
          ensures r[a].objs[0] == r[b].objs[0]
        {
          assert r[b] == rest[b - 1];
          if a == 0 {
            CoalesceFromSource(uses, i + 1, rest[b - 1]);
            var m :| i + 1 <= m < |uses| && !Absorbed(uses, m)
              && rest[b - 1] == SharedStrip(uses[m].strip, [uses[m].obj] + OtherSharers(uses, m, 0));
            assert !Shares(uses[i], uses[m]);
          } else {
            assert r[a] == rest[a - 1];
          }
        }
      }
    }
  }

  /** Entries with the same strip key start with the same object. */
  predicate SameKeySameOwner(r: seq<SharedStrip>) {
    forall a, b :: 0 <= a < b < |r| && |r[a].objs| >= 1 && |r[b].objs| >= 1 && r[a].strip == r[b].strip
      ==> r[a].objs[0] == r[b].objs[0]
  }

  /** An entry of the coalesced list comes from a pair at or after `i` that was not absorbed. */
  lemma {:induction false} CoalesceFromSource(uses: seq<StripUse>, i: nat, e: SharedStrip)
    requires i <= |uses|
    requires e in CoalesceFrom(uses, i)
    ensures exists m :: i <= m < |uses| && !Absorbed(uses, m) && e == SharedStrip(uses[m].strip, [uses[m].obj] + OtherSharers(uses, m, 0))
    decreases |uses| - i
  {
    if i < |uses| {
      if Absorbed(uses, i) {
        CoalesceFromSource(uses, i + 1, e);
      } else if e != SharedStrip(uses[i].strip, [uses[i].obj] + OtherSharers(uses, i, 0)) {
        CoalesceFromSource(uses, i + 1, e);
      }
    }
  }

  /** A pair that is not absorbed is kept, with its own object first. */
  lemma {:induction false} CoalesceFromKeeps(uses: seq<StripUse>, i: nat, m: nat)
    requires i <= m < |uses|
    requires !Absorbed(uses, m)
    ensures SharedStrip(uses[m].strip, [uses[m].obj] + OtherSharers(uses, m, 0)) in CoalesceFrom(uses, i)
    decreases m - i
  {
    if i < m {
      CoalesceFromKeeps(uses, i + 1, m);
    }
  }

  /** Every strip of every pair is baked: its key appears in some kept entry, and that entry lists
      the pair's object. */
  lemma CoalesceCovers(uses: seq<StripUse>, m: nat)
    requires m < |uses|
    ensures exists e :: e in Coalesce(uses) && e.strip == uses[m].strip && uses[m].obj in e.objs
  {
    var f := FirstWithStrip(uses, m);
    assert !Absorbed(uses, f);
    CoalesceFromKeeps(uses, 0, f);
    if uses[f].obj != uses[m].obj {
      assert uses[m].obj in OtherSharers(uses, f, 0);
    }
  }

  /** The earliest pair playing the same strip key as pair `m`, on any object. */
  lemma FirstWithStrip(uses: seq<StripUse>, m: nat) returns (f: nat)
    requires m < |uses|
    ensures f <= m && uses[f].strip == uses[m].strip
    ensures forall j :: 0 <= j < f ==> uses[j].strip != uses[m].strip
  {
    f := 0;
    while uses[f].strip != uses[m].strip
      invariant f <= m
      invariant forall j :: 0 <= j < f ==> uses[j].strip != uses[m].strip
      decreases m - f
    {
      f := f + 1;
    }
  }

  /** A kept entry lists its own object first and then exactly the other objects playing the same
      strip key. */
  lemma {:induction false} CoalesceEntries(uses: seq<StripUse>, e: SharedStrip)
    requires e in Coalesce(uses)
    ensures |e.objs| >= 1
    ensures forall o :: o in e.objs[1..] <==> o != e.objs[0] && StripUse(e.strip, o) in uses
    ensures StripUse(e.strip, e.objs[0]) in uses
  {
    CoalesceFromSource(uses, 0, e);
    var m :| 0 <= m < |uses| && !Absorbed(uses, m) && e == SharedStrip(uses[m].strip, [uses[m].obj] + OtherSharers(uses, m, 0));
    assert e.objs[1..] == OtherSharers(uses, m, 0);
    forall o
      ensures o in e.objs[1..] <==> o != e.objs[0] && StripUse(e.strip, o) in uses
    {
      if o != e.objs[0] && StripUse(e.strip, o) in uses {
        var n :| 0 <= n < |uses| && uses[n] == StripUse(e.strip, o);
        assert n != m && Shares(uses[m], uses[n]);
      }
    }
  }

  /** The source's nested loop: for each pair, collect the other objects sharing its key, record
      their indices as duplicates, and keep the pair unless an earlier pair recorded it. */
  method CoalesceStrips(uses: seq<StripUse>) returns (kept: seq<SharedStrip>)
    ensures kept == Coalesce(uses)
  {
    kept := [];
    var dropped: seq<nat> := [];
    var i := 0;
    while i < |uses|
      invariant 0 <= i <= |uses|
      invariant DroppedBefore(uses, i, dropped)
      invariant kept + CoalesceFrom(uses, i) == Coalesce(uses)
    {
      kept, dropped := VisitPair(uses, i, kept, dropped);
      i := i + 1;
    }
  }

  /** One outer iteration: collect pair `i`'s sharers and keep it unless it was recorded. */
  method VisitPair(uses: seq<StripUse>, i: nat, kept: seq<SharedStrip>, dropped: seq<nat>)
    returns (kept': seq<SharedStrip>, dropped': seq<nat>)
    requires i < |uses|
    requires DroppedBefore(uses, i, dropped)
    ensures DroppedBefore(uses, i + 1, dropped')
    ensures kept' + CoalesceFrom(uses, i + 1) == kept + CoalesceFrom(uses, i)
  {
    var objs;
    objs, dropped' := CollectSharers(uses, i, dropped);
    DroppedStep(uses, i, dropped, dropped');
    CoalesceFromStep(uses, i);
    if i !in dropped' {
      var entry := SharedStrip(uses[i].strip, objs);
      ConcatAssoc(kept, [entry], CoalesceFrom(uses, i + 1));
      kept' := kept + [entry];
    } else {
      kept' := kept;
    }
  }

  /** `dropped` holds exactly the indices recorded as duplicates while visiting pairs `0..i-1`. */
  ghost predicate DroppedBefore(uses: seq<StripUse>, i: nat, dropped: seq<nat>)
    requires i <= |uses|
  {
    forall n :: n in dropped <==> exists j :: 0 <= j < i && 0 <= n < |uses| && n != j && Shares(uses[j], uses[n])
  }

  /** `after` is `before` plus the indices of the other pairs sharing pair `i`'s key. */
  ghost predicate RecordsSharers(uses: seq<StripUse>, i: nat, before: seq<nat>, after: seq<nat>)
    requires i < |uses|
  {
    forall n :: n in after <==> n in before || (0 <= n < |uses| && n != i && Shares(uses[i], uses[n]))
  }

  /** Visiting pair `i` records its other sharers; pair `i` itself was recorded exactly when it is
      absorbed into an earlier pair. */
  lemma DroppedStep(uses: seq<StripUse>, i: nat, before: seq<nat>, after: seq<nat>)
    requires i < |uses|
    requires DroppedBefore(uses, i, before)
    requires RecordsSharers(uses, i, before, after)
    ensures DroppedBefore(uses, i + 1, after)
    ensures Absorbed(uses, i) <==> i in after
  {
    if i in after {
      assert i in before;
    }
    if Absorbed(uses, i) {
      var j :| 0 <= j < i && Shares(uses[j], uses[i]);
      assert i in before;
    }
  }

  /** The inner loop of the source: the objects of pair `i` and of every other pair sharing its
      key, with the indices of those other pairs appended to `dropped`. */
  method CollectSharers(uses: seq<StripUse>, i: nat, dropped: seq<nat>) returns (objs: seq<nat>, dropped': seq<nat>)
    requires i < |uses|
    ensures objs == [uses[i].obj] + OtherSharers(uses, i, 0)
    ensures RecordsSharers(uses, i, dropped, dropped')
  {
    objs := [uses[i].obj];
    dropped' := dropped;
    var k := 0;
    while k < |uses|
      invariant 0 <= k <= |uses|
      invariant objs == [uses[i].obj] + OtherSharersBefore(uses, i, k)
      invariant forall n :: n in dropped' <==> n in dropped || (0 <= n < k && n != i && Shares(uses[i], uses[n]))
    {
      if i != k && Shares(uses[i], uses[k]) {
        objs := objs + [uses[k].obj];
        dropped' := dropped' + [k];
      }
      k := k + 1;
    }
    OtherSharersBeforeAll(uses, i);
  }

  /** The other sharers among pairs before index `k`, in pair order. */
  function OtherSharersBefore(uses: seq<StripUse>, i: nat, k: nat): seq<nat>
    requires i < |uses| && k <= |uses|
  {
    if k == 0 then []
    else OtherSharersBefore(uses, i, k - 1) + (if k - 1 != i && Shares(uses[i], uses[k - 1]) then [uses[k - 1].obj] else [])
  }

  lemma {:induction false} OtherSharersSplit(uses: seq<StripUse>, i: nat, k: nat)
    requires i < |uses| && k <= |uses|
    ensures OtherSharersBefore(uses, i, k) + OtherSharers(uses, i, k) == OtherSharers(uses, i, 0)
    decreases k
  {
    if k > 0 {
      OtherSharersSplit(uses, i, k - 1);
    }
  }

  lemma OtherSharersBeforeAll(uses: seq<StripUse>, i: nat)
    requires i < |uses|
    ensures OtherSharersBefore(uses, i, |uses|) == OtherSharers(uses, i, 0)
  {
    OtherSharersSplit(uses, i, |uses|);
  }

  // ---------------------------------------------------------------------------
  // Frame lists
  // ---------------------------------------------------------------------------

  /** Python's `range(start, end + 1, step)` for a positive step. */
  function FrameRange(start: int, end: int, step: int): (r: seq<int>)
    requires step >= 1
    ensures forall i :: 0 <= i < |r| ==> r[i] == start + i * step && r[i] <= end
    ensures |r| == 0 || r[|r| - 1] + step > end
    ensures start <= end ==> |r| > 0
    decreases end + 1 - start
  {
    if start > end then [] else [start] + FrameRange(start + step, end, step)
  }

  /** A range with a positive step rises strictly. */
  lemma {:induction false} FrameRangeIncreasing(start: int, end: int, step: int)
    requires step >= 1
    ensures StrictlyIncreasing(FrameRange(start, end, step))
    decreases end + 1 - start
  {
    if start <= end {
      FrameRangeIncreasing(start + step, end, step);
      var rest := FrameRange(start + step, end, step);
      var r := [start] + rest;
      if |rest| > 0 {
        assert rest[0] == start + step;
      }
      forall i, j | 0 <= i < j < |r|
        ensures r[i] < r[j]
      {
        assert r[j] == rest[j - 1];
        if i == 0 {
          assert rest[0] <= rest[j - 1];
        } else {
          assert r[i] == rest[i - 1];
        }
      }
    }
  }

  /** `x` is a frame of `range(start, end + 1, step)`: within the bounds and a whole number of
      steps from the start. */
  predicate OnStep(x: int, start: int, end: int, step: int)
    requires step >= 1
  {
    start <= x <= end && (x - start) % step == 0
  }

  /** The range holds exactly the frames on its step. */
  lemma {:induction false} FrameRangeMembers(start: int, end: int, step: int)
    requires step >= 1
    ensures forall x :: x in FrameRange(start, end, step) <==> OnStep(x, start, end, step)
    decreases end + 1 - start
  {
    if start <= end {
      FrameRangeMembers(start + step, end, step);
      forall x
        ensures OnStep(x, start, end, step) <==> x == start || OnStep(x, start + step, end, step)
      {
        OnStepFirst(x, start, end, step);
      }
    }
  }

  /** A frame on the step is the start or a frame on the step from the next one. */
  lemma OnStepFirst(x: int, start: int, end: int, step: int)
    requires step >= 1 && start <= end
    ensures OnStep(x, start, end, step) <==> x == start || OnStep(x, start + step, end, step)
  {
    if start < x < start + step {
      ModUnique(x - start, step, 0, x - start);
    } else if x >= start + step {
      var a := x - (start + step);
      ModShift(a, step);
      assert (x - start) % step == a % step;
    }
  }

  predicate StrictlyIncreasing(s: seq<int>) {
    forall i, j :: 0 <= i < j < |s| ==> s[i] < s[j]
  }

  /** Inserts `x` into a strictly increasing list unless it is already there. */
  function InsertSorted(s: seq<int>, x: int): (r: seq<int>)
    requires StrictlyIncreasing(s)
    ensures StrictlyIncreasing(r)
    ensures forall y :: y in r <==> y in s || y == x
  {
    if |s| == 0 then [x]
    else if x < s[0] then [x] + s
    else if x == s[0] then s
    else
      var tail := InsertSorted(s[1..], x);
      assert forall y :: y in s <==> y == s[0] || y in s[1..];
      forall k | 0 <= k < |tail|
        ensures s[0] < tail[k]
      {
        assert tail[k] in tail;
        if tail[k] != x {
          var m :| 0 <= m < |s[1..]| && s[1..][m] == tail[k];
          assert s[1..][m] == s[m + 1];
        }
      }
      [s[0]] + tail
  }

  /** `sorted(set(s))`: the distinct elements of `s` in increasing order. */
  function SortedUnique(s: seq<int>): (r: seq<int>)
    ensures StrictlyIncreasing(r)
    ensures forall y :: y in r <==> y in s
  {
    if |s| == 0 then []
    else
      var r := InsertSorted(SortedUnique(s[..|s| - 1]), s[|s| - 1]);
      assert s == s[..|s| - 1] + [s[|s| - 1]];
      r
  }

  /** The concatenation of every kept strip's stepped range. */
  function StripFrames(strips: seq<SharedStrip>, step: int): (r: seq<int>)
    requires step >= 1
    ensures forall x :: x in r <==> exists k :: 0 <= k < |strips| && x in FrameRange(strips[k].strip.start, strips[k].strip.end, step)
  {
    if |strips| == 0 then []
    else
      var rest := StripFrames(strips[1..], step);
      assert forall x :: x in rest <==> exists k :: 1 <= k < |strips| && x in FrameRange(strips[k].strip.start, strips[k].strip.end, step) by {
        forall x
          ensures x in rest <==> exists k :: 1 <= k < |strips| && x in FrameRange(strips[k].strip.start, strips[k].strip.end, step)
        {
          if exists k :: 1 <= k < |strips| && x in FrameRange(strips[k].strip.start, strips[k].strip.end, step) {
            var k :| 1 <= k < |strips| && x in FrameRange(strips[k].strip.start, strips[k].strip.end, step);
            assert strips[1..][k - 1] == strips[k];
          }
        }
      }
      FrameRange(strips[0].strip.start, strips[0].strip.end, step) + rest
  }

  /** NLA frame list: the sorted, duplicate-free union of every kept strip's stepped range. */
  function NlaFrames(strips: seq<SharedStrip>, step: int): (r: seq<int>)
    requires step >= 1
    ensures StrictlyIncreasing(r)
    ensures forall x :: x in r <==> exists k :: 0 <= k < |strips| && x in FrameRange(strips[k].strip.start, strips[k].strip.end, step)
  {
    SortedUnique(StripFrames(strips, step))
  }

  /** One of the object's strips has `x` on its stepped range. */
  predicate PlaysFrame(o: BakeObject, x: int, step: int)
    requires step >= 1
  {
    exists j :: 0 <= j < |Strips(o)| && OnStep(x, Strips(o)[j].start, Strips(o)[j].end, step)
  }

  /** The frames before padding, for every bake and range mode. A mesh sequence has one frame per
      mesh, numbered from 0; NLA mode steps through every strip of every object with the custom
      step; custom and scene mode step through their own range. */
  function BaseFrames(settings: FrameSettings, objs: seq<BakeObject>): (r: seq<int>)
    requires ValidSettings(settings)
    ensures StrictlyIncreasing(r)
    ensures settings.bakeMode == MeshSequence ==> |r| == |objs| && forall i :: 0 <= i < |r| ==> r[i] == i
    ensures settings.bakeMode == Animation && settings.rangeMode == Nla ==>
      forall x :: x in r <==> exists k :: 0 <= k < |objs| && PlaysFrame(objs[k], x, settings.customStep)
    ensures settings.bakeMode == Animation && settings.rangeMode == Custom ==>
      forall x :: x in r <==> OnStep(x, settings.customStart, settings.customEnd, settings.customStep)
    ensures settings.bakeMode == Animation && settings.rangeMode == Scene ==>
      forall x :: x in r <==> OnStep(x, settings.sceneStart, settings.sceneEnd, settings.sceneStep)
  {
    if settings.bakeMode == MeshSequence then
      UnitRange(0, |objs| - 1);
      FrameRangeIncreasing(0, |objs| - 1, 1);
      FrameRange(0, |objs| - 1, 1)
    else match settings.rangeMode
      case Nla =>
        var strips := Coalesce(StripUses(objs));
        NlaFramesOfObjects(objs, settings.customStep);
        if |strips| > 0 then NlaFrames(strips, settings.customStep)
        else
          assert NlaFrames(strips, settings.customStep) == [];
          []
      case Custom =>
        FrameRangeMembers(settings.customStart, settings.customEnd, settings.customStep);
        FrameRangeIncreasing(settings.customStart, settings.customEnd, settings.customStep);
        FrameRange(settings.customStart, settings.customEnd, settings.customStep)
      case Scene =>
        FrameRangeMembers(settings.sceneStart, settings.sceneEnd, settings.sceneStep);
        FrameRangeIncreasing(settings.sceneStart, settings.sceneEnd, settings.sceneStep);
        FrameRange(settings.sceneStart, settings.sceneEnd, settings.sceneStep)
  }

  /** Coalescing loses no frame and adds none: the NLA frames are exactly the frames some object
      plays on one of its strips. */
  lemma NlaFramesOfObjects(objs: seq<BakeObject>, step: int)
    requires step >= 1
    ensures forall x :: x in NlaFrames(Coalesce(StripUses(objs)), step) <==> exists k :: 0 <= k < |objs| && PlaysFrame(objs[k], x, step)
  {
    var strips := Coalesce(StripUses(objs));
    forall x
      ensures x in NlaFrames(strips, step) <==> exists k :: 0 <= k < |objs| && PlaysFrame(objs[k], x, step)
    {
      if x in NlaFrames(strips, step) {
        var a :| 0 <= a < |strips| && x in FrameRange(strips[a].strip.start, strips[a].strip.end, step);
        var k := KeptFrameIsPlayed(objs, step, a, x);
      }
      if exists k :: 0 <= k < |objs| && PlaysFrame(objs[k], x, step) {
        var k :| 0 <= k < |objs| && PlaysFrame(objs[k], x, step);
        var a := PlayedFrameIsKept(objs, step, k, x);
      }
    }
  }

  /** A frame on a kept strip's range is played by the object that strip was kept for. */
  lemma KeptFrameIsPlayed(objs: seq<BakeObject>, step: int, a: nat, x: int) returns (k: nat)
    requires step >= 1
    requires a < |Coalesce(StripUses(objs))|
    requires var e := Coalesce(StripUses(objs))[a]; x in FrameRange(e.strip.start, e.strip.end, step)
    ensures k < |objs| && PlaysFrame(objs[k], x, step)
  {
    var uses := StripUses(objs);
    var e := Coalesce(uses)[a];
    FrameRangeMembers(e.strip.start, e.strip.end, step);
    CoalesceEntries(uses, e);
    var u := StripUse(e.strip, e.objs[0]);
    k :| 0 <= k < |objs| && u.obj == objs[k].id && u.strip in Strips(objs[k]);
    var j :| 0 <= j < |Strips(objs[k])| && Strips(objs[k])[j] == e.strip;
  }

  /** A frame an object plays lies on the range of some kept strip. */
  lemma PlayedFrameIsKept(objs: seq<BakeObject>, step: int, k: nat, x: int) returns (a: nat)
    requires step >= 1
    requires k < |objs| && PlaysFrame(objs[k], x, step)
    ensures var strips := Coalesce(StripUses(objs));
      a < |strips| && x in FrameRange(strips[a].strip.start, strips[a].strip.end, step)
  {
    var j :| 0 <= j < |Strips(objs[k])| && OnStep(x, Strips(objs[k])[j].start, Strips(objs[k])[j].end, step);
    var strip := Strips(objs[k])[j];
    a := StripIsKept(objs, k, j);
    assert OnStep(x, strip.start, strip.end, step);
    FrameRangeMembers(strip.start, strip.end, step);
  }

  /** Every strip an object plays has an entry in the coalesced list. */
  lemma StripIsKept(objs: seq<BakeObject>, k: nat, j: nat) returns (a: nat)
    requires k < |objs| && j < |Strips(objs[k])|
    ensures var strips := Coalesce(StripUses(objs));
      a < |strips| && strips[a].strip == Strips(objs[k])[j]
  {
    var uses := StripUses(objs);
    var strips := Coalesce(uses);
    var strip := Strips(objs[k])[j];
    var u := StripUse(strip, objs[k].id);
    assert strip in Strips(objs[k]);
    assert u in uses;
    var m :| 0 <= m < |uses| && uses[m] == u;
    CoalesceCovers(uses, m);
    var e :| e in strips && e.strip == strip && u.obj in e.objs;
    a :| 0 <= a < |strips| && strips[a] == e;
  }

  function SeqMin(s: seq<int>): (m: int)
    requires |s| > 0
    ensures m in s && forall x :: x in s ==> m <= x
  {
    if |s| == 1 then s[0]
    else
      var t := SeqMin(s[1..]);
      assert forall x :: x in s ==> x == s[0] || x in s[1..];
      if s[0] <= t then s[0] else t
  }

  function SeqMax(s: seq<int>): (m: int)
    requires |s| > 0
    ensures m in s && forall x :: x in s ==> x <= m
  {
    if |s| == 1 then s[0]
    else
      var t := SeqMax(s[1..]);
      assert forall x :: x in s ==> x == s[0] || x in s[1..];
      if s[0] >= t then s[0] else t
  }

  // ---------------------------------------------------------------------------
  // Padding insertion
  // ---------------------------------------------------------------------------

  /** Python's `list.index`: the first position of `x`, or nothing when absent. */
  function IndexOf(s: seq<int>, x: int): (r: Option<nat>)
    ensures r.None? <==> x !in s
    ensures r.Some? ==> r.value < |s| && s[r.value] == x && x !in s[..r.value]
  {
    if |s| == 0 then None
    else if s[0] == x then Some(0)
    else match IndexOf(s[1..], x)
      case None => None
      case Some(i) =>
        assert s[..i + 1] == [s[0]] + s[1..][..i];
        Some(i + 1)
  }

  function Repeat(x: int, n: nat): (r: seq<int>)
    ensures |r| == n && forall i :: 0 <= i < n ==> r[i] == x
  {
    seq(n, _ => x)
  }

  /** Inserts `n` copies of `v` right after the first occurrence of `at`. */
  function InsertAfterFirst(s: seq<int>, at: int, v: int, n: nat): (r: Result<seq<int>, FrameError>)
    ensures r.Failure? <==> at !in s
    ensures r.Failure? ==> r.error == FrameNotInList(at)
    ensures r.Success? ==> |r.value| == |s| + n
    ensures r.Success? ==> at in s && |r.value| == |s| + n && var i := IndexOf(s, at).value;
                           && r.value[..i + 1] == s[..i + 1]
                           && r.value[i + 1..i + 1 + n] == Repeat(v, n)
                           && r.value[i + 1 + n..] == s[i + 1..]
                           && IndexOf(r.value, at) == Some(i)
    ensures r.Success? ==> forall x :: x in r.value <==> x in s || (n > 0 && x == v)
  {
    match IndexOf(s, at)
    case None => Failure(FrameNotInList(at))
    case Some(i) =>
      var t := s[..i + 1] + Repeat(v, n) + s[i + 1..];
      Splice(s, i + 1, Repeat(v, n));
      SpliceMembers(s, i + 1, v, n);
      assert t[..i] == s[..i];
      FirstOccurrence(t, at, i);
      Success(t)
  }

  /** Inserts `n` copies of `v` right before the first occurrence of `at`. */
  function InsertBeforeFirst(s: seq<int>, at: int, v: int, n: nat): (r: Result<seq<int>, FrameError>)
    ensures r.Failure? <==> at !in s
    ensures r.Failure? ==> r.error == FrameNotInList(at)
    ensures r.Success? ==> |r.value| == |s| + n
    ensures r.Success? ==> at in s && |r.value| == |s| + n && var i := IndexOf(s, at).value;
                           && r.value[..i] == s[..i]
                           && r.value[i..i + n] == Repeat(v, n)
                           && r.value[i + n..] == s[i..]
    ensures r.Success? ==> forall x :: x in r.value <==> x in s || (n > 0 && x == v)
  {
    match IndexOf(s, at)
    case None => Failure(FrameNotInList(at))
    case Some(i) =>
      Splice(s, i, Repeat(v, n));
      SpliceMembers(s, i, v, n);
      Success(s[..i] + Repeat(v, n) + s[i..])
  }

  /** Splicing `m` into `s` at position `i` keeps `s` around it. */
  lemma Splice(s: seq<int>, i: nat, m: seq<int>)
    requires i <= |s|
    ensures var t := s[..i] + m + s[i..];
      && |t| == |s| + |m|
      && t[..i] == s[..i] && t[i..i + |m|] == m && t[i + |m|..] == s[i..]
  {
    var t := s[..i] + m + s[i..];
    assert t[..i] == s[..i];
    assert t[i..i + |m|] == m;
    assert t[i + |m|..] == s[i..];
  }

  /** Splicing copies of `v` into `s` adds `v` and nothing else. */
  lemma SpliceMembers(s: seq<int>, i: nat, v: int, n: nat)
    requires i <= |s|
    ensures forall x :: x in s[..i] + Repeat(v, n) + s[i..] <==> x in s || (n > 0 && x == v)
  {
    assert s == s[..i] + s[i..];
    if n > 0 {
      assert Repeat(v, n)[0] == v;
    }
  }

  /** A position holding `x` with no `x` before it is what `IndexOf` finds. */
  lemma FirstOccurrence(s: seq<int>, x: int, i: nat)
    requires i < |s| && s[i] == x && x !in s[..i]
    ensures IndexOf(s, x) == Some(i)
  {
    assert s[i] in s;
  }

  predicate HasPrefix(mode: PaddingMode) {
    mode == Prefix || mode == PrefixSuffix
  }

  predicate HasSuffix(mode: PaddingMode) {
    mode == Suffix || mode == PrefixSuffix
  }

  /** Frames added to the list by padding one strip: `padding` per padded side. */
  function PadAmount(padding: nat, mode: PaddingMode): (n: nat)
    ensures n == (if HasPrefix(mode) then padding else 0) + (if HasSuffix(mode) then padding else 0)
    ensures padding <= n <= 2 * padding
  {
    if mode == PrefixSuffix then 2 * padding else padding
  }

  /** A strip is padded when its start or end frame is in the list. */
  predicate Triggers(frames: seq<int>, strip: Strip) {
    strip.start in frames || strip.end in frames
  }

  /** The strip's start frame clamped to the unpadded range. */
  function ClampedStart(strip: Strip, startFrame: int): int {
    MaxInt(startFrame, strip.start)
  }

  /** The strip's end frame clamped to the unpadded range. */
  function ClampedEnd(strip: Strip, endFrame: int): int {
    MinInt(endFrame, strip.end)
  }

  /** `x` is one of the strip's two clamped boundary frames. */
  predicate ClampedBoundary(strip: Strip, startFrame: int, endFrame: int, x: int) {
    x == ClampedStart(strip, startFrame) || x == ClampedEnd(strip, endFrame)
  }

  /** The frames padding a strip looks up are in the list: the clamped end for suffix padding,
      and the clamped start for prefix padding unless suffix padding has just inserted copies
      of it. */
  predicate PaddingFramesPresent(frames: seq<int>, strip: Strip, startFrame: int, endFrame: int, padding: nat, mode: PaddingMode) {
    && (HasSuffix(mode) ==> ClampedEnd(strip, endFrame) in frames)
    && (HasPrefix(mode) && !(HasSuffix(mode) && padding > 0) ==> ClampedStart(strip, startFrame) in frames)
  }

  /** Every strip finds the frames its padding looks up in `frames`. */
  predicate AllPaddingFramesPresent(frames: seq<int>, strips: seq<SharedStrip>, startFrame: int, endFrame: int, padding: nat, mode: PaddingMode) {
    forall k :: 0 <= k < |strips| ==> PaddingFramesPresent(frames, strips[k].strip, startFrame, endFrame, padding, mode)
  }

  /** Pads one strip. A strip whose start or end frame is in the list is clamped to the unpadded
      range; suffix padding then inserts copies of its start frame after the first occurrence of
      its end frame, and prefix padding inserts copies of its end frame before the first
      occurrence of its start frame. A frame that cannot be found is an error. */
  function PadStrip(frames: seq<int>, strip: Strip, startFrame: int, endFrame: int, padding: nat, mode: PaddingMode)
    : (r: Result<seq<int>, FrameError>)
    ensures r.Failure? <==> Triggers(frames, strip) && !PaddingFramesPresent(frames, strip, startFrame, endFrame, padding, mode)
    ensures r.Failure? ==> r.error == FrameNotInList(
      if HasSuffix(mode) && ClampedEnd(strip, endFrame) !in frames then ClampedEnd(strip, endFrame)
      else ClampedStart(strip, startFrame))
    ensures r.Success? && !Triggers(frames, strip) ==> r.value == frames
    ensures r.Success? ==> |r.value| == |frames| + (if Triggers(frames, strip) then PadAmount(padding, mode) else 0)
    ensures r.Success? ==> forall x :: x in r.value <==>
      || x in frames
      || (Triggers(frames, strip) && padding > 0 && HasSuffix(mode) && x == ClampedStart(strip, startFrame))
      || (Triggers(frames, strip) && padding > 0 && HasPrefix(mode) && x == ClampedEnd(strip, endFrame))
  {
    if Triggers(frames, strip) then
      var s := ClampedStart(strip, startFrame);
      var e := ClampedEnd(strip, endFrame);
      var afterSuffix := if HasSuffix(mode) then InsertAfterFirst(frames, e, s, padding) else Success(frames);
      if afterSuffix.Failure? then afterSuffix
      else if HasPrefix(mode) then InsertBeforeFirst(afterSuffix.value, s, e, padding)
      else afterSuffix
    else Success(frames)
  }

  /** Suffix padding of a triggered strip puts the copies of its clamped start right after the
      first occurrence `i` of its clamped end and keeps the rest of the list on both sides. */
  lemma PadStripSuffix(frames: seq<int>, strip: Strip, startFrame: int, endFrame: int, p: nat, i: nat)
    requires Triggers(frames, strip)
    requires IndexOf(frames, ClampedEnd(strip, endFrame)) == Some(i)
    ensures PadStrip(frames, strip, startFrame, endFrame, p, Suffix)
      == Success(frames[..i + 1] + Repeat(ClampedStart(strip, startFrame), p) + frames[i + 1..])
  {
    PadSuffixOnly(frames, strip, startFrame, endFrame, p);
    InsertAfterAt(frames, ClampedEnd(strip, endFrame), ClampedStart(strip, startFrame), p, i);
  }

  /** Suffix padding of a triggered strip is one insertion after its clamped end. */
  lemma PadSuffixOnly(frames: seq<int>, strip: Strip, startFrame: int, endFrame: int, p: nat)
    requires Triggers(frames, strip)
    ensures PadStrip(frames, strip, startFrame, endFrame, p, Suffix)
      == InsertAfterFirst(frames, ClampedEnd(strip, endFrame), ClampedStart(strip, startFrame), p)
  {
  }

  /** Prefix padding of a triggered strip is one insertion before its clamped start. */
  lemma PadPrefixOnly(frames: seq<int>, strip: Strip, startFrame: int, endFrame: int, p: nat)
    requires Triggers(frames, strip)
    ensures PadStrip(frames, strip, startFrame, endFrame, p, Prefix)
      == InsertBeforeFirst(frames, ClampedStart(strip, startFrame), ClampedEnd(strip, endFrame), p)
  {
  }

  /** Prefix padding of a triggered strip puts the copies of its clamped end right before the
      first occurrence of its clamped start and keeps the rest of the list on both sides. */
  lemma PadStripPrefix(frames: seq<int>, strip: Strip, startFrame: int, endFrame: int, p: nat)
    requires Triggers(frames, strip)
    requires ClampedStart(strip, startFrame) in frames
    ensures var s, e := ClampedStart(strip, startFrame), ClampedEnd(strip, endFrame);
      var j := IndexOf(frames, s).value;
      PadStrip(frames, strip, startFrame, endFrame, p, Prefix) == Success(frames[..j] + Repeat(e, p) + frames[j..])
  {
    var j := IndexOf(frames, ClampedStart(strip, startFrame)).value;
    PadPrefixOnly(frames, strip, startFrame, endFrame, p);
    InsertBeforeAt(frames, ClampedStart(strip, startFrame), ClampedEnd(strip, endFrame), p, j);
  }

  /** Padding both sides of a strip whose clamped end first occurs at `i`. The copies of the clamped
      start follow the first clamped end. When the clamped start occurs no later than that end,
      the copies of the clamped end precede its first occurrence; otherwise they precede the
      inserted copies of the start. Everything else keeps its order. */
  lemma PadStripSurrounds(frames: seq<int>, strip: Strip, startFrame: int, endFrame: int, p: nat, i: nat)
    requires Triggers(frames, strip)
    requires IndexOf(frames, ClampedEnd(strip, endFrame)) == Some(i)
    ensures var s, e := ClampedStart(strip, startFrame), ClampedEnd(strip, endFrame);
      var r := PadStrip(frames, strip, startFrame, endFrame, p, PrefixSuffix);
      && (s in frames[..i + 1] ==>
            var j := IndexOf(frames, s).value;
            j <= i && r == Success(frames[..j] + Repeat(e, p) + frames[j..i + 1] + Repeat(s, p) + frames[i + 1..]))
      && (s !in frames[..i + 1] && p > 0 ==>
            r == Success(frames[..i + 1] + Repeat(e, p) + Repeat(s, p) + frames[i + 1..]))
  {
    var s, e := ClampedStart(strip, startFrame), ClampedEnd(strip, endFrame);
    PadBothSides(frames, strip, startFrame, endFrame, p);
    InsertAfterAt(frames, e, s, p, i);
    if s in frames[..i + 1] {
      StartBeforeEnd(frames, i, s, e, p);
    } else if p > 0 {
      StartAfterEnd(frames, i, s, e, p);
    }
  }

  /** Padding both sides of a triggered strip is the suffix insertion followed by the prefix
      insertion. */
  lemma PadBothSides(frames: seq<int>, strip: Strip, startFrame: int, endFrame: int, p: nat)
    requires Triggers(frames, strip)
    requires ClampedEnd(strip, endFrame) in frames
    ensures var s, e := ClampedStart(strip, startFrame), ClampedEnd(strip, endFrame);
      PadStrip(frames, strip, startFrame, endFrame, p, PrefixSuffix)
        == InsertBeforeFirst(InsertAfterFirst(frames, e, s, p).value, s, e, p)
  {
  }

  /** Suffix insertion at a known first occurrence. */
  lemma InsertAfterAt(s: seq<int>, at: int, v: int, n: nat, i: nat)
    requires IndexOf(s, at) == Some(i)
    ensures InsertAfterFirst(s, at, v, n) == Success(s[..i + 1] + Repeat(v, n) + s[i + 1..])
  {
    var t := s[..i + 1] + Repeat(v, n) + s[i + 1..];
    assert InsertAfterFirst(s, at, v, n).Success?;
    assert InsertAfterFirst(s, at, v, n).value == t;
  }

  /** Prefix insertion after suffix insertion, when the start occurs up to the end's position. */
  lemma StartBeforeEnd(frames: seq<int>, i: nat, s: int, e: int, p: nat)
    requires i < |frames| && s in frames[..i + 1]
    ensures var t := frames[..i + 1] + Repeat(s, p) + frames[i + 1..];
      var j := IndexOf(frames, s).value;
      j <= i && InsertBeforeFirst(t, s, e, p) == Success(frames[..j] + Repeat(e, p) + frames[j..i + 1] + Repeat(s, p) + frames[i + 1..])
  {
    var t := frames[..i + 1] + Repeat(s, p) + frames[i + 1..];
    var j := StartKeepsIndex(frames, i, s, p);
    InsertBeforeAt(t, s, e, p, j);
    StartBeforeEndSplice(frames, i, j, s, e, p);
  }

  /** Inserting after position `i` keeps the first occurrence of a value found up to `i`. */
  lemma StartKeepsIndex(frames: seq<int>, i: nat, s: int, p: nat) returns (j: nat)
    requires i < |frames| && s in frames[..i + 1]
    ensures IndexOf(frames, s) == Some(j) && j <= i
    ensures IndexOf(frames[..i + 1] + Repeat(s, p) + frames[i + 1..], s) == Some(j)
  {
    var a, b := frames[..i + 1], Repeat(s, p) + frames[i + 1..];
    var t := a + b;
    assert t == frames[..i + 1] + Repeat(s, p) + frames[i + 1..];
    j := IndexOf(frames, s).value;
    var k :| 0 <= k < i + 1 && a[k] == s;
    assert frames[k] == s;
    assert t[..j] == a[..j] == frames[..j];
    assert t[j] == s;
    FirstOccurrence(t, s, j);
  }

  /** The list after both insertions, regrouped around the two inserted runs. */
  lemma StartBeforeEndSplice(frames: seq<int>, i: nat, j: nat, s: int, e: int, p: nat)
    requires j <= i < |frames|
    ensures var t := frames[..i + 1] + Repeat(s, p) + frames[i + 1..];
      t[..j] + Repeat(e, p) + t[j..] == frames[..j] + Repeat(e, p) + frames[j..i + 1] + Repeat(s, p) + frames[i + 1..]
  {
    var a, b := frames[..i + 1], Repeat(s, p) + frames[i + 1..];
    var t := a + b;
    assert t == frames[..i + 1] + Repeat(s, p) + frames[i + 1..];
    assert t[..j] == frames[..j];
    var x, m := frames[..j] + Repeat(e, p), frames[j..i + 1];
    assert t[j..] == m + b;
    ConcatAssoc(x, m, b);
    ConcatAssoc(x + m, Repeat(s, p), frames[i + 1..]);
  }

  /** Prefix insertion at a known first occurrence. */
  lemma InsertBeforeAt(s: seq<int>, at: int, v: int, n: nat, j: nat)
    requires IndexOf(s, at) == Some(j)
    ensures InsertBeforeFirst(s, at, v, n) == Success(s[..j] + Repeat(v, n) + s[j..])
  {
  }

  /** Prefix insertion after suffix insertion, when the start first appears among the inserted
      copies. */
  lemma StartAfterEnd(frames: seq<int>, i: nat, s: int, e: int, p: nat)
    requires i < |frames| && s !in frames[..i + 1] && p > 0
    ensures var t := frames[..i + 1] + Repeat(s, p) + frames[i + 1..];
      InsertBeforeFirst(t, s, e, p) == Success(frames[..i + 1] + Repeat(e, p) + Repeat(s, p) + frames[i + 1..])
  {
    var a, b := frames[..i + 1], Repeat(s, p) + frames[i + 1..];
    var t := a + b;
    assert t == frames[..i + 1] + Repeat(s, p) + frames[i + 1..];
    assert t[..i + 1] == a;
    assert t[i + 1] == s;
    FirstOccurrence(t, s, i + 1);
    InsertBeforeAt(t, s, e, p, i + 1);
    assert t[i + 1..] == b;
    ConcatAssoc(a + Repeat(e, p), Repeat(s, p), frames[i + 1..]);
  }

  /** Pads every kept strip in turn, each on the list the previous strips left. */
  function PadStrips(frames: seq<int>, strips: seq<SharedStrip>, startFrame: int, endFrame: int, padding: nat, mode: PaddingMode)
    : (r: Result<seq<int>, FrameError>)
    ensures r.Success? ==> forall x :: x in frames ==> x in r.value
    ensures r.Success? ==> exists k :: 0 <= k <= |strips| && |r.value| == |frames| + k * PadAmount(padding, mode)
    ensures r.Success? ==> |r.value| >= |frames|
    ensures r.Failure? ==> && r.error.FrameNotInList?
                           && r.error.frame !in frames
                           && exists k :: 0 <= k < |strips| && ClampedBoundary(strips[k].strip, startFrame, endFrame, r.error.frame)
    ensures AllPaddingFramesPresent(frames, strips, startFrame, endFrame, padding, mode)
            ==> r.Success?
    decreases |strips|
  {
    if |strips| == 0 then
      assert |frames| == |frames| + 0 * PadAmount(padding, mode);
      Success(frames)
    else
      var once := PadStrip(frames, strips[0].strip, startFrame, endFrame, padding, mode);
      if once.Failure? then once
      else
        var r := PadStrips(once.value, strips[1..], startFrame, endFrame, padding, mode);
        PresentInLongerList(frames, once.value, strips, startFrame, endFrame, padding, mode);
        if r.Success? then
          var a := PadAmount(padding, mode);
          var k :| 0 <= k <= |strips[1..]| && |r.value| == |once.value| + k * a;
          assert (k + 1) * a == k * a + a;
          r
        else
          var k :| 0 <= k < |strips[1..]| && ClampedBoundary(strips[1..][k].strip, startFrame, endFrame, r.error.frame);
          assert strips[1..][k] == strips[k + 1];
          r
  }

  /** Frames present in a list stay present in a list that holds it, and the rest of the strips
      look up nothing new. */
  lemma PresentInLongerList(frames: seq<int>, longer: seq<int>, strips: seq<SharedStrip>, startFrame: int, endFrame: int, padding: nat, mode: PaddingMode)
    requires |strips| > 0
    requires forall x :: x in frames ==> x in longer
    ensures AllPaddingFramesPresent(frames, strips, startFrame, endFrame, padding, mode)
            ==> AllPaddingFramesPresent(longer, strips[1..], startFrame, endFrame, padding, mode)
  {
    if AllPaddingFramesPresent(frames, strips, startFrame, endFrame, padding, mode) {
      forall k | 0 <= k < |strips[1..]|
        ensures PaddingFramesPresent(longer, strips[1..][k].strip, startFrame, endFrame, padding, mode)
      {
        assert strips[1..][k] == strips[k + 1];
        assert PaddingFramesPresent(frames, strips[k + 1].strip, startFrame, endFrame, padding, mode);
      }
    }
  }

  /** Padding takes place: an animation bake over NLA strips with a positive padding amount, some
      strip kept, and every object's strip boundaries equal. */
  predicate PaddingApplies(settings: FrameSettings, objs: seq<BakeObject>) {
    && settings.bakeMode == Animation
    && settings.rangeMode == Nla
    && settings.padding > 0
    && |Coalesce(StripUses(objs))| > 0
    && UniformBoundaries(objs)
  }

  /** Builds the frame list of a bake. The boundary comparison of the padding check runs first and
      fails on an object without NLA tracks; then fewer than two frames is rejected. On success
      the start and end frame are the smallest and largest unpadded frame, and padding is
      inserted per strip when it applies; it fails when a frame it looks up is missing, as a
      strip's clamped end is when the step skips it. */
  function GetBakeFrames(settings: FrameSettings, objs: seq<BakeObject>): (r: Result<BakeFrames, FrameError>)
    requires ValidSettings(settings)
    ensures r.Failure? && r.error == NoNlaTracks <==> NlaLookupFails(objs)
    ensures r.Failure? && r.error.TooFewFrames? <==> !NlaLookupFails(objs) && |BaseFrames(settings, objs)| < 2
    ensures !NlaLookupFails(objs) && !PaddingApplies(settings, objs) ==> (r.Success? <==> |BaseFrames(settings, objs)| >= 2)
    ensures var base := BaseFrames(settings, objs); var strips := Coalesce(StripUses(objs));
      && !NlaLookupFails(objs) && |base| >= 2 && PaddingApplies(settings, objs)
      && AllPaddingFramesPresent(base, strips, SeqMin(base), SeqMax(base), settings.padding, settings.paddingMode)
      ==> r.Success?
    ensures var base := BaseFrames(settings, objs); var strips := Coalesce(StripUses(objs));
      r.Failure? && r.error.FrameNotInList? ==>
        && PaddingApplies(settings, objs)
        && |base| >= 2
        && r.error.frame !in base
        && exists k :: 0 <= k < |strips| && ClampedBoundary(strips[k].strip, SeqMin(base), SeqMax(base), r.error.frame)
    ensures var base := BaseFrames(settings, objs);
      r.Success? ==>
        && r.value.startFrame == SeqMin(base) && r.value.endFrame == SeqMax(base)
        && |r.value.frames| >= |base| >= 2
        && (forall x :: x in base ==> x in r.value.frames)
        && (!PaddingApplies(settings, objs) ==> r.value.frames == base)
  {
    var allowed :- ApplyPadding(settings, objs);
    var base := BaseFrames(settings, objs);
    var strips := Coalesce(StripUses(objs));
    var apply := settings.bakeMode == Animation && |strips| > 0 && allowed;
    assert apply <==> PaddingApplies(settings, objs);
    Schedule(base, strips, apply, settings.padding, settings.paddingMode)
  }

  /** Rejects short lists, then pads when `apply` holds. */
  function Schedule(base: seq<int>, strips: seq<SharedStrip>, apply: bool, padding: nat, mode: PaddingMode)
    : (r: Result<BakeFrames, FrameError>)
    ensures r.Failure? ==> r.error.TooFewFrames? || r.error.FrameNotInList?
    ensures r.Failure? && r.error.TooFewFrames? <==> |base| < 2
    ensures |base| >= 2 && !apply ==> r.Success?
    ensures |base| >= 2 && apply
            && AllPaddingFramesPresent(base, strips, SeqMin(base), SeqMax(base), padding, mode)
            ==> r.Success?
    ensures r.Failure? && r.error.FrameNotInList? ==>
            && apply && |base| >= 2 && r.error.frame !in base
            && exists k :: 0 <= k < |strips| && ClampedBoundary(strips[k].strip, SeqMin(base), SeqMax(base), r.error.frame)
    ensures r.Success? ==>
            && r.value.startFrame == SeqMin(base) && r.value.endFrame == SeqMax(base)
            && |r.value.frames| >= |base| >= 2
            && (forall x :: x in base ==> x in r.value.frames)
            && (!apply ==> r.value.frames == base)
  {
    if |base| < 2 then Failure(TooFewFrames(|base|))
    else
      var lo := SeqMin(base);
      var hi := SeqMax(base);
      if apply then
        var padded := PadStrips(base, strips, lo, hi, padding, mode);
        if padded.Failure? then Failure(padded.error)
        else Success(BakeFrames(padded.value, lo, hi))
      else
        Success(BakeFrames(base, lo, hi))
  }

  /** A step that skips a strip's end frame makes suffix padding fail. One object plays strips
      1..10 and 1..20; NLA frames with step 2 are 1, 3, .., 19, so the end frame 10 of the first
      strip is looked up and not found. */
  lemma StepSkipsStripEnd()
    ensures var settings := FrameSettings(Animation, Nla, 0, 0, 2, 0, 0, 1, 1, Suffix);
      var objs := [BakeObject(0, Some([Strip("A", 1, 10), Strip("B", 1, 20)]))];
      GetBakeFrames(settings, objs) == Failure(FrameNotInList(10))
  {
    var settings := FrameSettings(Animation, Nla, 0, 0, 2, 0, 0, 1, 1, Suffix);
    var a, b := Strip("A", 1, 10), Strip("B", 1, 20);
    var objs := [BakeObject(0, Some([a, b]))];
    ExampleAllowed(settings, objs);
    GetBakeFramesSchedules(settings, objs);
    var strips := ExampleStrips(a, b);
    var base := BaseFrames(settings, objs);
    ExampleBase(settings, objs, a, b);
    ExampleSchedule(base, a, b);
  }

  /** A single object playing NLA strips with padding 1 asks for padding. */
  lemma ExampleAllowed(settings: FrameSettings, objs: seq<BakeObject>)
    requires settings == FrameSettings(Animation, Nla, 0, 0, 2, 0, 0, 1, 1, Suffix)
    requires |objs| == 1
    ensures ApplyPadding(settings, objs) == Success(true)
  {
  }

  /** Once the padding decision succeeds, the result is the schedule of the base frames. */
  lemma GetBakeFramesSchedules(settings: FrameSettings, objs: seq<BakeObject>)
    requires ValidSettings(settings)
    requires ApplyPadding(settings, objs).Success?
    ensures var strips := Coalesce(StripUses(objs));
      var apply := settings.bakeMode == Animation && |strips| > 0 && ApplyPadding(settings, objs).value;
      GetBakeFrames(settings, objs)
        == Schedule(BaseFrames(settings, objs), strips, apply, settings.padding, settings.paddingMode)
  {
  }

  /** Padding the example's strips on its frames stops at the first strip's end frame. */
  lemma ExampleSchedule(base: seq<int>, a: Strip, b: Strip)
    requires a.start == 1 && a.end == 10
    requires |base| >= 2 && 1 in base && 10 !in base && SeqMin(base) == 1 && SeqMax(base) == 19
    ensures Schedule(base, [SharedStrip(a, [0]), SharedStrip(b, [0])], true, 1, Suffix) == Failure(FrameNotInList(10))
  {
    ExampleFirstStripFails(base, a);
    assert PadStrips(base, [SharedStrip(a, [0]), SharedStrip(b, [0])], 1, 19, 1, Suffix) == Failure(FrameNotInList(10));
  }

  /** The example's first strip starts on a listed frame and ends on a missing one. */
  lemma ExampleFirstStripFails(base: seq<int>, a: Strip)
    requires a.start == 1 && a.end == 10
    requires 1 in base && 10 !in base
    ensures PadStrip(base, a, 1, 19, 1, Suffix) == Failure(FrameNotInList(10))
  {
    SuffixEndMissing(base, a, 1, 19, 1);
  }

  /** Suffix padding of a triggered strip whose clamped end is not listed fails on that end. */
  lemma SuffixEndMissing(frames: seq<int>, strip: Strip, startFrame: int, endFrame: int, padding: nat)
    requires Triggers(frames, strip) && ClampedEnd(strip, endFrame) !in frames
    ensures PadStrip(frames, strip, startFrame, endFrame, padding, Suffix)
      == Failure(FrameNotInList(ClampedEnd(strip, endFrame)))
  {
    assert !PaddingFramesPresent(frames, strip, startFrame, endFrame, padding, Suffix);
  }

  /** The example's two strips are both kept, in track order. */
  lemma ExampleStrips(a: Strip, b: Strip) returns (strips: seq<SharedStrip>)
    requires a != b
    ensures strips == Coalesce(StripUses([BakeObject(0, Some([a, b]))]))
    ensures strips == [SharedStrip(a, [0]), SharedStrip(b, [0])]
  {
    var objs := [BakeObject(0, Some([a, b]))];
    var uses := StripUses(objs);
    assert Strips(objs[0]) == [a, b];
    assert StripUses(objs[1..]) == [] by { assert objs[1..] == []; }
    assert |uses| == 2 && uses[0] == StripUse(a, 0) && uses[1] == StripUse(b, 0);
    assert !Absorbed(uses, 0) && !Absorbed(uses, 1);
    assert OtherSharers(uses, 1, 2) == [] && OtherSharers(uses, 0, 2) == [];
    assert OtherSharers(uses, 1, 1) == [] && OtherSharers(uses, 0, 1) == [];
    assert OtherSharers(uses, 1, 0) == [] && OtherSharers(uses, 0, 0) == [];
    var ob: seq<nat> := [0];
    assert ob + OtherSharers(uses, 1, 0) == ob && ob + OtherSharers(uses, 0, 0) == ob;
    assert CoalesceFrom(uses, 2) == [];
    assert CoalesceFrom(uses, 1) == [SharedStrip(b, ob)] + CoalesceFrom(uses, 2);
    assert CoalesceFrom(uses, 0) == [SharedStrip(a, ob)] + CoalesceFrom(uses, 1);
    strips := Coalesce(uses);
  }

  /** The example's NLA frames are the odd frames 1..19. */
  lemma ExampleBase(settings: FrameSettings, objs: seq<BakeObject>, a: Strip, b: Strip)
    requires settings == FrameSettings(Animation, Nla, 0, 0, 2, 0, 0, 1, 1, Suffix)
    requires a.start == 1 && a.end == 10 && b.start == 1 && b.end == 20
    requires objs == [BakeObject(0, Some([a, b]))]
    ensures var base := BaseFrames(settings, objs);
      && |base| >= 2 && 1 in base && 10 !in base
      && SeqMin(base) == 1 && SeqMax(base) == 19
  {
    var base := BaseFrames(settings, objs);
    assert forall x :: x in base <==> PlaysFrame(objs[0], x, 2);
    forall x
      ensures x in base <==> OnStep(x, 1, 10, 2) || OnStep(x, 1, 20, 2)
    {
      ExamplePlays(objs[0], a, b, x);
    }
    ExampleBaseFacts(base);
  }

  /** A frame is played at step 2 by the example object exactly when one of its two strips
      reaches it. */
  lemma ExamplePlays(o: BakeObject, a: Strip, b: Strip, x: int)
    requires a.start == 1 && a.end == 10 && b.start == 1 && b.end == 20
    requires o == BakeObject(0, Some([a, b]))
    ensures PlaysFrame(o, x, 2) <==> OnStep(x, 1, 10, 2) || OnStep(x, 1, 20, 2)
  {
    var strips := Strips(o);
    assert strips == [a, b];
    if OnStep(x, 1, 10, 2) {
      assert OnStep(x, strips[0].start, strips[0].end, 2);
    }
    if OnStep(x, 1, 20, 2) {
      assert OnStep(x, strips[1].start, strips[1].end, 2);
    }
    if PlaysFrame(o, x, 2) {
      var j :| 0 <= j < |strips| && OnStep(x, strips[j].start, strips[j].end, 2);
      assert j == 0 || j == 1;
    }
  }

  /** The frames that are odd and lie in `1..20` start at 1, end at 19 and skip 10. */
  lemma ExampleBaseFacts(base: seq<int>)
    requires forall x :: x in base <==> OnStep(x, 1, 10, 2) || OnStep(x, 1, 20, 2)
    ensures |base| >= 2 && 1 in base && 10 !in base
    ensures SeqMin(base) == 1 && SeqMax(base) == 19
  {
    assert OnStep(1, 1, 20, 2) && OnStep(3, 1, 20, 2) && OnStep(19, 1, 20, 2);
    assert 1 in base && 3 in base && 19 in base;
    assert !OnStep(10, 1, 20, 2) && !OnStep(10, 1, 10, 2);
    var i :| 0 <= i < |base| && base[i] == 1;
    var j :| 0 <= j < |base| && base[j] == 3;
    assert i != j;
    var hi := SeqMax(base);
    assert !OnStep(20, 1, 20, 2);
    assert hi <= 20 && hi != 20;
  }

  /** Padding one clip whose frames are `start..end` with step 1 in both directions surrounds it
      with `p` copies of its end frame before and `p` copies of its start frame after. */
  lemma ClipPaddedBothSides(start: int, end: int, p: nat)
    requires start <= end
    ensures var frames := FrameRange(start, end, 1);
      PadStrip(frames, Strip("clip", start, end), start, end, p, PrefixSuffix)
        == Success(Repeat(end, p) + frames + Repeat(start, p))
  {
    var frames := FrameRange(start, end, 1);
    var strip := Strip("clip", start, end);
    ClipEnds(start, end);
    assert ClampedStart(strip, start) == start && ClampedEnd(strip, end) == end;
    PadWholeList(frames, strip, start, end, p);
  }

  /** A list that opens with the strip's clamped start and holds its clamped end only in last
      place is surrounded by the padding copies. */
  lemma PadWholeList(frames: seq<int>, strip: Strip, startFrame: int, endFrame: int, p: nat)
    requires Triggers(frames, strip)
    requires |frames| > 0 && frames[0] == ClampedStart(strip, startFrame)
    requires IndexOf(frames, ClampedEnd(strip, endFrame)) == Some(|frames| - 1)
    ensures PadStrip(frames, strip, startFrame, endFrame, p, PrefixSuffix)
      == Success(Repeat(ClampedEnd(strip, endFrame), p) + frames + Repeat(ClampedStart(strip, startFrame), p))
  {
    var s, e := ClampedStart(strip, startFrame), ClampedEnd(strip, endFrame);
    OpensWith(frames, s);
    PadStripSurrounds(frames, strip, startFrame, endFrame, p, |frames| - 1);
    WholeRegroup(frames, s, e, p);
  }

  /** The first element of a list is found at index 0 and lies in the whole list. */
  lemma OpensWith(frames: seq<int>, s: int)
    requires |frames| > 0 && frames[0] == s
    ensures IndexOf(frames, s) == Some(0)
    ensures s in frames[..|frames|]
  {
    assert frames[..|frames|] == frames;
  }

  /** Both insertions around the whole list leave the list in the middle. */
  lemma WholeRegroup(frames: seq<int>, s: int, e: int, p: nat)
    requires |frames| > 0
    ensures frames[..0] + Repeat(e, p) + frames[0..|frames|] + Repeat(s, p) + frames[|frames|..]
      == Repeat(e, p) + frames + Repeat(s, p)
  {
    assert frames[..0] == [] && frames[0..|frames|] == frames && frames[|frames|..] == [];
  }

  /** A unit-step range starts at its start frame and holds its end frame only in last place. */
  lemma ClipEnds(start: int, end: int)
    requires start <= end
    ensures var frames := FrameRange(start, end, 1);
      && |frames| > 0 && frames[0] == start
      && IndexOf(frames, end) == Some(|frames| - 1)
  {
    var frames := FrameRange(start, end, 1);
    UnitRange(start, end);
    var n := |frames|;
    assert frames[n - 1] == end;
    var i := IndexOf(frames, end).value;
    assert frames[i] == start + i;
  }

  /** With step 1 the range is every integer from `start` to `end`. */
  lemma {:induction false} UnitRange(start: int, end: int)
    ensures var frames := FrameRange(start, end, 1);
      |frames| == if start <= end then end - start + 1 else 0
    ensures var frames := FrameRange(start, end, 1);
      forall i :: 0 <= i < |frames| ==> frames[i] == start + i
    decreases end + 1 - start
  {
    if start <= end {
      UnitRange(start + 1, end);
    }
  }

  lemma ConcatAssoc<T>(a: seq<T>, b: seq<T>, c: seq<T>)
    ensures a + (b + c) == a + b + c
  {
  }
}
