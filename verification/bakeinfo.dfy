/** The bake summary of the static-data baker: each bake (position, axis, shape-key offset,
    shape-key normal, linear mask, sphere mask, random per collection, per object, per
    polygon, parent, fixed value, direction, in that order) reports whether it is enabled and
    which UV channels, vertex-color channels and normal components it fills; the summary
    concatenates the three lists of the enabled bakes. */
module BakeInfo {

  /** One bake's report; `T` stands for the source's description tuples. */
  datatype Info<T> = Info(enabled: bool, uv: seq<T>, vcol: seq<T>, normal: seq<T>)

  datatype Summary<T> = Summary(uv: seq<T>, vcol: seq<T>, normal: seq<T>)

  /** The reference: the reports of the enabled bakes, concatenated in order. */
  function Gathered<T>(infos: seq<Info<T>>): Summary<T> {
    if |infos| == 0 then Summary([], [], [])
    else
      var earlier := Gathered(infos[..|infos| - 1]);
      var last := infos[|infos| - 1];
      if last.enabled then Summary(earlier.uv + last.uv, earlier.vcol + last.vcol, earlier.normal + last.normal)
      else earlier
  }

  /** The loop of the source, which extends three lists with each enabled report. */
  method GetBakeInfo<T>(infos: seq<Info<T>>) returns (uv: seq<T>, vcol: seq<T>, normal: seq<T>)
    ensures Summary(uv, vcol, normal) == Gathered(infos)
  {
    uv, vcol, normal := [], [], [];
    var i := 0;
    while i < |infos|
      invariant 0 <= i <= |infos|
      invariant Summary(uv, vcol, normal) == Gathered(infos[..i])
    {
      assert infos[..i + 1][..i] == infos[..i];
      if infos[i].enabled {
        uv := uv + infos[i].uv;
        vcol := vcol + infos[i].vcol;
        normal := normal + infos[i].normal;
      }
      i := i + 1;
    }
    assert infos[..|infos|] == infos;
  }

  /** An entry is in the summary's UV list exactly when some enabled bake reports it; the
      same holds for the vertex-color and normal lists. */
  lemma {:induction false} GatheredMembers<T>(infos: seq<Info<T>>)
    ensures forall x :: x in Gathered(infos).uv <==> exists i :: 0 <= i < |infos| && infos[i].enabled && x in infos[i].uv
    ensures forall x :: x in Gathered(infos).vcol <==> exists i :: 0 <= i < |infos| && infos[i].enabled && x in infos[i].vcol
    ensures forall x :: x in Gathered(infos).normal <==> exists i :: 0 <= i < |infos| && infos[i].enabled && x in infos[i].normal
  {
    if |infos| > 0 {
      var n := |infos| - 1;
      var init := infos[..n];
      GatheredMembers(init);
      forall i | 0 <= i < n
        ensures init[i] == infos[i]
      {
      }
    }
  }

  /** The enabled reports alone, in order. */
  function Enabled<T>(infos: seq<Info<T>>): seq<Info<T>> {
    if |infos| == 0 then []
    else Enabled(infos[..|infos| - 1]) + (if infos[|infos| - 1].enabled then [infos[|infos| - 1]] else [])
  }

  /** A disabled bake contributes nothing: the summary only depends on the enabled reports. */
  lemma {:induction false} DisabledContributeNothing<T>(infos: seq<Info<T>>)
    ensures Gathered(Enabled(infos)) == Gathered(infos)
  {
    if |infos| > 0 {
      var n := |infos| - 1;
      DisabledContributeNothing(infos[..n]);
      var e := Enabled(infos[..n]);
      if infos[n].enabled {
        assert Enabled(infos) == e + [infos[n]];
        assert (e + [infos[n]])[..|e|] == e;
      } else {
        assert Enabled(infos) == e + [] == e;
      }
    }
  }

  function Join<T>(s: Summary<T>, t: Summary<T>): Summary<T> {
    Summary(s.uv + t.uv, s.vcol + t.vcol, s.normal + t.normal)
  }

  /** Summarising two report lists one after the other is the same as summarising them
      together: the summary of a concatenation is the concatenation of the summaries. */
  lemma {:induction false} GatheredAppend<T>(a: seq<Info<T>>, b: seq<Info<T>>)
    ensures Gathered(a + b) == Join(Gathered(a), Gathered(b))
    decreases |b|
  {
    if |b| == 0 {
      assert a + b == a;
      var g := Gathered(a);
      assert g.uv + [] == g.uv && g.vcol + [] == g.vcol && g.normal + [] == g.normal;
    } else {
      var n := |b| - 1;
      GatheredAppend(a, b[..n]);
      assert (a + b)[..|a + b| - 1] == a + b[..n];
      assert (a + b)[|a + b| - 1] == b[n];
      var g := Gathered(a);
      var h := Gathered(b[..n]);
      var x := b[n];
      if x.enabled {
        assert g.uv + h.uv + x.uv == g.uv + (h.uv + x.uv);
        assert g.vcol + h.vcol + x.vcol == g.vcol + (h.vcol + x.vcol);
        assert g.normal + h.normal + x.normal == g.normal + (h.normal + x.normal);
      }
    }
  }
}
