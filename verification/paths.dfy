/** File names of exported images, meshes and XML reports: `<Key>` tags in a name are replaced
    by their values, and only the three exported extensions are accepted. Both add-ons carry
    identical copies of these helpers, so they are defined once here. */
module ExportPaths {
  import opened Wrappers

  // ---------------------------------------------------------------------------
  // Substring search and replacement
  // ---------------------------------------------------------------------------

  /** `pat` occurs in `s` at position `i`. */
  predicate MatchAt(s: string, pat: string, i: nat) {
    i + |pat| <= |s| && s[i..i + |pat|] == pat
  }

  /** Position of the first occurrence of `pat` in `s`, as Python's `str.find` finds it. */
  function Find(s: string, pat: string): (r: Option<nat>)
    requires |pat| > 0
    ensures r.Some? ==> r.value + |pat| <= |s|
    decreases |s|
  {
    if |s| < |pat| then None
    else if s[..|pat|] == pat then Some(0)
    else
      match Find(s[1..], pat)
      case None => None
      case Some(i) => Some(i + 1)
  }

  /** `Find` reports the first position where `pat` occurs, and reports nothing exactly when
      it occurs nowhere. */
  lemma {:induction false} FindIsFirst(s: string, pat: string)
    requires |pat| > 0
    ensures Find(s, pat).Some? ==> MatchAt(s, pat, Find(s, pat).value)
    ensures Find(s, pat).Some? ==> forall k :: 0 <= k < Find(s, pat).value ==> !MatchAt(s, pat, k)
    ensures Find(s, pat).None? ==> forall k :: 0 <= k <= |s| ==> !MatchAt(s, pat, k)
    decreases |s|
  {
    if |s| >= |pat| && s[..|pat|] != pat {
      FindIsFirst(s[1..], pat);
      ShiftMatch(s, pat);
    }
  }

  /** A match in `s` past the first character is a match in `s[1..]`, one place earlier. */
  lemma ShiftMatch(s: string, pat: string)
    requires |s| > 0
    ensures forall k :: 1 <= k <= |s| ==> (MatchAt(s, pat, k) <==> MatchAt(s[1..], pat, k - 1))
  {
    forall k | 1 <= k <= |s|
      ensures MatchAt(s, pat, k) <==> MatchAt(s[1..], pat, k - 1)
    {
      if k + |pat| <= |s| {
        var here := s[k..k + |pat|];
        var there := s[1..][k - 1..k - 1 + |pat|];
        assert forall j :: 0 <= j < |pat| ==> here[j] == there[j];
        assert here == there;
      }
    }
  }

  /** Python's `pat in s`. */
  predicate Occurs(s: string, pat: string)
    requires |pat| > 0
  {
    Find(s, pat).Some?
  }

  /** Python's `s.replace(pat, rep)`: occurrences replaced left to right, none overlapping.
      Replacing a pattern by itself changes nothing, and a replacement as long as the pattern
      keeps the length. */
  function ReplaceAll(s: string, pat: string, rep: string): (r: string)
    requires |pat| > 0
    ensures rep == pat ==> r == s
    ensures |rep| == |pat| ==> |r| == |s|
    decreases |s|
  {
    if |s| < |pat| then s
    else if s[..|pat|] == pat then
      assert s[..|pat|] + s[|pat|..] == s;
      rep + ReplaceAll(s[|pat|..], pat, rep)
    else
      assert [s[0]] + s[1..] == s;
      [s[0]] + ReplaceAll(s[1..], pat, rep)
  }

  /** The replacement described the way CPython performs it: find the first occurrence, copy
      what precedes it, write the replacement, and carry on after the occurrence. */
  function ReplaceByFind(s: string, pat: string, rep: string): string
    requires |pat| > 0
    decreases |s|
  {
    var f := Find(s, pat);
    if f.None? then s else s[..f.value] + (rep + ReplaceByFind(s[f.value + |pat|..], pat, rep))
  }

  /** Scanning character by character and jumping from occurrence to occurrence replace the
      same occurrences. */
  lemma {:induction false} ReplaceAllFindsOccurrences(s: string, pat: string, rep: string)
    requires |pat| > 0
    ensures ReplaceAll(s, pat, rep) == ReplaceByFind(s, pat, rep)
    decreases |s|
  {
    if |s| < |pat| {
    } else if s[..|pat|] == pat {
      ReplaceAllFindsOccurrences(s[|pat|..], pat, rep);
    } else {
      ReplaceAllFindsOccurrences(s[1..], pat, rep);
      ReplaceByFindSkips(s, pat, rep);
    }
  }

  /** Without an occurrence at the front, the first character is copied and the rest
      replaced. */
  lemma ReplaceByFindSkips(s: string, pat: string, rep: string)
    requires |pat| > 0 && |s| >= |pat| && s[..|pat|] != pat
    ensures ReplaceByFind(s, pat, rep) == [s[0]] + ReplaceByFind(s[1..], pat, rep)
  {
    match Find(s[1..], pat)
    case None =>
      assert [s[0]] + s[1..] == s;
    case Some(i) =>
      ReplaceByFindSkipsTo(s, pat, rep, i);
  }

  lemma ReplaceByFindSkipsTo(s: string, pat: string, rep: string, i: nat)
    requires |pat| > 0 && |s| >= |pat| && s[..|pat|] != pat
    requires Find(s[1..], pat) == Some(i)
    ensures ReplaceByFind(s, pat, rep) == [s[0]] + ReplaceByFind(s[1..], pat, rep)
  {
    var tail := s[1..];
    FindSkips(s, pat);
    SkipSlices(s, i, |pat|);
    var after := tail[i + |pat|..];
    var rest := rep + ReplaceByFind(after, pat, rep);
    ReplaceByFindAt(s, pat, rep, i + 1, after);
    ReplaceByFindAt(tail, pat, rep, i, after);
    Regroup(s[..i + 1], [s[0]], tail[..i], rest);
  }

  lemma Regroup<T>(x: seq<T>, a: seq<T>, b: seq<T>, c: seq<T>)
    requires x == a + b
    ensures x + c == a + (b + c)
  {
  }

  lemma ReplaceByFindAt(s: string, pat: string, rep: string, i: nat, after: string)
    requires |pat| > 0 && Find(s, pat) == Some(i)
    requires after == s[i + |pat|..]
    ensures ReplaceByFind(s, pat, rep) == s[..i] + (rep + ReplaceByFind(after, pat, rep))
  {
    var f := Find(s, pat);
    assert ReplaceByFind(s, pat, rep) == s[..f.value] + (rep + ReplaceByFind(s[f.value + |pat|..], pat, rep));
  }

  /** Without an occurrence at the front, the search goes on one character later. */
  lemma FindSkips(s: string, pat: string)
    requires |pat| > 0 && |s| >= |pat| && s[..|pat|] != pat
    ensures Find(s, pat) == match Find(s[1..], pat) case None => None case Some(i) => Some(i + 1)
  {
  }

  lemma SkipSlices(s: string, i: nat, n: nat)
    requires 0 < i + 1 + n <= |s|
    ensures s[..i + 1] == [s[0]] + s[1..][..i]
    ensures s[1..][i + n..] == s[i + 1 + n..]
  {
  }

  /** Replacing a pattern that does not occur changes nothing. */
  lemma {:induction false} ReplaceAllWithoutOccurrence(s: string, pat: string, rep: string)
    requires |pat| > 0 && !Occurs(s, pat)
    ensures ReplaceAll(s, pat, rep) == s
  {
    ReplaceAllFindsOccurrences(s, pat, rep);
  }

  // ---------------------------------------------------------------------------
  // Name tags
  // ---------------------------------------------------------------------------

  /** The marker written in a file name for tag `key`. */
  function Tag(key: string): (t: string)
    ensures |t| == |key| + 2 && t[0] == '<' && t[|t| - 1] == '>'
  {
    "<" + key + ">"
  }

  /** Every tag, in the order the tag dictionary lists them, replaced where it occurs. Tags
      whose value is their own marker change nothing, and values as long as their markers keep
      the name's length. */
  function ReplaceTags(name: string, tags: seq<(string, string)>): (r: string)
    ensures (forall t :: 0 <= t < |tags| ==> tags[t].1 == Tag(tags[t].0)) ==> r == name
    ensures (forall t :: 0 <= t < |tags| ==> |tags[t].1| == |Tag(tags[t].0)|) ==> |r| == |name|
    decreases |tags|
  {
    if |tags| == 0 then name
    else
      var tag := Tag(tags[0].0);
      var next := if Occurs(name, tag) then ReplaceAll(name, tag, tags[0].1) else name;
      assert forall t :: 0 <= t < |tags[1..]| ==> tags[1..][t] == tags[t + 1];
      ReplaceTags(next, tags[1..])
  }

  /** A name that carries none of the tags comes back unchanged. */
  lemma {:induction false} ReplaceTagsWithoutTags(name: string, tags: seq<(string, string)>)
    requires forall t :: 0 <= t < |tags| ==> !Occurs(name, Tag(tags[t].0))
    ensures ReplaceTags(name, tags) == name
    decreases |tags|
  {
    if |tags| > 0 {
      assert !Occurs(name, Tag(tags[0].0));
      ReplaceTagsWithoutTags(name, tags[1..]);
    }
  }

  /** A one-tag dictionary replaces the marker inside a name, as the default image names use
      it. */
  lemma ObjectNameTag()
    ensures ReplaceTags("T_<ObjectName>", [("ObjectName", "Cube")]) == "T_Cube"
  {
    assert Tag("ObjectName") == "<ObjectName>";
    ObjectNameOccurs();
    ObjectNameReplaced();
  }

  lemma ObjectNameOccurs()
    ensures Occurs("T_<ObjectName>", "<ObjectName>")
  {
    assert MatchAt("T_<ObjectName>", "<ObjectName>", 2);
    FindIsFirst("T_<ObjectName>", "<ObjectName>");
  }

  lemma ObjectNameReplaced()
    ensures ReplaceAll("T_<ObjectName>", "<ObjectName>", "Cube") == "T_Cube"
  {
    var name := "T_<ObjectName>";
    var tag := "<ObjectName>";
    assert name[..|tag|] != tag by { assert name[..|tag|][0] != tag[0]; }
    assert name[1..][..|tag|] != tag by { assert name[1..][..|tag|][0] != tag[0]; }
    assert name[1..][1..] == tag;
    assert ReplaceAll(tag, tag, "Cube") == "Cube" + ReplaceAll([], tag, "Cube");
  }

  // ---------------------------------------------------------------------------
  // Export paths
  // ---------------------------------------------------------------------------

  /** The extensions an export path may carry. */
  const ExportExtensions: seq<string> := [".png", ".exr", ".fbx"]

  datatype PathError = InvalidExtension

  /** Where a file goes: a directory and the file name with its extension. */
  datatype ExportPath = ExportPath(dir: string, fileName: string)

  /** The path of an export: the extension is checked first, then the tags of the name are
      replaced and the extension appended. */
  function GetPath(dir: string, fileName: string, ext: string, tags: seq<(string, string)>): (r: Result<ExportPath, PathError>)
    ensures r.Failure? <==> ext !in ExportExtensions
    ensures r.Failure? ==> r.error == InvalidExtension
    ensures r.Success? ==> r.value.dir == dir && r.value.fileName == ReplaceTags(fileName, tags) + ext
  {
    if ext !in ExportExtensions then Failure(InvalidExtension)
    else Success(ExportPath(dir, ReplaceTags(fileName, tags) + ext))
  }

  datatype XmlPathMode = MeshPath | CustomPath

  /** Where the XML report goes: next to the exported mesh in mesh-path mode when a mesh was
      exported, otherwise through `GetPath` with the `.xml` extension. */
  datatype XmlTarget = NextToMesh(meshPath: string, fileName: string) | InDirectory(path: ExportPath)

  /** The XML report can only be written next to an exported mesh: every other route asks
      for a `.xml` path, and the extension check refuses it. */
  function XmlExportPath(mode: XmlPathMode, meshPath: string, reportName: string, dir: string, fileName: string)
    : (r: Result<XmlTarget, PathError>)
    ensures r.Success? <==> mode == MeshPath && meshPath != ""
    ensures r.Success? ==> r.value == NextToMesh(meshPath, reportName + ".xml")
    ensures r.Failure? ==> r.error == InvalidExtension
  {
    if mode == MeshPath && meshPath != "" then Success(NextToMesh(meshPath, reportName + ".xml"))
    else
      var name := if fileName != "" then fileName else reportName;
      assert ".xml" !in ExportExtensions by {
        assert ".xml" != ".png" && ".xml" != ".exr" && ".xml" != ".fbx";
      }
      match GetPath(dir, name, ".xml", [])
      case Failure(e) => Failure(e)
      case Success(p) => Success(InDirectory(p))
  }
}
