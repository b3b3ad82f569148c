/** `DeepAsset`: one asset at one place in the pot tree, and the title it is
    shown under. */
module DeepAssets {
  import opened Text
  import opened AssetTags
  import opened PotPaths

  datatype DeepAsset = DeepAsset(potPath: PotPath, assetTag: AssetTag)

  /** `DeepAsset::new`. */
  function New(p: PotPath, t: AssetTag): (d: DeepAsset)
    ensures d.potPath == p && d.assetTag == t
  {
    DeepAsset(p, t)
  }

  /** The names in `names` that are not empty, in their order. */
  function NonEmpty(names: seq<string>): (r: seq<string>)
    ensures |r| <= |names|
    ensures forall i :: 0 <= i < |r| ==> r[i] != ""
    ensures forall x :: x in r <==> x in names && x != ""
  {
    if |names| == 0 then []
    else if names[0] == "" then NonEmpty(names[1..])
    else [names[0]] + NonEmpty(names[1..])
  }

  lemma {:induction false} NonEmptyConcat(a: seq<string>, b: seq<string>)
    ensures NonEmpty(a + b) == NonEmpty(a) + NonEmpty(b)
  {
    if |a| == 0 {
      assert a + b == b;
    } else {
      assert (a + b)[0] == a[0];
      assert (a + b)[1..] == a[1..] + b;
      NonEmptyConcat(a[1..], b);
    }
  }

  /** The pieces of a title: the non-empty folder names, then the tag text
      if it is not empty. */
  function Components(d: DeepAsset): seq<string>
  {
    NonEmpty(SegmentNames(d.potPath) + [AsStr(d.assetTag)])
  }

  /** `DeepAsset::title`: the components joined with "::". */
  function Title(d: DeepAsset): string
  {
    Join(Components(d), "::")
  }

  /** An asset of the current folder is titled by its tag alone. */
  lemma TitleAtCurrentFolder(t: AssetTag)
    ensures Title(New(CurrentFolder, t)) == AsStr(t)
  {
    NonEmptyConcat([""], [AsStr(t)]);
  }

  /** Moving an asset one non-empty folder further down puts that folder's
      name just before the tag, after the names of the path above it. */
  lemma TitleComponentsExtend(p: PotPath, name: string, t: AssetTag)
    requires name != ""
    ensures Components(New(Extend(p, name), t)) ==
      NonEmpty(SegmentNames(p)) + [name] + NonEmpty([AsStr(t)])
  {
    var segs := SegmentNames(p);
    assert SegmentNames(Extend(p, name)) + [AsStr(t)] == segs + ([name] + [AsStr(t)]);
    NonEmptyConcat(segs, [name] + [AsStr(t)]);
    NonEmptyConcat([name], [AsStr(t)]);
  }

  /** A title starts with its first component and ends with its last one, so
      it begins or ends with a separator only if a component does; no
      component is empty. */
  lemma TitleEnds(d: DeepAsset)
    requires |Components(d)| > 0
    ensures var cs := Components(d);
      |Title(d)| >= |cs[0]| > 0 && Title(d)[..|cs[0]|] == cs[0] &&
      |Title(d)| >= |cs[|cs| - 1]| > 0 && Title(d)[|Title(d)| - |cs[|cs| - 1]|..] == cs[|cs| - 1]
  {
    JoinEnds(Components(d), "::");
  }

  /** A sub-folder asset: folder "hunt", tag parsed from "cost". */
  lemma TitleExample()
    ensures Title(New(Extend(CurrentFolder, "hunt"), FromStr("cost"))) == "hunt::COST"
  {
    var t := FromStr("cost");
    assert Upper("cost") == "COST";
    assert AsStr(t) == "COST";
    TitleComponentsExtend(CurrentFolder, "hunt", t);
    assert NonEmpty([""]) == [];
    assert NonEmpty(["COST"]) == ["COST"];
    assert Components(New(Extend(CurrentFolder, "hunt"), t)) == ["hunt", "COST"];
  }
}
