/** `PotPath`: where a pot sits below the current folder, built one folder
    name at a time. */
module PotPaths {

  datatype PotPath = CurrentFolder | SubFolder(pred: PotPath, name: string)

  /** How many folder names were appended to reach `p`. */
  function Depth(p: PotPath): nat
  {
    match p
    case CurrentFolder => 0
    case SubFolder(pred, _) => 1 + Depth(pred)
  }

  /** `PotPath::segment_names`: the empty name of the current folder, then
      every appended name in the order it was appended. */
  function SegmentNames(p: PotPath): (r: seq<string>)
    ensures |r| > 0 && r[0] == ""
  {
    match p
    case CurrentFolder => [""]
    case SubFolder(pred, name) => SegmentNames(pred) + [name]
  }

  /** `PotPath::extend`: the path one folder further down. */
  function Extend(p: PotPath, name: string): (r: PotPath)
    ensures SegmentNames(r) == SegmentNames(p) + [name]
    ensures Depth(r) == Depth(p) + 1
  {
    SubFolder(p, name)
  }

  /** One segment per appended name, after the leading empty one. */
  lemma {:induction false} SegmentCount(p: PotPath)
    ensures |SegmentNames(p)| == 1 + Depth(p)
  {
    match p
    case CurrentFolder =>
    case SubFolder(pred, _) => SegmentCount(pred);
  }

  /** Different paths never list the same segments, so a path can be
      recovered from its segment names. */
  lemma {:induction false} SegmentNamesInjective(p: PotPath, q: PotPath)
    requires SegmentNames(p) == SegmentNames(q)
    ensures p == q
  {
    SegmentCount(p);
    SegmentCount(q);
    match p
    case CurrentFolder =>
      if q.SubFolder? {
        SegmentCount(q.pred);
      }
    case SubFolder(pp, a) =>
      if q.CurrentFolder? {
        SegmentCount(pp);
      } else {
        var sp := SegmentNames(pp);
        var sq := SegmentNames(q.pred);
        assert SegmentNames(p) == sp + [a] && SegmentNames(q) == sq + [q.name];
        assert sp == SegmentNames(p)[..|sp|];
        assert |sp| == |sq|;
        assert sq == SegmentNames(q)[..|sq|];
        SegmentNamesInjective(pp, q.pred);
      }
  }

  /** Extending is injective in both the path and the name. */
  lemma ExtendInjective(p: PotPath, q: PotPath, a: string, b: string)
    ensures Extend(p, a) == Extend(q, b) <==> p == q && a == b
  {
  }

  /** Two names appended to the current folder. */
  lemma ExtendTwice()
    ensures SegmentNames(Extend(Extend(CurrentFolder, "a"), "b")) == ["", "a", "b"]
  {
  }
}
