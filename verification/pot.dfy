/** A pot is a folder holding `lots.csv`, `cash.txt`, `ramp.txt` and
    `team.txt`, with its sub-pots in sub-folders. Here a folder is a value:
    each file is its parsed content, or `None` when the file is absent, and
    the sub-folders are a finite map from folder name to folder, so every
    walk down the tree ends. The operations are those of the `Pot` trait as
    `FolderPot` implements them. */
module Pots {
  import opened Wrappers
  import opened Text
  import opened AssetTags
  import Ramps
  import opened Lots
  import opened Portfolios
  import opened Ordering

  datatype FolderPot = FolderPot(
    lots: Option<seq<Lot>>,       // lots.csv, rows in file order
    cash: Option<real>,           // cash.txt
    ramp: Option<string>,         // ramp.txt
    team: Option<string>,         // team.txt, the target list
    subfolders: map<string, FolderPot>)

  /** A folder that does not exist: every file is missing. */
  const Absent: FolderPot := FolderPot(None, None, None, None, map[])

  /** `subpot`: the folder joined to this pot's path. Joining the empty name
      gives the pot's own folder back; a name with no folder gives a pot
      whose files are all missing. */
  function Subpot(p: FolderPot, name: string): (r: FolderPot)
    ensures name == "" ==> r == p
    ensures name != "" && name in p.subfolders ==> r == p.subfolders[name]
    ensures name != "" && name !in p.subfolders ==> r == Absent
  {
    if name == "" then p
    else if name in p.subfolders then p.subfolders[name]
    else Absent
  }

  // ------------------------------------------------------------------ lots

  function Reversed<T>(s: seq<T>): (r: seq<T>)
    ensures |r| == |s|
    ensures forall i :: 0 <= i < |s| ==> r[i] == s[|s| - 1 - i]
  {
    seq(|s|, i requires 0 <= i < |s| => s[|s| - 1 - i])
  }

  /** The reading loop of `read_lots`: each row read is inserted at the
      front of what has been read so far. */
  function {:induction false} InsertEachAtFront(acc: seq<Lot>, rows: seq<Lot>): (r: seq<Lot>)
    ensures r == Reversed(rows) + acc
    decreases |rows|
  {
    if |rows| == 0 then acc
    else
      var r := InsertEachAtFront([rows[0]] + acc, rows[1..]);
      assert Reversed(rows[1..]) + ([rows[0]] + acc) == Reversed(rows) + acc;
      r
  }

  /** `read_lots`: the rows of `lots.csv`, inserted at the front one by one
      and then reversed. A missing file is an error. */
  function ReadLots(p: FolderPot): (r: Result<seq<Lot>>)
    ensures r.Success? <==> p.lots.Some?
    ensures r.Failure? ==> r.error == MissingLots
    ensures r.Success? ==> r.value == p.lots.value
  {
    match p.lots
    case None => Failure(MissingLots)
    case Some(rows) =>
      var front := InsertEachAtFront([], rows);
      assert Reversed(front) == rows;
      Success(Reversed(front))
  }

  /** `write_lots`. */
  function WriteLots(p: FolderPot, lots: seq<Lot>): FolderPot
  {
    p.(lots := Some(lots))
  }

  /** What is written is what is read back, and no other file changes. */
  lemma ReadLotsAfterWrite(p: FolderPot, lots: seq<Lot>)
    ensures ReadLots(WriteLots(p, lots)) == Success(lots)
    ensures WriteLots(p, lots).(lots := p.lots) == p
  {
  }

  // ---------------------------------------------------------------- shares

  /** A lot is the one addressed by (tag, custodian). */
  predicate Matches(lot: Lot, tag: AssetTag, custodian: string) {
    HasTag(lot, tag) && HasCustodian(lot, custodian)
  }

  /** The position of the first addressed lot. */
  function FirstMatch(lots: seq<Lot>, tag: AssetTag, custodian: string): (r: Option<nat>)
    ensures r.None? <==> forall i :: 0 <= i < |lots| ==> !Matches(lots[i], tag, custodian)
    ensures r.Some? ==> r.value < |lots| && Matches(lots[r.value], tag, custodian)
    ensures r.Some? ==> forall j :: 0 <= j < r.value ==> !Matches(lots[j], tag, custodian)
  {
    if |lots| == 0 then None
    else if Matches(lots[0], tag, custodian) then Some(0)
    else
      match FirstMatch(lots[1..], tag, custodian)
      case None => None
      case Some(i) => Some(i + 1)
  }

  /** The position of the last addressed lot. */
  function LastMatch(lots: seq<Lot>, tag: AssetTag, custodian: string): (r: Option<nat>)
    ensures r.None? <==> forall i :: 0 <= i < |lots| ==> !Matches(lots[i], tag, custodian)
    ensures r.Some? ==> r.value < |lots| && Matches(lots[r.value], tag, custodian)
    ensures r.Some? ==> forall j :: r.value < j < |lots| ==> !Matches(lots[j], tag, custodian)
  {
    if |lots| == 0 then None
    else if Matches(lots[|lots| - 1], tag, custodian) then Some(|lots| - 1)
    else LastMatch(lots[..|lots| - 1], tag, custodian)
  }

  /** The count `read_shares` finds: that of the first addressed lot, or 0
      when there is none. */
  function SharesOf(lots: seq<Lot>, tag: AssetTag, custodian: string): (r: real)
    ensures (forall i :: 0 <= i < |lots| ==> !Matches(lots[i], tag, custodian)) ==> r == 0.0
    ensures forall i :: 0 <= i < |lots| && Matches(lots[i], tag, custodian)
                        && (forall j :: 0 <= j < i ==> !Matches(lots[j], tag, custodian))
                        ==> r == lots[i].shareCount
  {
    match FirstMatch(lots, tag, custodian)
    case None => 0.0
    case Some(i) => lots[i].shareCount
  }

  /** `read_shares`, for the tag the symbol parses to. */
  function ReadShares(p: FolderPot, custodian: string, symbol: string): (r: Result<real>)
    ensures r.Success? <==> p.lots.Some?
    ensures r.Success? ==> r.value == SharesOf(p.lots.value, FromStr(symbol), custodian)
  {
    var lots :- ReadLots(p);
    Success(SharesOf(lots, FromStr(symbol), custodian))
  }

  /** Every addressed lot with its count replaced, every other lot kept. */
  function Recount(lots: seq<Lot>, tag: AssetTag, custodian: string, count: real): (r: seq<Lot>)
    ensures |r| == |lots|
    ensures forall i :: 0 <= i < |lots| ==>
              r[i] == if Matches(lots[i], tag, custodian) then WithShareCount(lots[i], count) else lots[i]
  {
    seq(|lots|, i requires 0 <= i < |lots| =>
      if Matches(lots[i], tag, custodian) then WithShareCount(lots[i], count) else lots[i])
  }

  /** The rewrite `write_shares` performs: the recounted lots and the uid
      of the last addressed lot. With no addressed lot the source writes the
      lots back unchanged and then panics on the missing uid; that is
      `NoMatchingLot`. */
  function RecountShares(lots: seq<Lot>, tag: AssetTag, custodian: string, count: real): (r: Result<(seq<Lot>, Uid)>)
    ensures r.Failure? <==> forall i :: 0 <= i < |lots| ==> !Matches(lots[i], tag, custodian)
    ensures r.Failure? ==> r.error == NoMatchingLot
    ensures r.Success? ==> r.value.0 == Recount(lots, tag, custodian, count)
    ensures r.Success? ==>
              exists j :: && 0 <= j < |lots| && r.value.1 == lots[j].uid && Matches(lots[j], tag, custodian)
                          && forall k :: j < k < |lots| ==> !Matches(lots[k], tag, custodian)
  {
    match LastMatch(lots, tag, custodian)
    case None => Failure(NoMatchingLot)
    case Some(j) => Success((Recount(lots, tag, custodian, count), lots[j].uid))
  }

  /** `write_shares`, for the tag the symbol parses to: only the lots file
      changes. */
  function WriteShares(p: FolderPot, custodian: string, symbol: string, count: real): (r: Result<(FolderPot, Uid)>)
    ensures p.lots.None? ==> r == Failure(MissingLots)
    ensures p.lots.Some? ==> match RecountShares(p.lots.value, FromStr(symbol), custodian, count)
      case Failure(e) => r == Failure(e)
      case Success((lots, uid)) => r == Success((WriteLots(p, lots), uid))
  {
    var lots :- ReadLots(p);
    var (recounted, uid) :- RecountShares(lots, FromStr(symbol), custodian, count);
    Success((WriteLots(p, recounted), uid))
  }

  /** After the rewrite the addressed lots hold the new count, so reading
      them back gives it. */
  lemma SharesAfterRecount(lots: seq<Lot>, tag: AssetTag, custodian: string, count: real)
    requires RecountShares(lots, tag, custodian, count).Success?
    ensures SharesOf(RecountShares(lots, tag, custodian, count).value.0, tag, custodian) == count
  {
    var q := Recount(lots, tag, custodian, count);
    var i := FirstMatch(lots, tag, custodian).value;
    assert Matches(q[i], tag, custodian);
    forall j | 0 <= j < i ensures !Matches(q[j], tag, custodian) {
      assert q[j] == lots[j];
    }
  }

  /** `read_shares` after a successful `write_shares` with the same symbol
      and custodian returns the count written. */
  lemma WriteSharesThenRead(p: FolderPot, custodian: string, symbol: string, count: real)
    requires p.lots.Some? && RecountShares(p.lots.value, FromStr(symbol), custodian, count).Success?
    ensures WriteShares(p, custodian, symbol, count).Success?
    ensures ReadShares(WriteShares(p, custodian, symbol, count).value.0, custodian, symbol) == Success(count)
  {
    SharesAfterRecount(p.lots.value, FromStr(symbol), custodian, count);
  }

  /** Rewriting with the same count a second time changes nothing and
      reports the same uid. */
  lemma RecountIdempotent(lots: seq<Lot>, tag: AssetTag, custodian: string, count: real)
    requires RecountShares(lots, tag, custodian, count).Success?
    ensures var once := RecountShares(lots, tag, custodian, count).value;
            RecountShares(once.0, tag, custodian, count) == Success(once)
  {
    var q := Recount(lots, tag, custodian, count);
    forall i | 0 <= i < |lots| ensures Matches(q[i], tag, custodian) == Matches(lots[i], tag, custodian) {
    }
    assert Recount(q, tag, custodian, count) == q;
    LastMatchSameShape(lots, q, tag, custodian);
    var j := LastMatch(lots, tag, custodian).value;
    assert q[j].uid == lots[j].uid;
  }

  /** `LastMatch` looks only at which positions are addressed. */
  lemma {:induction false} LastMatchSameShape(a: seq<Lot>, b: seq<Lot>, tag: AssetTag, custodian: string)
    requires |a| == |b|
    requires forall i :: 0 <= i < |a| ==> Matches(a[i], tag, custodian) == Matches(b[i], tag, custodian)
    ensures LastMatch(a, tag, custodian) == LastMatch(b, tag, custodian)
  {
    if |a| > 0 && !Matches(a[|a| - 1], tag, custodian) {
      LastMatchSameShape(a[..|a| - 1], b[..|b| - 1], tag, custodian);
    }
  }

  // --------------------------------------------------------------- targets

  /** A line of nothing but white space. */
  predicate Blank(line: string) {
    forall i :: 0 <= i < |line| ==> IsSpace(line[i])
  }

  /** The blank lines are the ones that trim to nothing, the test
      `read_targets` applies. */
  lemma BlankIsTrimmedEmpty(line: string)
    ensures Blank(line) <==> Trim(line) == ""
  {
    var start := TrimStart(line);
    if Trim(line) == "" {
      assert |start| == 0;
    }
  }

  /** The lines that are not blank, in order. */
  function NonBlank(lines: seq<string>): (r: seq<string>)
    ensures |r| <= |lines|
    ensures forall i :: 0 <= i < |r| ==> !Blank(r[i])
  {
    if |lines| == 0 then []
    else
      var rest := NonBlank(lines[1..]);
      if Blank(lines[0]) then rest else [lines[0]] + rest
  }

  /** Dropping blank lines keeps every other line and only those. */
  lemma {:induction false} NonBlankMembers(lines: seq<string>)
    ensures forall x :: x in NonBlank(lines) <==> x in lines && !Blank(x)
  {
    if |lines| > 0 {
      NonBlankMembers(lines[1..]);
      assert forall x :: x in lines <==> x == lines[0] || x in lines[1..];
    }
  }

  /** The text of `team.txt` parsed: split on line feeds, blank lines
      dropped, each line trimmed and parsed as a tag. */
  function ParseTargets(text: string): (r: seq<AssetTag>)
    ensures forall i :: 0 <= i < |r| ==> WellFormed(r[i])
  {
    ParseLines(NonBlank(Split(text, '\n')))
  }

  /** Each line trimmed and parsed as a tag. */
  function ParseLines(lines: seq<string>): (r: seq<AssetTag>)
    ensures |r| == |lines|
    ensures forall i :: 0 <= i < |lines| ==> r[i] == FromStr(Trim(lines[i]))
  {
    seq(|lines|, i requires 0 <= i < |lines| => FromStr(Trim(lines[i])))
  }

  lemma ParseLinesConcat(x: seq<string>, y: seq<string>)
    ensures ParseLines(x + y) == ParseLines(x) + ParseLines(y)
  {
    var r, s := ParseLines(x + y), ParseLines(x) + ParseLines(y);
    assert |r| == |s|;
    forall i | 0 <= i < |r| ensures r[i] == s[i] {
      if i < |x| {
        assert (x + y)[i] == x[i] && s[i] == ParseLines(x)[i];
      } else {
        assert (x + y)[i] == y[i - |x|] && s[i] == ParseLines(y)[i - |x|];
      }
    }
  }

  /** The lines of `a`, a line feed and `b`, blank ones dropped. */
  lemma NonBlankLinesSplit(a: string, b: string)
    requires '\n' !in a
    ensures NonBlank(Split(a + "\n" + b, '\n')) == NonBlank(Split(a, '\n')) + NonBlank(Split(b, '\n'))
  {
    SplitAtFirst(a, '\n', b);
    SplitNoSeparator(a, '\n');
    var rest := Split(b, '\n');
    assert ([a] + rest)[1..] == rest;
    assert [a][1..] == [];
  }

  /** A blank line holds no target. */
  lemma ParseBlankLine(line: string)
    requires '\n' !in line && Blank(line)
    ensures ParseTargets(line) == []
  {
    SplitNoSeparator(line, '\n');
  }

  /** Any other single line holds one target: the line trimmed and parsed. */
  lemma ParseTargetLine(line: string)
    requires '\n' !in line && !Blank(line)
    ensures ParseTargets(line) == [FromStr(Trim(line))]
  {
    SplitNoSeparator(line, '\n');
  }

  /** A text is parsed line by line: the targets of the first line come
      first, then those of the rest, in order. */
  lemma ParseLineByLine(a: string, b: string)
    requires '\n' !in a
    ensures ParseTargets(a + "\n" + b) == ParseTargets(a) + ParseTargets(b)
  {
    NonBlankLinesSplit(a, b);
    ParseLinesConcat(NonBlank(Split(a, '\n')), NonBlank(Split(b, '\n')));
  }

  /** `read_targets`: a missing file is the empty list. */
  function ReadTargets(p: FolderPot): (r: seq<AssetTag>)
    ensures p.team.None? ==> r == []
    ensures forall i :: 0 <= i < |r| ==> WellFormed(r[i])
  {
    match p.team
    case None => []
    case Some(text) => ParseTargets(text)
  }

  function Texts(targets: seq<AssetTag>): (r: seq<string>)
    ensures |r| == |targets| && forall i :: 0 <= i < |targets| ==> r[i] == AsStr(targets[i])
  {
    seq(|targets|, i requires 0 <= i < |targets| => AsStr(targets[i]))
  }

  /** The text `write_targets` writes: the tags' texts, one per line. */
  function TargetsText(targets: seq<AssetTag>): string
  {
    Join(Texts(targets), "\n")
  }

  /** `write_targets`. */
  function WriteTargets(p: FolderPot, targets: seq<AssetTag>): FolderPot
  {
    p.(team := Some(TargetsText(targets)))
  }

  /** A tag that survives being written as a line and read back: parsed
      form, a text that is not empty, holds no line feed and has no
      surrounding white space. */
  predicate Listable(t: AssetTag) {
    var s := AsStr(t);
    WellFormed(t) && Tidy(s) && '\n' !in s
  }

  /** The lines of the written text are the tags' texts. */
  lemma LinesOfTargets(targets: seq<AssetTag>)
    requires |targets| > 0
    requires forall i :: 0 <= i < |targets| ==> Listable(targets[i])
    ensures NonBlank(Split(TargetsText(targets), '\n')) == Texts(targets)
  {
    SplitJoin(Texts(targets), '\n');
    NonBlankKeepsAll(Texts(targets));
  }

  /** Reading the targets back gives what was written, for listable tags
      (the empty list included: its file is empty). */
  lemma TargetsRoundTrip(p: FolderPot, targets: seq<AssetTag>)
    requires forall i :: 0 <= i < |targets| ==> Listable(targets[i])
    ensures ReadTargets(WriteTargets(p, targets)) == targets
  {
    if |targets| == 0 {
      assert Split("", '\n') == [""];
      assert Blank("");
    } else {
      LinesOfTargets(targets);
      var lines := Texts(targets);
      forall i | 0 <= i < |targets| ensures FromStr(Trim(lines[i])) == targets[i] {
        TrimFixedPoint(lines[i]);
        RoundTrip(targets[i]);
      }
    }
  }

  /** A line that is not empty and neither starts nor ends with white
      space. */
  predicate Tidy(line: string) {
    |line| > 0 && !IsSpace(line[0]) && !IsSpace(line[|line| - 1])
  }

  lemma TidyNotBlank(line: string)
    requires Tidy(line)
    ensures !Blank(line)
  {
    assert !IsSpace(line[0]);
  }

  lemma {:induction false} NonBlankKeepsAll(lines: seq<string>)
    requires forall i :: 0 <= i < |lines| ==> Tidy(lines[i])
    ensures NonBlank(lines) == lines
  {
    if |lines| > 0 {
      TidyNotBlank(lines[0]);
      var rest := lines[1..];
      assert forall i :: 0 <= i < |rest| ==> Tidy(rest[i]) by {
        forall i | 0 <= i < |rest| ensures Tidy(rest[i]) {
          assert rest[i] == lines[i + 1];
        }
      }
      NonBlankKeepsAll(rest);
      assert NonBlank(lines) == [lines[0]] + NonBlank(rest);
      assert lines == [lines[0]] + rest;
    }
  }

  // ------------------------------------------------------------------ ramp

  /** `read_ramp`: a missing `ramp.txt` reads as "golden". */
  function ReadRamp(p: FolderPot): (r: Ramps.Ramp)
    ensures p.ramp.None? ==> r == Ramps.Golden
  {
    Ramps.FromStr(p.ramp.GetOr("golden"))
  }

  /** `write_ramp`. */
  function WriteRamp(p: FolderPot, ramp: Ramps.Ramp): FolderPot
  {
    p.(ramp := Some(Ramps.AsStr(ramp)))
  }

  lemma RampRoundTrip(p: FolderPot, ramp: Ramps.Ramp)
    ensures ReadRamp(WriteRamp(p, ramp)) == ramp
    ensures WriteRamp(p, ramp).(ramp := p.ramp) == p
  {
    Ramps.FromStrRoundTrip(ramp);
  }

  // ------------------------------------------------------------ lot assets

  /** The tags of the lots that hold a positive count. */
  function LotAssets(lots: seq<Lot>): (r: set<AssetTag>)
    ensures forall t :: t in r <==> exists i :: 0 <= i < |lots| && lots[i].assetTag == t && lots[i].shareCount > 0.0
  {
    set i | 0 <= i < |lots| && lots[i].shareCount > 0.0 :: lots[i].assetTag
  }

  /** `read_lot_assets`. */
  function ReadLotAssets(p: FolderPot): (r: Result<set<AssetTag>>)
    ensures r.Success? <==> p.lots.Some?
    ensures r.Failure? ==> r.error == MissingLots
    ensures r.Success? ==> r.value == LotAssets(p.lots.value)
  {
    var lots :- ReadLots(p);
    Success(LotAssets(lots))
  }

  /** With no negative counts, a tag is a lot asset exactly when the
      portfolio of those lots counts it as funded (cash aside, which no lot
      funds). */
  lemma LotAssetsAreFunded(lots: seq<Lot>)
    requires forall i :: 0 <= i < |lots| ==> lots[i].shareCount >= 0.0
    ensures LotAssets(lots) - {Usd} == FundedSymbols(Portfolio(lots, 0.0))
  {
    forall t | t != Usd ensures t in LotAssets(lots) <==> TagSum(lots, t) > 0.0 {
      TagSumPositive(lots, t);
    }
  }

  // ------------------------------------------------------------------ init

  /** `init`: an empty lots file, zero cash and the golden ramp. */
  function Init(p: FolderPot): FolderPot
  {
    WriteRamp(WriteLots(p, []).(cash := Some(0.0)), Ramps.Golden)
  }

  /** A freshly initialised pot holds no lots and no assets, reads the
      golden ramp, and keeps its targets and sub-folders. */
  lemma InitReads(p: FolderPot)
    ensures ReadLots(Init(p)) == Success([])
    ensures ReadLotAssets(Init(p)) == Success({})
    ensures ReadRamp(Init(p)) == Ramps.Golden
    ensures Init(p).cash == Some(0.0)
    ensures ReadTargets(Init(p)) == ReadTargets(p) && Init(p).subfolders == p.subfolders
  {
    RampRoundTrip(WriteLots(p, []).(cash := Some(0.0)), Ramps.Golden);
    assert LotAssets([]) == {};
  }

  // ----------------------------------------------------------- deep reads

  /** A sub-pot tag leads to a sub-folder of `p`: its folder name exists,
      is not empty and names a sub-folder. */
  predicate Resolves(p: FolderPot, t: AssetTag) {
    && AsFolderName(t).Success?
    && AsFolderName(t).value != ""
    && AsFolderName(t).value in p.subfolders
  }

  /** Why a sub-pot tag does not lead to a sub-folder: `as_folder_name`
      panics on an empty name; the empty folder name joins back to the pot
      itself, where the source recurses without end; any other name leads
      to a folder without a lots file. */
  function ResolveError(p: FolderPot, t: AssetTag): (e: Error)
    requires t.Pot? && !Resolves(p, t)
    ensures e == WrongVariant <==> |t.name| == 0
    ensures e == SelfReference <==> AsFolderName(t) == Success("")
    ensures e == SelfReference ==> Subpot(p, AsFolderName(t).value) == p
    ensures e == MissingLots <==> AsFolderName(t).Success? && AsFolderName(t).value != ""
    ensures e == MissingLots ==> ReadLotAssets(Subpot(p, AsFolderName(t).value)) == Failure(MissingLots)
  {
    if AsFolderName(t).Failure? then WrongVariant
    else if AsFolderName(t).value == "" then SelfReference
    else MissingLots
  }

  /** A lot that counts as a holding: a positive count. */
  predicate Funded(lot: Lot) {
    lot.shareCount > 0.0
  }

  /** `read_deep_lot_assets`: the pot's funded tags that are not sub-pots,
      together with the same set read from every funded sub-pot. */
  function ReadDeepLotAssets(p: FolderPot): (r: Result<set<AssetTag>>)
    ensures r.Success? ==> forall t :: t in r.value ==> !t.Pot?
    decreases p, 1
  {
    var lots :- ReadLots(p);
    DeepAssetsOf(p, lots)
  }

  /** The deep assets contributed by `lots`, lots of `p`, in order. */
  function DeepAssetsOf(p: FolderPot, lots: seq<Lot>): (r: Result<set<AssetTag>>)
    ensures r.Success? ==> forall t :: t in r.value ==> !t.Pot?
    decreases p, 0, |lots|
  {
    if |lots| == 0 then Success({})
    else
      var tag := lots[0].assetTag;
      if !Funded(lots[0]) then DeepAssetsOf(p, lots[1..])
      else if !tag.Pot? then
        var rest :- DeepAssetsOf(p, lots[1..]);
        Success({tag} + rest)
      else if !Resolves(p, tag) then Failure(ResolveError(p, tag))
      else
        var below :- ReadDeepLotAssets(p.subfolders[AsFolderName(tag).value]);
        var rest :- DeepAssetsOf(p, lots[1..]);
        Success(below + rest)
  }

  /** Every folder met on the way down has a lots file, and every funded
      sub-pot tag on the way leads to a sub-folder. */
  ghost predicate Readable(p: FolderPot)
    decreases p, 1
  {
    p.lots.Some? && forall i :: 0 <= i < |p.lots.value| ==> LotReadable(p, p.lots.value[i])
  }

  ghost predicate LotReadable(p: FolderPot, lot: Lot)
    decreases p, 0
  {
    Funded(lot) && lot.assetTag.Pot? ==>
      Resolves(p, lot.assetTag) && Readable(p.subfolders[AsFolderName(lot.assetTag).value])
  }

  /** `t` is held, as a tag that is not a sub-pot, by a funded lot of `p` or
      of a pot reached from `p` through funded sub-pot tags. */
  ghost predicate Holds(p: FolderPot, t: AssetTag)
    decreases p, 1
  {
    p.lots.Some? && exists i :: 0 <= i < |p.lots.value| && LotHolds(p, p.lots.value[i], t)
  }

  ghost predicate LotHolds(p: FolderPot, lot: Lot, t: AssetTag)
    decreases p, 0
  {
    && Funded(lot)
    && if lot.assetTag.Pot? then
         Resolves(p, lot.assetTag) && Holds(p.subfolders[AsFolderName(lot.assetTag).value], t)
       else
         lot.assetTag == t
  }

  /** The deep read succeeds exactly on readable trees, and then yields
      exactly the tags held somewhere below. */
  lemma DeepLotAssetsSpec(p: FolderPot)
    ensures ReadDeepLotAssets(p).Success? <==> Readable(p)
    ensures ReadDeepLotAssets(p).Success? ==> forall t :: t in ReadDeepLotAssets(p).value <==> Holds(p, t)
    decreases p, 1
  {
    if p.lots.Some? {
      DeepAssetsOfSpec(p, p.lots.value);
    }
  }

  lemma {:induction false} DeepAssetsOfSpec(p: FolderPot, lots: seq<Lot>)
    ensures DeepAssetsOf(p, lots).Success? <==> forall i :: 0 <= i < |lots| ==> LotReadable(p, lots[i])
    ensures DeepAssetsOf(p, lots).Success? ==>
              forall t :: t in DeepAssetsOf(p, lots).value <==> exists i :: 0 <= i < |lots| && LotHolds(p, lots[i], t)
    decreases p, 0, |lots|
  {
    if |lots| > 0 {
      var tag := lots[0].assetTag;
      DeepAssetsOfSpec(p, lots[1..]);
      if Funded(lots[0]) && tag.Pot? && Resolves(p, tag) {
        DeepLotAssetsSpec(p.subfolders[AsFolderName(tag).value]);
      }
      assert forall i :: 0 <= i < |lots| ==> i == 0 || lots[i] == lots[1..][i - 1];
    }
  }

  /** Every entry is a sub-pot tag with its folder. */
  predicate AllSubpots(entries: seq<(AssetTag, FolderPot)>) {
    forall i :: 0 <= i < |entries| ==> entries[i].0.Pot?
  }

  lemma AllSubpotsConcat(a: seq<(AssetTag, FolderPot)>, b: seq<(AssetTag, FolderPot)>)
    requires AllSubpots(a) && AllSubpots(b)
    ensures AllSubpots(a + b)
  {
    forall i | 0 <= i < |a + b| ensures (a + b)[i].0.Pot? {
      if i >= |a| {
        assert (a + b)[i] == b[i - |a|];
      }
    }
  }

  /** The names of the sub-pot tags among `assets`, in ascending order (the
      source lists them in hash-set order, which it leaves unspecified). */
  ghost function LocalSubpotNames(assets: set<AssetTag>): (r: seq<string>)
    ensures forall n :: n in r <==> Pot(n) in assets
    ensures StrictlyAscending(r)
  {
    var names := set t | t in assets && t.Pot? :: t.name;
    assert forall n :: n in names <==> Pot(n) in assets;
    SortedStrings(names)
  }

  /** `read_deep_subpots`: every funded sub-pot of this pot, paired with its
      folder, followed by the deep sub-pots of each of them in turn. */
  ghost function ReadDeepSubpots(p: FolderPot): (r: Result<seq<(AssetTag, FolderPot)>>)
    ensures r.Success? ==> AllSubpots(r.value)
    decreases p, 1
  {
    var assets :- ReadLotAssets(p);
    var names := LocalSubpotNames(assets);
    if "" in names then Failure(WrongVariant)
    else
      var locals := LocalEntries(p, names);
      var deep :- DeepSubpotsOf(p, names);
      AllSubpotsConcat(locals, deep);
      Success(locals + deep)
  }

  /** Each named sub-pot tag with the folder `subpot` gives for it. */
  function LocalEntries(p: FolderPot, names: seq<string>): (r: seq<(AssetTag, FolderPot)>)
    requires "" !in names
    ensures |r| == |names|
    ensures forall i :: 0 <= i < |names| ==> r[i] == (Pot(names[i]), Subpot(p, AsFolderName(Pot(names[i])).value))
  {
    seq(|names|, i requires 0 <= i < |names| => (Pot(names[i]), Subpot(p, names[i][1..])))
  }

  /** The deep sub-pots below each of the named sub-pots, in order. */
  ghost function DeepSubpotsOf(p: FolderPot, names: seq<string>): (r: Result<seq<(AssetTag, FolderPot)>>)
    ensures r.Success? ==> AllSubpots(r.value)
    decreases p, 0, |names|
  {
    if |names| == 0 then Success([])
    else
      var tag := Pot(names[0]);
      if !Resolves(p, tag) then Failure(ResolveError(p, tag))
      else
        var below :- ReadDeepSubpots(p.subfolders[AsFolderName(tag).value]);
        var rest :- DeepSubpotsOf(p, names[1..]);
        AllSubpotsConcat(below, rest);
        Success(below + rest)
  }

  /** A successful listing opens with the pot's own funded sub-pots, each
      with its sub-folder, in ascending name order. */
  lemma DeepSubpotsLocalFirst(p: FolderPot)
    requires ReadDeepSubpots(p).Success?
    ensures p.lots.Some?
    ensures var names := LocalSubpotNames(LotAssets(p.lots.value));
              && |names| <= |ReadDeepSubpots(p).value|
              && forall i :: 0 <= i < |names| ==>
                   && ReadDeepSubpots(p).value[i].0 == Pot(names[i])
                   && Resolves(p, Pot(names[i]))
                   && ReadDeepSubpots(p).value[i].1 == p.subfolders[AsFolderName(Pot(names[i])).value]
  {
    var names := LocalSubpotNames(LotAssets(p.lots.value));
    DeepSubpotsShape(p);
    DeepSubpotsOfSpec(p, names);
    forall i | 0 <= i < |names| ensures Resolves(p, Pot(names[i])) {
      assert NameReadable(p, names[i]);
    }
  }

  lemma DeepSubpotsShape(p: FolderPot)
    requires ReadDeepSubpots(p).Success?
    ensures p.lots.Some?
    ensures "" !in LocalSubpotNames(LotAssets(p.lots.value))
    ensures var names := LocalSubpotNames(LotAssets(p.lots.value));
      && DeepSubpotsOf(p, names).Success?
      && ReadDeepSubpots(p).value == LocalEntries(p, names) + DeepSubpotsOf(p, names).value
  {
  }

  /** Listing the deep sub-pots succeeds on exactly the trees the deep
      asset read succeeds on. */
  lemma DeepSubpotsSpec(p: FolderPot)
    ensures ReadDeepSubpots(p).Success? <==> Readable(p)
    decreases p, 1
  {
    if p.lots.Some? {
      var names := LocalSubpotNames(LotAssets(p.lots.value));
      DeepSubpotsUnfold(p);
      if "" in names {
        EmptyNameUnreadable(p);
      } else {
        DeepSubpotsOfSpec(p, names);
        ReadableByNames(p);
      }
    }
  }

  lemma DeepSubpotsUnfold(p: FolderPot)
    requires p.lots.Some?
    ensures var names := LocalSubpotNames(LotAssets(p.lots.value));
      ReadDeepSubpots(p).Success? <==> "" !in names && DeepSubpotsOf(p, names).Success?
  {
  }

  lemma EmptyNameUnreadable(p: FolderPot)
    requires p.lots.Some?
    requires "" in LocalSubpotNames(LotAssets(p.lots.value))
    ensures !Readable(p)
  {
    var lots := p.lots.value;
    var i :| 0 <= i < |lots| && lots[i].assetTag == Pot("") && lots[i].shareCount > 0.0;
    assert !LotReadable(p, lots[i]);
  }

  /** A pot is readable when its lots file is, no funded sub-pot tag has
      an empty name, and each named sub-pot is readable. */
  lemma ReadableByNames(p: FolderPot)
    requires p.lots.Some?
    requires "" !in LocalSubpotNames(LotAssets(p.lots.value))
    ensures var names := LocalSubpotNames(LotAssets(p.lots.value));
      Readable(p) <==> forall k :: 0 <= k < |names| ==> NameReadable(p, names[k])
  {
    var lots := p.lots.value;
    var names := LocalSubpotNames(LotAssets(lots));
    forall i | 0 <= i < |lots|
      ensures LotReadable(p, lots[i]) <==>
                (Funded(lots[i]) && lots[i].assetTag.Pot? ==> NameReadable(p, lots[i].assetTag.name))
    {
    }
    if forall k :: 0 <= k < |names| ==> NameReadable(p, names[k]) {
      forall i | 0 <= i < |lots| ensures LotReadable(p, lots[i]) {
        if Funded(lots[i]) && lots[i].assetTag.Pot? {
          assert lots[i].assetTag.name in names;
        }
      }
    } else {
      var k :| 0 <= k < |names| && !NameReadable(p, names[k]);
      var i :| 0 <= i < |lots| && lots[i].assetTag == Pot(names[k]) && lots[i].shareCount > 0.0;
      assert !LotReadable(p, lots[i]);
    }
  }

  /** The named sub-pot resolves and its tree is readable. */
  ghost predicate NameReadable(p: FolderPot, name: string)
  {
    Resolves(p, Pot(name)) && Readable(p.subfolders[AsFolderName(Pot(name)).value])
  }

  lemma {:induction false} DeepSubpotsOfSpec(p: FolderPot, names: seq<string>)
    ensures DeepSubpotsOf(p, names).Success? <==> forall k :: 0 <= k < |names| ==> NameReadable(p, names[k])
    decreases p, 0, |names|
  {
    if |names| > 0 {
      var tag := Pot(names[0]);
      DeepSubpotsOfSpec(p, names[1..]);
      if Resolves(p, tag) {
        DeepSubpotsSpec(p.subfolders[AsFolderName(tag).value]);
      }
      assert forall k :: 0 <= k < |names| ==> k == 0 || names[k] == names[1..][k - 1];
    }
  }

  /** `t` is a sub-pot tag reached from `p`: a funded sub-pot tag of `p`,
      or one reached from the folder of a funded sub-pot tag of `p`. */
  ghost predicate ReachesSubpot(p: FolderPot, t: AssetTag)
    decreases p, 1
  {
    p.lots.Some? && exists i :: 0 <= i < |p.lots.value| && LotReachesSubpot(p, p.lots.value[i], t)
  }

  ghost predicate LotReachesSubpot(p: FolderPot, lot: Lot, t: AssetTag)
    decreases p, 0
  {
    && Funded(lot)
    && lot.assetTag.Pot?
    && (|| t == lot.assetTag
        || (Resolves(p, lot.assetTag) && ReachesSubpot(p.subfolders[AsFolderName(lot.assetTag).value], t)))
  }

  /** `t` is the tag of some entry of a listing. */
  ghost predicate Listed(entries: seq<(AssetTag, FolderPot)>, t: AssetTag) {
    exists i :: 0 <= i < |entries| && entries[i].0 == t
  }

  lemma ListedConcat(a: seq<(AssetTag, FolderPot)>, b: seq<(AssetTag, FolderPot)>, t: AssetTag)
    ensures Listed(a + b, t) <==> Listed(a, t) || Listed(b, t)
  {
    if Listed(a + b, t) {
      var i :| 0 <= i < |a + b| && (a + b)[i].0 == t;
      if i >= |a| {
        assert b[i - |a|].0 == t;
      } else {
        assert a[i].0 == t;
      }
    }
    if Listed(a, t) {
      var i :| 0 <= i < |a| && a[i].0 == t;
      assert (a + b)[i].0 == t;
    }
    if Listed(b, t) {
      var i :| 0 <= i < |b| && b[i].0 == t;
      assert (a + b)[|a| + i].0 == t;
    }
  }

  /** The sub-pot named `name` resolves and `t` is reached from its folder. */
  ghost predicate NameReachesSubpot(p: FolderPot, name: string, t: AssetTag)
  {
    Resolves(p, Pot(name)) && ReachesSubpot(p.subfolders[AsFolderName(Pot(name)).value], t)
  }

  /** `t` is reached from the folder of one of the named sub-pots. */
  ghost predicate SomeNameReaches(p: FolderPot, names: seq<string>, t: AssetTag)
  {
    exists k :: 0 <= k < |names| && NameReachesSubpot(p, names[k], t)
  }

  lemma SomeNameReachesFirst(p: FolderPot, names: seq<string>, t: AssetTag)
    requires |names| > 0
    ensures SomeNameReaches(p, names, t) <==>
              NameReachesSubpot(p, names[0], t) || SomeNameReaches(p, names[1..], t)
  {
    if SomeNameReaches(p, names, t) {
      var k :| 0 <= k < |names| && NameReachesSubpot(p, names[k], t);
      if k > 0 {
        assert NameReachesSubpot(p, names[1..][k - 1], t);
      }
    }
    if SomeNameReaches(p, names[1..], t) {
      var k :| 0 <= k < |names[1..]| && NameReachesSubpot(p, names[1..][k], t);
      assert NameReachesSubpot(p, names[k + 1], t);
    }
  }

  /** The local entries list exactly the named sub-pot tags. */
  lemma LocalsListed(p: FolderPot, names: seq<string>, t: AssetTag)
    requires "" !in names
    ensures Listed(LocalEntries(p, names), t) <==> t.Pot? && t.name in names
  {
    var locals := LocalEntries(p, names);
    if t.Pot? && t.name in names {
      var k :| 0 <= k < |names| && names[k] == t.name;
      assert locals[k].0 == t;
    }
  }

  /** Reaching a sub-pot tag, stated through the pot's local sub-pot names. */
  lemma ReachesByNames(p: FolderPot, t: AssetTag)
    requires p.lots.Some?
    ensures var names := LocalSubpotNames(LotAssets(p.lots.value));
      ReachesSubpot(p, t) <==> (t.Pot? && t.name in names) || SomeNameReaches(p, names, t)
  {
    var names := LocalSubpotNames(LotAssets(p.lots.value));
    if ReachesSubpot(p, t) {
      ReachedIsNamed(p, t);
    }
    if t.Pot? && t.name in names {
      LocalIsReached(p, t);
    }
    if SomeNameReaches(p, names, t) {
      BelowIsReached(p, t);
    }
  }

  lemma ReachedIsNamed(p: FolderPot, t: AssetTag)
    requires ReachesSubpot(p, t)
    ensures var names := LocalSubpotNames(LotAssets(p.lots.value));
      (t.Pot? && t.name in names) || SomeNameReaches(p, names, t)
  {
    var lots := p.lots.value;
    var names := LocalSubpotNames(LotAssets(lots));
    var i :| 0 <= i < |lots| && LotReachesSubpot(p, lots[i], t);
    var u := lots[i].assetTag;
    assert u in LotAssets(lots);
    if t != u {
      var k :| 0 <= k < |names| && names[k] == u.name;
      assert NameReachesSubpot(p, names[k], t);
    }
  }

  lemma LocalIsReached(p: FolderPot, t: AssetTag)
    requires p.lots.Some? && t.Pot? && t.name in LocalSubpotNames(LotAssets(p.lots.value))
    ensures ReachesSubpot(p, t)
  {
    var lots := p.lots.value;
    assert t in LotAssets(lots);
    var i :| 0 <= i < |lots| && lots[i].assetTag == t && lots[i].shareCount > 0.0;
    assert LotReachesSubpot(p, lots[i], t);
  }

  lemma BelowIsReached(p: FolderPot, t: AssetTag)
    requires p.lots.Some? && SomeNameReaches(p, LocalSubpotNames(LotAssets(p.lots.value)), t)
    ensures ReachesSubpot(p, t)
  {
    var lots := p.lots.value;
    var names := LocalSubpotNames(LotAssets(lots));
    var k :| 0 <= k < |names| && NameReachesSubpot(p, names[k], t);
    assert Pot(names[k]) in LotAssets(lots);
    var i :| 0 <= i < |lots| && lots[i].assetTag == Pot(names[k]) && lots[i].shareCount > 0.0;
    assert LotReachesSubpot(p, lots[i], t);
  }

  /** A successful listing names exactly the sub-pot tags reached from the
      pot through funded sub-pot tags. */
  lemma DeepSubpotsMembers(p: FolderPot)
    requires ReadDeepSubpots(p).Success?
    ensures forall t :: Listed(ReadDeepSubpots(p).value, t) <==> ReachesSubpot(p, t)
    decreases p, 1
  {
    DeepSubpotsShape(p);
    var names := LocalSubpotNames(LotAssets(p.lots.value));
    var locals := LocalEntries(p, names);
    var deep := DeepSubpotsOf(p, names).value;
    DeepSubpotsOfMembers(p, names);
    forall t ensures Listed(locals + deep, t) <==> ReachesSubpot(p, t) {
      ListedConcat(locals, deep, t);
      LocalsListed(p, names, t);
      ReachesByNames(p, t);
    }
  }

  lemma {:induction false} DeepSubpotsOfMembers(p: FolderPot, names: seq<string>)
    requires DeepSubpotsOf(p, names).Success?
    ensures forall t :: Listed(DeepSubpotsOf(p, names).value, t) <==> SomeNameReaches(p, names, t)
    decreases p, 0, |names|
  {
    if |names| > 0 {
      var sub := p.subfolders[AsFolderName(Pot(names[0])).value];
      var below := ReadDeepSubpots(sub).value;
      var rest := DeepSubpotsOf(p, names[1..]).value;
      assert DeepSubpotsOf(p, names).value == below + rest;
      DeepSubpotsMembers(sub);
      DeepSubpotsOfMembers(p, names[1..]);
      forall t ensures Listed(below + rest, t) <==> SomeNameReaches(p, names, t) {
        ListedConcat(below, rest, t);
        SomeNameReachesFirst(p, names, t);
      }
    }
  }
}
