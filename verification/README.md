# pot-cli in Dafny

pot-cli keeps an investment portfolio as a tree of *pots*. A pot is a folder
holding:

- `lots.csv` — share lots, each with a custodian, an asset tag, a count and a
  64-bit uid;
- `cash.txt` — free cash;
- `ramp.txt` — the weighting ramp;
- `team.txt` — the target list.

A lot whose tag starts with `:` is a *sub-pot* that lives in a sub-folder. A
*ladder* of targets gives position i the weight 1.618^i. The `status` report
compares each symbol's market value with its share of the full value under
those weights.

This project models the logic of the program without its files, network and
terminal, and proves properties of it. Each Dafny module corresponds to one
source module:

| module | models |
|---|---|
| `Text` | the string operations the program relies on: ASCII case mapping, `trim`, `split`, `join` and left-aligned padding |
| `AssetTags` | `asset_tag.rs`: parsing, text form, folder name, derived ordering |
| `Lots` | `lot.rs`: the lot record and `uid_pretty` |
| `Portfolios` | `portfolio.rs`: share counts, symbols, funded symbols, market values |
| `Ramps` | `core/mod.rs` and `core.rs`: the two ramps |
| `Ladders` | `ladder.rs`: target order, weights and portions |
| `Legacy` | the older ladder and lot of `main.rs` |
| `PotPaths` | `core/pot_path.rs` |
| `DeepAssets` | `core/deep_asset.rs` |
| `Pots` | the `Pot` trait as `FolderPot` implements it in `pot.rs`, over an in-memory folder tree |
| `Tables` | `table/mod.rs` and `table/plain.rs` |
| `Cli` | `add_lot` and `status` in `cli.rs` |

`Wrappers`, `Sums` and `Ordering` hold shared definitions:

- `Wrappers`: `Option`, `Result` and the errors.
- `Sums`: sums over maps and sequences.
- `Ordering`: byte-wise string order and sorting.

Modelling decisions:

- **Numbers.** `f64` is modelled as `real`, and 1.618^i as an exact power.
- **Division by zero.** A division by a full value of zero, which yields NaN or
  infinity in the program, is the report value `Share.Undefined`.
- **Panics.** A panic (`expect`, a wrong variant, a missing price) is a
  `Failure` carrying an `Error`.
- **Discriminators.** `is_subpot` and `is_equity` are the datatype
  discriminators `Pot?` and `Equity?`.
- **Pots as values.** A pot is a value `FolderPot`. Each file is its parsed
  content, or `None` when the file is missing. Sub-folders are a finite map,
  so every recursive read terminates.
- **Subpot lookup.** `subpot(name)` joins the name to the pot's path:
  - the empty name gives the pot itself;
  - an unknown name gives a folder whose files are all missing.
- **The tag `:`.** `as_folder_name` of the tag `:` is the empty name, which
  leads back to the pot itself. There the program recurses without end. The
  deep reads report this as `SelfReference` instead.
- **Iteration order.** The deep reads iterate a `HashSet` in the source, in an
  order the program does not fix. The model fixes an order:
  - `read_deep_lot_assets` visits the lots in file order;
  - `read_deep_subpots` lists local sub-pots by ascending name.

  The resulting set of deep assets is independent of the order. Which error is
  reported first, when several sub-pots are broken, may differ.
- **Which types `cli.rs` uses.** `cli.rs` imports `Ladder` and `Portfolio`
  from the crate root, but the two do not fit together:
  - `main.rs` defines no `Portfolio`;
  - its `Ladder { assets }` offers only `ordered_symbols`, `weights` and
    `portions`;
  - `status` (cli.rs:31-85) calls `target_symbols`, `target_portions` and
    `target_symbols_descending`, which belong to the `Ladder { targets }` of
    `ladder.rs`.

  `Cli.Status` therefore takes the `ladder.rs` ladder (`Ladders.Ladder`).
  The `main.rs` ladder is modelled on its own as `Legacy.Ladder`.
  `status` builds its portfolio without free cash and treats its symbols,
  counts and values as keyed by strings: it subtracts `target_symbols()`, a
  set of strings, and looks values up by the ladder's strings. The
  `Portfolio` of `portfolio.rs` keys them by `AssetTag` instead. `Cli.Status`
  therefore takes the portfolio's symbol set, share counts and market values
  as string-keyed inputs.
- **Golden base.** The base is 1.618, as the code writes it. This is not the
  full golden ratio 1.618033988749895.
- **Test with a missing constructor.** The `DeepAsset` title test builds its
  tag with `AssetTag::equity`, which `asset_tag.rs` does not define.
  The model builds the same tag as `FromStr("cost")`, i.e. `Equity("COST")`.

## Model

| member | source | states |
|---|---|---|
| Text.PadRight | src/table/plain.rs:15 | a string no longer than the width is padded to exactly the width; the string is kept as a prefix and everything after it is a space |
| Text.JoinLength | src/table/mod.rs:30 | joining n parts with a separator is as long as the parts together plus n-1 separators |
| Text.SplitJoin | src/pot.rs:169-180 | splitting the join of a non-empty list of parts on the separator gives the parts back when no part contains the separator (the empty list joins to "", which splits to `[""]`) |
| AssetTags.FromStr | src/asset_tag.rs:46-60 | the tag is a `Pot` exactly when the text starts with ':' and then holds ':' plus the lower-cased rest; otherwise the text is upper-cased and is `Usd` exactly when that gives "USD", so `Equity("USD")` never appears |
| AssetTags.AsFolderName | src/asset_tag.rs:34-39 | succeeds exactly on a `Pot` with a non-empty name and yields the name without its first character; the other variants are a `WrongVariant` failure |
| AssetTags.CaseInsensitive | src/asset_tag.rs:51-56 | two texts not starting with ':' that upper-case alike parse to the same tag |
| AssetTags.RoundTrip | src/asset_tag.rs:27-60 | parsing the text of any parsed tag gives the tag back |
| AssetTags.AsStrInjective | src/asset_tag.rs:27-33 | `AsStr`: two parsed tags with the same text are the same tag |
| AssetTags.ParseSerialiseParse | src/asset_tag.rs:79-91 | serialising a deserialised tag and deserialising again gives the same tag |
| AssetTags.FolderNameRoundTrip | src/asset_tag.rs:34-60 | ':' followed by a parsed sub-pot's folder name parses back to that sub-pot |
| AssetTags.TagOrderByVariant | src/asset_tag.rs:7-12 | the derived order puts every `Equity` before every `Pot` and `Usd`, every `Pot` before `Usd`, and orders two `Pot`s by name |
| AssetTags.TagLessStrictTotal | src/asset_tag.rs:7 | the derived order is irreflexive, transitive and total |
| Lots.WithShareCount | src/pot.rs:153 | the lot gets the new count and keeps its custodian, tag and uid |
| Lots.BeBytesRoundTrip | src/lot.rs:21 | a number below 256^n is recovered from its n big-endian bytes |
| Lots.HexRoundTrip | src/lot.rs:21 | hex-decoding the hex encoding of bytes gives the bytes back |
| Lots.UidPretty | src/lot.rs:20-22 | the printed uid is 16 characters, all lower-case hexadecimal digits |
| Lots.UidPrettyRoundTrip | src/lot.rs:20-22 | reading the printed uid back gives the uid |
| Lots.UidPrettyInjective | src/lot.rs:20-22 | different uids print differently |
| Lots.UidPrettyOfOne | src/lot.rs:21 | leading zero bytes are printed: 1 prints as "0000000000000001" |
| Lots.UidPrettyOfTopByte | src/lot.rs:21 | the most significant byte comes first: 2^56 prints as "0100000000000000" |
| Portfolios.Tally | src/portfolio.rs:28-34 | the counting loop yields exactly the lot tags, each with the total count of its lots |
| Portfolios.ShareCounts | src/portfolio.rs:27-37 | every lot tag maps to its total count, and `Usd` maps to the free cash whatever dollar lots hold |
| Portfolios.TagSumPositive | src/portfolio.rs:23 | with no negative counts, a tag's total is positive exactly when one of its lots has a positive count |
| Portfolios.TagSumPermutation | src/portfolio.rs:29-33 | a tag's total does not depend on the order of the lots |
| Portfolios.Symbols | src/portfolio.rs:12-19 | the symbols are the lot tags plus `Usd` |
| Portfolios.SymbolsAreCounted | src/portfolio.rs:12-37 | the symbols are exactly the keys of the share counts |
| Portfolios.FundedSymbols | src/portfolio.rs:20-26 | a tag is funded exactly when its count, the free cash for `Usd`, is positive |
| Portfolios.MarketValues | src/portfolio.rs:38-50 | fails with `MissingPrice` exactly when a funded tag has no price; otherwise it is keyed by the symbols, holds price times count for a positive count and 0 otherwise, and holds the free cash for `Usd` |
| Portfolios.CashNeedsAPrice | src/portfolio.rs:41-42 | positive free cash without a dollar price makes valuation fail, although its value is then overwritten |
| Portfolios.ValuationIgnoresLotOrder | src/portfolio.rs:27-50 | reordering the lots changes neither share counts, funded symbols nor market values |
| Ramps.FromStr | src/core/mod.rs:11-18 | the ramp is `Flat` exactly when the lower-cased, trimmed text is "flat"; every other text is `Golden` |
| Ramps.FromStrRoundTrip | src/core/mod.rs:11-31 | parsing the text of a ramp gives the ramp back |
| Ramps.FromStrUnrecognised | src/core/mod.rs:12-15 | every text that is not "flat" once lower-cased and trimmed, whether "golden" or unrecognised, gives `Golden` |
| Ramps.FromStrSteep | src/core/mod.rs:15 | one example of unrecognised text: "steep" gives `Golden` |
| Ramps.AsStrCanonical | src/core/mod.rs:26-31 | `AsStr`: the stored text of a ramp is already lower-case and trimmed, the form `from_str` compares |
| Ramps.AsF64 | src/core.rs:5-10 | the base is 1.618 for `Golden` and 1 for `Flat`; it is at least 1, and equals 1 exactly for `Flat` |
| Ramps.PowWeight | src/core/mod.rs:33 | every position weighs at least 1 |
| Ramps.PowWeightStep | src/core/mod.rs:33 | definitional: the recurrence of the exact power, position 0 weighs 1 and each next position weighs the base times the previous one |
| Ramps.FlatWeightIsOne | src/core.rs:8-12 | under the flat ramp every position weighs 1 |
| Ramps.GoldenWeightIncreasing | src/core.rs:7-12 | under the golden ramp a later position weighs strictly more |
| Ladders.AscendingDistinct | src/ladder.rs:11-16 | distinct parsed targets give distinct upper-cased symbols |
| Ladders.AscendingParsesBack | src/ladder.rs:11-16 | `Ascending`: parsing a parsed target's upper-cased symbol gives the target back |
| Ladders.Descending | src/ladder.rs:17-22 | the descending list is the ascending list reversed |
| Ladders.TargetSymbols | src/ladder.rs:23-25 | the target set has the same members as the ascending and the descending list |
| Ladders.Weights | src/ladder.rs:26-35 | the weights are keyed by exactly the symbols and are all positive |
| Ladders.WeightOfLastOccurrence | src/ladder.rs:26-35 | a repeated symbol keeps the weight of its last position |
| Ladders.WeightAt | src/ladder.rs:32 | without repeats, position i weighs 1.618^i |
| Ladders.Portions | src/ladder.rs:36-42 | the portions have the weights' keys, and each is its weight divided by the sum of the weights |
| Ladders.PortionAt | src/ladder.rs:36-42 | without repeats, position i's portion is 1.618^i over the geometric sum of all positions |
| Ladders.PortionBounds | src/ladder.rs:36-42 | without repeats, the portion at every position, the top one and a lone one included, lies in (0, 1] |
| Ladders.PortionsOrdered | src/ladder.rs:36-42 | without repeats, a higher position has a strictly larger portion, both lying in (0, 1] |
| Ladders.PortionsSumToOne | src/ladder.rs:36-42 | with at least one target the portions add up to 1 |
| Ladders.LadderPortionAt | src/ladder.rs:26-42 | `TargetWeights` and `TargetPortions`: for distinct parsed targets, every position i, the top one included, weighs 1.618^i and has that weight over the geometric sum as its portion, which lies in (0, 1] |
| Ladders.LadderPortionsRise | src/ladder.rs:36-42 | `TargetPortions`: for distinct parsed targets, a higher target has a strictly larger portion |
| Ladders.LadderPortionsSumToOne | src/ladder.rs:36-42 | `TargetPortions`: the portions of any ladder with a target add up to 1 |
| Ladders.LoneTargetPortion | src/ladder.rs:36-42 | `TargetPortions`: the only target of a one-target ladder has portion 1 |
| Legacy.OrderedSymbols | src/main.rs:57-61 | the symbols are the assets upper-cased, in order |
| Legacy.LegacyPortionAt | src/main.rs:62-78 | `Weights` and `Portions`: without repeated symbols, every position i, the last one included, weighs 1.618^i and has that weight over the geometric sum as its portion, which lies in (0, 1] |
| Legacy.LegacyPortionsRise | src/main.rs:72-78 | `Portions`: without repeated symbols, a later asset has a strictly larger portion |
| Legacy.LegacyPortionsSumToOne | src/main.rs:72-78 | `Portions`: the portions of any ladder with an asset add up to 1 |
| Legacy.LegacyLonePortion | src/main.rs:72-78 | `Portions`: the only asset of a one-asset ladder has portion 1 |
| PotPaths.SegmentNames | src/core/pot_path.rs:8-17 | the segment list is never empty and begins with "" |
| PotPaths.Extend | src/core/pot_path.rs:18-20 | extending appends the name as the last segment and adds one to the depth |
| PotPaths.SegmentCount | src/core/pot_path.rs:8-16 | there is one segment more than there are extensions |
| PotPaths.SegmentNamesInjective | src/core/pot_path.rs:8-17 | two paths with the same segments are equal |
| PotPaths.ExtendInjective | src/core/pot_path.rs:18-20 | two extensions are equal exactly when their paths and names are |
| PotPaths.ExtendTwice | src/core/pot_path.rs:28-31 | extending the current folder by "a" and then "b" gives segments "", "a", "b" |
| DeepAssets.New | src/core/deep_asset.rs:11-16 | the asset holds exactly the given path and tag |
| DeepAssets.NonEmpty | src/core/deep_asset.rs:20 | the filter keeps exactly the non-empty names |
| DeepAssets.TitleAtCurrentFolder | src/core/deep_asset.rs:17-22 | `Title`: an asset of the current folder is titled by its tag text alone |
| DeepAssets.TitleComponentsExtend | src/core/deep_asset.rs:17-22 | `Title`: one folder further down, that folder's name comes just before the tag |
| DeepAssets.TitleEnds | src/core/deep_asset.rs:17-22 | `Title`: a title begins with its first non-empty component and ends with its last |
| DeepAssets.TitleExample | src/core/deep_asset.rs:31-37 | the tag parsed from "cost" in folder "hunt" is titled "hunt::COST" |
| Pots.InsertEachAtFront | src/pot.rs:118-123 | inserting each row read at the front yields the rows reversed |
| Pots.ReadLots | src/pot.rs:117-126 | succeeds exactly when the lots file exists, with its rows in file order; a missing file is `MissingLots` |
| Pots.ReadLotsAfterWrite | src/pot.rs:117-134 | `WriteLots`: reading after writing gives the lots written, and nothing else in the pot changes |
| Pots.FirstMatch | src/pot.rs:139 | finds the first lot with the tag and the custodian, or none when no lot has both |
| Pots.LastMatch | src/pot.rs:149-157 | finds the last lot with the tag and the custodian, or none when no lot has both |
| Pots.SharesOf | src/pot.rs:139-144 | the count of the first matching lot, or 0 when no lot matches |
| Pots.ReadShares | src/pot.rs:136-146 | succeeds exactly when the lots file exists and gives the first match's count for the parsed symbol |
| Pots.Recount | src/pot.rs:150-157 | every matching lot gets the new count and every other lot is kept, in the same order |
| Pots.RecountShares | src/pot.rs:147-160 | fails with `NoMatchingLot` exactly when no lot matches; otherwise gives the recounted lots and the uid of the last match |
| Pots.WriteShares | src/pot.rs:147-160 | a missing lots file is `MissingLots`; otherwise it follows the recount and writes the new lots |
| Pots.SharesAfterRecount | src/pot.rs:136-160 | after a successful recount the matched count is the new count |
| Pots.WriteSharesThenRead | src/pot.rs:136-160 | when the lots file exists and some lot is addressed, the write succeeds and reading the shares back gives the count written |
| Pots.RecountIdempotent | src/pot.rs:147-160 | recounting twice with the same count equals recounting once and reports the same uid |
| Pots.BlankIsTrimmedEmpty | src/pot.rs:172 | a line is blank exactly when it trims to nothing |
| Pots.NonBlankMembers | src/pot.rs:172 | dropping blank lines keeps exactly the non-blank ones |
| Pots.ReadTargets | src/pot.rs:162-177 | a missing file is the empty list, and every target read is a parsed tag; what a present file gives is stated line by line by the three lemmas below |
| Pots.ParseBlankLine | src/pot.rs:169-172 | a single line of white space gives no target |
| Pots.ParseTargetLine | src/pot.rs:169-173 | any other single line gives one target: the line trimmed and parsed as a tag |
| Pots.ParseLineByLine | src/pot.rs:169-174 | for any texts `a` and `b`, with no line feed in `a`, the targets of `a`, a line feed and `b` are those of `a` followed by those of `b`, so any text is parsed line by line in order |
| Pots.TargetsRoundTrip | src/pot.rs:162-184 | `WriteTargets`: reading back written targets gives them again, provided each tag's text is non-empty, has no line feed and no surrounding white space |
| Pots.ReadRamp | src/pot.rs:107-111 | a missing ramp file reads as `Golden` |
| Pots.RampRoundTrip | src/pot.rs:107-115 | `WriteRamp`: reading a written ramp gives it back, and nothing else in the pot changes |
| Pots.LotAssets | src/pot.rs:192-197 | the tags of lots with a positive count, and only those |
| Pots.ReadLotAssets | src/pot.rs:191-199 | succeeds exactly when the lots file exists, giving the tags of positive lots |
| Pots.LotAssetsAreFunded | src/pot.rs:191-199 | with no negative counts, the lot assets other than `Usd` are the portfolio's funded symbols |
| Pots.InitReads | src/pot.rs:86-91 | `Init`: after `init`: no lots, no lot assets, cash 0, golden ramp, and the targets and sub-folders untouched |
| Pots.ResolveError | src/pot.rs:206-208 | an empty sub-pot name is `WrongVariant`; exactly the name ":" is `SelfReference`, and it leads back to the pot; exactly the other unresolved names are `MissingLots`, and they lead to a folder without a lots file |
| Pots.Subpot | src/pot.rs:93-96 | the empty name is the pot itself; any other name gives the sub-folder of that name, or a folder whose files are all missing when there is none |
| Pots.ReadDeepLotAssets | src/pot.rs:201-212 | a successful deep read never contains a sub-pot tag |
| Pots.DeepLotAssetsSpec | src/pot.rs:201-212 | the deep read succeeds exactly on trees whose funded sub-pots all resolve to folders with lots files, and then holds exactly the tags held by a funded lot somewhere below |
| Pots.DeepAssetsOfSpec | src/pot.rs:203-210 | the lot-by-lot part succeeds exactly when every lot is readable, and collects exactly what those lots hold |
| Pots.LocalSubpotNames | src/pot.rs:41-48 | the names of the funded sub-pot tags, each once, in ascending order |
| Pots.ReadDeepSubpots | src/pot.rs:40-56 | every listed entry is a sub-pot tag |
| Pots.DeepSubpotsLocalFirst | src/pot.rs:41-50 | a successful listing begins with the pot's own funded sub-pots, each with its own sub-folder |
| Pots.DeepSubpotsShape | src/pot.rs:49-55 | definitional: a successful listing is the local entries followed by the deep listings of the local sub-pots |
| Pots.DeepSubpotsSpec | src/pot.rs:40-56 | the listing succeeds exactly on the trees whose funded sub-pots all resolve to folders with lots files, the same trees on which the deep asset read succeeds |
| Pots.DeepSubpotsOfSpec | src/pot.rs:51-54 | the loop over local sub-pots succeeds exactly when each of them resolves and is readable |
| Pots.DeepSubpotsMembers | src/pot.rs:40-56 | a successful listing holds a tag exactly when it is a funded sub-pot tag of the pot, or of a pot reached from it through funded sub-pot tags (`ReachesSubpot`, defined from the lots alone) |
| Ordering.SortedStrings | src/cli.rs:62-63 | sorting a set gives each member once, in strictly ascending order |
| Sums.SumAlong | src/cli.rs:55 | summing a map's values key by key, each key once and in any order, gives the map's total |
| Tables.MaxLength | src/table/plain.rs:22 | the width is no less than any row's length and equals one of them; it is 0 with no rows |
| Tables.PlainColumn | src/table/plain.rs:19-25 | the column keeps exactly the given rows |
| Tables.PlainPrintout | src/table/plain.rs:10-16 | `Printout` of a plain column: every printout is exactly as wide as the widest row: the row text followed by spaces, or only spaces past the last row |
| Tables.BoxDelegates | src/table/mod.rs:11-14 | `Printout` and `Rows` of a boxed column: however many times a column is boxed, its row count, width and printouts are those of the column inside |
| Tables.NewTable | src/table/mod.rs:22-28 | the table has as many lines as its tallest column, or 0 with no columns |
| Tables.TableLineWidth | src/table/mod.rs:29-34 | `TablePrintout`: with columns built by `from`, every line is as wide as the columns together plus four spaces between neighbours |
| Tables.TableLineEnds | src/table/mod.rs:29-31 | `TablePrintout`: a line begins with the first column's printout and ends with the last column's |
| Cli.AddLot | src/cli.rs:9-28 | the uid is the given one or a fresh one; it is skipped, leaving the lots unchanged, exactly when a lot has that uid; otherwise one lot with the upper-cased symbol is appended and the rest are kept |
| Cli.AddLotKeepsUidsUnique | src/cli.rs:13-24 | adding keeps uids unique, and afterwards a lot with the uid exists |
| Cli.AddLotIdempotent | src/cli.rs:13-15 | a second add with the same explicit uid is skipped and leaves the lots as the first add left them |
| Cli.OffTarget | src/cli.rs:33 | the off-target symbols are the portfolio symbols that are not targets |
| Cli.PortionTargets | src/cli.rs:34-37 | targets keep their ladder portion and off-target symbols get 0 |
| Cli.ActualValues | src/cli.rs:49-54 | market values are kept and every target without one gets 0 |
| Cli.MakeRowFields | src/cli.rs:68-74 | definitional, `MakeRow`: a line keeps its symbol, count, market value and target portion; target is portion times full value, drift is market minus target, and the drift portion is market portion minus target portion |
| Cli.ReportOrderShape | src/cli.rs:60-66 | definitional, `ReportOrder`: the report lists the targets from the highest down, then the off-target symbols sorted ascending |
| Cli.ReportOrderDistinct | src/cli.rs:60-66 | for a ladder of distinct parsed targets, no symbol is listed twice |
| Cli.ReportOrderCovers | src/cli.rs:33-66 | the report lists exactly the targets and the off-target symbols |
| Cli.Status | src/cli.rs:31-85 | fails with `MissingValue` exactly when an off-target symbol has no market value; otherwise, in report order, each line has its count (0 if none), zero-filled market value, target portion and the row arithmetic |
| Cli.TargetsAddUpToFullValue | src/cli.rs:55-72 | for a ladder of distinct parsed targets, with a value for every off-target symbol, the report succeeds and its target column adds up to the full value |
| Cli.MarketsAddUpToFullValue | src/cli.rs:49-70 | for a ladder of distinct parsed targets, when the market values are keyed by portfolio symbols and cover every off-target symbol, the report succeeds and its market column adds up to the full value |
| Cli.DriftsAddUpToZero | src/cli.rs:55-73 | for a ladder of distinct parsed targets with at least one target, values keyed by portfolio symbols and a value for every off-target symbol, the report succeeds and its drift column adds up to 0 |

## Left out

- File I/O: the CSV and serde plumbing, `disk.rs`, `is_not_initialized` and `init_if_not`. Pots are in-memory values.
- `read_cash` and `write_cash`: they parse and print an `f64` as text. The cash file is modelled by its value.
- `read_market_value` and `read_market_values`: they only combine modelled reads with `Portfolio::market_value(s)`. `market_value` is not part of this model, because `portfolio.rs` does not define it.
- `read_ladder` (pot.rs:186-189): it builds `Ladder { targets, ramp }` from `read_targets` and `read_ramp`, but the `Ladder` it imports from `ladder.rs` has no `ramp` field. Its two parts are `Pots.ReadTargets` and `Pots.ReadRamp`; `Ladders.Ladder` holds only the targets.
- `Lot::random_uid` and the serde default uid: randomness. `Cli.AddLot` takes the fresh uid as a parameter.
- `has_tag`, `has_custodian` and `with_share_count`: `pot.rs` calls them, but `lot.rs` does not define them. They are taken to be equality of tag, equality of custodian, and replacement of the count.
- Portfolios.Symbols: `symbols` maps each lot through `Lot::symbol_string` (portfolio.rs:15), which no file of the program defines. The model takes it to return the lot's `asset_tag`, as the result type `HashSet<AssetTag>` suggests.
- Price lookup (`smarket::yf::price_assets`): network access. Prices and market values are inputs.
- Terminal output: `println!`, `shorten`, the dollar and percent columns, `print.rs` and `main`'s command dispatch. These are formatting of floating-point numbers.
- `lots` (the lot listing command): printing only.
- IEEE `f64` behaviour: rounding and NaN. A zero full value gives `Share.Undefined` in place of NaN or infinity.
- Unicode case mapping and white space: only ASCII case mapping and ASCII white space are modelled.
- Folder names containing `/` or `..`: a path join would walk into other folders; here a name only selects a direct sub-folder.
- Pots.ReadDeepSubpots: lists local sub-pots in ascending name order, where the source follows the `HashSet`'s unspecified order.
- Pots.ReadDeepLotAssets: on a tree with several broken sub-pots, the error reported is that of the first broken funded lot in file order, where the source's choice follows the `HashSet`.
- Pots.ResolveError: the name ":" reports `SelfReference`, where the source recurses until the stack overflows.
- Pots.TargetsRoundTrip: also requires that no tag text has leading or trailing white space. `read_targets` trims lines, so such a tag does not survive the round trip.
- Cli.Status: takes the older portfolio's symbol set, counts and market values as inputs rather than computing them from lots.
- Cli.TargetsAddUpToFullValue: requires at least one target; with none there are no portions to add up.
- Cli.MarketsAddUpToFullValue: requires the market values to be keyed by portfolio symbols, as `market_values` produces them, and the targets to be distinct. `read_targets` keeps repeated lines, so `vti` and `VTI` in `team.txt` give two `VTI` targets; `status` then lists `VTI` twice and counts its market value twice, and the model does the same.
- Cli.ReportOrderDistinct: holds only for distinct targets, for the same reason: a repeated target is listed once per occurrence.
