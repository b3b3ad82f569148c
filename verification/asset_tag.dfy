/** `AssetTag`: what a lot holds. An equity ticker, a nested sub-pot, or US
    dollars. Tags are made from text by `FromStr` (Rust's `From<T: AsRef<str>>`,
    also used when a tag is deserialised) and turned back into text by `AsStr`
    (also used when a tag is serialised).
 */
module AssetTags {
  import opened Wrappers
  import opened Text
  import opened Ordering

  datatype AssetTag = Equity(symbol: string) | Pot(name: string) | Usd

  predicate StartsWithColon(s: string) {
    |s| > 0 && s[0] == ':'
  }

  /** The tags `FromStr` can produce: upper-case equities that are neither
      "USD" nor colon-led, and colon-led sub-pot names in lower case. */
  predicate WellFormed(t: AssetTag) {
    match t
    case Equity(symbol) => Upper(symbol) == symbol && !StartsWithColon(symbol) && symbol != "USD"
    case Pot(name) => StartsWithColon(name) && Lower(name[1..]) == name[1..]
    case Usd => true
  }

  /** `AssetTag::as_str`, the text a tag is serialised as. */
  function AsStr(t: AssetTag): string {
    match t
    case Equity(symbol) => symbol
    case Pot(name) => name
    case Usd => "USD"
  }

  /** `AssetTag::from`: a colon-led string names a sub-pot and keeps its colon
      with the rest lower-cased; any other string is upper-cased, and "USD" in
      any case is the dollar tag. */
  function FromStr(s: string): (r: AssetTag)
    ensures WellFormed(r)
    ensures r.Pot? <==> StartsWithColon(s)
    ensures r.Usd? <==> !StartsWithColon(s) && Upper(s) == "USD"
    ensures r != Equity("USD")
    ensures AsStr(r) == if StartsWithColon(s) then [':'] + Lower(s[1..]) else Upper(s)
  {
    if StartsWithColon(s) then
      var rest := Lower(s[1..]);
      LowerIdempotent(s[1..]);
      assert ([':'] + rest)[1..] == rest;
      Pot([':'] + rest)
    else
      var symbol := Upper(s);
      UpperIdempotent(s);
      if symbol == "USD" then Usd else Equity(symbol)
  }

  /** `AssetTag::as_folder_name`: a sub-pot's name without its colon. Any
      other variant panics ("Wrong variant"), and so does slicing an empty
      name. */
  function AsFolderName(t: AssetTag): (r: Result<string>)
    ensures r.Success? <==> t.Pot? && |t.name| > 0
    ensures r.Success? ==> [t.name[0]] + r.value == t.name
  {
    match t
    case Pot(name) =>
      if |name| > 0 then
        assert [name[0]] + name[1..] == name;
        Success(name[1..])
      else Failure(WrongVariant)
    case _ => Failure(WrongVariant)
  }

  /** Parsing is case-insensitive outside sub-pot names: two strings that
      upper-case alike and are not colon-led give the same tag. */
  lemma CaseInsensitive(s: string, s': string)
    requires !StartsWithColon(s) && !StartsWithColon(s')
    requires Upper(s) == Upper(s')
    ensures FromStr(s) == FromStr(s')
  {
  }

  /** Serialising a tag and deserialising the text gives the tag back, for
      every tag parsing can produce. */
  lemma RoundTrip(t: AssetTag)
    requires WellFormed(t)
    ensures FromStr(AsStr(t)) == t
  {
    match t
    case Equity(symbol) =>
    case Pot(name) =>
      assert [':'] + name[1..] == name;
    case Usd =>
      assert Upper("USD") == "USD";
  }

  /** Tags parsing can produce have distinct texts: the text a tag is
      stored as identifies it. */
  lemma AsStrInjective(a: AssetTag, b: AssetTag)
    requires WellFormed(a) && WellFormed(b) && AsStr(a) == AsStr(b)
    ensures a == b
  {
    RoundTrip(a);
    RoundTrip(b);
  }

  /** Parsing is idempotent through the text form. */
  lemma ParseSerialiseParse(s: string)
    ensures FromStr(AsStr(FromStr(s))) == FromStr(s)
  {
    RoundTrip(FromStr(s));
  }

  /** The folder name of a parsed sub-pot tag, colon put back, parses to the
      same tag: the conversion loses nothing. */
  lemma FolderNameRoundTrip(t: AssetTag)
    requires WellFormed(t) && t.Pot?
    ensures AsFolderName(t).Success?
    ensures FromStr([':'] + AsFolderName(t).value) == t
  {
    RoundTrip(t);
  }

  function Rank(t: AssetTag): nat {
    match t
    case Equity(_) => 0
    case Pot(_) => 1
    case Usd => 2
  }

  /** The order Rust derives for the enum: by variant in declaration order,
      then by payload. */
  predicate TagLess(a: AssetTag, b: AssetTag) {
    Rank(a) < Rank(b) ||
    (Rank(a) == Rank(b) && (a.Equity? || a.Pot?) && StrLess(AsStr(a), AsStr(b)))
  }

  /** Every equity sorts before every sub-pot, and every sub-pot before USD;
      within a variant the order is that of the text. */
  lemma TagOrderByVariant(a: AssetTag, b: AssetTag)
    ensures a.Equity? && !b.Equity? ==> TagLess(a, b)
    ensures a.Pot? && b.Usd? ==> TagLess(a, b)
    ensures a.Pot? && b.Pot? ==> (TagLess(a, b) <==> StrLess(a.name, b.name))
    ensures !TagLess(Usd, b)
  {
  }

  /** The derived order is a strict total order. */
  lemma TagLessStrictTotal(a: AssetTag, b: AssetTag, c: AssetTag)
    ensures !TagLess(a, a)
    ensures TagLess(a, b) && TagLess(b, c) ==> TagLess(a, c)
    ensures a != b ==> TagLess(a, b) || TagLess(b, a)
  {
    StrLessIrreflexive(AsStr(a));
    if TagLess(a, b) && TagLess(b, c) && Rank(a) == Rank(b) == Rank(c) {
      StrLessTransitive(AsStr(a), AsStr(b), AsStr(c));
    }
    if a != b && Rank(a) == Rank(b) && !a.Usd? {
      StrLessTotal(AsStr(a), AsStr(b));
    }
  }
}
