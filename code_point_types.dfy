/**
 * The parsed forms of the table entries (src/code_points/types.rs) and the
 * raw records they are parsed from (src/static_data/spec_json.rs).
 */
module CodePointTypes {
  import opened Wrappers
  import opened Utils
  import opened Seqs

  /** Script group names; the table writes `Ascii` as "ASCII". */
  datatype GroupName = Emoji | Ascii | Greek | Other(name: string)

  predicate IsGreek(g: GroupName)
  {
    g.Greek?
  }

  /** The name as it is written in the table (`Display`). */
  function GroupNameToString(g: GroupName): string
  {
    match g
    case Emoji => "Emoji"
    case Ascii => "ASCII"
    case Greek => "Greek"
    case Other(name) => name
  }

  /** `From<String>`: the three known names, and anything else as `Other`. */
  function GroupNameFromString(s: string): (g: GroupName)
    ensures GroupNameToString(g) == s
    ensures g.Other? <==> s !in {"Emoji", "ASCII", "Greek"}
  {
    if s == "Emoji" then Emoji
    else if s == "ASCII" then Ascii
    else if s == "Greek" then Greek
    else Other(s)
  }

  /** Every name except an `Other` spelled like a known one survives printing and parsing. */
  lemma GroupNameRoundTrip(g: GroupName)
    requires g.Other? ==> g.name !in {"Emoji", "ASCII", "Greek"}
    ensures GroupNameFromString(GroupNameToString(g)) == g
  {
  }

  /** A script group as the table lists it. */
  datatype Group = Group(
    name: GroupName,
    primary: seq<CodePoint>,
    secondary: seq<CodePoint>,
    cm: seq<CodePoint>,
    restricted: bool)

  /** A script group prepared for membership queries. */
  datatype ParsedGroup = ParsedGroup(
    name: GroupName,
    primary: set<CodePoint>,
    secondary: set<CodePoint>,
    primaryPlusSecondary: set<CodePoint>,
    cmAbsent: bool)

  function SetOf<T>(s: seq<T>): set<T>
  {
    set i | 0 <= i < |s| :: s[i]
  }

  /** `ParsedGroup::from`. */
  function ParseGroup(g: Group): (p: ParsedGroup)
    ensures p.name == g.name
    ensures forall cp :: cp in p.primary <==> cp in g.primary
    ensures forall cp :: cp in p.secondary <==> cp in g.secondary
    ensures p.primaryPlusSecondary == p.primary + p.secondary
    ensures p.cmAbsent <==> |g.cm| == 0
  {
    var both := g.primary + g.secondary;
    assert forall cp :: cp in both <==> cp in g.primary || cp in g.secondary;
    ParsedGroup(g.name, SetOf(g.primary), SetOf(g.secondary), SetOf(both), |g.cm| == 0)
  }

  /** `contains_cp`: membership in the primary or secondary code points. */
  predicate ContainsCp(g: ParsedGroup, cp: CodePoint)
  {
    cp in g.primaryPlusSecondary
  }

  /** `contains_all_cps`. */
  function ContainsAllCps(g: ParsedGroup, cps: seq<CodePoint>): (b: bool)
    ensures b <==> forall i :: 0 <= i < |cps| ==> ContainsCp(g, cps[i])
    decreases |cps|
  {
    if |cps| == 0 then true
    else
      assert forall i :: 1 <= i < |cps| ==> cps[i] == cps[1..][i - 1];
      ContainsCp(g, cps[0]) && ContainsAllCps(g, cps[1..])
  }

  /** For a parsed table group, membership is membership in the listed primary or secondary code points. */
  lemma ParsedGroupMembership(g: Group, cps: seq<CodePoint>)
    ensures ContainsAllCps(ParseGroup(g), cps) <==>
            forall i :: 0 <= i < |cps| ==> cps[i] in g.primary || cps[i] in g.secondary
  {
  }

  // ---- Whole-script confusable entries ----

  /** A whole-map entry as the table writes it: a number, or an object with keys `V` and `M`. */
  datatype WholeValueJson =
    | NumberJson(number: CodePoint)
    | ObjectJson(v: seq<CodePoint>, m: seq<(string, seq<string>)>)

  /**
   * A parsed whole-map entry. The `M` name sets are kept as duplicate-free
   * sequences in table order, which fixes the order in which they are visited.
   */
  datatype ParsedWholeValue =
    | Number(number: CodePoint)
    | WholeObject(obj: ParsedWholeObject)

  datatype ParsedWholeObject = ParsedWholeObject(v: set<CodePoint>, m: map<CodePoint, seq<string>>)

  predicate IsDigit(c: char)
  {
    '0' <= c <= '9'
  }

  predicate AllDigits(d: string)
  {
    forall i :: 0 <= i < |d| ==> IsDigit(d[i])
  }

  /** The value of a string of decimal digits. */
  function DecimalValue(d: string): nat
    requires forall i :: 0 <= i < |d| ==> IsDigit(d[i])
    decreases |d|
  {
    if |d| == 0 then 0
    else
      assert IsDigit(d[|d| - 1]);
      DecimalValue(d[..|d| - 1]) * 10 + (d[|d| - 1] as int - '0' as int)
  }

  /** The decimal digits of `n`, without leading zeros. */
  function DecimalString(n: nat): (d: string)
    ensures |d| > 0
    ensures forall i :: 0 <= i < |d| ==> IsDigit(d[i])
    ensures DecimalValue(d) == n
    decreases n
  {
    var last := [(('0' as int) + n % 10) as char];
    if n < 10 then last
    else
      var d := DecimalString(n / 10) + last;
      assert d[..|d| - 1] == DecimalString(n / 10);
      d
  }

  /**
   * Rust's `str::parse::<u32>`: an optional `+`, then at least one decimal
   * digit, and a value below 2^32.
   */
  function ParseU32(s: string): (r: Option<CodePoint>)
    ensures r.Some? ==> |s| > 0 && s[|s| - 1] != '+'
  {
    var d := if |s| > 0 && s[0] == '+' then s[1..] else s;
    if |d| > 0 && AllDigits(d) && DecimalValue(d) < 0x1_0000_0000
    then Some(DecimalValue(d))
    else None
  }

  /** The decimal form of every `u32`, with or without a `+`, parses back to it; a sign `-` never parses. */
  lemma ParseU32Decimal(n: CodePoint)
    ensures ParseU32(DecimalString(n)) == Some(n)
    ensures ParseU32("+" + DecimalString(n)) == Some(n)
    ensures ParseU32("-" + DecimalString(n)) == None
    ensures ParseU32("") == None && ParseU32("+") == None
  {
    var d := DecimalString(n);
    assert IsDigit(d[0]);
    assert ("+" + d)[1..] == d;
    var neg := "-" + d;
    assert neg[0] == '-' && !IsDigit(neg[0]);
    assert !AllDigits(neg);
  }

  /** The entries of `M` with parsed keys, a later entry overriding an earlier one with the same key. */
  function ParsedEntries(entries: seq<(string, seq<string>)>): seq<(CodePoint, seq<string>)>
    requires forall i :: 0 <= i < |entries| ==> ParseU32(entries[i].0).Some?
  {
    seq(|entries|, i requires 0 <= i < |entries| => (ParseU32(entries[i].0).value, Dedup(entries[i].1)))
  }

  predicate KeyParses(e: (string, seq<string>))
  {
    ParseU32(e.0).Some?
  }

  /**
   * The `M` part of `ParsedWholeObject::try_from`: collecting into a map
   * stops at the first key that does not parse as a number.
   */
  function ParseM(entries: seq<(string, seq<string>)>): (r: Result<map<CodePoint, seq<string>>, string>)
    ensures r.Ok? <==> forall i :: 0 <= i < |entries| ==> ParseU32(entries[i].0).Some?
    ensures r.Err? ==> exists i :: 0 <= i < |entries| && ParseU32(entries[i].0).None? && entries[i].0 == r.error &&
                         forall j :: 0 <= j < i ==> ParseU32(entries[j].0).Some?
    ensures r.Ok? ==> forall i :: 0 <= i < |entries| ==> ParseU32(entries[i].0).value in r.value
  {
    var bad := FirstWhere(entries, e => !KeyParses(e));
    if bad == |entries| then
      assert forall i :: 0 <= i < |entries| ==> entries[..bad][i] == entries[i];
      var pe := ParsedEntries(entries);
      assert forall i :: 0 <= i < |entries| ==> pe[i].0 == ParseU32(entries[i].0).value;
      Ok(MapOfPairs(pe))
    else
      assert forall j :: 0 <= j < bad ==> entries[..bad][j] == entries[j];
      Err(entries[bad].0)
  }

  /** `ParsedWholeValue::try_from`: numbers pass through, objects have their `M` keys parsed. */
  function ParseWholeValue(v: WholeValueJson): (r: Result<ParsedWholeValue, string>)
    ensures r.Err? <==> v.ObjectJson? && exists i :: 0 <= i < |v.m| && ParseU32(v.m[i].0).None?
    ensures v.NumberJson? ==> r == Ok(Number(v.number))
    ensures r.Ok? && v.ObjectJson? ==>
              r.value.WholeObject? && r.value.obj.v == SetOf(v.v) && r.value.obj.m == ParseM(v.m).value
  {
    match v
    case NumberJson(n) => Ok(Number(n))
    case ObjectJson(vs, m) =>
      match ParseM(m)
      case Err(e) => Err(e)
      case Ok(pm) => Ok(WholeObject(ParsedWholeObject(SetOf(vs), pm)))
  }
}
