/**
 * The table-property analyzers of the frontend (`PropertyAnalyzer`): each reads one property
 * from the user's `Map<String, String>`, checks it, removes the keys it consumed and returns
 * the parsed value or throws an analysis error. The map is a `PropertyMap` object whose
 * `entries` the analyzers change in place; each analyzer is also given as a pure function
 * returning an `Analysis` (the result and the map left behind), which states its rules.
 */
module PropertyAnalyzers {
  import opened Wrappers
  import opened Strings
  import opened JavaStrings

  const ShortKey := "short_key"
  const StorageMedium := "storage_medium"
  const StorageCooldownTime := "storage_cooldown_time"
  const StorageCooldownTtl := "storage_cooldown_ttl"
  const BloomFilterColumns := "bloom_filter_columns"
  const Compression := "compression"
  const PartitionTtlNumber := "partition_ttl_number"
  const UseFastSchemaEvolution := "fast_schema_evolution"
  const UseLightSchemaChange := "light_schema_change"
  const DefaultPrefix := "default."

  /** The message for a cooldown time without a storage medium. */
  const MediumNotFound := "Invalid data property. storage medium property is not found"

  /** The messages for a cooldown time, and for a cooldown TTL, on an HDD medium. */
  const CooldownTimeOnHdd := "Can not assign cooldown timestamp to HDD storage medium"
  const CooldownTtlOnHdd := "Can not assign cooldown ttl to table with HDD storage medium"

  type Properties = map<string, string>

  /** What an analyzer returns or throws, and the properties it leaves in the map. */
  datatype Analysis<T> = Analysis(result: Result<T, string>, rest: Properties)

  /** The user's property map, which the analyzers consume key by key. */
  class PropertyMap {
    var entries: Properties

    constructor(entries: Properties)
      ensures this.entries == entries
    {
      this.entries := entries;
    }

    /** `Map.remove`. */
    method Remove(key: string)
      modifies this
      ensures entries == old(entries) - {key}
    {
      entries := entries - {key};
    }
  }

  // ---------------------------------------------------------------------------------------
  // Numbers: short key column count and partition TTL number
  // ---------------------------------------------------------------------------------------

  /** `Short.parseShort` over ASCII digits: a decimal number that fits in 16 signed bits. */
  function ParseShort(s: string): Option<int> {
    match ParseInt(s)
    case Some(v) => if -0x8000 <= v < 0x8000 then Some(v) else None
    case None => None
  }

  /** `Integer.parseInt` over ASCII digits: a decimal number that fits in 32 signed bits. */
  function ParseInt32(s: string): Option<int> {
    match ParseInt(s)
    case Some(v) => if -0x8000_0000 <= v < 0x8000_0000 then Some(v) else None
    case None => None
  }

  /**
   * `analyzeShortKeyColumnCount`: -1 when the key is absent; otherwise the value must be a
   * positive 16-bit number, and only then is the key consumed.
   */
  function ShortKeyColumnCount(m: Properties): (a: Analysis<int>)
    ensures ShortKey !in m ==> a == Analysis(Ok(-1), m)
    ensures ShortKey in m ==>
      (a.result.Ok? <==> exists n :: ParseInt(m[ShortKey]) == Some(n) && 0 < n < 0x8000)
    ensures ShortKey in m && a.result.Ok? ==>
      ParseInt(m[ShortKey]) == Some(a.result.value) && a.rest == m - {ShortKey}
    ensures a.result.Err? ==> a.rest == m
  {
    if ShortKey !in m then Analysis(Ok(-1), m)
    else
      match ParseShort(m[ShortKey])
      case None => Analysis(Err("Short key: number format error"), m)
      case Some(n) =>
        if n <= 0 then Analysis(Err("Short key column count should larger than 0."), m)
        else Analysis(Ok(n), m - {ShortKey})
  }

  method AnalyzeShortKeyColumnCount(props: PropertyMap) returns (r: Result<int, string>)
    modifies props
    ensures Analysis(r, props.entries) == ShortKeyColumnCount(old(props.entries))
  {
    var count := -1;
    if ShortKey in props.entries {
      var parsed := ParseShort(props.entries[ShortKey]);
      if parsed.None? {
        return Err("Short key: number format error");
      }
      count := parsed.value;
      if count <= 0 {
        return Err("Short key column count should larger than 0.");
      }
      props.Remove(ShortKey);
    }
    return Ok(count);
  }

  /**
   * `analyzePartitionTTLNumber`: `invalid` (the table's "no TTL" marker) when the key is absent;
   * otherwise a 32-bit number that is positive or exactly `invalid`, and the key is consumed.
   */
  function PartitionTtlNumberOf(m: Properties, invalid: int): (a: Analysis<int>)
    ensures PartitionTtlNumber !in m ==> a == Analysis(Ok(invalid), m)
    ensures PartitionTtlNumber in m ==>
      (a.result.Ok? <==> exists n :: ParseInt32(m[PartitionTtlNumber]) == Some(n) && (n > 0 || n == invalid))
    ensures PartitionTtlNumber in m && a.result.Ok? ==>
      ParseInt(m[PartitionTtlNumber]) == Some(a.result.value) && a.rest == m - {PartitionTtlNumber}
    ensures a.result.Ok? ==> a.result.value > 0 || a.result.value == invalid
    ensures a.result.Err? ==> a.rest == m
  {
    if PartitionTtlNumber !in m then Analysis(Ok(invalid), m)
    else
      match ParseInt32(m[PartitionTtlNumber])
      case None => Analysis(Err("Partition TTL Number: number format error"), m)
      case Some(n) =>
        if n <= 0 && n != invalid then Analysis(Err("Illegal Partition TTL Number: " + IntToString(n)), m)
        else Analysis(Ok(n), m - {PartitionTtlNumber})
  }

  method AnalyzePartitionTtlNumber(props: PropertyMap, invalid: int) returns (r: Result<int, string>)
    modifies props
    ensures Analysis(r, props.entries) == PartitionTtlNumberOf(old(props.entries), invalid)
  {
    var ttl := invalid;
    if PartitionTtlNumber in props.entries {
      var parsed := ParseInt32(props.entries[PartitionTtlNumber]);
      if parsed.None? {
        return Err("Partition TTL Number: number format error");
      }
      ttl := parsed.value;
      if ttl <= 0 && ttl != invalid {
        return Err("Illegal Partition TTL Number: " + IntToString(ttl));
      }
      props.Remove(PartitionTtlNumber);
    }
    return Ok(ttl);
  }

  // ---------------------------------------------------------------------------------------
  // Compression level
  // ---------------------------------------------------------------------------------------

  predicate AllDigits(s: string) {
    forall i :: 0 <= i < |s| ==> IsDigit(s[i])
  }

  /** The digits captured by `^zstd\((\d+)\)$` matched ignoring case, if it matches. */
  function ZstdDigits(s: string): (r: Option<string>)
    ensures r.Some? <==> exists d :: |d| > 0 && AllDigits(d) && |s| == |d| + 6 &&
                                     EqualsIgnoreCase(s[..5], "zstd(") && s[5..|s| - 1] == d && s[|s| - 1] == ')'
    ensures r.Some? ==> |r.value| > 0 && AllDigits(r.value) && s == s[..5] + r.value + ")"
  {
    if |s| >= 7 && EqualsIgnoreCase(s[..5], "zstd(") && s[|s| - 1] == ')' && AllDigits(s[5..|s| - 1]) then
      assert s == s[..5] + s[5..|s| - 1] + ")";
      Some(s[5..|s| - 1])
    else None
  }

  /**
   * `analyzeCompressionLevel` on the value of `compression`, with spaces removed: a zstd level
   * of 1 to 22 is returned and consumes the key; any other level is an error; a value that is
   * not `zstd(<digits>)` gives -1 and leaves the map alone.
   */
  function CompressionLevel(m: Properties): (a: Analysis<int>)
    requires Compression in m
    ensures a.result == Ok(-1) <==> ZstdDigits(RemoveChar(m[Compression], ' ')).None?
    ensures a.result == Ok(-1) ==> a.rest == m
    ensures a.result.Ok? && a.result.value != -1 ==> 1 <= a.result.value <= 22 && a.rest == m - {Compression}
    ensures a.result.Err? ==> a.rest == m
  {
    match ZstdDigits(RemoveChar(m[Compression], ' '))
    case None => Analysis(Ok(-1), m)
    case Some(d) =>
      match ParseInt32(d)
      case None => Analysis(Err("NumberFormatException: For input string: " + d), m)
      case Some(n) =>
        if 1 <= n <= 22 then Analysis(Ok(n), m - {Compression})
        else Analysis(Err("Invalid level for zstd compression type"), m)
  }

  method AnalyzeCompressionLevel(props: PropertyMap) returns (r: Result<int, string>)
    requires Compression in props.entries
    modifies props
    ensures Analysis(r, props.entries) == CompressionLevel(old(props.entries))
  {
    var noSpaces := RemoveChar(props.entries[Compression], ' ');
    var matched := ZstdDigits(noSpaces);
    if matched.Some? {
      var number := ParseInt32(matched.value);
      if number.None? {
        return Err("NumberFormatException: For input string: " + matched.value);
      }
      if 1 <= number.value <= 22 {
        props.Remove(Compression);
        return Ok(number.value);
      }
      return Err("Invalid level for zstd compression type");
    }
    return Ok(-1);
  }

  /**
   * A zstd level written in decimal after `zstd(` in any letter case, with any spaces, is
   * accepted exactly when it lies in 1..22, and is then returned with the key consumed.
   */
  lemma CompressionLevelOf(m: Properties, prefix: string, n: nat)
    requires Compression in m
    requires EqualsIgnoreCase(prefix, "zstd(")
    requires RemoveChar(m[Compression], ' ') == prefix + NatToString(n) + ")"
    ensures 1 <= n <= 22 ==> CompressionLevel(m) == Analysis(Ok(n), m - {Compression})
    ensures !(1 <= n <= 22) ==> CompressionLevel(m).result.Err?
  {
    var d := NatToString(n);
    ZstdOf(prefix, d);
    ParseDigits(d);
    DigitsValueOfNat(n);
    assert ZstdDigits(RemoveChar(m[Compression], ' ')) == Some(d);
    assert ParseInt(d) == Some(n);
  }

  /** `zstd(` in any letter case, digits and `)` is matched, capturing the digits. */
  lemma ZstdOf(prefix: string, d: string)
    requires EqualsIgnoreCase(prefix, "zstd(")
    requires |d| > 0 && AllDigits(d)
    ensures ZstdDigits(prefix + d + ")") == Some(d)
  {
    var s := prefix + d + ")";
    assert s[..5] == prefix;
    assert s[5..|s| - 1] == d;
  }

  // ---------------------------------------------------------------------------------------
  // Fast schema evolution
  // ---------------------------------------------------------------------------------------

  /**
   * `analyzeUseFastSchemaEvolution`: the configured default when neither key is present;
   * otherwise the value of `fast_schema_evolution` (or, failing that, `light_schema_change`)
   * must be `true` or `false` ignoring case, and both keys are consumed.
   */
  function FastSchemaEvolution(m: Properties, enabledByDefault: bool): (a: Analysis<bool>)
    ensures UseFastSchemaEvolution !in m && UseLightSchemaChange !in m ==> a == Analysis(Ok(enabledByDefault), m)
    ensures UseFastSchemaEvolution in m || UseLightSchemaChange in m ==>
      var v := if UseFastSchemaEvolution in m then m[UseFastSchemaEvolution] else m[UseLightSchemaChange];
      && a.rest == m - {UseFastSchemaEvolution, UseLightSchemaChange}
      && (a.result == Ok(true) <==> EqualsIgnoreCase(v, "true"))
      && (a.result == Ok(false) <==> EqualsIgnoreCase(v, "false"))
      && (a.result.Err? <==> !EqualsIgnoreCase(v, "true") && !EqualsIgnoreCase(v, "false"))
  {
    if |m| == 0 then Analysis(Ok(enabledByDefault), m)
    else
      var value :=
        if UseFastSchemaEvolution in m then Some(m[UseFastSchemaEvolution])
        else if UseLightSchemaChange in m then Some(m[UseLightSchemaChange])
        else None;
      match value
      case None => Analysis(Ok(enabledByDefault), m)
      case Some(v) =>
        var rest := m - {UseFastSchemaEvolution} - {UseLightSchemaChange};
        assert rest == m - {UseFastSchemaEvolution, UseLightSchemaChange};
        if EqualsIgnoreCase(v, "true") then Analysis(Ok(true), rest)
        else if EqualsIgnoreCase(v, "false") then Analysis(Ok(false), rest)
        else Analysis(Err(UseFastSchemaEvolution + " must be `true` or `false`"), rest)
  }

  method AnalyzeUseFastSchemaEvolution(props: PropertyMap, enabledByDefault: bool) returns (r: Result<bool, string>)
    modifies props
    ensures Analysis(r, props.entries) == FastSchemaEvolution(old(props.entries), enabledByDefault)
  {
    if |props.entries| == 0 {
      return Ok(enabledByDefault);
    }
    var value: string;
    if UseFastSchemaEvolution in props.entries {
      value := props.entries[UseFastSchemaEvolution];
    } else if UseLightSchemaChange in props.entries {
      value := props.entries[UseLightSchemaChange];
    } else {
      return Ok(enabledByDefault);
    }
    props.Remove(UseFastSchemaEvolution);
    props.Remove(UseLightSchemaChange);
    if EqualsIgnoreCase(value, "true") {
      return Ok(true);
    } else if EqualsIgnoreCase(value, "false") {
      return Ok(false);
    }
    return Err(UseFastSchemaEvolution + " must be `true` or `false`");
  }

  // ---------------------------------------------------------------------------------------
  // Data property: storage medium and cooldown
  // ---------------------------------------------------------------------------------------

  datatype Medium = Ssd | Hdd

  /** Where a partition's data lives and when it cools down to HDD (milliseconds). */
  datatype DataProperty = DataProperty(medium: Medium, cooldownTimeMs: int)

  /** The three keys, with the `default.` prefix for the table-wide defaults. */
  datatype DataPropertyKeys = DataPropertyKeys(medium: string, cooldownTime: string, cooldownTtl: string)

  /** `order` lists every key of `m` exactly once: an iteration order of the map. */
  ghost predicate IterationOrder<K(!new), V>(order: seq<K>, m: map<K, V>) {
    Distinct(order) && forall k :: k in order <==> k in m
  }

  /** No two of the keys are equal ignoring case, so an entry matches at most one of them. */
  predicate DistinctKeys(keys: DataPropertyKeys) {
    && LowerString(keys.medium) != LowerString(keys.cooldownTime)
    && LowerString(keys.medium) != LowerString(keys.cooldownTtl)
    && LowerString(keys.cooldownTime) != LowerString(keys.cooldownTtl)
  }

  function KeysFor(isDefault: bool): (keys: DataPropertyKeys)
    ensures DistinctKeys(keys)
  {
    if isDefault then
      DataPropertyKeys(DefaultPrefix + StorageMedium, DefaultPrefix + StorageCooldownTime, DefaultPrefix + StorageCooldownTtl)
    else DataPropertyKeys(StorageMedium, StorageCooldownTime, StorageCooldownTtl)
  }

  function ParseMedium(value: string): Option<Medium> {
    if EqualsIgnoreCase(value, "SSD") then Some(Ssd)
    else if EqualsIgnoreCase(value, "HDD") then Some(Hdd)
    else None
  }

  /** What the pass over the entries has found so far. */
  datatype Scan = Scan(hasMedium: bool, medium: Option<Medium>, hasCooldownTime: bool, cooldownTimeMs: int, hasCooldownTtl: bool)

  predicate ScanValid(s: Scan) {
    s.hasMedium <==> s.medium.Some?
  }

  /**
   * One entry of the pass: the first key equal to each of the three ignoring case is taken;
   * a medium other than SSD or HDD, or a cooldown time that is not a date, is an error.
   * `parseDate` stands for `DateLiteral` parsing followed by conversion to a timestamp.
   */
  function ScanEntry(s: Scan, key: string, value: string, keys: DataPropertyKeys,
                     parseDate: string -> Result<int, string>): Result<Scan, string>
  {
    if !s.hasMedium && EqualsIgnoreCase(key, keys.medium) then
      match ParseMedium(value)
      case None => Err("Invalid storage medium: " + value)
      case Some(md) => Ok(s.(hasMedium := true, medium := Some(md)))
    else if !s.hasCooldownTime && EqualsIgnoreCase(key, keys.cooldownTime) then
      match parseDate(value)
      case Err(e) => Err(e)
      case Ok(t) => Ok(s.(hasCooldownTime := true, cooldownTimeMs := t))
    else if !s.hasCooldownTtl && EqualsIgnoreCase(key, keys.cooldownTtl) then
      Ok(s.(hasCooldownTtl := true))
    else Ok(s)
  }

  /** The pass over the entries in the map's iteration order `order`. */
  function ScanFrom(s: Scan, m: Properties, order: seq<string>, keys: DataPropertyKeys,
                    parseDate: string -> Result<int, string>): (r: Result<Scan, string>)
    requires forall k :: k in order ==> k in m
    ensures ScanValid(s) && r.Ok? ==> ScanValid(r.value)
    decreases |order|
  {
    if order == [] then Ok(s)
    else
      match ScanEntry(s, order[0], m[order[0]], keys, parseDate)
      case Err(e) => Err(e)
      case Ok(s') => ScanFrom(s', m, order[1..], keys, parseDate)
  }

  /** A key equal to `key` ignoring case occurs in `order`. */
  predicate Mentions(order: seq<string>, key: string) {
    exists i :: 0 <= i < |order| && EqualsIgnoreCase(order[i], key)
  }

  /** After a successful pass each flag says whether its key occurs, ignoring case. */
  lemma {:induction false} ScanFindsKeys(s: Scan, m: Properties, order: seq<string>, keys: DataPropertyKeys,
                                         parseDate: string -> Result<int, string>)
    requires DistinctKeys(keys)
    requires forall k :: k in order ==> k in m
    requires ScanFrom(s, m, order, keys, parseDate).Ok?
    ensures var r := ScanFrom(s, m, order, keys, parseDate).value;
      && (r.hasMedium <==> s.hasMedium || Mentions(order, keys.medium))
      && (r.hasCooldownTime <==> s.hasCooldownTime || Mentions(order, keys.cooldownTime))
      && (r.hasCooldownTtl <==> s.hasCooldownTtl || Mentions(order, keys.cooldownTtl))
    decreases |order|
  {
    if order != [] {
      var s' := ScanEntry(s, order[0], m[order[0]], keys, parseDate).value;
      ScanFindsKeys(s', m, order[1..], keys, parseDate);
      forall key | Mentions(order, key)
        ensures EqualsIgnoreCase(order[0], key) || Mentions(order[1..], key)
      {
        var i :| 0 <= i < |order| && EqualsIgnoreCase(order[i], key);
        if i > 0 {
          assert order[1..][i - 1] == order[i];
        }
      }
      forall key | Mentions(order[1..], key)
        ensures Mentions(order, key)
      {
        var i :| 0 <= i < |order[1..]| && EqualsIgnoreCase(order[1..][i], key);
        assert order[i + 1] == order[1..][i];
      }
    }
  }

  /**
   * `analyzeDataProperty`. In shared-data mode the three keys are dropped and the inferred
   * property returned. Otherwise the entries are scanned; with none of the keys the inferred
   * property is returned untouched; cooldown time and TTL together are a conflict; then the
   * keys are consumed and either cooldown needs an SSD medium, a cooldown time must lie after
   * `now`, and an SSD with neither cools down at `ssdCooldownMs`; otherwise at `maxCooldownMs`.
   */
  function DataPropertyOf(m: Properties, order: seq<string>, isDefault: bool, inferred: DataProperty,
                          sharedData: bool, now: int, ssdCooldownMs: int, maxCooldownMs: int,
                          parseDate: string -> Result<int, string>): (a: Analysis<DataProperty>)
    requires IterationOrder(order, m)
  {
    var keys := KeysFor(isDefault);
    var consumed := m - {keys.medium} - {keys.cooldownTime} - {keys.cooldownTtl};
    if sharedData then Analysis(Ok(inferred), consumed)
    else
      match ScanFrom(Scan(false, None, false, maxCooldownMs, false), m, order, keys, parseDate)
      case Err(e) => Analysis(Err(e), m)
      case Ok(s) =>
        if !s.hasCooldownTime && !s.hasMedium && !s.hasCooldownTtl then Analysis(Ok(inferred), m)
        else if s.hasCooldownTime && s.hasCooldownTtl then
          Analysis(Err("Invalid data property. " + keys.cooldownTime + " and " + keys.cooldownTtl + " conflict. you can only use one of them. "), m)
        else if (s.hasCooldownTime || s.hasCooldownTtl) && !s.hasMedium then
          Analysis(Err(MediumNotFound), consumed)
        else if (s.hasCooldownTime || s.hasCooldownTtl) && s.medium == Some(Hdd) then
          Analysis(Err(if s.hasCooldownTime then CooldownTimeOnHdd else CooldownTtlOnHdd), consumed)
        else if s.hasCooldownTime && s.cooldownTimeMs <= now then
          Analysis(Err("Cooldown time should be later than now"), consumed)
        else
          var cooldown :=
            if s.medium == Some(Ssd) && !s.hasCooldownTime && !s.hasCooldownTtl then ssdCooldownMs
            else s.cooldownTimeMs;
          Analysis(Ok(DataProperty(s.medium.value, cooldown)), consumed)
  }

  /**
   * The rules of `analyzeDataProperty`, stated on the keys present in the map (compared
   * ignoring case): the conflict, the medium each cooldown needs, the future cooldown time,
   * the default SSD cooldown, and which keys are consumed.
   */
  lemma DataPropertyRules(m: Properties, order: seq<string>, isDefault: bool, inferred: DataProperty,
                          now: int, ssdCooldownMs: int, maxCooldownMs: int, parseDate: string -> Result<int, string>)
    requires IterationOrder(order, m)
    requires ScanFrom(Scan(false, None, false, maxCooldownMs, false), m, order, KeysFor(isDefault), parseDate).Ok?
    ensures var keys := KeysFor(isDefault);
      var a := DataPropertyOf(m, order, isDefault, inferred, false, now, ssdCooldownMs, maxCooldownMs, parseDate);
      var time, ttl, medium := Mentions(order, keys.cooldownTime), Mentions(order, keys.cooldownTtl), Mentions(order, keys.medium);
      && (!time && !ttl && !medium ==> a == Analysis(Ok(inferred), m))
      && (time && ttl ==> a.result.Err? && a.rest == m)
      && (!(time && ttl) && (time || ttl || medium) ==> a.rest == m - {keys.medium, keys.cooldownTime, keys.cooldownTtl})
      && ((time || ttl) && a.result.Ok? ==> medium && a.result.value.medium == Ssd)
      && (time && a.result.Ok? ==> a.result.value.cooldownTimeMs > now)
      && (medium && !time && !ttl ==>
            a.result.Ok? && a.result.value.cooldownTimeMs == (if a.result.value.medium == Ssd then ssdCooldownMs else maxCooldownMs))
  {
    var keys := KeysFor(isDefault);
    var init := Scan(false, None, false, maxCooldownMs, false);
    ScanFindsKeys(init, m, order, keys, parseDate);
    var s := ScanFrom(init, m, order, keys, parseDate).value;
    assert !s.hasCooldownTime ==> s.cooldownTimeMs == maxCooldownMs by {
      ScanKeepsTime(init, m, order, keys, parseDate);
    }
    assert m - {keys.medium} - {keys.cooldownTime} - {keys.cooldownTtl} == m - {keys.medium, keys.cooldownTime, keys.cooldownTtl};
  }

  /** Without a cooldown time the pass leaves the timestamp as it was. */
  lemma {:induction false} ScanKeepsTime(s: Scan, m: Properties, order: seq<string>, keys: DataPropertyKeys,
                                         parseDate: string -> Result<int, string>)
    requires forall k :: k in order ==> k in m
    requires ScanFrom(s, m, order, keys, parseDate).Ok?
    ensures var r := ScanFrom(s, m, order, keys, parseDate).value;
      !r.hasCooldownTime ==> r.cooldownTimeMs == s.cooldownTimeMs && !s.hasCooldownTime
    decreases |order|
  {
    if order != [] {
      var s' := ScanEntry(s, order[0], m[order[0]], keys, parseDate).value;
      ScanKeepsTime(s', m, order[1..], keys, parseDate);
    }
  }

  method AnalyzeDataProperty(props: PropertyMap, order: seq<string>, isDefault: bool, inferred: DataProperty,
                             sharedData: bool, now: int, ssdCooldownMs: int, maxCooldownMs: int,
                             parseDate: string -> Result<int, string>) returns (r: Result<DataProperty, string>)
    requires IterationOrder(order, props.entries)
    modifies props
    ensures Analysis(r, props.entries) ==
            DataPropertyOf(old(props.entries), order, isDefault, inferred, sharedData, now, ssdCooldownMs, maxCooldownMs, parseDate)
  {
    var keys := KeysFor(isDefault);
    if sharedData {
      props.Remove(keys.medium);
      props.Remove(keys.cooldownTime);
      props.Remove(keys.cooldownTtl);
      return Ok(inferred);
    }
    var m := props.entries;
    var storageMedium: Option<Medium> := None;
    var coolDownTimeStamp := maxCooldownMs;
    var hasMedium, hasCooldownTime, hasCoolDownTtl := false, false, false;
    ghost var init := Scan(false, None, false, maxCooldownMs, false);
    for i := 0 to |order|
      invariant props.entries == m
      invariant ScanFrom(Scan(hasMedium, storageMedium, hasCooldownTime, coolDownTimeStamp, hasCoolDownTtl), m, order[i..], keys, parseDate)
                == ScanFrom(init, m, order, keys, parseDate)
    {
      var key := order[i];
      var value := m[key];
      assert order[i..][1..] == order[i + 1..];
      if !hasMedium && EqualsIgnoreCase(key, keys.medium) {
        hasMedium := true;
        if EqualsIgnoreCase(value, "SSD") {
          storageMedium := Some(Ssd);
        } else if EqualsIgnoreCase(value, "HDD") {
          storageMedium := Some(Hdd);
        } else {
          return Err("Invalid storage medium: " + value);
        }
      } else if !hasCooldownTime && EqualsIgnoreCase(key, keys.cooldownTime) {
        hasCooldownTime := true;
        var date := parseDate(value);
        if date.Err? {
          return Err(date.error);
        }
        coolDownTimeStamp := date.value;
      } else if !hasCoolDownTtl && EqualsIgnoreCase(key, keys.cooldownTtl) {
        hasCoolDownTtl := true;
      }
    }
    assert order[|order|..] == [];
    if !hasCooldownTime && !hasMedium && !hasCoolDownTtl {
      return Ok(inferred);
    }
    if hasCooldownTime && hasCoolDownTtl {
      return Err("Invalid data property. " + keys.cooldownTime + " and " + keys.cooldownTtl + " conflict. you can only use one of them. ");
    }
    props.Remove(keys.medium);
    props.Remove(keys.cooldownTime);
    props.Remove(keys.cooldownTtl);
    if hasCooldownTime || hasCoolDownTtl {
      if !hasMedium {
        return Err(MediumNotFound);
      }
      if storageMedium == Some(Hdd) {
        return Err(if hasCooldownTime then CooldownTimeOnHdd else CooldownTtlOnHdd);
      }
      if hasCooldownTime && coolDownTimeStamp <= now {
        return Err("Cooldown time should be later than now");
      }
    }
    if storageMedium == Some(Ssd) && !hasCooldownTime && !hasCoolDownTtl {
      coolDownTimeStamp := ssdCooldownMs;
    }
    return Ok(DataProperty(storageMedium.value, coolDownTimeStamp));
  }

  // ---------------------------------------------------------------------------------------
  // Bloom filter columns
  // ---------------------------------------------------------------------------------------

  /** What the analyzer needs to know of a schema column. */
  datatype Column = Column(name: string, typeName: string, supportsBloomFilter: bool, isKey: bool, aggregationNone: bool)

  /** The first column whose name equals `name` ignoring case. */
  function FindColumn(columns: seq<Column>, name: string): (r: Option<Column>)
    ensures r.Some? ==> r.value in columns && EqualsIgnoreCase(r.value.name, name)
    ensures r.None? ==> forall i :: 0 <= i < |columns| ==> !EqualsIgnoreCase(columns[i].name, name)
    decreases |columns|
  {
    if columns == [] then None
    else if EqualsIgnoreCase(columns[0].name, name) then Some(columns[0])
    else FindColumn(columns[1..], name)
  }

  /** The message for a column that is neither a key column nor free of aggregation. */
  const NotKeyColumn := "Bloom filter index only used in columns of DUP_KEYS/PRIMARY table or key columns of UNIQUE_KEYS/AGG_KEYS table. invalid column: "

  /** A bloom filter may be built on the column: its type allows one, and it is a key column,
    * a column of a primary-key table, or a column without aggregation. */
  predicate Eligible(c: Option<Column>, isPrimaryKey: bool) {
    c.Some? && c.value.supportsBloomFilter && (c.value.isKey || isPrimaryKey || c.value.aggregationNone)
  }

  /**
   * The loop of `analyzeBloomFilterColumns` from a given entry on: `seen` holds the entries
   * already taken (lower-cased), `names` the column names collected.
   */
  function CheckBloomColumns(entries: seq<string>, columns: seq<Column>, isPrimaryKey: bool,
                             seen: set<string>, names: set<string>): Result<set<string>, string>
    decreases |entries|
  {
    if entries == [] then Ok(names)
    else
      var name := Trim(entries[0]);
      match FindColumn(columns, name)
      case None => Err("Invalid bloom filter column '" + name + "': not exists")
      case Some(c) =>
        if !c.supportsBloomFilter then Err("Invalid bloom filter column '" + name + "': unsupported type " + c.typeName)
        else if !(c.isKey || isPrimaryKey || c.aggregationNone) then
          Err(NotKeyColumn + name)
        else if LowerString(name) in seen then Err("Duplicate bloom filter column '" + name + "'")
        else CheckBloomColumns(entries[1..], columns, isPrimaryKey, seen + {LowerString(name)}, names + {c.name})
  }

  /** Every entry names an eligible column and no two entries are equal ignoring case. */
  predicate BloomAccepted(entries: seq<string>, columns: seq<Column>, isPrimaryKey: bool) {
    && (forall i :: 0 <= i < |entries| ==> Eligible(FindColumn(columns, Trim(entries[i])), isPrimaryKey))
    && (forall i, j :: 0 <= i < j < |entries| ==> LowerString(Trim(entries[i])) != LowerString(Trim(entries[j])))
  }

  /** The columns the entries name. */
  function NamedColumns(entries: seq<string>, columns: seq<Column>): set<string>
    decreases |entries|
  {
    if entries == [] then {}
    else
      match FindColumn(columns, Trim(entries[0]))
      case None => NamedColumns(entries[1..], columns)
      case Some(c) => {c.name} + NamedColumns(entries[1..], columns)
  }

  /** No later entry repeats the first one, ignoring case. */
  predicate FirstUnrepeated(entries: seq<string>)
    requires entries != []
  {
    forall j :: 1 <= j < |entries| ==> LowerString(Trim(entries[j])) != LowerString(Trim(entries[0]))
  }

  /** Acceptance of a list splits into its first entry, the rest, and no repeat of the first. */
  lemma BloomAcceptedCons(entries: seq<string>, columns: seq<Column>, isPrimaryKey: bool)
    requires entries != []
    ensures BloomAccepted(entries, columns, isPrimaryKey) <==>
      Eligible(FindColumn(columns, Trim(entries[0])), isPrimaryKey) &&
      BloomAccepted(entries[1..], columns, isPrimaryKey) && FirstUnrepeated(entries)
  {
    var rest := entries[1..];
    if BloomAccepted(entries, columns, isPrimaryKey) {
      forall i | 0 <= i < |rest|
        ensures Eligible(FindColumn(columns, Trim(rest[i])), isPrimaryKey)
      {
        assert rest[i] == entries[i + 1];
      }
      forall i, j | 0 <= i < j < |rest|
        ensures LowerString(Trim(rest[i])) != LowerString(Trim(rest[j]))
      {
        assert rest[i] == entries[i + 1] && rest[j] == entries[j + 1];
      }
    }
    if Eligible(FindColumn(columns, Trim(entries[0])), isPrimaryKey) &&
       BloomAccepted(rest, columns, isPrimaryKey) && FirstUnrepeated(entries) {
      forall i | 0 <= i < |entries|
        ensures Eligible(FindColumn(columns, Trim(entries[i])), isPrimaryKey)
      {
        if i > 0 {
          assert entries[i] == rest[i - 1];
        }
      }
      forall i, j | 0 <= i < j < |entries|
        ensures LowerString(Trim(entries[i])) != LowerString(Trim(entries[j]))
      {
        if i > 0 {
          assert entries[i] == rest[i - 1] && entries[j] == rest[j - 1];
        }
      }
    }
  }

  /** None of the entries is among the names already taken. */
  predicate NoneSeen(entries: seq<string>, seen: set<string>) {
    forall i :: 0 <= i < |entries| ==> LowerString(Trim(entries[i])) !in seen
  }

  /** Taking the first entry leaves the rest unseen exactly when nothing was seen and the first does not repeat. */
  lemma NoneSeenCons(entries: seq<string>, seen: set<string>)
    requires entries != [] && LowerString(Trim(entries[0])) !in seen
    ensures NoneSeen(entries[1..], seen + {LowerString(Trim(entries[0]))}) <==>
            NoneSeen(entries, seen) && FirstUnrepeated(entries)
  {
    if NoneSeen(entries, seen) && FirstUnrepeated(entries) {
      NoneSeenRest(entries, seen);
    }
    if NoneSeen(entries[1..], seen + {LowerString(Trim(entries[0]))}) {
      NoneSeenWhole(entries, seen);
    }
  }

  lemma NoneSeenRest(entries: seq<string>, seen: set<string>)
    requires entries != [] && NoneSeen(entries, seen) && FirstUnrepeated(entries)
    ensures NoneSeen(entries[1..], seen + {LowerString(Trim(entries[0]))})
  {
    var rest := entries[1..];
    forall i | 0 <= i < |rest|
      ensures LowerString(Trim(rest[i])) !in seen + {LowerString(Trim(entries[0]))}
    {
      assert rest[i] == entries[i + 1];
    }
  }

  lemma NoneSeenWhole(entries: seq<string>, seen: set<string>)
    requires entries != [] && LowerString(Trim(entries[0])) !in seen
    requires NoneSeen(entries[1..], seen + {LowerString(Trim(entries[0]))})
    ensures NoneSeen(entries, seen) && FirstUnrepeated(entries)
  {
    var rest := entries[1..];
    forall i | 0 <= i < |entries|
      ensures LowerString(Trim(entries[i])) !in seen
    {
      if i > 0 {
        assert entries[i] == rest[i - 1];
      }
    }
    forall j | 1 <= j < |entries|
      ensures LowerString(Trim(entries[j])) != LowerString(Trim(entries[0]))
    {
      assert entries[j] == rest[j - 1];
    }
  }

  /**
   * One entry of the check: it fails unless the entry names an eligible column not seen yet,
   * and otherwise goes on with the rest, the name seen and the column taken.
   */
  lemma CheckBloomColumnsCons(entries: seq<string>, columns: seq<Column>, isPrimaryKey: bool,
                              seen: set<string>, names: set<string>)
    requires entries != []
    ensures var name := Trim(entries[0]);
      var c := FindColumn(columns, name);
      var r := CheckBloomColumns(entries, columns, isPrimaryKey, seen, names);
      && (!Eligible(c, isPrimaryKey) || LowerString(name) in seen ==> r.Err?)
      && (Eligible(c, isPrimaryKey) && LowerString(name) !in seen ==>
            r == CheckBloomColumns(entries[1..], columns, isPrimaryKey, seen + {LowerString(name)}, names + {c.value.name}))
  {
  }

  /**
   * The loop accepts the entries exactly when each names an eligible column, none repeats an
   * earlier one or one already seen (ignoring case), and it then adds exactly the named columns.
   */
  lemma {:induction false} CheckBloomColumnsMeans(entries: seq<string>, columns: seq<Column>, isPrimaryKey: bool,
                                                  seen: set<string>, names: set<string>)
    ensures var r := CheckBloomColumns(entries, columns, isPrimaryKey, seen, names);
      && (r.Ok? <==> BloomAccepted(entries, columns, isPrimaryKey) && NoneSeen(entries, seen))
      && (r.Ok? ==> r.value == names + NamedColumns(entries, columns))
    decreases |entries|
  {
    if entries != [] {
      var name := Trim(entries[0]);
      var rest := entries[1..];
      var c := FindColumn(columns, name);
      var r := CheckBloomColumns(entries, columns, isPrimaryKey, seen, names);
      BloomAcceptedCons(entries, columns, isPrimaryKey);
      CheckBloomColumnsCons(entries, columns, isPrimaryKey, seen, names);
      if !Eligible(c, isPrimaryKey) {
      } else if LowerString(name) in seen {
        assert !NoneSeen(entries, seen);
      } else {
        var seen', names' := seen + {LowerString(name)}, names + {c.value.name};
        CheckBloomColumnsMeans(rest, columns, isPrimaryKey, seen', names');
        NoneSeenCons(entries, seen);
        assert NamedColumns(entries, columns) == {c.value.name} + NamedColumns(rest, columns);
        assert names' + NamedColumns(rest, columns) == names + NamedColumns(entries, columns);
      }
    }
  }

  /**
   * `analyzeBloomFilterColumns`: no set when the key is absent; an empty set, with the key
   * left in place, when its value is empty; otherwise the value is split at commas and each
   * trimmed entry checked in turn, the key being consumed when all pass.
   */
  function BloomFilterColumnsOf(m: Properties, columns: seq<Column>, isPrimaryKey: bool): (a: Analysis<Option<set<string>>>)
  {
    if BloomFilterColumns !in m then Analysis(Ok(None), m)
    else if m[BloomFilterColumns] == "" then Analysis(Ok(Some({})), m)
    else
      match CheckBloomColumns(JavaSplit(m[BloomFilterColumns], ','), columns, isPrimaryKey, {}, {})
      case Err(e) => Analysis(Err(e), m)
      case Ok(names) => Analysis(Ok(Some(names)), m - {BloomFilterColumns})
  }

  /**
   * The rules of `analyzeBloomFilterColumns`: a non-empty list is accepted exactly when every
   * entry names an existing column that may carry a bloom filter and no column is listed twice
   * ignoring case; the result is then the set of those columns' names.
   */
  lemma BloomFilterColumnsRules(m: Properties, columns: seq<Column>, isPrimaryKey: bool)
    ensures var a := BloomFilterColumnsOf(m, columns, isPrimaryKey);
      && (BloomFilterColumns !in m ==> a == Analysis(Ok(None), m))
      && (BloomFilterColumns in m && m[BloomFilterColumns] == "" ==> a == Analysis(Ok(Some({})), m))
      && (BloomFilterColumns in m && m[BloomFilterColumns] != "" ==>
            var entries := JavaSplit(m[BloomFilterColumns], ',');
            && (a.result.Ok? <==> BloomAccepted(entries, columns, isPrimaryKey))
            && (a.result.Ok? ==> a.result == Ok(Some(NamedColumns(entries, columns))) && a.rest == m - {BloomFilterColumns})
            && (a.result.Err? ==> a.rest == m))
  {
    if BloomFilterColumns in m && m[BloomFilterColumns] != "" {
      var entries := JavaSplit(m[BloomFilterColumns], ',');
      CheckBloomColumnsMeans(entries, columns, isPrimaryKey, {}, {});
      assert {} + NamedColumns(entries, columns) == NamedColumns(entries, columns);
    }
  }

  method AnalyzeBloomFilterColumns(props: PropertyMap, columns: seq<Column>, isPrimaryKey: bool)
    returns (r: Result<Option<set<string>>, string>)
    modifies props
    ensures Analysis(r, props.entries) == BloomFilterColumnsOf(old(props.entries), columns, isPrimaryKey)
  {
    if BloomFilterColumns !in props.entries {
      return Ok(None);
    }
    var value := props.entries[BloomFilterColumns];
    if value == "" {
      return Ok(Some({}));
    }
    var entries := JavaSplit(value, ',');
    var seen: set<string> := {};
    var names: set<string> := {};
    for i := 0 to |entries|
      invariant CheckBloomColumns(entries[i..], columns, isPrimaryKey, seen, names) ==
                CheckBloomColumns(entries, columns, isPrimaryKey, {}, {})
    {
      assert entries[i..][1..] == entries[i + 1..];
      var name := Trim(entries[i]);
      var column := FindColumn(columns, name);
      if column.None? {
        return Err("Invalid bloom filter column '" + name + "': not exists");
      }
      var c := column.value;
      if !c.supportsBloomFilter {
        return Err("Invalid bloom filter column '" + name + "': unsupported type " + c.typeName);
      }
      if !(c.isKey || isPrimaryKey || c.aggregationNone) {
        return Err(NotKeyColumn + name);
      }
      if LowerString(name) in seen {
        return Err("Duplicate bloom filter column '" + name + "'");
      }
      seen := seen + {LowerString(name)};
      names := names + {c.name};
    }
    assert entries[|entries|..] == [];
    ghost var m := props.entries;
    assert BloomFilterColumnsOf(m, columns, isPrimaryKey) == Analysis(Ok(Some(names)), m - {BloomFilterColumns});
    props.Remove(BloomFilterColumns);
    return Ok(Some(names));
  }

  // ---------------------------------------------------------------------------------------
  // Location labels
  // ---------------------------------------------------------------------------------------

  /** One location label `key:value`. */
  type Label = (string, string)

  /** A `HashMultimap<String, String>`: a set of distinct key/value entries. */
  type LocationMap = set<Label>

  predicate HasKey(lm: LocationMap, key: string) {
    exists p :: p in lm && p.0 == key
  }

  /** `Multimap.removeAll(key)`. */
  function RemoveKey(lm: LocationMap, key: string): LocationMap {
    set p | p in lm && p.0 != key
  }

  /** One label of the location string: a `*` value replaces every earlier value of its key. */
  function PutLabel(lm: LocationMap, key: string, value: string): (r: LocationMap)
    ensures (key, value) in r && forall p :: p in r ==> p in lm || p == (key, value)
  {
    (if value == "*" && HasKey(lm, key) then RemoveKey(lm, key) else lm) + {(key, value)}
  }

  /** `key:*` leaves `*` as the only value of `key`; a plain label is simply added. Other keys are untouched. */
  lemma PutLabelMeans(lm: LocationMap, key: string, value: string)
    ensures value == "*" ==> forall v :: (key, v) in PutLabel(lm, key, value) <==> v == "*"
    ensures value != "*" ==> forall v :: (key, v) in PutLabel(lm, key, value) <==> (key, v) in lm || v == value
    ensures forall k, v :: k != key ==> ((k, v) in PutLabel(lm, key, value) <==> (k, v) in lm)
  {
  }

  /** What one comma-separated segment of a location string says. */
  datatype Segment = StarLabel | KeyValue(key: string, value: string) | Malformed

  /**
   * A segment that trims to `*` is the star label; any other segment must hold a `:` with text
   * after it (otherwise the array access fails) and gives its trimmed key and value.
   */
  function ParseSegment(segment: string): Segment {
    if Trim(segment) == "*" then StarLabel
    else
      var kv := JavaSplit(segment, ':');
      if |kv| < 2 then Malformed else KeyValue(Trim(kv[0]), Trim(kv[1]))
  }

  /**
   * A segment is the star label exactly when it trims to `*`, and the key and value of any
   * other segment come out trimmed.
   */
  lemma ParseSegmentMeans(segment: string)
    ensures ParseSegment(segment) == StarLabel <==> Trim(segment) == "*"
    ensures ParseSegment(segment).KeyValue? ==>
      Trimmed(ParseSegment(segment).key) && Trimmed(ParseSegment(segment).value)
  {
  }

  /** `f` applied to each element of `s`. */
  function Map<A, B>(f: A -> B, s: seq<A>): (r: seq<B>)
    ensures |r| == |s|
    ensures forall i :: 0 <= i < |s| ==> r[i] == f(s[i])
  {
    seq(|s|, i requires 0 <= i < |s| => f(s[i]))
  }

  /** Mapping from `i` on starts with the image of `s[i]` and goes on from `i + 1`. */
  lemma MapFrom<A, B>(f: A -> B, s: seq<A>, i: nat)
    requires i < |s|
    ensures Map(f, s[i..]) == [f(s[i])] + Map(f, s[i + 1..])
  {
    var l := Map(f, s[i..]);
    var r := [f(s[i])] + Map(f, s[i + 1..]);
    forall j | 0 <= j < |l|
      ensures l[j] == r[j]
    {
      assert s[i..][j] == s[i + j];
    }
  }

  /** Mapping a prefix gives the prefix of the mapped sequence. */
  lemma MapPrefix<A, B>(f: A -> B, s: seq<A>, n: nat)
    requires n <= |s|
    ensures Map(f, s[..n]) == Map(f, s)[..n]
  {
  }

  /** Each segment of a location string parsed on its own. */
  function ParseSegments(segments: seq<string>): seq<Segment> {
    Map(ParseSegment, segments)
  }

  /**
   * The loop of `analyzeLocationStringToMap` from a given segment on: the star label adds `*:*`
   * and ends the loop, a malformed segment fails, and a key and value are put.
   */
  function LocationsFrom(segs: seq<Segment>, lm: LocationMap): Result<LocationMap, string>
    decreases |segs|
  {
    if segs == [] then Ok(lm)
    else
      match segs[0]
      case StarLabel => Ok(lm + {("*", "*")})
      case Malformed => Err("ArrayIndexOutOfBoundsException")
      case KeyValue(k, v) => LocationsFrom(segs[1..], PutLabel(lm, k, v))
  }

  /** `analyzeLocationStringToMap`: the labels of a comma-separated location string. */
  function LocationMapOf(locations: string): Result<LocationMap, string> {
    LocationsFrom(ParseSegments(JavaSplit(locations, ',')), {})
  }

  method AnalyzeLocationStringToMap(locations: string) returns (r: Result<LocationMap, string>)
    ensures r == LocationMapOf(locations)
  {
    var segments := JavaSplit(locations, ',');
    var lm: LocationMap := {};
    for i := 0 to |segments|
      invariant LocationsFrom(ParseSegments(segments[i..]), lm) == LocationMapOf(locations)
    {
      MapFrom(ParseSegment, segments, i);
      var segment := segments[i];
      if Trim(segment) == "*" {
        return Ok(lm + {("*", "*")});
      }
      var kv := JavaSplit(segment, ':');
      if |kv| < 2 {
        return Err("ArrayIndexOutOfBoundsException");
      }
      var key := Trim(kv[0]);
      var value := Trim(kv[1]);
      if value == "*" && HasKey(lm, key) {
        lm := RemoveKey(lm, key);
      }
      lm := lm + {(key, value)};
    }
    assert segments[|segments|..] == [];
    return Ok(lm);
  }

  /**
   * The first star label ends the parse: `*:*` joins the labels gathered before it and every
   * later segment is ignored.
   */
  lemma {:induction false} StarEndsLocations(segs: seq<Segment>, lm: LocationMap, i: nat)
    requires i < |segs| && segs[i] == StarLabel
    requires forall j :: 0 <= j < i ==> segs[j].KeyValue?
    ensures LocationsFrom(segs, lm) == LocationsFrom(segs[..i + 1], lm)
    ensures LocationsFrom(segs, lm).Ok? && ("*", "*") in LocationsFrom(segs, lm).value
    decreases i
  {
    var prefix := segs[..i + 1];
    assert prefix[0] == segs[0];
    if i > 0 {
      var lm' := PutLabel(lm, segs[0].key, segs[0].value);
      assert prefix[1..] == segs[1..][..i];
      StarEndsLocations(segs[1..], lm', i - 1);
    }
  }

  /**
   * A segment that trims to `*`, after segments that all hold a key and value, makes the parsed
   * map hold the `*` key, whatever the string holds after it.
   */
  lemma StarLocation(locations: string, i: nat)
    requires var segs := ParseSegments(JavaSplit(locations, ','));
      i < |segs| && segs[i] == StarLabel && forall j :: 0 <= j < i ==> segs[j].KeyValue?
    ensures var segments := JavaSplit(locations, ',');
      LocationMapOf(locations) == LocationsFrom(ParseSegments(segments[..i + 1]), {})
    ensures LocationMapOf(locations).Ok? && HasKey(LocationMapOf(locations).value, "*")
  {
    var segments := JavaSplit(locations, ',');
    MapPrefix(ParseSegment, segments, i + 1);
    StarEndsLocations(ParseSegments(segments), {}, i);
    assert ("*", "*") in LocationMapOf(locations).value;
  }

  /** Every key and value the parser stores is trimmed. */
  lemma {:induction false} LocationsTrimmed(segs: seq<Segment>, lm: LocationMap)
    requires forall p :: p in lm ==> Trimmed(p.0) && Trimmed(p.1)
    requires forall j :: 0 <= j < |segs| && segs[j].KeyValue? ==> Trimmed(segs[j].key) && Trimmed(segs[j].value)
    requires LocationsFrom(segs, lm).Ok?
    ensures forall p :: p in LocationsFrom(segs, lm).value ==> Trimmed(p.0) && Trimmed(p.1)
    decreases |segs|
  {
    if segs != [] && segs[0].KeyValue? {
      var lm' := PutLabel(lm, segs[0].key, segs[0].value);
      assert forall p :: p in lm' ==> Trimmed(p.0) && Trimmed(p.1);
      assert forall j :: 0 <= j < |segs[1..]| ==> segs[1..][j] == segs[j + 1];
      LocationsTrimmed(segs[1..], lm');
    }
  }

  /** The keys and values of a parsed location string are all trimmed. */
  lemma LocationMapTrimmed(locations: string)
    requires LocationMapOf(locations).Ok?
    ensures forall p :: p in LocationMapOf(locations).value ==> Trimmed(p.0) && Trimmed(p.1)
  {
    var segments := JavaSplit(locations, ',');
    ParsedTrimmed(segments);
    LocationsTrimmed(ParseSegments(segments), {});
  }

  /** Every parsed key and value is trimmed. */
  lemma ParsedTrimmed(segments: seq<string>)
    ensures forall j :: 0 <= j < |segments| && ParseSegments(segments)[j].KeyValue? ==>
      Trimmed(ParseSegments(segments)[j].key) && Trimmed(ParseSegments(segments)[j].value)
  {
    forall j | 0 <= j < |segments| && ParseSegments(segments)[j].KeyValue?
      ensures Trimmed(ParseSegments(segments)[j].key) && Trimmed(ParseSegments(segments)[j].value)
    {
      ParseSegmentMeans(segments[j]);
    }
  }

  /** `key:value` as written back by `convertLocationMapToString`. */
  function RenderLabel(p: Label): string {
    p.0 + ":" + p.1
  }

  function RenderLabels(order: seq<Label>): (r: seq<string>)
    ensures |r| == |order|
  {
    seq(|order|, i requires 0 <= i < |order| => RenderLabel(order[i]))
  }

  /** `order` lists each entry of `lm` exactly once: an iteration order of the multimap. */
  ghost predicate Enumerates(order: seq<Label>, lm: LocationMap) {
    Distinct(order) && forall p :: p in order <==> p in lm
  }

  /**
   * `convertLocationMapToString`: `*` when `*` is a key, otherwise the entries as `key:value`
   * joined with commas, in the multimap's iteration order `order`.
   */
  function LocationString(lm: LocationMap, order: seq<Label>): (r: string)
    requires Enumerates(order, lm)
    ensures r == "*" <==> HasKey(lm, "*")
  {
    if HasKey(lm, "*") then "*"
    else
      var r := Join(RenderLabels(order), ",");
      assert r != "*" by {
        if order != [] {
          var parts := RenderLabels(order);
          assert ':' in parts[0];
          JoinHolds(parts, ",", ':');
        }
      }
      r
  }

  /** A character of the first part survives joining. */
  lemma JoinHolds(parts: seq<string>, sep: string, c: char)
    requires parts != [] && c in parts[0]
    ensures c in Join(parts, sep)
  {
    if |parts| > 1 {
      assert Join(parts, sep) == parts[0] + (sep + Join(parts[1..], sep));
    }
  }

  /** A label the string form can carry: non-empty, trimmed, and free of `,` and `:`. */
  predicate PlainText(s: string) {
    s != [] && Trimmed(s) && ',' !in s && ':' !in s
  }

  /** A `*` value is the only value of its key, as the parser leaves it. */
  ghost predicate StarsAlone(lm: LocationMap) {
    forall k, v :: (k, "*") in lm && (k, v) in lm ==> v == "*"
  }

  /** One rendered label parses back to itself. */
  lemma ParseRendered(p: Label)
    requires PlainText(p.0) && PlainText(p.1)
    ensures ParseSegment(RenderLabel(p)) == KeyValue(p.0, p.1)
  {
    RenderedSplits(p);
    var s := RenderLabel(p);
    assert Trimmed(s);
    TrimOfTrimmed(s);
    assert s[|p.0|] == ':';
    TrimOfTrimmed(p.0);
    TrimOfTrimmed(p.1);
  }

  /** A rendered label splits on `:` into its key and value. */
  lemma RenderedSplits(p: Label)
    requires PlainText(p.0) && PlainText(p.1)
    ensures JavaSplit(RenderLabel(p), ':') == [p.0, p.1]
  {
    assert Join([p.0, p.1], [':']) == RenderLabel(p);
    SplitOfJoin([p.0, p.1], ':');
  }

  /** Putting a label already consistent with the final map simply adds it. */
  lemma PutConsistentLabel(lm: LocationMap, all: LocationMap, p: Label)
    requires lm <= all && p in all && StarsAlone(all)
    ensures PutLabel(lm, p.0, p.1) == lm + {p}
  {
    if p.1 == "*" {
      forall q | q in lm && q.0 == p.0
        ensures q == p
      {
        assert (p.0, "*") in all && (p.0, q.1) in all;
      }
    }
  }

  /** The entries an iteration order lists. */
  function Elements(order: seq<Label>): (r: LocationMap)
    ensures forall q :: q in r <==> q in order
    decreases |order|
  {
    if order == [] then {} else {order[0]} + Elements(order[1..])
  }

  /** The segments a list of labels stands for. */
  function LabelSegments(order: seq<Label>): (r: seq<Segment>)
    ensures |r| == |order|
  {
    seq(|order|, i requires 0 <= i < |order| => KeyValue(order[i].0, order[i].1))
  }

  /** Each rendered label parses back to its key and value. */
  lemma ParseRenderedLabels(order: seq<Label>)
    requires forall p :: p in order ==> PlainText(p.0) && PlainText(p.1)
    ensures ParseSegments(RenderLabels(order)) == LabelSegments(order)
  {
    forall i | 0 <= i < |order|
      ensures ParseSegments(RenderLabels(order))[i] == LabelSegments(order)[i]
    {
      ParseRendered(order[i]);
    }
  }

  /** Labels consistent with the final map are each added in turn. */
  lemma {:induction false} PutLabels(order: seq<Label>, lm: LocationMap, all: LocationMap)
    requires forall p :: p in order ==> p in all
    requires lm <= all && StarsAlone(all)
    ensures LocationsFrom(LabelSegments(order), lm) == Ok(lm + Elements(order))
    decreases |order|
  {
    if order != [] {
      var p := order[0];
      assert LabelSegments(order)[1..] == LabelSegments(order[1..]);
      PutConsistentLabel(lm, all, p);
      PutLabels(order[1..], lm + {p}, all);
      assert (lm + {p}) + Elements(order[1..]) == lm + Elements(order);
    } else {
      assert lm + Elements(order) == lm;
    }
  }

  /**
   * Writing a location map as a string and parsing it again gives the map back, for any
   * iteration order, when it has no `*` key, its keys and values are plain label text, and
   * every `*` value is alone under its key (as the parser produces it).
   */
  lemma LocationRoundTrip(lm: LocationMap, order: seq<Label>)
    requires Enumerates(order, lm) && lm != {}
    requires !HasKey(lm, "*") && StarsAlone(lm)
    requires forall p :: p in lm ==> PlainText(p.0) && PlainText(p.1)
    ensures LocationMapOf(LocationString(lm, order)) == Ok(lm)
  {
    RenderedLabelsParse(lm, order);
  }

  /**
   * The labels of a non-empty list that covers `lm`, joined with commas, parse back to `lm`;
   * a label listed twice does no harm here.
   */
  lemma RenderedLabelsParse(lm: LocationMap, order: seq<Label>)
    requires (forall p :: p in order <==> p in lm) && lm != {}
    requires !HasKey(lm, "*") && StarsAlone(lm)
    requires forall p :: p in lm ==> PlainText(p.0) && PlainText(p.1)
    ensures LocationMapOf(Join(RenderLabels(order), ",")) == Ok(lm)
  {
    assert order != [] by {
      var p :| p in lm;
      assert p in order;
    }
    var text := Join(RenderLabels(order), ",");
    RenderedLabelsSplit(order);
    assert JavaSplit(text, ',') == RenderLabels(order);
    ParseRenderedLabels(order);
    var segs := ParseSegments(JavaSplit(text, ','));
    assert segs == LabelSegments(order);
    PutLabels(order, {}, lm);
    ElementsCover(order, lm);
    assert LocationsFrom(segs, {}) == Ok(lm);
  }

  /** A list holding exactly the entries of `lm` has them as its elements. */
  lemma ElementsCover(order: seq<Label>, lm: LocationMap)
    requires forall p :: p in order <==> p in lm
    ensures {} + Elements(order) == lm
  {
    assert Elements(order) == lm;
  }

  /** Rendered labels of plain text, joined with commas, split back at the commas. */
  lemma RenderedLabelsSplit(order: seq<Label>)
    requires order != []
    requires forall p :: p in order ==> PlainText(p.0) && PlainText(p.1)
    ensures JavaSplit(Join(RenderLabels(order), ","), ',') == RenderLabels(order)
  {
    var parts := RenderLabels(order);
    forall k | 0 <= k < |parts|
      ensures ',' !in parts[k]
    {
      assert parts[k] == RenderLabel(order[k]);
    }
    assert parts[|parts| - 1] == RenderLabel(order[|order| - 1]);
    SplitOfJoin(parts, ',');
  }

  predicate IsWhitespace(c: char) {
    c == ' ' || c == '\t' || c == '\n' || c == '\r' || c as int == 0x0B || c as int == 0x0C
  }

  predicate IsLabelChar(c: char) {
    'a' <= c <= 'z' || '0' <= c <= '9' || c == '_'
  }

  predicate IsLabelWord(s: string) {
    s != [] && forall i :: 0 <= i < |s| ==> IsLabelChar(s[i])
  }

  /** `s` with regular-expression whitespace removed at both ends. */
  function StripWhitespace(s: string): (r: string)
    decreases |s|
  {
    if s != [] && IsWhitespace(s[0]) then StripWhitespace(s[1..])
    else if s != [] && IsWhitespace(s[|s| - 1]) then StripWhitespace(s[..|s| - 1])
    else s
  }

  /**
   * One label of the location grammar: `*` or `word:*` or `word:word`, spaces allowed around
   * each part, except that a bare `*` may be followed by spaces only where the whole pattern
   * allows them (`lastOrFirst`: before the first comma or after the last one).
   */
  predicate LabelFormat(segment: string, lastOrFirst: bool) {
    var t := StripWhitespace(segment);
    (t == "*" && (lastOrFirst || (segment != [] && !IsWhitespace(segment[|segment| - 1])))) ||
    (var i := IndexOf(t, ':');
     i < |t| && IsLabelWord(StripWhitespace(t[..i])) &&
     (StripWhitespace(t[i + 1..]) == "*" || IsLabelWord(StripWhitespace(t[i + 1..]))))
  }

  /** The location grammar: one to ten labels separated by commas. */
  predicate LocationFormat(location: string) {
    var segments := Pieces(location, ',');
    |segments| <= 10 &&
    forall k :: 0 <= k < |segments| ==> LabelFormat(segments[k], k == 0 || k == |segments| - 1)
  }

  /**
   * A bare `*` between two commas must be followed by the comma itself: spaces after it are
   * accepted only in the first and the last label.
   */
  lemma WildcardSpacing(location: string, k: nat)
    requires 0 < k < |Pieces(location, ',')| - 1
    requires StripWhitespace(Pieces(location, ',')[k]) == "*"
    ensures LocationFormat(location) ==> !IsWhitespace(Pieces(location, ',')[k][|Pieces(location, ',')[k]| - 1])
  {
    assert IndexOf("*", ':') == 1;
  }

  /**
   * `validateTableLocationProperty`, without the check against the backends' labels: the empty
   * string is returned as it is; a string over 255 characters or outside the label grammar is
   * rejected; otherwise the string is parsed and written back in normal form (`order` is the
   * iteration order of the parsed map).
   */
  function ValidateTableLocation(location: string, order: seq<Label>): (r: Result<string, string>)
    requires LocationMapOf(location).Ok? ==> Enumerates(order, LocationMapOf(location).value)
    ensures location == "" ==> r == Ok("")
    ensures location != "" && (|location| > 255 || !LocationFormat(location)) ==> r.Err?
    ensures r.Ok? && location != "" ==>
      LocationFormat(location) && LocationMapOf(location).Ok? &&
      (r.value == "*" <==> HasKey(LocationMapOf(location).value, "*"))
  {
    if location == "" then Ok(location)
    else if |location| > 255 then Err("location is too long, max length is 255")
    else if !LocationFormat(location) then
      Err("Invalid location format: " + location + ", should be like: '*', 'key:*', or 'k1:v1,k2:v2,k1:v11'")
    else
      match LocationMapOf(location)
      case Err(e) => Err(e)
      case Ok(lm) => Ok(LocationString(lm, order))
  }

  // ---------------------------------------------------------------------------------------
  // String builders
  // ---------------------------------------------------------------------------------------

  /** `'key'='value'`. */
  function QuotedEntry(key: string, value: string): string {
    "'" + key + "'='" + value + "'"
  }

  /** The quoted entries in iteration order `order`. */
  function QuotedEntries(m: Properties, order: seq<string>): (r: seq<string>)
    requires forall k :: k in order ==> k in m
    ensures |r| == |order|
    ensures forall i :: 0 <= i < |order| ==> r[i] == QuotedEntry(order[i], m[order[i]])
    decreases |order|
  {
    if order == [] then [] else QuotedEntries(m, order[..|order| - 1]) + [QuotedEntry(order[|order| - 1], m[order[|order| - 1]])]
  }

  /** `stringifyProperties`: `""` for an empty map, else `('k1'='v1','k2'='v2')`. */
  function Stringify(m: Properties, order: seq<string>): (r: string)
    requires IterationOrder(order, m)
    ensures |m| == 0 <==> r == ""
  {
    if |m| == 0 then ""
    else
      assert order != [] by {
        var k :| k in m;
      }
      "(" + Join(QuotedEntries(m, order), ",") + ")"
  }

  /**
   * The text between the parentheses splits at commas back into one quoted entry per key,
   * in iteration order, when no key or value holds a comma: no trailing comma is written.
   */
  lemma StringifySplits(m: Properties, order: seq<string>)
    requires IterationOrder(order, m)
    requires |m| > 0
    requires forall k :: k in m ==> ',' !in k && ',' !in m[k]
    ensures var r := Stringify(m, order);
      |r| >= 2 && r[0] == '(' && r[|r| - 1] == ')' && JavaSplit(r[1..|r| - 1], ',') == QuotedEntries(m, order)
  {
    var r := Stringify(m, order);
    var parts := QuotedEntries(m, order);
    assert r == "(" + Join(parts, ",") + ")";
    assert r[1..|r| - 1] == Join(parts, ",");
    assert order != [] by {
      var k :| k in m;
    }
    forall i | 0 <= i < |parts|
      ensures ',' !in parts[i]
    {
      assert parts[i] == "'" + order[i] + "'='" + m[order[i]] + "'";
    }
    SplitOfJoin(parts, ',');
  }

  method StringifyProperties(m: Properties, order: seq<string>) returns (r: string)
    requires IterationOrder(order, m)
    ensures r == Stringify(m, order)
  {
    if |m| == 0 {
      return "";
    }
    var sb := "(";
    var first := true;
    for i := 0 to |order|
      invariant first <==> i == 0
      invariant i > 0 ==> sb == "(" + Join(QuotedEntries(m, order[..i]), ",")
      invariant i == 0 ==> sb == "("
    {
      if !first {
        sb := sb + ",";
      }
      first := false;
      var entry := QuotedEntry(order[i], m[order[i]]);
      assert order[..i + 1][..i] == order[..i];
      if i > 0 {
        JoinSnoc(QuotedEntries(m, order[..i]), entry, ",");
      }
      sb := sb + entry;
    }
    assert order[..|order|] == order;
    assert order != [] by {
      var k :| k in m;
    }
    return sb + ")";
  }

  /** A table name, optionally qualified by its database. */
  datatype TableName = TableName(db: Option<string>, tbl: string)

  function QualifiedName(t: TableName): string {
    match t.db
    case None => t.tbl
    case Some(d) => d + "." + t.tbl
  }

  function QualifiedNames(tables: seq<TableName>): (r: seq<string>)
    ensures |r| == |tables|
    ensures forall i :: 0 <= i < |tables| ==> r[i] == QualifiedName(tables[i])
    decreases |tables|
  {
    if tables == [] then [] else QualifiedNames(tables[..|tables| - 1]) + [QualifiedName(tables[|tables| - 1])]
  }

  /**
   * `getExcludeString`: the tables as `db.tbl` or `tbl`, separated by commas with none after
   * the last.
   */
  method GetExcludeString(tables: seq<TableName>) returns (s: string)
    ensures s == Join(QualifiedNames(tables), ",")
  {
    s := "";
    for i := 1 to |tables| + 1
      invariant i == 1 ==> s == ""
      invariant i > 1 ==> s == Join(QualifiedNames(tables[..i - 1]), ",") + (if i - 1 < |tables| then "," else "")
    {
      var name := QualifiedName(tables[i - 1]);
      ExcludeStep(tables, i);
      s := s + name;
      if i != |tables| {
        s := s + ",";
      }
    }
    assert tables[..|tables|] == tables;
  }

  /** The exclude string of the first `i` tables extends that of the first `i - 1`. */
  lemma ExcludeStep(tables: seq<TableName>, i: nat)
    requires 0 < i <= |tables|
    ensures Join(QualifiedNames(tables[..i]), ",") ==
      (if i == 1 then "" else Join(QualifiedNames(tables[..i - 1]), ",") + ",") + QualifiedName(tables[i - 1])
  {
    QualifiedNamesSnoc(tables, i);
    if i > 1 {
      JoinSnoc(QualifiedNames(tables[..i - 1]), QualifiedName(tables[i - 1]), ",");
    }
  }

  /** The names of a prefix grow by the name of the next table. */
  lemma QualifiedNamesSnoc(tables: seq<TableName>, i: nat)
    requires 0 < i <= |tables|
    ensures QualifiedNames(tables[..i]) == QualifiedNames(tables[..i - 1]) + [QualifiedName(tables[i - 1])]
  {
    assert tables[..i][..i - 1] == tables[..i - 1];
  }

  /** The exclude list splits at commas back into the table names when no name holds a comma. */
  lemma ExcludeStringSplits(tables: seq<TableName>)
    requires |tables| > 0 && QualifiedName(tables[|tables| - 1]) != ""
    requires forall i :: 0 <= i < |tables| ==> ',' !in QualifiedName(tables[i])
    ensures JavaSplit(Join(QualifiedNames(tables), ","), ',') == QualifiedNames(tables)
  {
    SplitOfJoin(QualifiedNames(tables), ',');
  }
}
