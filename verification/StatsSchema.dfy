/** The schema interpreter: `LoadUserGameStatsSchema` of
    Services/StatsSchemaLoader.cs and its older copy in
    Commands/GetAchievementData.cs.

    Both walk `<appId>` → `stats` of a decoded `UserGameStatsSchema_<appId>.bin`,
    give every valid entry a raw type code, and turn codes 1–3 into stat
    descriptors and codes 4–5 into one achievement descriptor per child of
    each `bits` container. They differ only in how the raw type is found and
    in what happens to the previous descriptor lists.

    Every child lookup is the indexer of `KeyValues`, which throws when a key
    matches several children; nothing in the loaders catches that, so each
    step is a `Result` and a thrown lookup ends the whole load. */
module StatsSchema {

  import opened Bytes
  import opened Exceptions
  import opened KeyValues
  import opened KeyValueBinary

  /* ---------- descriptors (Models/StatData.cs, Models/AchievementData.cs) ---------- */

  /** The boxed `object` of a stat's bounds and value: an `int` for integer
      stats, a `float` (its bit pattern) for float and average-rate stats. */
  datatype Number = IntNumber(i: int32) | FloatNumber(bits: uint32)

  /** `StatData.Type`: "integer", "float" or "avgrate". */
  datatype StatKind = Integer | Float | AverageRate
  {
    function Name(): seq<byte> {
      match this
      case Integer => Ascii("integer")
      case Float => Ascii("float")
      case AverageRate => Ascii("avgrate")
    }
  }

  datatype StatData = StatData(
    id: seq<byte>,
    name: seq<byte>,
    kind: StatKind,
    permission: int32,
    minValue: Number,
    maxValue: Number,
    defaultValue: Number,
    value: Number,
    incrementOnly: bool)

  datatype AchievementData = AchievementData(
    id: seq<byte>,
    name: seq<byte>,
    description: seq<byte>,
    iconNormal: seq<byte>,
    iconLocked: seq<byte>,
    isHidden: bool,
    permission: int32,
    achieved: bool,
    percent: uint32)

  /** The two descriptor lists a load fills. */
  datatype Definitions = Definitions(achievements: seq<AchievementData>, stats: seq<StatData>)

  function NoDefinitions(): Definitions {
    Definitions([], [])
  }

  function Append(a: Definitions, b: Definitions): Definitions {
    Definitions(a.achievements + b.achievements, a.stats + b.stats)
  }

  /** The `SteamUserStats` calls the loaders make, each reduced to what it
      returns: `GetStat` as (success, value) for the two value types,
      `GetAchievement` and `GetAchievementAchievedPercent` as the value they
      write to their out parameter, and `GetAchievementDisplayAttribute`. */
  datatype SteamUserStats = SteamUserStats(
    getIntStat: seq<byte> -> (bool, int32),
    getFloatStat: seq<byte> -> (bool, uint32),
    getAchievement: seq<byte> -> bool,
    getAchievedPercent: seq<byte> -> uint32,
    getDisplayAttribute: (seq<byte>, seq<byte>) -> seq<byte>)

  /* ---------- keys ---------- */

  const TypeIntKey: seq<byte> := Ascii("type_int")
  const TypeKey: seq<byte> := Ascii("type")
  const BitsKey: seq<byte> := Ascii("bits")
  const MinKey: seq<byte> := Ascii("min")
  const MaxKey: seq<byte> := Ascii("max")
  const DefaultKey: seq<byte> := Ascii("default")
  const WindowKey: seq<byte> := Ascii("window")
  const NameKey: seq<byte> := Ascii("name")
  const DisplayKey: seq<byte> := Ascii("display")
  const DescKey: seq<byte> := Ascii("desc")
  const IconKey: seq<byte> := Ascii("icon")
  const IconGrayKey: seq<byte> := Ascii("icon_gray")
  const HiddenKey: seq<byte> := Ascii("hidden")
  const PermissionKey: seq<byte> := Ascii("permission")
  const IncrementOnlyKey: seq<byte> := Ascii("incrementonly")
  const StatsKey: seq<byte> := Ascii("stats")

  /* ---------- raw type ---------- */

  /** The code of a string `type`: INT, FLOAT, AVGRATE, ACHIEVEMENT or
      ACHIEVEMENTS in any case; 0 for anything else. */
  function StringTypeCode(t: seq<byte>): (r: int)
    ensures 0 <= r <= 4
  {
    if EqualsIgnoreCase(t, Ascii("INT")) then 1
    else if EqualsIgnoreCase(t, Ascii("FLOAT")) then 2
    else if EqualsIgnoreCase(t, Ascii("AVGRATE")) then 3
    else if EqualsIgnoreCase(t, Ascii("ACHIEVEMENT")) || EqualsIgnoreCase(t, Ascii("ACHIEVEMENTS")) then 4
    else 0
  }

  predicate IsFloat32(kv: KeyValue) {
    kv.valid && kv.Type() == Float32
  }

  /** The raw type of an entry with neither `type_int` nor `type`: a `bits`
      child makes it an achievement, else a valid `window` an average rate,
      else a Float32 `min`, `max` or `default` a float, else an integer. */
  function StructuralRawType(stat: KeyValue): (r: Result<int>)
    ensures r.Ok? ==> 1 <= r.value <= 4
    ensures r.Ok? && HasChildNamed(stat, BitsKey) ==> r.value == 4
  {
    if HasChildNamed(stat, BitsKey) then Ok(4)
    else
      var minNode :- Index(stat, MinKey);
      var maxNode :- Index(stat, MaxKey);
      var defaultNode :- Index(stat, DefaultKey);
      var window :- Index(stat, WindowKey);
      if window.valid then Ok(3)
      else if IsFloat32(minNode) || IsFloat32(maxNode) || IsFloat32(defaultNode) then Ok(2)
      else Ok(1)
  }

  /** The raw type as Services/StatsSchemaLoader.cs finds it: a valid
      `type_int`, else a valid `type` (by name when it is a string, as an
      integer otherwise), else the entry's structure. */
  function ServiceRawType(stat: KeyValue, ops: FloatOps): Result<int>
  {
    var typeInt :- Index(stat, TypeIntKey);
    if typeInt.valid then Ok(AsInteger(typeInt, 0, ops))
    else
      var ty :- Index(stat, TypeKey);
      if ty.valid then
        if ty.Type() == String then Ok(StringTypeCode(AsString(ty, [], ops)))
        else Ok(AsInteger(ty, 0, ops))
      else StructuralRawType(stat)
  }

  /** The raw type as Commands/GetAchievementData.cs finds it: a valid
      `type_int`, else `type` read as an integer. */
  function LegacyRawType(stat: KeyValue, ops: FloatOps): Result<int>
  {
    var typeInt :- Index(stat, TypeIntKey);
    if typeInt.valid then Ok(AsInteger(typeInt, 0, ops))
    else
      var ty :- Index(stat, TypeKey);
      Ok(AsInteger(ty, 0, ops))
  }

  datatype Classifier = Service | Legacy

  function RawType(c: Classifier, stat: KeyValue, ops: FloatOps): Result<int> {
    match c
    case Service => ServiceRawType(stat, ops)
    case Legacy => LegacyRawType(stat, ops)
  }

  /* ---------- stat descriptors ---------- */

  /** `node[key].AsString(default)`. */
  function TextAt(node: KeyValue, key: seq<byte>, defaultValue: seq<byte>, ops: FloatOps): Result<seq<byte>>
  {
    var child :- Index(node, key);
    Ok(AsString(child, defaultValue, ops))
  }

  /** `node["display"][key].AsString(default)`. */
  function DisplayText(node: KeyValue, key: seq<byte>, defaultValue: seq<byte>, ops: FloatOps): Result<seq<byte>>
  {
    var display :- Index(node, DisplayKey);
    TextAt(display, key, defaultValue, ops)
  }

  /** The fields every stat descriptor shares: id, display name (the id
      when there is none), increment-only and permission. */
  datatype StatHeader = StatHeader(id: seq<byte>, name: seq<byte>, incrementOnly: bool, permission: int32)

  function ReadStatHeader(stat: KeyValue, ops: FloatOps): Result<StatHeader>
  {
    var id :- TextAt(stat, NameKey, [], ops);
    var name :- DisplayText(stat, NameKey, id, ops);
    var inc :- Index(stat, IncrementOnlyKey);
    var perm :- Index(stat, PermissionKey);
    Ok(StatHeader(id, name, AsBoolean(inc, false, ops), AsInteger(perm, 0, ops)))
  }

  /** The schema part of an integer stat (raw type 1): every field but the
      current value, which is left 0. */
  function ReadIntStat(stat: KeyValue, ops: FloatOps): (r: Result<StatData>)
    ensures r.Ok? ==> r.value.kind == Integer && r.value.value == IntNumber(0)
    ensures r.Ok? ==> (r.value.minValue.IntNumber? && r.value.maxValue.IntNumber? && r.value.defaultValue.IntNumber?)
  {
    var h :- ReadStatHeader(stat, ops);
    var minNode :- Index(stat, MinKey);
    var maxNode :- Index(stat, MaxKey);
    var defaultNode :- Index(stat, DefaultKey);
    Ok(StatData(h.id, h.name, Integer, h.permission,
                IntNumber(AsInteger(minNode, MinInt32, ops)),
                IntNumber(AsInteger(maxNode, MaxInt32, ops)),
                IntNumber(AsInteger(defaultNode, 0, ops)),
                IntNumber(0),
                h.incrementOnly))
  }

  /** An integer stat: the schema part with the live value, or 0 when the
      live lookup fails. `GetStat` cannot throw, so reading it after the
      bounds rather than before them changes nothing. */
  function BuildIntStat(stat: KeyValue, live: SteamUserStats, ops: FloatOps): (r: Result<StatData>)
    ensures r.Ok? <==> ReadIntStat(stat, ops).Ok?
    ensures r.Ok? ==> r.value.(value := IntNumber(0)) == ReadIntStat(stat, ops).value
    ensures r.Ok? && !live.getIntStat(r.value.id).0 ==> r.value.value == IntNumber(0)
    ensures r.Ok? && live.getIntStat(r.value.id).0 ==> r.value.value == IntNumber(live.getIntStat(r.value.id).1)
  {
    var s :- ReadIntStat(stat, ops);
    var (ok, v) := live.getIntStat(s.id);
    Ok(s.(value := IntNumber(if ok then v else 0)))
  }

  /** The schema part of a float (raw type 2) or average-rate (raw type 3)
      stat: every field but the current value, which is left 0. */
  function ReadFloatStat(stat: KeyValue, averageRate: bool, ops: FloatOps): (r: Result<StatData>)
    ensures r.Ok? ==> r.value.kind == (if averageRate then AverageRate else Float) && r.value.value == FloatNumber(FloatZero)
    ensures r.Ok? ==> (r.value.minValue.FloatNumber? && r.value.maxValue.FloatNumber? && r.value.defaultValue.FloatNumber?)
  {
    var h :- ReadStatHeader(stat, ops);
    var minNode :- Index(stat, MinKey);
    var maxNode :- Index(stat, MaxKey);
    var defaultNode :- Index(stat, DefaultKey);
    Ok(StatData(h.id, h.name, if averageRate then AverageRate else Float, h.permission,
                FloatNumber(AsFloat(minNode, FloatMinValue, ops)),
                FloatNumber(AsFloat(maxNode, FloatMaxValue, ops)),
                FloatNumber(AsFloat(defaultNode, FloatZero, ops)),
                FloatNumber(FloatZero),
                h.incrementOnly))
  }

  /** A float or average-rate stat: the schema part with the live value, or
      0 when the live lookup fails. */
  function BuildFloatStat(stat: KeyValue, averageRate: bool, live: SteamUserStats, ops: FloatOps): (r: Result<StatData>)
    ensures r.Ok? <==> ReadFloatStat(stat, averageRate, ops).Ok?
    ensures r.Ok? ==> r.value.(value := FloatNumber(FloatZero)) == ReadFloatStat(stat, averageRate, ops).value
    ensures r.Ok? && !live.getFloatStat(r.value.id).0 ==> r.value.value == FloatNumber(FloatZero)
    ensures r.Ok? && live.getFloatStat(r.value.id).0 ==> r.value.value == FloatNumber(live.getFloatStat(r.value.id).1)
  {
    var s :- ReadFloatStat(stat, averageRate, ops);
    var (ok, v) := live.getFloatStat(s.id);
    Ok(s.(value := FloatNumber(if ok then v else FloatZero)))
  }

  /* ---------- achievement descriptors ---------- */

  /** The fields of an achievement read from its schema `display` and
      `permission` after the live calls. */
  datatype AchievementArt = AchievementArt(iconNormal: seq<byte>, iconLocked: seq<byte>, isHidden: bool, permission: int32)

  function ReadAchievementArt(bit: KeyValue, ops: FloatOps): Result<AchievementArt>
  {
    var display :- Index(bit, DisplayKey);
    var iconNormal :- TextAt(display, IconKey, [], ops);
    var iconLocked :- TextAt(display, IconGrayKey, [], ops);
    var hidden :- Index(display, HiddenKey);
    var perm :- Index(bit, PermissionKey);
    Ok(AchievementArt(iconNormal, iconLocked, AsBoolean(hidden, false, ops), AsInteger(perm, 0, ops)))
  }

  /** The descriptor of one child of a `bits` container. The live display
      name and description win unless empty; only then is the schema's
      `display` consulted. */
  function BuildAchievement(bit: KeyValue, live: SteamUserStats, ops: FloatOps): (r: Result<AchievementData>)
    ensures r.Ok? ==> (r.value.achieved == live.getAchievement(r.value.id) &&
                       r.value.percent == live.getAchievedPercent(r.value.id))
    ensures r.Ok? && live.getDisplayAttribute(r.value.id, NameKey) != [] ==>
              r.value.name == live.getDisplayAttribute(r.value.id, NameKey)
    ensures r.Ok? && live.getDisplayAttribute(r.value.id, DescKey) != [] ==>
              r.value.description == live.getDisplayAttribute(r.value.id, DescKey)
    ensures r.Ok? ==> TextAt(bit, NameKey, [], ops) == Ok(r.value.id)
    ensures r.Ok? ==> ReadAchievementArt(bit, ops)
                      == Ok(AchievementArt(r.value.iconNormal, r.value.iconLocked, r.value.isHidden, r.value.permission))
  {
    var id :- TextAt(bit, NameKey, [], ops);
    var liveName := live.getDisplayAttribute(id, NameKey);
    var liveDesc := live.getDisplayAttribute(id, DescKey);
    var name :- if liveName == [] then DisplayText(bit, NameKey, [], ops) else Ok(liveName);
    var description :- if liveDesc == [] then DisplayText(bit, DescKey, [], ops) else Ok(liveDesc);
    var achieved := live.getAchievement(id);
    var percent := live.getAchievedPercent(id);
    var art :- ReadAchievementArt(bit, ops);
    Ok(AchievementData(id, name, description, art.iconNormal, art.iconLocked,
                       art.isHidden, art.permission, achieved, percent))
  }

  /** The body of the innermost loop, as a function value. */
  function AchievementStep(live: SteamUserStats, ops: FloatOps): KeyValue -> Result<AchievementData>
  {
    bit => BuildAchievement(bit, live, ops)
  }

  /** The children of the valid `bits` containers among `groups`, in order. */
  function GroupEntries(groups: seq<KeyValue>): seq<KeyValue>
  {
    if groups == [] then []
    else
      var g := groups[0];
      (if g.valid && g.children.List? then g.children.items else []) + GroupEntries(groups[1..])
  }

  /** Every child of every valid `bits` child of the entry, in order: the
      nodes that become achievement descriptors. */
  function BitEntries(stat: KeyValue): seq<KeyValue>
  {
    if stat.children.Null? then [] else GroupEntries(Named(stat.children.items, BitsKey))
  }

  /** The two loops of the source: over the `bits` children, skipping invalid
      ones and ones without a child list, then over each one's children. */
  function BuildGroups(step: KeyValue -> Result<AchievementData>, groups: seq<KeyValue>): Result<seq<AchievementData>>
  {
    if groups == [] then Ok([])
    else
      var g := groups[0];
      var here :- if !g.valid || g.children.Null? then Ok([]) else MapAll(step, g.children.items);
      var rest :- BuildGroups(step, groups[1..]);
      Ok(here + rest)
  }

  /** The achievements of an entry of raw type 4 or 5. */
  function BuildAchievements(stat: KeyValue, live: SteamUserStats, ops: FloatOps): Result<seq<AchievementData>>
  {
    if stat.children.Null? then Ok([])
    else BuildGroups(AchievementStep(live, ops), Named(stat.children.items, BitsKey))
  }

  /* ---------- entries and the whole file ---------- */

  /** What one entry of `stats` adds to the lists. */
  function BuildEntry(c: Classifier, stat: KeyValue, live: SteamUserStats, ops: FloatOps): (r: Result<Definitions>)
    ensures !stat.valid ==> r == Ok(NoDefinitions())
    ensures r.Ok? && RawType(c, stat, ops).Ok? && !(1 <= RawType(c, stat, ops).value <= 5) ==> r.value == NoDefinitions()
  {
    if !stat.valid then Ok(NoDefinitions())
    else
      var rawType :- RawType(c, stat, ops);
      if rawType == 1 then
        var s :- BuildIntStat(stat, live, ops);
        Ok(Definitions([], [s]))
      else if rawType == 2 || rawType == 3 then
        var s :- BuildFloatStat(stat, rawType == 3, live, ops);
        Ok(Definitions([], [s]))
      else if rawType == 4 || rawType == 5 then
        var a :- BuildAchievements(stat, live, ops);
        Ok(Definitions(a, []))
      else
        Ok(NoDefinitions())
  }

  /** The body of the loop over the children of `stats`, as a function value. */
  function EntryStep(c: Classifier, live: SteamUserStats, ops: FloatOps): KeyValue -> Result<Definitions>
  {
    stat => BuildEntry(c, stat, live, ops)
  }

  /** The loop over the children of `stats`: what each entry adds, appended
      in order, the first exception ending the load. */
  function LoadEntries(step: KeyValue -> Result<Definitions>, entries: seq<KeyValue>): Result<Definitions>
  {
    if entries == [] then Ok(NoDefinitions())
    else
      var first :- step(entries[0]);
      var rest :- LoadEntries(step, entries[1..]);
      Ok(Append(first, rest))
  }

  /** The schema file as the loaders find it: absent (or its path could not
      be built), or present with these bytes. */
  datatype SchemaFile = Missing | Present(bytes: seq<byte>)

  /** What a load returns and the lists it leaves behind. */
  datatype LoadResult = LoadResult(success: bool, definitions: Definitions)

  /** The `stats` container of the schema for `appId`, if the file decodes;
      the step both loaders share before they differ. */
  datatype StatsLookup = Unreadable | StatsNode(stats: KeyValue)

  function FindStats(file: SchemaFile, appId: uint32): (r: Result<StatsLookup>)
    ensures r.Ok? && r.value.StatsNode? ==> r.value.stats.valid && r.value.stats.children.List?
  {
    match file
    case Missing => Ok(Unreadable)
    case Present(bytes) =>
      match LoadAsBinary(bytes)
      case NoDocument => Ok(Unreadable)
      case Document(root) =>
        var app :- Index(root, DecimalText(appId));
        var stats :- Index(app, StatsKey);
        if !stats.valid || stats.children.Null? then Ok(Unreadable)
        else Ok(StatsNode(stats))
  }

  /** `StatsSchemaLoader.LoadUserGameStatsSchema(appId, out achievements,
      out stats)`: the lists start empty and are filled only on success. */
  function LoadUserGameStatsSchema(file: SchemaFile, appId: uint32, live: SteamUserStats, ops: FloatOps): (r: Result<LoadResult>)
    ensures r.Ok? && !r.value.success ==> r.value.definitions == NoDefinitions()
    ensures file.Missing? ==> r == Ok(LoadResult(false, NoDefinitions()))
    ensures file.Present? && LoadAsBinary(file.bytes).NoDocument? ==> r == Ok(LoadResult(false, NoDefinitions()))
    ensures r.Ok? ==> (r.value.success <==> FindStats(file, appId) != Ok(Unreadable))
    ensures r.Ok? && r.value.success ==>
              FindStats(file, appId).Ok? && FindStats(file, appId).value.StatsNode? &&
              LoadEntries(EntryStep(Service, live, ops), FindStats(file, appId).value.stats.children.items) == Ok(r.value.definitions)
    ensures r.Thrown? <==>
              || FindStats(file, appId).Thrown?
              || (FindStats(file, appId).Ok? && FindStats(file, appId).value.StatsNode? &&
                  LoadEntries(EntryStep(Service, live, ops), FindStats(file, appId).value.stats.children.items).Thrown?)
  {
    var found :- FindStats(file, appId);
    match found
    case Unreadable => Ok(LoadResult(false, NoDefinitions()))
    case StatsNode(stats) =>
      var defs :- LoadEntries(EntryStep(Service, live, ops), stats.children.items);
      Ok(LoadResult(true, defs))
  }

  /** The `LoadUserGameStatsSchema(appId)` of GetAchievementData: the lists
      are fields; they are cleared and refilled on success and left as they
      were when the file or its `stats` container cannot be read. */
  function LegacyLoad(previous: Definitions, file: SchemaFile, appId: uint32, live: SteamUserStats, ops: FloatOps): (r: Result<LoadResult>)
    ensures r.Ok? && !r.value.success ==> r.value.definitions == previous
    ensures r.Ok? ==> (r.value.success <==> FindStats(file, appId) != Ok(Unreadable))
    ensures r.Ok? && r.value.success ==>
              FindStats(file, appId).Ok? && FindStats(file, appId).value.StatsNode? &&
              LoadEntries(EntryStep(Legacy, live, ops), FindStats(file, appId).value.stats.children.items) == Ok(r.value.definitions)
    ensures r.Thrown? <==>
              || FindStats(file, appId).Thrown?
              || (FindStats(file, appId).Ok? && FindStats(file, appId).value.StatsNode? &&
                  LoadEntries(EntryStep(Legacy, live, ops), FindStats(file, appId).value.stats.children.items).Thrown?)
  {
    var found :- FindStats(file, appId);
    match found
    case Unreadable => Ok(LoadResult(false, previous))
    case StatsNode(stats) =>
      var defs :- LoadEntries(EntryStep(Legacy, live, ops), stats.children.items);
      Ok(LoadResult(true, defs))
  }
}
