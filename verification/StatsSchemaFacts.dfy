/** Properties of the schema interpreter: the order in which the raw type is
    found and where the two classifiers part, which entries contribute what,
    that every child of every usable `bits` container becomes exactly one
    achievement, that a tree without duplicate sibling names never makes a
    load throw, and how the older loader treats the lists it replaces. */
module StatsSchemaFacts {

  import opened Bytes
  import opened Exceptions
  import opened KeyValues
  import opened KeyValueBinary
  import opened StatsSchema

  /* ---------- raw type ---------- */

  /** The entry has a valid `type_int` child, and looking it up does not throw. */
  predicate HasTypeInt(stat: KeyValue) {
    Index(stat, TypeIntKey).Ok? && Index(stat, TypeIntKey).value.valid
  }

  /** A missing key reads as the invalid sentinel. */
  lemma MissingChildIsSentinel(kv: KeyValue, key: seq<byte>)
    requires !HasChildNamed(kv, key)
    ensures Index(kv, key) == Ok(Invalid())
  {
    HasChildNamedCounts(kv, key);
  }

  /** A valid `type_int` decides the raw type ahead of `type` and of the
      entry's structure, and both classifiers read it the same way. */
  lemma TypeIntDecides(stat: KeyValue, ops: FloatOps)
    requires HasTypeInt(stat)
    ensures ServiceRawType(stat, ops) == Ok(AsInteger(Index(stat, TypeIntKey).value, 0, ops))
    ensures LegacyRawType(stat, ops) == ServiceRawType(stat, ops)
  {
  }

  /** Without a valid `type_int`, the service classifier maps a string
      `type` by name and reads any other valid `type` as an integer. */
  lemma ServiceTypeField(stat: KeyValue, ops: FloatOps)
    requires Index(stat, TypeIntKey).Ok? && !Index(stat, TypeIntKey).value.valid
    requires Index(stat, TypeKey).Ok? && Index(stat, TypeKey).value.valid
    ensures var ty := Index(stat, TypeKey).value;
            ServiceRawType(stat, ops)
            == Ok(if ty.value.StringValue? then StringTypeCode(ty.value.text) else AsInteger(ty, 0, ops))
  {
  }

  /** The type names are matched ignoring case: two spellings that differ
      only in case get the same code. */
  lemma StringTypeCodeIgnoresCase(a: seq<byte>, b: seq<byte>)
    requires EqualsIgnoreCase(a, b)
    ensures StringTypeCode(a) == StringTypeCode(b)
  {
    forall t: seq<byte>
      ensures EqualsIgnoreCase(a, t) <==> EqualsIgnoreCase(b, t)
    {
      EqualsIgnoreCaseIsEquivalence(a, b, t);
      EqualsIgnoreCaseIsEquivalence(b, a, t);
    }
  }

  /** A lower-case name, a mixed-case plural, and text that is no type name. */
  lemma StringTypeCodeExamples()
    ensures StringTypeCode(Ascii("int")) == 1
    ensures StringTypeCode(Ascii("Achievements")) == 4
    ensures StringTypeCode(Ascii("1")) == 0
  {
    StringTypeCodeIgnoresCase(Ascii("int"), Ascii("INT"));
    StringTypeCodeIgnoresCase(Ascii("Achievements"), Ascii("ACHIEVEMENTS"));
  }

  /** With neither a `type_int` nor a `type` child, the service classifier
      infers the raw type from the entry's structure and the legacy one reads
      0, so the legacy loader skips the entry. */
  lemma NoTypeFields(stat: KeyValue, live: SteamUserStats, ops: FloatOps)
    requires !HasChildNamed(stat, TypeIntKey) && !HasChildNamed(stat, TypeKey)
    ensures ServiceRawType(stat, ops) == StructuralRawType(stat)
    ensures LegacyRawType(stat, ops) == Ok(0)
    ensures BuildEntry(Legacy, stat, live, ops) == Ok(NoDefinitions())
  {
    MissingChildIsSentinel(stat, TypeIntKey);
    MissingChildIsSentinel(stat, TypeKey);
  }

  /** The inference order: a `bits` child makes an achievement whatever else
      is there; then a valid `window` makes an average rate even when a bound
      is a Float32; then a Float32 `min`, `max` or `default` makes a float;
      anything else is an integer. */
  lemma StructuralOrder(stat: KeyValue)
    requires StructuralRawType(stat).Ok?
    ensures var r := StructuralRawType(stat).value;
            var window := Index(stat, WindowKey);
            var floating := Index(stat, MinKey).Ok? && Index(stat, MaxKey).Ok? && Index(stat, DefaultKey).Ok? &&
                            (IsFloat32(Index(stat, MinKey).value) || IsFloat32(Index(stat, MaxKey).value) ||
                             IsFloat32(Index(stat, DefaultKey).value));
            && (r == 4 <==> HasChildNamed(stat, BitsKey))
            && (r == 3 <==> !HasChildNamed(stat, BitsKey) && window.Ok? && window.value.valid)
            && (r == 2 <==> !HasChildNamed(stat, BitsKey) && window.Ok? && !window.value.valid && floating)
            && (r == 1 <==> !HasChildNamed(stat, BitsKey) && window.Ok? && !window.value.valid && !floating)
  {
  }

  /** A string `type` holding no digit is a type name to the service
      classifier and the number 0 to the legacy one. */
  lemma TypeNameWithoutDigits(stat: KeyValue, ops: FloatOps)
    requires !HasChildNamed(stat, TypeIntKey)
    requires Index(stat, TypeKey).Ok? && Index(stat, TypeKey).value.valid
    requires Index(stat, TypeKey).value.value.StringValue?
    requires var t := Index(stat, TypeKey).value.value.text; forall k :: 0 <= k < |t| ==> !IsDigit(t[k])
    ensures ServiceRawType(stat, ops) == Ok(StringTypeCode(Index(stat, TypeKey).value.value.text))
    ensures LegacyRawType(stat, ops) == Ok(0)
  {
    MissingChildIsSentinel(stat, TypeIntKey);
  }

  /** An entry whose only type information is the string "INT": an integer
      stat to the service loader, skipped by the legacy one. */
  lemma IntTypeNameDivergence(live: SteamUserStats, ops: FloatOps)
    ensures var stat := KeyValue(Ascii("0"), NoValue, true,
                                 List([KeyValue(TypeKey, StringValue(Ascii("INT")), true, Null)]));
            && ServiceRawType(stat, ops) == Ok(1)
            && LegacyRawType(stat, ops) == Ok(0)
            && BuildEntry(Legacy, stat, live, ops) == Ok(NoDefinitions())
  {
    var ty := KeyValue(TypeKey, StringValue(Ascii("INT")), true, Null);
    var stat := KeyValue(Ascii("0"), NoValue, true, List([ty]));
    assert !EqualsIgnoreCase(ty.name, TypeIntKey);
    assert Named([ty], TypeKey) == [ty];
    assert !HasChildNamed(stat, TypeIntKey);
    TypeNameWithoutDigits(stat, ops);
    StringTypeCodeIgnoresCase(Ascii("INT"), Ascii("INT"));
    assert RawType(Legacy, stat, ops) == Ok(0);
    AchievementEntryContents(Legacy, stat, live, ops);
  }

  /* ---------- entries ---------- */

  /** The valid entries of `entries`, in order. */
  function ValidEntries(entries: seq<KeyValue>): seq<KeyValue>
  {
    if entries == [] then []
    else (if entries[0].valid then [entries[0]] else []) + ValidEntries(entries[1..])
  }

  lemma {:induction false} ValidEntriesMembers(entries: seq<KeyValue>, e: KeyValue)
    ensures e in ValidEntries(entries) <==> e in entries && e.valid
  {
    if entries != [] {
      ValidEntriesMembers(entries[1..], e);
      assert entries == [entries[0]] + entries[1..];
    }
  }

  /** A loop step that adds nothing for an invalid entry can be run over
      the valid entries alone. */
  lemma {:induction false} SkippingStep(step: KeyValue -> Result<Definitions>, entries: seq<KeyValue>)
    requires forall e: KeyValue :: !e.valid ==> step(e) == Ok(NoDefinitions())
    ensures LoadEntries(step, entries) == LoadEntries(step, ValidEntries(entries))
  {
    if entries != [] {
      var e := entries[0];
      var tail := ValidEntries(entries[1..]);
      SkippingStep(step, entries[1..]);
      var rest := LoadEntries(step, entries[1..]);
      if e.valid {
        var v := [e] + tail;
        assert ValidEntries(entries) == v;
        assert v[0] == e && v[1..] == tail;
      } else {
        assert ValidEntries(entries) == tail;
        assert step(e) == Ok(NoDefinitions());
        if rest.Ok? {
          assert Append(NoDefinitions(), rest.value) == rest.value;
        }
      }
    }
  }

  /** Invalid entries of `stats` contribute nothing: loading all entries is
      loading the valid ones. */
  lemma InvalidEntriesSkipped(c: Classifier, entries: seq<KeyValue>, live: SteamUserStats, ops: FloatOps)
    ensures LoadEntries(EntryStep(c, live, ops), entries) == LoadEntries(EntryStep(c, live, ops), ValidEntries(entries))
  {
    SkippingStep(EntryStep(c, live, ops), entries);
  }

  /** A valid entry of raw type 1, 2 or 3 adds one stat of the matching
      kind and no achievement. */
  lemma StatEntryContents(c: Classifier, stat: KeyValue, live: SteamUserStats, ops: FloatOps)
    requires stat.valid && RawType(c, stat, ops).Ok? && 1 <= RawType(c, stat, ops).value <= 3
    ensures var t := RawType(c, stat, ops).value;
            var r := BuildEntry(c, stat, live, ops);
            r.Ok? ==>
              (var d := r.value;
               && d.achievements == [] && |d.stats| == 1
               && d.stats[0].kind == (if t == 1 then Integer else if t == 2 then Float else AverageRate))
  {
  }

  /** A valid entry of raw type 4 or 5 adds the achievements of its `bits`
      containers and no stat; any code outside 1–5 adds nothing. */
  lemma AchievementEntryContents(c: Classifier, stat: KeyValue, live: SteamUserStats, ops: FloatOps)
    requires stat.valid && RawType(c, stat, ops).Ok? && !(1 <= RawType(c, stat, ops).value <= 3)
    ensures var t := RawType(c, stat, ops).value;
            var r := BuildEntry(c, stat, live, ops);
            var a := BuildAchievements(stat, live, ops);
            && (t == 4 || t == 5 ==> (r.Thrown? <==> a.Thrown?) &&
                                     (r.Ok? ==> r.value.stats == [] && Ok(r.value.achievements) == a))
            && (!(1 <= t <= 5) ==> r == Ok(NoDefinitions()))
  {
  }

  /** The kind names the descriptors carry. */
  lemma KindNames()
    ensures Integer.Name() == Ascii("integer") && Float.Name() == Ascii("float") && AverageRate.Name() == Ascii("avgrate")
  {
  }

  /** A valid entry with two `type_int` children makes the indexer throw,
      and the exception ends the load whichever classifier is used. */
  lemma DuplicateTypeIntThrows(c: Classifier, stat: KeyValue, live: SteamUserStats, ops: FloatOps)
    requires stat.valid && stat.children.List? && CountNamed(stat.children.items, TypeIntKey) > 1
    ensures BuildEntry(c, stat, live, ops).Thrown?
    ensures LoadEntries(EntryStep(c, live, ops), [stat]).Thrown?
  {
  }

  /* ---------- achievements ---------- */

  /** The two nested loops walk the concatenated children of the usable
      `bits` containers. */
  lemma {:induction false} BuildGroupsFlattens(step: KeyValue -> Result<AchievementData>, groups: seq<KeyValue>)
    ensures BuildGroups(step, groups) == MapAll(step, GroupEntries(groups))
  {
    if groups != [] {
      var g := groups[0];
      var here := if g.valid && g.children.List? then g.children.items else [];
      BuildGroupsFlattens(step, groups[1..]);
      MapAllAppend(step, here, GroupEntries(groups[1..]));
    }
  }

  /** The nodes `GroupEntries` collects are the children of the valid
      containers with a child list. */
  lemma {:induction false} GroupEntriesMembers(groups: seq<KeyValue>, c: KeyValue)
    ensures c in GroupEntries(groups)
        <==> exists g :: g in groups && g.valid && g.children.List? && c in g.children.items
  {
    if groups != [] {
      GroupEntriesMembers(groups[1..], c);
      var g := groups[0];
      var here := if g.valid && g.children.List? then g.children.items else [];
      assert GroupEntries(groups) == here + GroupEntries(groups[1..]);
      if exists h :: h in groups[1..] && h.valid && h.children.List? && c in h.children.items {
        var h :| h in groups[1..] && h.valid && h.children.List? && c in h.children.items;
        assert h in groups;
      }
      if exists h :: h in groups && h.valid && h.children.List? && c in h.children.items {
        var h :| h in groups && h.valid && h.children.List? && c in h.children.items;
        if h != g {
          assert h in groups[1..];
        }
      }
    }
  }

  /** Every child of every valid `bits` child with a child list (matched
      ignoring case, all of them) yields exactly one descriptor, in order;
      the achievements throw exactly when one of those nodes does. */
  lemma AchievementsFromEveryBit(stat: KeyValue, live: SteamUserStats, ops: FloatOps)
    ensures var r := BuildAchievements(stat, live, ops);
            && (r.Ok? ==> |r.value| == |BitEntries(stat)| &&
                          forall i :: 0 <= i < |r.value| ==> BuildAchievement(BitEntries(stat)[i], live, ops) == Ok(r.value[i]))
            && (r.Thrown? <==> exists i :: 0 <= i < |BitEntries(stat)| && BuildAchievement(BitEntries(stat)[i], live, ops).Thrown?)
    ensures forall c :: c in BitEntries(stat) <==>
              stat.children.List? &&
              exists g :: g in stat.children.items && EqualsIgnoreCase(g.name, BitsKey) &&
                          g.valid && g.children.List? && c in g.children.items
  {
    var step := AchievementStep(live, ops);
    if stat.children.List? {
      BuildGroupsFlattens(step, Named(stat.children.items, BitsKey));
      forall c
        ensures c in BitEntries(stat) <==>
                exists g :: g in stat.children.items && EqualsIgnoreCase(g.name, BitsKey) &&
                            g.valid && g.children.List? && c in g.children.items
      {
        GroupEntriesMembers(Named(stat.children.items, BitsKey), c);
        forall g ensures g in Named(stat.children.items, BitsKey) <==> g in stat.children.items && EqualsIgnoreCase(g.name, BitsKey) {
          NamedMembers(stat.children.items, BitsKey, g);
        }
      }
    }
    MapAllThrows(step, BitEntries(stat));
  }

  /* ---------- descriptors ---------- */

  /** A stat without a `display` child is named by its id. */
  lemma StatNameFallsBackToId(stat: KeyValue, averageRate: bool, live: SteamUserStats, ops: FloatOps)
    requires !HasChildNamed(stat, DisplayKey)
    ensures BuildIntStat(stat, live, ops).Ok? ==> BuildIntStat(stat, live, ops).value.name == BuildIntStat(stat, live, ops).value.id
    ensures BuildFloatStat(stat, averageRate, live, ops).Ok? ==>
              BuildFloatStat(stat, averageRate, live, ops).value.name == BuildFloatStat(stat, averageRate, live, ops).value.id
  {
    MissingChildIsSentinel(stat, DisplayKey);
  }

  /** A stat's id is the text of its `name` child. */
  lemma StatIdIsName(stat: KeyValue, averageRate: bool, live: SteamUserStats, ops: FloatOps)
    requires Index(stat, NameKey).Ok? && Index(stat, NameKey).value.valid && Index(stat, NameKey).value.value.StringValue?
    ensures BuildIntStat(stat, live, ops).Ok? ==> BuildIntStat(stat, live, ops).value.id == Index(stat, NameKey).value.value.text
    ensures BuildFloatStat(stat, averageRate, live, ops).Ok? ==>
              BuildFloatStat(stat, averageRate, live, ops).value.id == Index(stat, NameKey).value.value.text
  {
  }

  /** Missing bounds of an integer stat are the extremes of a 32-bit integer,
      and a missing `default` is 0. */
  lemma IntStatDefaults(stat: KeyValue, live: SteamUserStats, ops: FloatOps)
    requires BuildIntStat(stat, live, ops).Ok?
    ensures var s := BuildIntStat(stat, live, ops).value;
            && (!HasChildNamed(stat, MinKey) ==> s.minValue == IntNumber(MinInt32))
            && (!HasChildNamed(stat, MaxKey) ==> s.maxValue == IntNumber(MaxInt32))
            && (!HasChildNamed(stat, DefaultKey) ==> s.defaultValue == IntNumber(0))
  {
    if !HasChildNamed(stat, MinKey) { MissingChildIsSentinel(stat, MinKey); }
    if !HasChildNamed(stat, MaxKey) { MissingChildIsSentinel(stat, MaxKey); }
    if !HasChildNamed(stat, DefaultKey) { MissingChildIsSentinel(stat, DefaultKey); }
  }

  /** Missing bounds of a float stat are the extremes of a float, and a
      missing `default` is 0. */
  lemma FloatStatDefaults(stat: KeyValue, averageRate: bool, live: SteamUserStats, ops: FloatOps)
    ensures var r := BuildFloatStat(stat, averageRate, live, ops);
            r.Ok? ==>
              (var s := r.value;
               && (!HasChildNamed(stat, MinKey) ==> s.minValue == FloatNumber(FloatMinValue))
               && (!HasChildNamed(stat, MaxKey) ==> s.maxValue == FloatNumber(FloatMaxValue))
               && (!HasChildNamed(stat, DefaultKey) ==> s.defaultValue == FloatNumber(FloatZero)))
  {
    if !HasChildNamed(stat, MinKey) { MissingChildIsSentinel(stat, MinKey); }
    if !HasChildNamed(stat, MaxKey) { MissingChildIsSentinel(stat, MaxKey); }
    if !HasChildNamed(stat, DefaultKey) { MissingChildIsSentinel(stat, DefaultKey); }
  }

  /** An integer stat reads exactly when its header and its `min`, `max` and
      `default` lookups do; a present bound or default is read with
      `AsInteger`, falling back to the extremes of a 32-bit integer and 0. */
  lemma IntStatBounds(stat: KeyValue, live: SteamUserStats, ops: FloatOps)
    ensures BuildIntStat(stat, live, ops).Ok? <==>
              && ReadStatHeader(stat, ops).Ok?
              && Index(stat, MinKey).Ok? && Index(stat, MaxKey).Ok? && Index(stat, DefaultKey).Ok?
    ensures BuildIntStat(stat, live, ops).Ok? ==>
              (var s := BuildIntStat(stat, live, ops).value;
               var h := ReadStatHeader(stat, ops).value;
               && s.id == h.id && s.name == h.name && s.permission == h.permission && s.incrementOnly == h.incrementOnly
               && s.minValue == IntNumber(AsInteger(Index(stat, MinKey).value, MinInt32, ops))
               && s.maxValue == IntNumber(AsInteger(Index(stat, MaxKey).value, MaxInt32, ops))
               && s.defaultValue == IntNumber(AsInteger(Index(stat, DefaultKey).value, 0, ops)))
  {
  }

  /** The same for a float or average-rate stat, read with `AsFloat` and
      falling back to the extremes of a float and 0. */
  lemma FloatStatBounds(stat: KeyValue, averageRate: bool, live: SteamUserStats, ops: FloatOps)
    ensures BuildFloatStat(stat, averageRate, live, ops).Ok? <==>
              && ReadStatHeader(stat, ops).Ok?
              && Index(stat, MinKey).Ok? && Index(stat, MaxKey).Ok? && Index(stat, DefaultKey).Ok?
    ensures BuildFloatStat(stat, averageRate, live, ops).Ok? ==>
              (var s := BuildFloatStat(stat, averageRate, live, ops).value;
               var h := ReadStatHeader(stat, ops).value;
               && s.id == h.id && s.name == h.name && s.permission == h.permission && s.incrementOnly == h.incrementOnly
               && s.minValue == FloatNumber(AsFloat(Index(stat, MinKey).value, FloatMinValue, ops))
               && s.maxValue == FloatNumber(AsFloat(Index(stat, MaxKey).value, FloatMaxValue, ops))
               && s.defaultValue == FloatNumber(AsFloat(Index(stat, DefaultKey).value, FloatZero, ops)))
  {
  }

  /** A stat entry with `type_int` 1, `name` "s", `min` -5 and `max` 100. */
  function BoundedIntStat(): KeyValue {
    KeyValue(Ascii("0"), NoValue, true, List([
      KeyValue(TypeIntKey, Int32Value(1), true, Null),
      KeyValue(NameKey, StringValue(Ascii("s")), true, Null),
      KeyValue(MinKey, Int32Value(-5), true, Null),
      KeyValue(MaxKey, Int32Value(100), true, Null)]))
  }

  /** A step of `BoundedIntStatEntry`: each key present finds its own
      child ... */
  lemma BoundedIntStatFound()
    ensures var stat := BoundedIntStat();
            var items := stat.children.items;
            && Index(stat, TypeIntKey) == Ok(items[0])
            && Index(stat, NameKey) == Ok(items[1])
            && Index(stat, MinKey) == Ok(items[2])
            && Index(stat, MaxKey) == Ok(items[3])
  {
    var items := BoundedIntStat().children.items;
    assert !EqualsIgnoreCase(MinKey, MaxKey) by { assert ToLower(MinKey[1]) != ToLower(MaxKey[1]); }
    assert Named(items, TypeIntKey) == [items[0]];
    assert Named(items, NameKey) == [items[1]];
    assert Named(items, MinKey) == [items[2]];
    assert Named(items, MaxKey) == [items[3]];
  }

  /** ... and, another step of it, the other keys find none. */
  lemma BoundedIntStatMissing()
    ensures var stat := BoundedIntStat();
            && !HasChildNamed(stat, DisplayKey) && !HasChildNamed(stat, DefaultKey)
            && !HasChildNamed(stat, IncrementOnlyKey) && !HasChildNamed(stat, PermissionKey)
  {
    assert |DisplayKey| == 7 && |DefaultKey| == 7 && |IncrementOnlyKey| == 13 && |PermissionKey| == 10;
  }

  /** The service loader reads it as an integer stat with bounds -5 and
      100, default 0, named by its id, and the live value or 0. */
  lemma BoundedIntStatEntry(live: SteamUserStats, ops: FloatOps)
    ensures var (ok, v) := live.getIntStat(Ascii("s"));
            BuildEntry(Service, BoundedIntStat(), live, ops)
            == Ok(Definitions([], [StatData(Ascii("s"), Ascii("s"), Integer, 0, IntNumber(-5), IntNumber(100),
                                            IntNumber(0), IntNumber(if ok then v else 0), false)]))
  {
    var stat := BoundedIntStat();
    BoundedIntStatFound();
    BoundedIntStatMissing();
    MissingChildIsSentinel(stat, DisplayKey);
    MissingChildIsSentinel(stat, DefaultKey);
    MissingChildIsSentinel(stat, IncrementOnlyKey);
    MissingChildIsSentinel(stat, PermissionKey);
    IntStatBounds(stat, live, ops);
  }

  /** Only the current value of a stat comes from the live source: two live
      sources give descriptors that differ at most in `value`. */
  lemma StatSchemaFieldsIgnoreLive(stat: KeyValue, averageRate: bool, live1: SteamUserStats, live2: SteamUserStats, ops: FloatOps)
    ensures BuildIntStat(stat, live1, ops).Ok? <==> BuildIntStat(stat, live2, ops).Ok?
    ensures BuildIntStat(stat, live1, ops).Ok? ==>
              BuildIntStat(stat, live1, ops).value.(value := IntNumber(0))
              == BuildIntStat(stat, live2, ops).value.(value := IntNumber(0))
    ensures BuildFloatStat(stat, averageRate, live1, ops).Ok? <==> BuildFloatStat(stat, averageRate, live2, ops).Ok?
    ensures BuildFloatStat(stat, averageRate, live1, ops).Ok? ==>
              BuildFloatStat(stat, averageRate, live1, ops).value.(value := FloatNumber(FloatZero))
              == BuildFloatStat(stat, averageRate, live2, ops).value.(value := FloatNumber(FloatZero))
  {
  }

  /** An empty live name or description is replaced by the schema's
      `display.name` or `display.desc`. */
  lemma AchievementFallsBackToSchema(bit: KeyValue, live: SteamUserStats, ops: FloatOps)
    requires BuildAchievement(bit, live, ops).Ok?
    ensures var a := BuildAchievement(bit, live, ops).value;
            && (live.getDisplayAttribute(a.id, NameKey) == [] ==> DisplayText(bit, NameKey, [], ops) == Ok(a.name))
            && (live.getDisplayAttribute(a.id, DescKey) == [] ==> DisplayText(bit, DescKey, [], ops) == Ok(a.description))
  {
  }

  /** The id, icons, hidden flag and permission of an achievement come from
      the schema alone: two live sources agree on them. */
  lemma AchievementSchemaFieldsIgnoreLive(bit: KeyValue, live1: SteamUserStats, live2: SteamUserStats, ops: FloatOps)
    requires BuildAchievement(bit, live1, ops).Ok? && BuildAchievement(bit, live2, ops).Ok?
    ensures var a1 := BuildAchievement(bit, live1, ops).value;
            var a2 := BuildAchievement(bit, live2, ops).value;
            && a1.id == a2.id
            && a1.iconNormal == a2.iconNormal && a1.iconLocked == a2.iconLocked
            && a1.isHidden == a2.isHidden && a1.permission == a2.permission
  {
  }

  /* ---------- documents without duplicate keys ---------- */

  /** A lookup in a well-keyed node does not throw. */
  lemma IndexOk(kv: KeyValue, key: seq<byte>)
    requires WellKeyed(kv)
    ensures Index(kv, key).Ok?
  {
    IndexWellKeyed(kv, key);
  }

  lemma WellKeyedHeader(stat: KeyValue, ops: FloatOps)
    requires WellKeyed(stat)
    ensures ReadStatHeader(stat, ops).Ok?
  {
    IndexOk(stat, NameKey);
    IndexWellKeyed(stat, DisplayKey);
    IndexOk(Index(stat, DisplayKey).value, NameKey);
    IndexOk(stat, IncrementOnlyKey);
    IndexOk(stat, PermissionKey);
  }

  /** Without duplicate sibling names no lookup throws, so a stat entry
      always yields its descriptor. */
  lemma WellKeyedStat(stat: KeyValue, averageRate: bool, ops: FloatOps)
    requires WellKeyed(stat)
    ensures ReadIntStat(stat, ops).Ok? && ReadFloatStat(stat, averageRate, ops).Ok?
  {
    WellKeyedHeader(stat, ops);
    IndexOk(stat, MinKey);
    IndexOk(stat, MaxKey);
    IndexOk(stat, DefaultKey);
  }

  lemma WellKeyedText(node: KeyValue, key: seq<byte>, d: seq<byte>, ops: FloatOps)
    requires WellKeyed(node)
    ensures TextAt(node, key, d, ops).Ok? && DisplayText(node, key, d, ops).Ok?
  {
    IndexOk(node, key);
    IndexWellKeyed(node, DisplayKey);
    IndexOk(Index(node, DisplayKey).value, key);
  }

  lemma WellKeyedArt(bit: KeyValue, ops: FloatOps)
    requires WellKeyed(bit)
    ensures ReadAchievementArt(bit, ops).Ok?
  {
    IndexWellKeyed(bit, DisplayKey);
    var display := Index(bit, DisplayKey).value;
    WellKeyedText(display, IconKey, [], ops);
    WellKeyedText(display, IconGrayKey, [], ops);
    IndexOk(display, HiddenKey);
    IndexOk(bit, PermissionKey);
  }

  /** ... and so does an achievement node, whatever the live source says. */
  lemma WellKeyedAchievement(bit: KeyValue, live: SteamUserStats, ops: FloatOps)
    requires WellKeyed(bit)
    ensures BuildAchievement(bit, live, ops).Ok?
  {
    WellKeyedText(bit, NameKey, [], ops);
    WellKeyedText(bit, DescKey, [], ops);
    WellKeyedArt(bit, ops);
  }

  lemma WellKeyedStructure(stat: KeyValue)
    requires WellKeyed(stat)
    ensures StructuralRawType(stat).Ok?
  {
    IndexOk(stat, MinKey);
    IndexOk(stat, MaxKey);
    IndexOk(stat, DefaultKey);
    IndexOk(stat, WindowKey);
  }

  lemma WellKeyedRawType(c: Classifier, stat: KeyValue, ops: FloatOps)
    requires WellKeyed(stat)
    ensures RawType(c, stat, ops).Ok?
  {
    IndexOk(stat, TypeIntKey);
    IndexOk(stat, TypeKey);
    if c == Service {
      WellKeyedStructure(stat);
    }
  }

  lemma WellKeyedAchievements(stat: KeyValue, live: SteamUserStats, ops: FloatOps)
    requires WellKeyed(stat)
    ensures BuildAchievements(stat, live, ops).Ok?
  {
    AchievementsFromEveryBit(stat, live, ops);
    forall i | 0 <= i < |BitEntries(stat)|
      ensures BuildAchievement(BitEntries(stat)[i], live, ops).Ok?
    {
      var c := BitEntries(stat)[i];
      assert c in BitEntries(stat);
      var g :| g in stat.children.items && EqualsIgnoreCase(g.name, BitsKey) &&
               g.valid && g.children.List? && c in g.children.items;
      WellKeyedAchievement(c, live, ops);
    }
  }

  lemma WellKeyedEntry(c: Classifier, stat: KeyValue, live: SteamUserStats, ops: FloatOps)
    requires WellKeyed(stat)
    ensures BuildEntry(c, stat, live, ops).Ok?
  {
    WellKeyedRawType(c, stat, ops);
    var t := RawType(c, stat, ops).value;
    if t == 1 {
      WellKeyedStat(stat, false, ops);
      assert BuildIntStat(stat, live, ops).Ok?;
    } else if t == 2 || t == 3 {
      WellKeyedStat(stat, t == 3, ops);
      assert BuildFloatStat(stat, t == 3, live, ops).Ok?;
    } else if t == 4 || t == 5 {
      WellKeyedAchievements(stat, live, ops);
    }
  }

  /** A loop whose every step succeeds succeeds. */
  lemma {:induction false} LoadEntriesSucceeds(step: KeyValue -> Result<Definitions>, entries: seq<KeyValue>)
    requires forall i :: 0 <= i < |entries| ==> step(entries[i]).Ok?
    ensures LoadEntries(step, entries).Ok?
  {
    if entries != [] {
      assert step(entries[0]).Ok?;
      forall i | 0 <= i < |entries[1..]|
        ensures step(entries[1..][i]).Ok?
      {
        assert entries[1..][i] == entries[i + 1];
      }
      LoadEntriesSucceeds(step, entries[1..]);
    }
  }

  /** A schema file whose decoded tree has no duplicate sibling names loads
      without an exception, through either loader. */
  lemma WellKeyedSchemaLoads(file: SchemaFile, appId: uint32, previous: Definitions, live: SteamUserStats, ops: FloatOps)
    requires file.Present? && LoadAsBinary(file.bytes).Document? ==> WellKeyed(LoadAsBinary(file.bytes).root)
    ensures LoadUserGameStatsSchema(file, appId, live, ops).Ok?
    ensures LegacyLoad(previous, file, appId, live, ops).Ok?
  {
    if file.Present? && LoadAsBinary(file.bytes).Document? {
      var root := LoadAsBinary(file.bytes).root;
      IndexWellKeyed(root, DecimalText(appId));
      var app := Index(root, DecimalText(appId)).value;
      IndexWellKeyed(app, StatsKey);
      var stats := Index(app, StatsKey).value;
      assert FindStats(file, appId).Ok?;
      if stats.valid && stats.children.List? {
        var entries := stats.children.items;
        forall cl: Classifier, i | 0 <= i < |entries|
          ensures EntryStep(cl, live, ops)(entries[i]).Ok?
        {
          assert entries[i] in entries;
          WellKeyedEntry(cl, entries[i], live, ops);
        }
        LoadEntriesSucceeds(EntryStep(Service, live, ops), entries);
        LoadEntriesSucceeds(EntryStep(Legacy, live, ops), entries);
      }
    }
  }

  /* ---------- the two loaders ---------- */

  /** The `stats` container is unusable exactly when the file is missing or
      does not decode, or `<appId>` → `stats` is invalid or has no child
      list; the lookup throws exactly when one of those two keys matches
      several children; otherwise it is that container. */
  lemma FindStatsOutcome(file: SchemaFile, appId: uint32)
    ensures FindStats(file, appId) == Ok(Unreadable) <==>
              || file.Missing?
              || LoadAsBinary(file.bytes).NoDocument?
              || (var app := Index(LoadAsBinary(file.bytes).root, DecimalText(appId));
                  && app.Ok? && Index(app.value, StatsKey).Ok?
                  && (!Index(app.value, StatsKey).value.valid || Index(app.value, StatsKey).value.children.Null?))
    ensures FindStats(file, appId).Thrown? <==>
              && file.Present? && LoadAsBinary(file.bytes).Document?
              && (var app := Index(LoadAsBinary(file.bytes).root, DecimalText(appId));
                  app.Thrown? || Index(app.value, StatsKey).Thrown?)
    ensures FindStats(file, appId).Ok? && FindStats(file, appId).value.StatsNode? ==>
              && file.Present? && LoadAsBinary(file.bytes).Document?
              && (var app := Index(LoadAsBinary(file.bytes).root, DecimalText(appId));
                  app.Ok? && Index(app.value, StatsKey) == Ok(FindStats(file, appId).value.stats))
  {
  }

  /** Neither loader gets past a missing or undecodable file; the older one
      then keeps the lists it had. */
  lemma UnreadableFile(previous: Definitions, file: SchemaFile, appId: uint32, live: SteamUserStats, ops: FloatOps)
    requires file.Missing? || LoadAsBinary(file.bytes).NoDocument?
    ensures LoadUserGameStatsSchema(file, appId, live, ops) == Ok(LoadResult(false, NoDefinitions()))
    ensures LegacyLoad(previous, file, appId, live, ops) == Ok(LoadResult(false, previous))
  {
  }

  /** An invalid `<appId>` → `stats` container, or one without a child
      list, stops both loaders the same way. */
  lemma UnusableStatsContainer(previous: Definitions, file: SchemaFile, appId: uint32, live: SteamUserStats, ops: FloatOps,
                               root: KeyValue, app: KeyValue, stats: KeyValue)
    requires file.Present? && LoadAsBinary(file.bytes) == Document(root)
    requires Index(root, DecimalText(appId)) == Ok(app) && Index(app, StatsKey) == Ok(stats)
    requires !stats.valid || stats.children.Null?
    ensures LoadUserGameStatsSchema(file, appId, live, ops) == Ok(LoadResult(false, NoDefinitions()))
    ensures LegacyLoad(previous, file, appId, live, ops) == Ok(LoadResult(false, previous))
  {
  }

  /** The older loader clears its lists before refilling them: what a
      successful load leaves does not depend on what was there, and whether
      it throws does not either. */
  lemma LegacyLoadIgnoresPrevious(p: Definitions, q: Definitions, file: SchemaFile, appId: uint32, live: SteamUserStats, ops: FloatOps)
    ensures LegacyLoad(p, file, appId, live, ops).Thrown? <==> LegacyLoad(q, file, appId, live, ops).Thrown?
    ensures LegacyLoad(p, file, appId, live, ops).Ok? && LegacyLoad(p, file, appId, live, ops).value.success ==>
              LegacyLoad(q, file, appId, live, ops) == LegacyLoad(p, file, appId, live, ops)
  {
  }

  /** Loading twice is loading once: the lists do not accumulate. */
  lemma LegacyLoadIdempotent(p: Definitions, file: SchemaFile, appId: uint32, live: SteamUserStats, ops: FloatOps)
    requires LegacyLoad(p, file, appId, live, ops).Ok?
    ensures var first := LegacyLoad(p, file, appId, live, ops).value;
            LegacyLoad(first.definitions, file, appId, live, ops) == Ok(first)
  {
    LegacyLoadIgnoresPrevious(p, LegacyLoad(p, file, appId, live, ops).value.definitions, file, appId, live, ops);
  }

  /** Every valid entry carries a valid `type_int`. */
  predicate EntriesTyped(entries: seq<KeyValue>) {
    forall i :: 0 <= i < |entries| && entries[i].valid ==> HasTypeInt(entries[i])
  }

  /** On entries that all carry a valid `type_int`, the two classifiers
      give the same lists. */
  lemma {:induction false} ClassifiersAgree(entries: seq<KeyValue>, live: SteamUserStats, ops: FloatOps)
    requires EntriesTyped(entries)
    ensures LoadEntries(EntryStep(Service, live, ops), entries) == LoadEntries(EntryStep(Legacy, live, ops), entries)
  {
    if entries != [] {
      var e := entries[0];
      if e.valid {
        TypeIntDecides(e, ops);
      }
      assert BuildEntry(Service, e, live, ops) == BuildEntry(Legacy, e, live, ops);
      assert EntriesTyped(entries[1..]) by {
        forall i | 0 <= i < |entries[1..]| && entries[1..][i].valid
          ensures HasTypeInt(entries[1..][i])
        {
          assert entries[1..][i] == entries[i + 1];
        }
      }
      ClassifiersAgree(entries[1..], live, ops);
    }
  }

  /** The `stats` entries of the file all carry a valid `type_int`. */
  predicate TypedSchema(file: SchemaFile, appId: uint32) {
    var found := FindStats(file, appId);
    found.Ok? && found.value.StatsNode? ==> EntriesTyped(found.value.stats.children.items)
  }

  /** For such a file the two loaders agree, once the older one starts from
      empty lists. */
  lemma LoadersAgree(file: SchemaFile, appId: uint32, live: SteamUserStats, ops: FloatOps)
    requires TypedSchema(file, appId)
    ensures LegacyLoad(NoDefinitions(), file, appId, live, ops) == LoadUserGameStatsSchema(file, appId, live, ops)
  {
    var found := FindStats(file, appId);
    if found.Ok? && found.value.StatsNode? {
      ClassifiersAgree(found.value.stats.children.items, live, ops);
    }
  }
}
