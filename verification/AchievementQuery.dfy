/** What the `get achievement data` command reports once the schema has
    loaded (Commands/GetAchievementData.cs, `Execute`): the one definition
    with a given id, or every definition with its permission flags. Flags
    come from the legacy two-argument rule, which applies the stat mask to
    achievements as well. */
module AchievementQuery {

  import opened Bytes
  import opened StatFlags
  import opened StatsSchema

  datatype Option<T> = None | Some(value: T)

  /** `List<T>.Find`: the first element satisfying `p`, if any. */
  function Find<T(==)>(xs: seq<T>, p: T -> bool): (r: Option<T>)
    ensures r.None? <==> forall i :: 0 <= i < |xs| ==> !p(xs[i])
    ensures r.Some? ==> exists i :: 0 <= i < |xs| && xs[i] == r.value && p(xs[i]) && forall j :: 0 <= j < i ==> !p(xs[j])
  {
    if xs == [] then None
    else if p(xs[0]) then Some(xs[0])
    else
      var r := Find(xs[1..], p);
      assert forall i :: 0 < i < |xs| ==> xs[i] == xs[1..][i - 1];
      if r.Some? then
        var k :| 0 <= k < |xs[1..]| && xs[1..][k] == r.value && p(xs[1..][k]) && forall j :: 0 <= j < k ==> !p(xs[1..][j]);
        assert xs[k + 1] == r.value && forall j :: 0 <= j < k + 1 ==> !p(xs[j]);
        r
      else
        r
  }

  /** Whether a flag word reports the definition as protected. */
  predicate ProtectedBit(flags: bv32) {
    flags & Protected != 0
  }

  /* ---------- one id ---------- */

  datatype Selection =
    | AchievementSelected(achievement: AchievementData, flags: bv32)
    | StatSelected(stat: StatData, flags: bv32)
    | IdNotFound

  /** The first achievement whose id is exactly `id`, else the first such
      stat, else "ID not found". Ids are compared ordinally. */
  function Select(defs: Definitions, id: seq<byte>): (r: Selection)
    ensures r.AchievementSelected? ==> r.achievement in defs.achievements && r.achievement.id == id
    ensures r.StatSelected? ==> r.stat in defs.stats && r.stat.id == id
  {
    match Find(defs.achievements, (a: AchievementData) => a.id == id)
    case Some(a) => AchievementSelected(a, LegacyGetFlags(a.permission, false))
    case None =>
      match Find(defs.stats, (s: StatData) => s.id == id)
      case Some(s) => StatSelected(s, LegacyGetFlags(s.permission, s.incrementOnly))
      case None => IdNotFound
  }

  /** An achievement with the id wins over any stat with the same id, and
      the first of several achievements with it is the one reported. */
  lemma AchievementChosenFirst(defs: Definitions, id: seq<byte>, i: nat)
    requires i < |defs.achievements| && defs.achievements[i].id == id
    requires forall j :: 0 <= j < i ==> defs.achievements[j].id != id
    ensures Select(defs, id) == AchievementSelected(defs.achievements[i], LegacyGetFlags(defs.achievements[i].permission, false))
  {
    var p := (a: AchievementData) => a.id == id;
    var r := Find(defs.achievements, p);
    assert r.Some?;
    var k :| 0 <= k < |defs.achievements| && defs.achievements[k] == r.value && p(defs.achievements[k]) &&
             forall j :: 0 <= j < k ==> !p(defs.achievements[j]);
  }

  /** A stat is reported only when no achievement carries the id, and then
      it is the first stat with that id. */
  lemma StatChosenOtherwise(defs: Definitions, id: seq<byte>, i: nat)
    requires forall j :: 0 <= j < |defs.achievements| ==> defs.achievements[j].id != id
    requires i < |defs.stats| && defs.stats[i].id == id
    requires forall j :: 0 <= j < i ==> defs.stats[j].id != id
    ensures Select(defs, id) == StatSelected(defs.stats[i], LegacyGetFlags(defs.stats[i].permission, defs.stats[i].incrementOnly))
  {
    var p := (s: StatData) => s.id == id;
    assert Find(defs.achievements, (a: AchievementData) => a.id == id).None?;
    var r := Find(defs.stats, p);
    assert r.Some?;
    var k :| 0 <= k < |defs.stats| && defs.stats[k] == r.value && p(defs.stats[k]) &&
             forall j :: 0 <= j < k ==> !p(defs.stats[j]);
  }

  /** "ID not found" exactly when neither list carries the id. */
  lemma NotFoundWhenAbsent(defs: Definitions, id: seq<byte>)
    ensures Select(defs, id).IdNotFound?
        <==> (forall j :: 0 <= j < |defs.achievements| ==> defs.achievements[j].id != id) &&
             (forall j :: 0 <= j < |defs.stats| ==> defs.stats[j].id != id)
  {
  }

  /* ---------- every definition ---------- */

  /** One listed definition: the descriptor, whether it is protected, and
      its flag word. */
  datatype AchievementRow = AchievementRow(achievement: AchievementData, isProtected: bool, flags: bv32)
  datatype StatRow = StatRow(stat: StatData, isProtected: bool, flags: bv32)
  datatype Listing = Listing(achievements: seq<AchievementRow>, stats: seq<StatRow>)

  function AchievementEntry(a: AchievementData): AchievementRow {
    var flags := LegacyGetFlags(a.permission, false);
    AchievementRow(a, ProtectedBit(flags), flags)
  }

  function StatEntry(s: StatData): StatRow {
    var flags := LegacyGetFlags(s.permission, s.incrementOnly);
    StatRow(s, ProtectedBit(flags), flags)
  }

  /** Every achievement, then every stat, in load order. */
  function ListAll(defs: Definitions): (r: Listing)
    ensures |r.achievements| == |defs.achievements| && |r.stats| == |defs.stats|
  {
    Listing(seq(|defs.achievements|, i requires 0 <= i < |defs.achievements| => AchievementEntry(defs.achievements[i])),
            seq(|defs.stats|, i requires 0 <= i < |defs.stats| => StatEntry(defs.stats[i])))
  }

  /** The listing keeps the definitions in order and gives each the flags of
      the stat rule: an achievement as a stat that is not increment-only, a
      stat with its own increment-only property. */
  lemma ListingFlags(defs: Definitions)
    ensures var l := ListAll(defs);
            && (forall i :: 0 <= i < |l.achievements| ==>
                  var a := defs.achievements[i];
                  l.achievements[i].achievement == a &&
                  FlagSet(l.achievements[i].flags) == ExpectedFlags(a.permission, false, false) &&
                  (l.achievements[i].isProtected <==> ProtectedFlag in FlagSet(l.achievements[i].flags)))
            && (forall i :: 0 <= i < |l.stats| ==>
                  var s := defs.stats[i];
                  l.stats[i].stat == s &&
                  FlagSet(l.stats[i].flags) == ExpectedFlags(s.permission, s.incrementOnly, false) &&
                  (l.stats[i].isProtected <==> ProtectedFlag in FlagSet(l.stats[i].flags)))
  {
    forall i | 0 <= i < |defs.achievements| {
      LegacyGetFlagsIsStatRule(defs.achievements[i].permission, false);
    }
    forall i | 0 <= i < |defs.stats| {
      LegacyGetFlagsIsStatRule(defs.stats[i].permission, defs.stats[i].incrementOnly);
    }
  }

  /** A selected definition is reported with the flags its listing row
      carries. */
  lemma SelectionMatchesListing(defs: Definitions, id: seq<byte>)
    ensures var r := Select(defs, id);
            && (r.AchievementSelected? ==>
                  (exists i :: 0 <= i < |defs.achievements| &&
                     ListAll(defs).achievements[i] == AchievementRow(r.achievement, ProtectedBit(r.flags), r.flags)))
            && (r.StatSelected? ==>
                  (exists i :: 0 <= i < |defs.stats| &&
                     ListAll(defs).stats[i] == StatRow(r.stat, ProtectedBit(r.flags), r.flags)))
  {
    var r := Select(defs, id);
    if r.AchievementSelected? {
      var i :| 0 <= i < |defs.achievements| && defs.achievements[i] == r.achievement;
      assert ListAll(defs).achievements[i] == AchievementEntry(r.achievement);
    } else if r.StatSelected? {
      var i :| 0 <= i < |defs.stats| && defs.stats[i] == r.stat;
      assert ListAll(defs).stats[i] == StatEntry(r.stat);
    }
  }

  /** An achievement whose permission is 1 is listed as unprotected with
      the unknown-permission flag, although the kind-aware rule would call
      it protected. */
  lemma PermissionOneAchievementListing(a: AchievementData)
    requires a.permission == 1
    ensures AchievementEntry(a) == AchievementRow(a, false, UnknownPermission)
    ensures GetFlags(a.permission, false, true) == Protected
  {
    LegacyAchievementDivergence();
  }
}
