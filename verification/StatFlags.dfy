/** The permission flags a stat or achievement is reported with
    (Utils/StatFlagHelper.cs), and the older two-argument form that
    Commands/GetAchievementData.cs applies to both kinds.

    A permission is a signed 32-bit integer; the flag computation works on
    its two's complement bit pattern. */
module StatFlags {

  import opened Bytes

  const NoFlags: bv32 := 0
  const IncrementOnly: bv32 := 1
  const Protected: bv32 := 2
  const UnknownPermission: bv32 := 4

  /** The two's complement bit pattern of a signed 32-bit integer: a
      negative `p` is the complement of `-1 - p`. */
  function Bits(p: int32): bv32
  {
    if p < 0 then !((-1 - p) as bv32) else p as bv32
  }

  /** `StatFlagHelper.GetFlags(permission, incrementOnly, isAchievement)`. */
  function GetFlags(permission: int32, incrementOnly: bool, isAchievement: bool := false): (r: bv32)
    ensures r & !7 == 0
  {
    var p := Bits(permission);
    var mask: bv32 := if isAchievement then 3 else 2;
    (if !isAchievement && incrementOnly then IncrementOnly else NoFlags)
    | (if (isAchievement && p & 3 != 0) || (!isAchievement && p & 2 != 0) then Protected else NoFlags)
    | (if p & !mask != 0 then UnknownPermission else NoFlags)
  }

  /** `GetFlags(permission, isIncrementOnly)` of GetAchievementData: the
      stat rule, whatever the caller is describing. */
  function LegacyGetFlags(permission: int32, isIncrementOnly: bool): (r: bv32)
    ensures r == GetFlags(permission, isIncrementOnly)
  {
    var p := Bits(permission);
    NoFlags
    | (if !isIncrementOnly then NoFlags else IncrementOnly)
    | (if p & 2 != 0 then Protected else NoFlags)
    | (if p & !2 != 0 then UnknownPermission else NoFlags)
  }

  /* ---------- the flags as a set ---------- */

  datatype Flag = IncrementOnlyFlag | ProtectedFlag | UnknownPermissionFlag

  /** The flags whose bits are set in `f`. */
  function FlagSet(f: bv32): set<Flag>
  {
    (if f & IncrementOnly != 0 then {IncrementOnlyFlag} else {})
    + (if f & Protected != 0 then {ProtectedFlag} else {})
    + (if f & UnknownPermission != 0 then {UnknownPermissionFlag} else {})
  }

  /** The flags a permission earns, stated bit by bit: bit 1 always
      protects; bit 0 protects an achievement and is unknown on a stat; any
      higher bit is unknown; increment-only is a stat-only property. */
  function ExpectedFlags(permission: int32, incrementOnly: bool, isAchievement: bool): set<Flag>
  {
    var p := Bits(permission);
    var bit0 := p & 1 != 0;
    var bit1 := p & 2 != 0;
    var high := p >> 2 != 0;
    (if incrementOnly && !isAchievement then {IncrementOnlyFlag} else {})
    + (if bit1 || (isAchievement && bit0) then {ProtectedFlag} else {})
    + (if high || (!isAchievement && bit0) then {UnknownPermissionFlag} else {})
  }

  lemma MaskedBits(p: bv32)
    ensures (p & 3 != 0) <==> (p & 1 != 0 || p & 2 != 0)
    ensures (p & !3 != 0) <==> (p >> 2 != 0)
    ensures (p & !2 != 0) <==> (p & 1 != 0 || p >> 2 != 0)
  {
  }

  /** `GetFlags` sets exactly the expected flags and no other bit. */
  lemma GetFlagsMeaning(permission: int32, incrementOnly: bool, isAchievement: bool)
    ensures FlagSet(GetFlags(permission, incrementOnly, isAchievement))
         == ExpectedFlags(permission, incrementOnly, isAchievement)
    ensures GetFlags(permission, incrementOnly, isAchievement) as int <= 7
  {
    MaskedBits(Bits(permission));
  }

  /** The legacy form gives a stat the flags the kind-aware form gives it. */
  lemma LegacyGetFlagsIsStatRule(permission: int32, isIncrementOnly: bool)
    ensures FlagSet(LegacyGetFlags(permission, isIncrementOnly))
         == ExpectedFlags(permission, isIncrementOnly, false)
  {
    GetFlagsMeaning(permission, isIncrementOnly, false);
  }

  /** Worked examples of the kind-aware rule. */
  lemma GetFlagsExamples(incrementOnly: bool)
    ensures GetFlags(3, incrementOnly, true) == Protected
    ensures GetFlags(2, false, false) == Protected
    ensures GetFlags(4, false, false) == UnknownPermission
  {
    assert Bits(3) == 3 && Bits(2) == 2 && Bits(4) == 4;
  }

  /** Every bit of -1 is set: a stat with that permission gets all three flags. */
  lemma AllBitsPermission()
    ensures GetFlags(-1, true, false) == IncrementOnly | Protected | UnknownPermission
  {
    assert Bits(-1) == 0xFFFF_FFFF;
  }

  /** Applied to an achievement whose permission is 1, the legacy form
      reports an unknown permission where the kind-aware form reports a
      protected achievement. */
  lemma LegacyAchievementDivergence()
    ensures LegacyGetFlags(1, false) == UnknownPermission
    ensures GetFlags(1, false, true) == Protected
  {
    assert Bits(1) == 1;
  }
}
