/**
 * Lookups in the client databases (src/dbc.cpp): the name of an area, the
 * doodad model of a ground effect, and the type of a liquid.
 *
 * The global tables (gAreaDB, gGroundEffectTextureDB, ...) are parameters,
 * and so are the field numbers AreaDB::Name, AreaDB::Region, ..., which
 * dbc.h declares; dbc.h is not part of this model.
 */
module Dbc {
  import opened Wrappers
  import opened Misc
  import opened DbcFiles

  /** Conversion of a C int to unsigned int: modulo 2^32. */
  function ToUnsigned(x: int): (u: nat)
    ensures u < Word && (u - x) % Word == 0
    ensures 0 <= x < Word ==> u == x
  {
    x % Word
  }

  /** Conversion of an unsigned int to a 32-bit C int: two's complement. */
  function ToSigned(u: nat): (x: int)
    requires u < Word
    ensures -0x8000_0000 <= x < 0x8000_0000 && ToUnsigned(x) == u
  {
    if u < 0x8000_0000 then u else u - Word
  }

  /** "Unknown location". */
  const UnknownLocation: seq<byte> := Ascii("Unknown location")

  /** ": ", between a region's name and its area's. */
  const Separator: seq<byte> := Ascii(": ")

  /** What getAreaName needs of the area table: Name is a localized string field, Region a field. */
  predicate AreaTableOk(area: DBCFile, nameField: nat, regionField: nat)
  {
    area.Valid() && regionField < area.fieldCount && nameField + 8 < area.fieldCount &&
    forall k :: 0 <= k < area.recordCount ==> GetRecord(area, k).LocalizedOk(nameField, -1)
  }

  /** The localized name of area record k, as a text. */
  function NameOf(area: DBCFile, nameField: nat, regionField: nat, k: nat): seq<byte>
    requires AreaTableOk(area, nameField, regionField) && k < area.recordCount
  {
    area.Text(GetRecord(area, k).LocalizedString(nameField, -1))
  }

  /**
   * The name getAreaName builds for a nonzero id before spelling out special
   * characters: "Unknown location" for an unknown id; otherwise the area's
   * name, prefixed with "Region: " when it lies in a region (a nonzero Region
   * field), or "Unknown location" when that region is not in the table.
   */
  function ComposedAreaName(area: DBCFile, nameField: nat, regionField: nat, areaId: int): seq<byte>
    requires AreaTableOk(area, nameField, regionField) && areaId != 0
  {
    var found := FindByID(area, ToUnsigned(areaId), 0);
    var name := if found.None? then UnknownLocation else NameOf(area, nameField, regionField, found.value);
    var region := if found.None? then 0 else FieldOf(area, found.value, regionField);
    if region == 0 then name
    else
      var regionFound := FindByID(area, region, 0);
      if regionFound.None? then UnknownLocation
      else NameOf(area, nameField, regionField, regionFound.value) + Separator + name
  }

  /**
   * The name getAreaName gives an area: "Unknown location" for id 0, and
   * otherwise the composed name with the intended special-character
   * substitutions.
   */
  function AreaName(area: DBCFile, nameField: nat, regionField: nat, areaId: int): seq<byte>
    requires AreaTableOk(area, nameField, regionField)
  {
    if areaId == 0 then UnknownLocation
    else Substitute(ComposedAreaName(area, nameField, regionField, areaId), SpecialChars)
  }

  /** The same name with the substitutions as written at src/dbc.cpp:67-73. */
  function AreaNameAsWritten(area: DBCFile, nameField: nat, regionField: nat, areaId: int): seq<byte>
    requires AreaTableOk(area, nameField, regionField)
  {
    if areaId == 0 then UnknownLocation
    else Substitute(ComposedAreaName(area, nameField, regionField, areaId), SpecialCharsAsWritten)
  }

  /** An area outside any region whose name is "Ü" (area record k). */
  predicate UpperUArea(area: DBCFile, nameField: nat, regionField: nat, areaId: int)
    requires AreaTableOk(area, nameField, regionField)
  {
    areaId != 0 && FindByID(area, ToUnsigned(areaId), 0).Some? &&
    FieldOf(area, FindByID(area, ToUnsigned(areaId), 0).value, regionField) == 0 &&
    NameOf(area, nameField, regionField, FindByID(area, ToUnsigned(areaId), 0).value) == UpperU
  }

  /** As written, getAreaName leaves an area named "Ü" as it is. */
  lemma AreaNameKeepsUpperUAsWritten(area: DBCFile, nameField: nat, regionField: nat, areaId: int)
    requires AreaTableOk(area, nameField, regionField) && UpperUArea(area, nameField, regionField, areaId)
    ensures AreaNameAsWritten(area, nameField, regionField, areaId) == UpperU
  {
    UpperUKeptAsWritten();
  }

  /** With the intended pattern, an area named "Ü" is given as "Ue". */
  lemma AreaNameReplacesUpperU(area: DBCFile, nameField: nat, regionField: nat, areaId: int)
    requires AreaTableOk(area, nameField, regionField) && UpperUArea(area, nameField, regionField, areaId)
    ensures AreaName(area, nameField, regionField, areaId) == TextCapUe
  {
    UpperUReplaced();
  }

  /** The cases of getAreaName, one by one. */
  lemma AreaNameCases(area: DBCFile, nameField: nat, regionField: nat, areaId: int)
    requires AreaTableOk(area, nameField, regionField)
    ensures areaId == 0 ==> AreaName(area, nameField, regionField, areaId) == UnknownLocation
    ensures areaId != 0 && FindByID(area, ToUnsigned(areaId), 0).None? ==>
      AreaName(area, nameField, regionField, areaId) == UnknownLocation
    ensures areaId != 0 && FindByID(area, ToUnsigned(areaId), 0).Some? ==>
      var k := FindByID(area, ToUnsigned(areaId), 0).value;
      var region := FieldOf(area, k, regionField);
      var name := NameOf(area, nameField, regionField, k);
      (region == 0 ==> AreaName(area, nameField, regionField, areaId) == Substitute(name, SpecialChars)) &&
      (region != 0 && FindByID(area, region, 0).None? ==>
        AreaName(area, nameField, regionField, areaId) == UnknownLocation) &&
      (region != 0 && FindByID(area, region, 0).Some? ==>
        AreaName(area, nameField, regionField, areaId) ==
        Substitute(NameOf(area, nameField, regionField, FindByID(area, region, 0).value) + Separator + name, SpecialChars))
  {
    SpecialPatternsNonAscii();
    AsciiUnchanged(UnknownLocation, SpecialChars);
  }

  /** getAreaName (src/dbc.cpp:38-76). */
  method GetAreaName(area: DBCFile, nameField: nat, regionField: nat, pAreaID: int) returns (areaName: seq<byte>)
    requires AreaTableOk(area, nameField, regionField)
    ensures areaName == AreaName(area, nameField, regionField, pAreaID)
  {
    if pAreaID == 0 {
      return UnknownLocation;
    }
    var regionID := 0;
    areaName := [];
    var rec := GetByID(area, ToUnsigned(pAreaID), 0);
    match rec {
      case Ok(r) =>
        var p := r.GetLocalizedString(nameField, -1);
        areaName := area.Text(p);
        regionID := r.GetUInt(regionField);
      case Err(_) =>
        areaName := UnknownLocation;
    }
    if regionID != 0 {
      var regionRec := GetByID(area, regionID, 0);
      match regionRec {
        case Ok(r) =>
          var p := r.GetLocalizedString(nameField, -1);
          areaName := area.Text(p) + Separator + areaName;
        case Err(_) =>
          areaName := UnknownLocation;
      }
    }
    assert areaName == ComposedAreaName(area, nameField, regionField, pAreaID);
    areaName := ReplaceSpecialChars(areaName);
  }

  /** What getGroundEffectDoodad needs of the two tables. */
  predicate DoodadTablesOk(textures: DBCFile, doodads: DBCFile, doodadsField: nat, filenameField: nat, doodadNum: int)
  {
    textures.Valid() && doodads.Valid() &&
    0 <= doodadsField + doodadNum < textures.fieldCount && filenameField < doodads.fieldCount &&
    forall k :: 0 <= k < doodads.recordCount ==> FieldOf(doodads, k, filenameField) < doodads.stringSize
  }

  /**
   * The doodad model of slot doodadNum of ground effect effectID: a pointer
   * into the doodad table's strings, or None (a null pointer) when either
   * lookup fails.
   */
  function GroundEffectDoodad(textures: DBCFile, doodads: DBCFile, doodadsField: nat, filenameField: nat,
                              effectID: nat, doodadNum: int): (p: Option<nat>)
    requires DoodadTablesOk(textures, doodads, doodadsField, filenameField, doodadNum)
    ensures p.None? <==>
      FindByID(textures, effectID, 0).None? ||
      FindByID(doodads, FieldOf(textures, FindByID(textures, effectID, 0).value, doodadsField + doodadNum), 0).None?
    ensures p.Some? ==> doodads.StringTable() <= p.value < |doodads.bytes|
  {
    match FindByID(textures, effectID, 0)
    case None => None
    case Some(t) =>
      match FindByID(doodads, FieldOf(textures, t, doodadsField + doodadNum), 0)
      case None => None
      case Some(d) =>
        assert FieldOf(doodads, d, filenameField) < doodads.stringSize;
        Some(GetRecord(doodads, d).GetString(filenameField))
  }

  /** getGroundEffectDoodad (src/dbc.cpp:78-90). */
  method GetGroundEffectDoodad(textures: DBCFile, doodads: DBCFile, doodadsField: nat, filenameField: nat,
                               effectID: nat, doodadNum: int) returns (p: Option<nat>)
    requires DoodadTablesOk(textures, doodads, doodadsField, filenameField, doodadNum)
    requires effectID < Word
    ensures p == GroundEffectDoodad(textures, doodads, doodadsField, filenameField, effectID, doodadNum)
  {
    var effect := GetByID(textures, effectID, 0);
    if effect.Err? {
      return None;
    }
    ghost var t := FindByID(textures, effectID, 0).value;
    var doodadId := effect.value.GetUInt(doodadsField + doodadNum);
    assert doodadId == FieldOf(textures, t, doodadsField + doodadNum);
    var doodad := GetByID(doodads, doodadId, 0);
    if doodad.Err? {
      return None;
    }
    ghost var d := FindByID(doodads, doodadId, 0).value;
    assert FieldOf(doodads, d, filenameField) < doodads.stringSize;
    return Some(doodad.value.GetString(filenameField));
  }

  /**
   * getLiquidType (src/dbc.cpp:92-105): the Type field of the liquid, read
   * as an int, or 0 when the id is not in the table.
   */
  method GetLiquidType(liquids: DBCFile, typeField: nat, pID: int) returns (t: int)
    requires liquids.Valid() && typeField < liquids.fieldCount
    ensures FindByID(liquids, ToUnsigned(pID), 0).None? ==> t == 0
    ensures FindByID(liquids, ToUnsigned(pID), 0).Some? ==>
      t == ToSigned(FieldOf(liquids, FindByID(liquids, ToUnsigned(pID), 0).value, typeField))
  {
    t := 0;
    var rec := GetByID(liquids, ToUnsigned(pID), 0);
    match rec {
      case Ok(r) =>
        t := ToSigned(r.GetUInt(typeField));
      case Err(_) =>
        t := 0;
    }
  }
}
