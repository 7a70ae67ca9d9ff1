/**
 * Read access to an opened client database file (src/DBCFile.h).
 *
 * After open(), a DBC file is a block of `recordCount` records of
 * `recordSize` bytes each (the source's `data`), immediately followed by a
 * string table of `stringSize` bytes (`stringTable`). Both sit in `bytes`
 * here, the records from offset 0, so a pointer of the source is an offset
 * into `bytes`. A field is a little-endian 32-bit word at byte 4 * field of
 * its record.
 */
module DbcFiles {
  import opened Wrappers

  /** 2^32: the range of an unsigned int. */
  const Word: nat := 0x1_0000_0000

  /** The unsigned little-endian 32-bit word at bytes[p..p + 4]. */
  function Uint32At(bytes: seq<byte>, p: nat): (v: nat)
    requires p + 4 <= |bytes|
    ensures v < Word
    ensures v % 256 == bytes[p] && v / 0x100_0000 == bytes[p + 3]
  {
    bytes[p] as int + 0x100 * bytes[p + 1] as int + 0x1_0000 * bytes[p + 2] as int + 0x100_0000 * bytes[p + 3] as int
  }

  /** The four little-endian bytes of an unsigned int. */
  function Uint32Bytes(v: nat): (b: seq<byte>)
    requires v < Word
    ensures |b| == 4
  {
    [v % 0x100, v / 0x100 % 0x100, v / 0x1_0000 % 0x100, v / 0x100_0000]
  }

  /** Reading back a word that was written little-endian gives the word. */
  lemma Uint32RoundTrip(v: nat)
    requires v < Word
    ensures Uint32At(Uint32Bytes(v), 0) == v
  {
    var b := Uint32Bytes(v);
    assert v == v % 0x100 + 0x100 * (v / 0x100);
    assert v / 0x100 == v / 0x100 % 0x100 + 0x100 * (v / 0x1_0000);
    assert v / 0x1_0000 == v / 0x1_0000 % 0x100 + 0x100 * (v / 0x100_0000);
  }

  /** The exception getByID throws. */
  datatype NotFound = NotFound

  datatype DBCFile = DBCFile(recordSize: nat, recordCount: nat, fieldCount: nat, stringSize: nat, bytes: seq<byte>)
  {
    /** The offset of stringTable, where the records end. */
    function StringTable(): nat
    {
      recordCount * recordSize
    }

    /** The layout open() leaves: records, then strings, every field inside its record. */
    predicate Valid()
    {
      |bytes| == recordCount * recordSize + stringSize && 4 * fieldCount <= recordSize
    }

    /**
     * The text a char pointer into the file designates: the bytes up to the
     * first NUL, or up to the end of the file.
     */
    function Text(p: nat): (s: seq<byte>)
      ensures p <= |bytes| ==> p + |s| <= |bytes| && s == bytes[p..p + |s|]
      ensures 0 !in s
      ensures p + |s| < |bytes| ==> bytes[p + |s|] == 0
      decreases |bytes| - p
    {
      if p >= |bytes| || bytes[p] == 0 then [] else [bytes[p]] + Text(p + 1)
    }
  }

  /** DBCFile::Record: a pointer to the first byte of a record of `file`. */
  datatype Record = Record(file: DBCFile, offset: nat)
  {
    /** Every field of the record lies inside the file. */
    predicate InData()
    {
      file.Valid() && offset + 4 * file.fieldCount <= |file.bytes|
    }

    /** getUInt (DBCFile.h:44-48): the word stored in the field. */
    function GetUInt(field: nat): (v: nat)
      requires InData() && field < file.fieldCount
      ensures v < Word
    {
      Uint32At(file.bytes, offset + 4 * field)
    }

    /**
     * getString (DBCFile.h:54-60): the field holds an offset into the string
     * table; the result points there.
     */
    function GetString(field: nat): (p: nat)
      requires InData() && field < file.fieldCount
      requires GetUInt(field) < file.stringSize
      ensures file.StringTable() <= p < |file.bytes|
      ensures p - file.StringTable() == GetUInt(field)
    {
      file.StringTable() + GetUInt(field)
    }

    /**
     * The locale slot getLocalizedString reads: the one asked for, or for
     * locale -1 the first of the nine slots from `field` on whose string
     * offset is not 0 (9 when all nine are 0).
     */
    function ChosenLocale(field: nat, locale: int): (loc: int)
      requires InData() && locale >= -1
      requires locale == -1 ==> field + 8 < file.fieldCount
      ensures locale != -1 ==> loc == locale
      ensures locale == -1 ==> 0 <= loc <= 9
      ensures locale == -1 && loc < 9 ==> LocaleWord(field, loc) != 0
      ensures locale == -1 ==> forall l :: 0 <= l < loc ==> LocaleWord(field, l) == 0
    {
      if locale != -1 then locale else FirstSet(field, 0)
    }

    /** The string offset in locale slot l of the localized field `field`. */
    function LocaleWord(field: nat, l: nat): nat
      requires InData() && field + l < file.fieldCount
    {
      GetUInt(field + l)
    }

    /** The first of the slots field + from, ..., field + 8 with a nonzero word, or 9. */
    function FirstSet(field: nat, from: nat): (loc: nat)
      requires InData() && from <= 9 && field + 8 < file.fieldCount
      ensures from <= loc <= 9
      ensures loc < 9 ==> LocaleWord(field, loc) != 0
      ensures forall l :: from <= l < loc ==> LocaleWord(field, l) == 0
      decreases 9 - from
    {
      if from == 9 then 9
      else if LocaleWord(field, from) != 0 then from
      else FirstSet(field, from + 1)
    }

    /** What getLocalizedString demands of its arguments (DBCFile.h:66, 75, 77). */
    predicate LocalizedOk(field: nat, locale: int)
    {
      InData() && locale >= -1 && (locale == -1 ==> field + 8 < file.fieldCount) &&
      field + ChosenLocale(field, locale) < file.fieldCount &&
      GetUInt(field + ChosenLocale(field, locale)) < file.stringSize
    }

    /** The string getLocalizedString points to. */
    function LocalizedString(field: nat, locale: int): (p: nat)
      requires LocalizedOk(field, locale)
      ensures file.StringTable() <= p < |file.bytes|
      ensures p == GetString(field + ChosenLocale(field, locale))
    {
      GetString(field + ChosenLocale(field, locale))
    }

    /**
     * getLocalizedString (DBCFile.h:61-79): with locale -1, scans the nine
     * locale slots for the first one holding a string.
     */
    method GetLocalizedString(field: nat, locale: int) returns (p: nat)
      requires LocalizedOk(field, locale)
      ensures p == LocalizedString(field, locale)
    {
      var loc := locale;
      if locale == -1 {
        loc := FirstLocale(field);
      }
      p := GetString(field + loc);
    }

    /** The for loop of getLocalizedString (DBCFile.h:67-72). */
    method FirstLocale(field: nat) returns (loc: nat)
      requires InData() && field + 8 < file.fieldCount
      ensures loc == FirstSet(field, 0)
    {
      loc := 0;
      while loc < 9
        invariant 0 <= loc <= 9
        invariant forall l :: 0 <= l < loc ==> LocaleWord(field, l) == 0
      {
        var stringOffset := GetUInt(field + loc);
        if stringOffset != 0 {
          break;
        }
        loc := loc + 1;
      }
    }
  }

  /** Record k of the file lies inside the record block. */
  lemma RecordInData(file: DBCFile, k: nat)
    ensures file.Valid() && k < file.recordCount ==>
      (k + 1) * file.recordSize <= file.StringTable() && Record(file, k * file.recordSize).InData()
  {
    if k < file.recordCount {
      LeqMul(k + 1, file.recordCount, file.recordSize);
    }
  }

  lemma LeqMul(a: nat, b: nat, c: nat)
    requires a <= b
    ensures a * c <= b * c
  {
  }

  /** getRecord (DBCFile.h:118-122): the record `id` records past the start of the data. */
  function GetRecord(file: DBCFile, id: nat): (r: Record)
    ensures r.file == file && r.offset == id * file.recordSize
    ensures file.Valid() && id < file.recordCount ==> r.InData() && r.offset + file.recordSize <= file.StringTable()
  {
    RecordInData(file, id);
    Record(file, id * file.recordSize)
  }

  /** Field `field` of record k. */
  function FieldOf(file: DBCFile, k: nat, field: nat): nat
    requires file.Valid() && k < file.recordCount && field < file.fieldCount
  {
    GetRecord(file, k).GetUInt(field)
  }

  /** The first record from `k` on whose field `field` is `id`. */
  function FindFrom(file: DBCFile, id: nat, field: nat, k: nat): (r: Option<nat>)
    requires file.Valid() && field < file.fieldCount && k <= file.recordCount
    ensures r.Some? ==> k <= r.value < file.recordCount && FieldOf(file, r.value, field) == id
    ensures r.Some? ==> forall l :: k <= l < r.value ==> FieldOf(file, l, field) != id
    ensures r.None? ==> forall l :: k <= l < file.recordCount ==> FieldOf(file, l, field) != id
    decreases file.recordCount - k
  {
    if k == file.recordCount then None
    else if FieldOf(file, k, field) == id then Some(k)
    else FindFrom(file, id, field, k + 1)
  }

  /** The index of the record getByID returns, or None when it throws. */
  function FindByID(file: DBCFile, id: nat, field: nat): (r: Option<nat>)
    requires file.Valid() && field < file.fieldCount
    ensures r.Some? ==> r.value < file.recordCount && FieldOf(file, r.value, field) == id
    ensures r.Some? ==> forall l :: 0 <= l < r.value ==> FieldOf(file, l, field) != id
    ensures r.None? <==> forall l :: 0 <= l < file.recordCount ==> FieldOf(file, l, field) != id
  {
    FindFrom(file, id, field, 0)
  }

  /** DBCFile::Iterator: a record that walks over the record block. */
  class Iterator {
    const file: DBCFile
    var offset: nat

    constructor (file: DBCFile, offset: nat)
      ensures this.file == file && this.offset == offset
    {
      this.file := file;
      this.offset := offset;
    }

    /** operator* and operator->. */
    function Current(): (r: Record)
      reads this
      ensures r.file == file && r.offset == offset
    {
      Record(file, offset)
    }

    /** operator++ (DBCFile.h:96-99): moves to the next record. */
    method Advance()
      modifies this
      ensures offset == old(offset) + file.recordSize
    {
      offset := offset + file.recordSize;
    }

    /** operator== (DBCFile.h:106-109): both designate the same byte. */
    function Equals(b: Iterator): (same: bool)
      reads this, b
      ensures file == b.file ==> (same <==> Current() == b.Current())
    {
      offset == b.offset
    }
  }

  /** begin (DBCFile.h:124-128): the first record. */
  method Begin(file: DBCFile) returns (it: Iterator)
    ensures fresh(it) && it.file == file && it.offset == 0
  {
    it := new Iterator(file, 0);
  }

  /** end (DBCFile.h:129-133): the string table, just past the last record. */
  method End(file: DBCFile) returns (it: Iterator)
    ensures fresh(it) && it.file == file && it.offset == file.StringTable()
  {
    it := new Iterator(file, file.StringTable());
  }

  /**
   * getByID (DBCFile.h:137-145): walks the records from begin to end and
   * returns the first whose field `field` is `id`; throws NotFound when
   * none is.
   */
  method GetByID(file: DBCFile, id: nat, field: nat) returns (r: Result<Record, NotFound>)
    requires file.Valid() && field < file.fieldCount
    ensures FindByID(file, id, field).Some? ==> r == Ok(GetRecord(file, FindByID(file, id, field).value))
    ensures FindByID(file, id, field).None? ==> r == Err(NotFound)
  {
    var i := Begin(file);
    var e := End(file);
    ghost var k := 0;
    while !i.Equals(e)
      invariant i.file == file && e.file == file && e.offset == file.StringTable()
      invariant k <= file.recordCount && i.offset == k * file.recordSize
      invariant FindByID(file, id, field) == FindFrom(file, id, field, k)
      decreases file.recordCount - k
    {
      RecordInData(file, k);
      if i.Current().GetUInt(field) == id {
        return Ok(i.Current());
      }
      i.Advance();
      k := k + 1;
    }
    return Err(NotFound);
  }
}
