/** The packed S_EEPROM record (include/eeprom_data_struct.h) and the section map that
    include/protocol_serial.h computes from it with offsetof and sizeof. */
module EepromLayout {
  import opened Bytes

  // Offsets of the fields that delimit sections: each is the previous one plus the packed
  // widths of the fields in between, in declaration order.
  const AddrUnit := 0
  const CntUpdateInfo := AddrUnit + 1 + 1 + 4 + 5 + 18 + 2 + 2 + 1 + 4 + 4 + 4 + 2 + 2 + 1 + 1 + 2 + 4
  const NumMotors := CntUpdateInfo + 1
  const Size2Free := NumMotors + 1 + 1 + 1 + 1 + 1 + 1 + 1 + 1 + 8
  const SetPowerOn := Size2Free + 1
  const CntUpdateSettingPar :=
    SetPowerOn + 1 + 1 + 2 + 2 + 1 + 8 + 8 + 2 + 1 + 2 + 1 + 2 + 2 + 5 + 5 + 2 + 1 + 1 + 1 + 1 + 1
  const Calibr := CntUpdateSettingPar + 1
  const BypassMinTempExt := Calibr + 6
  const CntUpdateSetTemp := BypassMinTempExt + 2 + 4 + 1 + 2 + 2 + 2 + 2 + 1 + 1 + 1 + 1
  const SDayProg := CntUpdateSetTemp + 1
  const CntUpdateDayProg := SDayProg + 7 * (1 + 4 + 4 + 1 + 1 + 1)
  const VersionEeprom := CntUpdateDayProg + 1
  const EEPROM_SIZE := VersionEeprom + 1 + 2

  datatype Section = Info | Configuration | SettingPar | SetTemp | DayProg | HWSetting

  function Start(s: Section): nat {
    match s
    case Info => AddrUnit
    case Configuration => NumMotors
    case SettingPar => SetPowerOn
    case SetTemp => BypassMinTempExt
    case DayProg => SDayProg
    case HWSetting => NumMotors
  }

  function EndAddress(s: Section): nat {
    match s
    case Info => CntUpdateInfo
    case Configuration => Size2Free
    case SettingPar => CntUpdateSettingPar
    case SetTemp => CntUpdateSetTemp
    case DayProg => CntUpdateDayProg
    case HWSetting => Size2Free
  }

  function Count(s: Section): nat {
    EndAddress(s) - Start(s) + 1
  }

  /** The sections that end in an update counter. */
  predicate Counted(s: Section) {
    s.Info? || s.SettingPar? || s.SetTemp? || s.DayProg?
  }

  type Image = e: seq<Byte> | |e| == EEPROM_SIZE witness Zeros(EEPROM_SIZE)

  function Content(e: Image, s: Section): (r: seq<Byte>)
    ensures |r| == Count(s)
  {
    e[Start(s)..Start(s) + Count(s)]
  }

  /** The update counter of a counted section, which is its last byte. */
  function Counter(e: Image, s: Section): Byte
    requires Counted(s)
  {
    e[EndAddress(s)]
  }

  function Overwrite(e: Image, s: Section, data: seq<Byte>): (r: Image)
    requires |data| == Count(s)
  {
    Splice(e, Start(s), data)
  }

  predicate InSection(i: nat, s: Section) {
    Start(s) <= i <= EndAddress(s)
  }

  predicate SameRange(s: Section, t: Section) {
    s == t || {s, t} == {Configuration, HWSetting}
  }

  /** The record has 241 bytes and the section map has the documented addresses. */
  lemma SectionMap()
    ensures EEPROM_SIZE == 241
    ensures Start(Info) == 0 && Count(Info) == 59
    ensures Start(Configuration) == 59 && Count(Configuration) == 17
    ensures Start(HWSetting) == 59 && Count(HWSetting) == 17
    ensures Start(SettingPar) == 76 && Count(SettingPar) == 51
    ensures Start(SetTemp) == 133 && Count(SetTemp) == 20
    ensures Start(DayProg) == 153 && Count(DayProg) == 85
  {
  }

  /** The five sections the firmware writes cover bytes 0..126 and 133..237 exactly once and
      nothing else; a byte in one of them is in no other. */
  lemma WrittenSectionsPartition(i: nat)
    requires i < EEPROM_SIZE
    ensures (i < 127 || 133 <= i < 238) <==>
            exists s | s in {Info, SettingPar, SetTemp, DayProg, HWSetting} :: InSection(i, s)
    ensures forall s, t :: InSection(i, s) && InSection(i, t) ==> SameRange(s, t)
  {
    assert i < 59 ==> InSection(i, Info);
    assert 59 <= i < 76 ==> InSection(i, HWSetting);
    assert 76 <= i < 127 ==> InSection(i, SettingPar);
    assert 133 <= i < 153 ==> InSection(i, SetTemp);
    assert 153 <= i < 238 ==> InSection(i, DayProg);
  }

  /** Writing one section leaves every section with another address range as it was. */
  lemma WriteKeepsOthers(e: Image, s: Section, data: seq<Byte>, t: Section)
    requires |data| == Count(s) && !SameRange(s, t)
    ensures Content(Overwrite(e, s, data), t) == Content(e, t)
    ensures Counted(t) ==> Counter(Overwrite(e, s, data), t) == Counter(e, t)
  {
    SpliceBeside(e, Start(s), data, Start(t), Count(t));
  }
}
