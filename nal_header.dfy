/** The view `dump_chunk` (tracker.h:225-271) takes of a chunk: the NAL unit header byte
    split into its three fields (ITU-T H.264, section 7.3.1), the table of names for the
    header unit types, and which kind of log line the chunk gets. The clock readings and
    the I-frame interval they measure are not modelled. */
module NalHeader {
  import opened Bytes
  import opened Chunks

  /** The fields of a NAL unit header byte. */
  datatype Header = Header(forbiddenZeroBit: nat, nalRefIdc: nat, nalUnitType: nat)

  predicate InRange(h: Header) {
    h.forbiddenZeroBit < 2 && h.nalRefIdc < 4 && h.nalUnitType < 32
  }

  /** Bit 7 of the header byte. */
  function ForbiddenBit(t: byte): nat {
    t as int / 128
  }

  /** Bits 6-5 of the header byte. */
  function RefIdcBits(t: byte): nat {
    t as int / 32 % 4
  }

  /** Bits 4-0 of the header byte. */
  function UnitTypeBits(t: byte): nat {
    t as int % 32
  }

  /** `( t & 0x80 ) >> 7` (tracker.h:239) is `ForbiddenBit`. */
  lemma HighMask(t: bv8)
    ensures ((t & 0x80) >> 7) as int == ForbiddenBit(t as int as byte)
  {
  }

  /** `( t & 0x60 ) >> 5` (tracker.h:240) is `RefIdcBits`. */
  lemma MiddleMask(t: bv8)
    ensures ((t & 0x60) >> 5) as int == RefIdcBits(t as int as byte)
  {
  }

  /** `t & 0x1F` (tracker.h:241) is `UnitTypeBits`. */
  lemma LowMask(t: bv8)
    ensures (t & 0x1F) as int == UnitTypeBits(t as int as byte)
  {
  }

  /** The header byte split into bit 7, bits 6-5 and bits 4-0; the three fields together
      account for every bit of the byte. */
  function Split(t: byte): (h: Header)
    ensures InRange(h)
    ensures t as nat == 128 * h.forbiddenZeroBit + 32 * h.nalRefIdc + h.nalUnitType
  {
    var n := t as int;
    assert n == 128 * (n / 128) + 32 * (n / 32 % 4) + n % 32;
    Header(ForbiddenBit(t), RefIdcBits(t), UnitTypeBits(t))
  }

  /** The header byte with the given fields. */
  function Join(h: Header): (t: byte)
    requires InRange(h)
  {
    (128 * h.forbiddenZeroBit + 32 * h.nalRefIdc + h.nalUnitType) as byte
  }

  /** Splitting a byte and joining its fields gives back the byte. */
  lemma JoinSplit(t: byte)
    ensures Join(Split(t)) == t
  {
  }

  /** Joining fields and splitting the byte gives back the fields. */
  lemma SplitJoin(h: Header)
    requires InRange(h)
    ensures Split(Join(h)) == h
  {
    var h' := Split(Join(h));
    assert 128 * h'.forbiddenZeroBit + 32 * h'.nalRefIdc + h'.nalUnitType
        == 128 * h.forbiddenZeroBit + 32 * h.nalRefIdc + h.nalUnitType;
  }

  /** `naltypes` (tracker.h:226-236): nine entries, named only for SEI, SPS and PPS. */
  const NalTypeNames: seq<Option<string>> :=
    [None, None, None, None, None, None, Some("SEI"), Some("SPS"), Some("PPS")]

  /** The guard of the table lookup at tracker.h:265, as written. */
  predicate NameGuardAsWritten(unitType: nat) {
    unitType <= 9
  }

  /** Unit type 9 (an access unit delimiter) passes the guard, but the table has no entry 9:
      the lookup reads past its end. */
  lemma NameGuardAdmitsIndexNine()
    ensures NameGuardAsWritten(9) && !(9 < |NalTypeNames|)
  {
  }

  /** The name the dump prints for a unit type, looked up only where the table has an entry. */
  function NalTypeName(unitType: nat): (r: Option<string>)
    ensures r.Some? <==> unitType == 6 || unitType == 7 || unitType == 8
    ensures unitType == 6 ==> r == Some("SEI")
    ensures unitType == 7 ==> r == Some("SPS")
    ensures unitType == 8 ==> r == Some("PPS")
  {
    if unitType < |NalTypeNames| then NalTypeNames[unitType] else None
  }

  /** Wherever the guard as written is in bounds, the corrected lookup reads the same entry. */
  lemma NalTypeNameAgreesInBounds(unitType: nat)
    requires NameGuardAsWritten(unitType) && unitType < |NalTypeNames|
    ensures NalTypeName(unitType) == NalTypeNames[unitType]
  {
  }

  /** The line `dump_chunk` writes for a chunk: nothing for a non-IDR slice (type 1), the
      I-frame line for an IDR slice (type 5), else the unit type's name or its number. */
  datatype DumpLine = Quiet | IFrame(size: nat) | Named(name: string, size: nat) | Numbered(unitType: nat, size: nat)

  function Dump(c: Chunk): (d: DumpLine)
    ensures var t := Split(c.typeByte).nalUnitType;
            && (d.Quiet? <==> t == 1)
            && (d.IFrame? <==> t == 5)
            && (d.Named? <==> t == 6 || t == 7 || t == 8)
            && (d.Named? ==> Some(d.name) == NalTypeName(t))
            && (d.Numbered? ==> d.unitType == t)
    ensures !d.Quiet? ==> d.size == c.Size()
  {
    var t := Split(c.typeByte).nalUnitType;
    if t == 1 then Quiet
    else if t == 5 then IFrame(c.Size())
    else match NalTypeName(t)
      case Some(name) => Named(name, c.Size())
      case None => Numbered(t, c.Size())
  }
}
