/**
  Where the address-changed handler disagrees with the bounds the part-changed
  handler checks. The handler masks each index with `0x1f` (five bits) although
  the indices are nine bits wide and bounded by 512, masks the offset with
  `0x7ff` (eleven bits) although it is twelve bits wide and bounded by 4096, and
  prints the offset in hexadecimal although the offset row is read back in
  decimal. The lemmas named in the Findings table exhibit, for each of these,
  an address on which an address edit followed by a field edit does not give
  the address back, or a written text the field row rejects; the others are
  their helpers. The last part of the module states the round trip the texts
  were evidently meant to complete.
*/
module Findings {
  import opened Options
  import opened Numerals
  import opened AddressCodec
  import opened Postcode

  /** All fields zero, except the ones given. */
  function BottomParts(l3: nat, offset: nat): Parts {
    Parts(Bottom, l3, 0, 0, 0, offset)
  }

  lemma ZeroRowsRead()
    ensures ParseFromEntry("0", INDEX_LIMIT) == Some(0)
    ensures ParseFromEntry("0", OFFSET_LIMIT) == Some(0)
  {
    ParseFromEntryPrinted(0, INDEX_LIMIT);
    ParseFromEntryPrinted(0, OFFSET_LIMIT);
  }

  /** Below one page every index text is "0". */
  lemma LowAddressTexts(a: U64)
    requires a < L0_UNIT
    ensures AddressPartTexts(a) == PartTexts("0", "0", "0", "0", ToHexLower(a % 0x800))
  {
    assert a / L3_UNIT == 0 && a / L2_UNIT == 0 && a / L1_UNIT == 0 && a / L0_UNIT == 0;
    ZeroPrinted();
  }

  /** Index rows all "0": the fields read are decided by the offset row. */
  lemma ZeroIndexRowsRead(offset: string)
    ensures PartsOf(Bottom, PartTexts("0", "0", "0", "0", offset)) ==
      match ParseFromEntry(offset, OFFSET_LIMIT)
      case Some(v) => Some(BottomParts(0, v))
      case None => None
  {
    ZeroRowsRead();
  }

  lemma L3ThirtyTwoFields()
    ensures Decompose(0x1000_0000_0000) == Some(BottomParts(32, 0))
  {
    assert 0x1000_0000_0000 == 32 * L3_UNIT;
  }

  lemma ZeroPrinted()
    ensures ToDec(0) == "0" && ToHexLower(0) == "0"
  {
  }

  /** An address whose masked fields are all zero is shown with every row "0". */
  lemma MaskedToZeroTexts(a: U64)
    requires a / L3_UNIT % 0x20 == 0 && a / L2_UNIT % 0x20 == 0
    requires a / L1_UNIT % 0x20 == 0 && a / L0_UNIT % 0x20 == 0
    requires a % 0x800 == 0
    ensures AddressPartTexts(a) == PartTexts("0", "0", "0", "0", "0")
  {
    ZeroPrinted();
  }

  lemma L3ThirtyTwoTexts()
    ensures AddressPartTexts(0x1000_0000_0000) == PartTexts("0", "0", "0", "0", "0")
  {
    MaskedToZeroTexts(0x1000_0000_0000);
  }

  /** Address `0x1000_0000_0000` has L3 index 32. The handler writes "0" into
      the L3 row, so a later field edit recomposes address 0. */
  lemma IndexMaskDropsBits()
    ensures Decompose(0x1000_0000_0000) == Some(BottomParts(32, 0))
    ensures AddressPartTexts(0x1000_0000_0000) == PartTexts("0", "0", "0", "0", "0")
    ensures PartsOf(Bottom, AddressPartTexts(0x1000_0000_0000)) == Some(BottomParts(0, 0))
    ensures Compose(BottomParts(0, 0)) == 0
  {
    L3ThirtyTwoFields();
    L3ThirtyTwoTexts();
    ZeroRowsRead();
    ZeroIndexRowsRead("0");
  }

  /** Address `0x800` has offset 2048. The handler writes "0" into the offset
      row, so a later field edit recomposes address 0. */
  lemma OffsetMaskDropsBit()
    ensures Decompose(0x800) == Some(BottomParts(0, 0x800))
    ensures AddressPartTexts(0x800) == PartTexts("0", "0", "0", "0", "0")
    ensures PartsOf(Bottom, AddressPartTexts(0x800)) == Some(BottomParts(0, 0))
    ensures Compose(BottomParts(0, 0)) == 0
  {
    MaskedToZeroTexts(0x800);
    ZeroRowsRead();
    ZeroIndexRowsRead("0");
  }

  /** The offset row reads "10" as ten. */
  lemma TenRead()
    ensures ParseFromEntry("10", OFFSET_LIMIT) == Some(10)
  {
    assert ToDec(10) == "10";
    ParseFromEntryPrinted(10, OFFSET_LIMIT);
  }

  lemma SixteenFields()
    ensures Decompose(0x10) == Some(BottomParts(0, 0x10))
  {
  }

  lemma SixteenTexts()
    ensures AddressPartTexts(0x10) == PartTexts("0", "0", "0", "0", "10")
  {
    LowAddressTexts(0x10);
    assert 0x10 % 0x800 == 0x10;
    SixteenPrinted();
  }

  lemma SixteenPrinted()
    ensures ToHexLower(16) == "10"
  {
    assert ToRadix(1, 16) == "1";
  }

  /** Address `0x10` has offset 16. The handler writes "10", which the offset
      row reads as ten, so a later field edit recomposes address `0xa`. */
  lemma OffsetRadixMismatch()
    ensures Decompose(0x10) == Some(BottomParts(0, 0x10))
    ensures AddressPartTexts(0x10) == PartTexts("0", "0", "0", "0", "10")
    ensures PartsOf(Bottom, AddressPartTexts(0x10)) == Some(BottomParts(0, 10))
    ensures Compose(BottomParts(0, 10)) == 0xa
  {
    SixteenFields();
    SixteenTexts();
    TenRead();
    ZeroIndexRowsRead("10");
  }

  /** Address `0xa` has offset 10. The handler writes "a", marks the offset row
      valid, and the next field edit flags that same text as invalid and
      leaves the address row alone. */
  lemma OffsetRadixRejected()
    ensures AddressPartTexts(0xa).offset == "a"
    ensures ParseFromEntry("a", OFFSET_LIMIT) == None
    ensures PartsOf(Bottom, AddressPartTexts(0xa)) == None
  {
    LowAddressTexts(0xa);
    assert ToHexLower(10) == "a";
    assert DigitValue('a', 10).None?;
    ZeroIndexRowsRead("a");
  }

  /** The field texts with the masks the bounds call for (`0x1ff`, `0xfff`)
      and the offset printed in the radix the offset row is read in. */
  function IntendedPartTexts(p: Parts): PartTexts {
    PartTexts(ToDec(p.l3), ToDec(p.l2), ToDec(p.l1), ToDec(p.l0), ToDec(p.offset))
  }

  /** With those texts an address edit followed by a field edit round-trips:
      the part-changed handler reads back exactly the fields of every
      canonical address, and composing them gives the address itself. */
  lemma IntendedTextsRoundTrip(a: U64)
    requires Decompose(a).Some?
    ensures PartsOf(Decompose(a).value.range, IntendedPartTexts(Decompose(a).value)) == Decompose(a)
    ensures Compose(Decompose(a).value) == a
  {
    var p := Decompose(a).value;
    ComposeDecompose(a);
    ParseFromEntryPrinted(p.l3, INDEX_LIMIT);
    ParseFromEntryPrinted(p.l2, INDEX_LIMIT);
    ParseFromEntryPrinted(p.l1, INDEX_LIMIT);
    ParseFromEntryPrinted(p.l0, INDEX_LIMIT);
    ParseFromEntryPrinted(p.offset, OFFSET_LIMIT);
  }
}
