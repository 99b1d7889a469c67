/**
  Concrete inputs for the converter: the field bounds, the address prefix, and
  edits of the address and of the field rows.
*/
module Scenarios {
  import opened Options
  import opened Numerals
  import opened AddressCodec
  import opened Postcode

  /** A field row accepts 511 under the index bound... */
  lemma IndexBoundAccepts511()
    ensures ParseFromEntry("511", INDEX_LIMIT) == Some(511)
  {
    assert ToDec(511) == "511";
    ParseFromEntryPrinted(511, INDEX_LIMIT);
  }

  /** ...but not 512: the bound is exclusive. */
  lemma IndexBoundRejects512()
    ensures ParseFromEntry("512", INDEX_LIMIT) == None
  {
    assert ToDec(512) == "512";
    ParseFromEntryPrinted(512, INDEX_LIMIT);
  }

  /** A minus sign is not accepted by the unsigned parser. */
  lemma MinusRejected()
    ensures ParseFromEntry("-1", INDEX_LIMIT) == None
  {
    assert "-1" == "-" + "1";
    ParseRejects("1", 10);
  }

  lemma OffsetBoundAccepts4095()
    ensures ParseFromEntry("4095", OFFSET_LIMIT) == Some(4095)
  {
    assert ToDec(4095) == "4095";
    ParseFromEntryPrinted(4095, OFFSET_LIMIT);
  }

  lemma OffsetBoundRejects4096()
    ensures ParseFromEntry("4096", OFFSET_LIMIT) == None
  {
    assert ToDec(4096) == "4096";
    ParseFromEntryPrinted(4096, OFFSET_LIMIT);
  }

  lemma AddressWithoutPrefix()
    ensures ParseAddress("1f") == Some(31)
  {
    assert ToHexLower(31) == "1f";
    HexRoundTrip(31);
  }

  /** The `0x` prefix is ignored... */
  lemma AddressWithPrefix()
    ensures ParseAddress("0x1f") == Some(31)
  {
    assert TrimHexPrefix("0x1f") == "1f" by {
      assert "0x1f"[2..] == "1f";
    }
    AddressWithoutPrefix();
  }

  /** ...and so is any repetition of it. */
  lemma AddressWithRepeatedPrefix()
    ensures ParseAddress("0x0x1f") == Some(31)
  {
    assert TrimHexPrefix("0x0x1f") == "1f" by {
      assert "0x0x1f"[2..] == "0x1f";
      assert "0x1f"[2..] == "1f";
    }
    AddressWithoutPrefix();
  }

  /** An upper-case `0X` is not a prefix, and text that is not hexadecimal,
      or no digits at all, is rejected. */
  lemma MalformedAddresses()
    ensures ParseAddress("0X1f") == None
    ensures ParseAddress("0x") == None
    ensures ParseAddress("xyz") == None
  {
    assert TrimHexPrefix("0X1f") == "0X1f";
    assert DigitValue('X', 16).None?;
    assert "0x"[2..] == "";
    assert TrimHexPrefix("xyz") == "xyz";
    assert DigitValue('x', 16).None?;
  }

  const SCENARIO_ADDRESS: U64 := 0xffff_8000_1234_5000

  /** The shifts of the Top address `0xffff800012345000`. */
  lemma TopAddressShifts()
    ensures SCENARIO_ADDRESS / TOP_UNIT == 0xffff
    ensures SCENARIO_ADDRESS / L3_UNIT == 0x1ff_ff00
    ensures SCENARIO_ADDRESS / L2_UNIT == 0x3_fffe_0000
    ensures SCENARIO_ADDRESS / L1_UNIT == 0x7ff_fc00_0091
    ensures SCENARIO_ADDRESS / L0_UNIT == 0xf_fff8_0001_2345
  {
    var a := SCENARIO_ADDRESS;
    assert a == 0xffff * TOP_UNIT + 0x8000_1234_5000;
    assert a == 0x1ff_ff00 * L3_UNIT + 0x1234_5000;
    assert a == 0x3_fffe_0000 * L2_UNIT + 0x1234_5000;
    assert a == 0x7ff_fc00_0091 * L1_UNIT + 0x14_5000;
    assert a == 0xf_fff8_0001_2345 * L0_UNIT;
  }

  lemma TopAddressRange()
    ensures RangeOf(SCENARIO_ADDRESS) == Some(Top)
  {
  }

  lemma TopAddressFieldTexts()
    ensures AddressPartTexts(SCENARIO_ADDRESS) == PartTexts("0", "0", "17", "5", "0")
  {
    TopAddressShifts();
    assert SCENARIO_ADDRESS / L3_UNIT % 0x20 == 0 && SCENARIO_ADDRESS / L2_UNIT % 0x20 == 0;
    assert SCENARIO_ADDRESS / L1_UNIT % 0x20 == 17 && SCENARIO_ADDRESS / L0_UNIT % 0x20 == 5;
    assert SCENARIO_ADDRESS % 0x800 == 0;
    assert ToDec(0) == "0" && ToDec(17) == "17" && ToDec(5) == "5" && ToHexLower(0) == "0";
  }

  lemma TopAddressFields()
    ensures Decompose(SCENARIO_ADDRESS) == Some(Parts(Top, 256, 0, 145, 325, 0))
  {
    TopAddressShifts();
    TopAddressRange();
    assert SCENARIO_ADDRESS % 4096 == 0;
  }

  /** The address-changed handler writes "0", "0", "17", "5" and "0" for the
      Top address `0xffff800012345000`, while its nine- and twelve-bit fields
      are 256, 0, 145, 325 and 0. */
  lemma TopAddressTexts()
    ensures RangeOf(SCENARIO_ADDRESS) == Some(Top)
    ensures AddressPartTexts(SCENARIO_ADDRESS) == PartTexts("0", "0", "17", "5", "0")
    ensures Decompose(SCENARIO_ADDRESS) == Some(Parts(Top, 256, 0, 145, 325, 0))
  {
    TopAddressRange();
    TopAddressFieldTexts();
    TopAddressFields();
  }

  /** All fields zero in the Bottom range compose to the address text "0". */
  lemma ZeroFieldsCompose()
    ensures PartsOf(Bottom, PartTexts("0", "0", "0", "0", "0")) == Some(Parts(Bottom, 0, 0, 0, 0, 0))
    ensures ToHexLower(Compose(Parts(Bottom, 0, 0, 0, 0, 0))) == "0"
  {
    ParseFromEntryPrinted(0, INDEX_LIMIT);
    ParseFromEntryPrinted(0, OFFSET_LIMIT);
  }

  /** The rows as the Top address left them, with the offset row edited to
      "5000": the indices are accepted, the offset is not. */
  lemma OutOfRangeOffsetRows()
    ensures ParseFromEntry("0", INDEX_LIMIT) == Some(0)
    ensures ParseFromEntry("17", INDEX_LIMIT) == Some(17)
    ensures ParseFromEntry("5", INDEX_LIMIT) == Some(5)
    ensures ParseFromEntry("5000", OFFSET_LIMIT) == None
  {
    assert ToDec(0) == "0" && ToDec(5) == "5";
    ParseFromEntryPrinted(0, INDEX_LIMIT);
    ParseFromEntryPrinted(5, INDEX_LIMIT);
    assert ParseFromEntry("17", INDEX_LIMIT) == Some(17) by {
      assert ToDec(17) == "17";
      ParseFromEntryPrinted(17, INDEX_LIMIT);
    }
    assert ParseFromEntry("5000", OFFSET_LIMIT) == None by {
      assert ToDec(5000) == "5000";
      ParseFromEntryPrinted(5000, OFFSET_LIMIT);
    }
  }

  /** So those rows give the part-changed handler nothing to compose. */
  lemma OutOfRangeOffsetUnread()
    ensures PartsOf(Top, PartTexts("0", "0", "17", "5", "5000")) == None
  {
    OutOfRangeOffsetRows();
  }

  /** Typed key by key instead, the offset row passes through "5", "50" and
      "500", all in bounds: with the Top rows each of those texts composes an
      address, so each keystroke rewrites the address row. */
  lemma KeyByKeyOffsets()
    ensures PartsOf(Top, PartTexts("0", "0", "17", "5", "5")) == Some(Parts(Top, 0, 0, 17, 5, 5))
    ensures PartsOf(Top, PartTexts("0", "0", "17", "5", "50")) == Some(Parts(Top, 0, 0, 17, 5, 50))
    ensures PartsOf(Top, PartTexts("0", "0", "17", "5", "500")) == Some(Parts(Top, 0, 0, 17, 5, 500))
  {
    OutOfRangeOffsetRows();
    assert ToDec(5) == "5";
    ParseFromEntryPrinted(5, OFFSET_LIMIT);
    assert ParseFromEntry("50", OFFSET_LIMIT) == Some(50) by {
      assert ToDec(50) == "50";
      ParseFromEntryPrinted(50, OFFSET_LIMIT);
    }
    assert ParseFromEntry("500", OFFSET_LIMIT) == Some(500) by {
      assert ToDec(500) == "500";
      ParseFromEntryPrinted(500, OFFSET_LIMIT);
    }
  }

  /** A whole address edit: the handler runs for the focused address row, and
      every row it writes (the range row and the five field rows) reports its
      change with the focus elsewhere. The echoes change nothing, so the cycle
      ends in the state the handler alone produces. */
  method AddressEditCycle(v: MainView)
    requires v.Valid()
    modifies v, v.addressValid, v.l3Valid, v.l2Valid, v.l1Valid, v.l0Valid, v.offsetValid
    ensures v.Valid()
    ensures v.addressText == old(v.addressText)
    ensures v.ParseAddressRow().None? ==>
      && !v.addressValid.wasValid
      && unchanged(v, v.l3Valid, v.l2Valid, v.l1Valid, v.l0Valid, v.offsetValid)
    ensures v.ParseAddressRow().Some? ==>
      var a := v.ParseAddressRow().value;
      && v.addressValid.wasValid == RangeOf(a).Some?
      && v.vaRange == (if RangeOf(a).Some? then SelectionOf(RangeOf(a).value) else old(v.vaRange))
      && v.Texts() == AddressPartTexts(a)
      && v.l3Valid.wasValid && v.l2Valid.wasValid && v.l1Valid.wasValid
      && v.l0Valid.wasValid && v.offsetValid.wasValid
  {
    v.OnAddressChanged(true);
    v.OnPartChanged(false);
    v.OnPartChanged(false);
    v.OnPartChanged(false);
    v.OnPartChanged(false);
    v.OnPartChanged(false);
    v.OnPartChanged(false);
  }

  /** A whole field edit: the handler runs for the focused field row, and the
      address row it may rewrite reports its change with the focus elsewhere.
      The echo changes nothing, so the address validity is left as it was and
      the address text is the recomposed one exactly when every row parses. */
  method PartEditCycle(v: MainView)
    requires v.Valid()
    modifies v, v.addressValid, v.l3Valid, v.l2Valid, v.l1Valid, v.l0Valid, v.offsetValid
    ensures v.Valid()
    ensures v.vaRange == old(v.vaRange) && v.Texts() == old(v.Texts())
    ensures unchanged(v.addressValid)
    ensures v.l3Valid.wasValid == ParseFromEntry(v.l3Text, INDEX_LIMIT).Some?
    ensures v.l2Valid.wasValid == ParseFromEntry(v.l2Text, INDEX_LIMIT).Some?
    ensures v.l1Valid.wasValid == ParseFromEntry(v.l1Text, INDEX_LIMIT).Some?
    ensures v.l0Valid.wasValid == ParseFromEntry(v.l0Text, INDEX_LIMIT).Some?
    ensures v.offsetValid.wasValid == ParseFromEntry(v.offsetText, OFFSET_LIMIT).Some?
    ensures v.addressText == match PartsOf(SelectedRange(v.vaRange), v.Texts())
                             case Some(p) => ToHexLower(Compose(p))
                             case None => old(v.addressText)
  {
    v.OnPartChanged(true);
    v.OnAddressChanged(false);
  }

  /** A fresh view whose address row holds the printed form of `a`. */
  method ViewWithAddressText(a: U64) returns (v: MainView)
    ensures v.Valid() && fresh(v)
    ensures fresh(v.addressValid) && fresh(v.l3Valid) && fresh(v.l2Valid)
    ensures fresh(v.l1Valid) && fresh(v.l0Valid) && fresh(v.offsetValid)
    ensures v.ParseAddressRow() == Some(a) && v.vaRange == 0
  {
    v := new MainView();
    v.addressText := ToHexLower(a);
    HexRoundTrip(a);
  }

  /** A fresh view whose address row receives the printed form of `a`. */
  method TypeAddress(a: U64) returns (v: MainView)
    ensures v.Valid() && fresh(v)
    ensures fresh(v.addressValid) && fresh(v.l3Valid) && fresh(v.l2Valid)
    ensures fresh(v.l1Valid) && fresh(v.l0Valid) && fresh(v.offsetValid)
    ensures v.ParseAddressRow() == Some(a)
    ensures v.addressValid.wasValid == RangeOf(a).Some?
    ensures v.vaRange == if RangeOf(a).Some? then SelectionOf(RangeOf(a).value) else 0
    ensures v.Texts() == AddressPartTexts(a)
    ensures v.l3Valid.wasValid && v.l2Valid.wasValid && v.l1Valid.wasValid
    ensures v.l0Valid.wasValid && v.offsetValid.wasValid
  {
    v := ViewWithAddressText(a);
    AddressEditCycle(v);
  }

  /** Typing the Top address `0xffff800012345000` into a fresh view. */
  method TypeTopAddress() returns (v: MainView)
    ensures v.Valid() && fresh(v)
    ensures fresh(v.addressValid) && fresh(v.l3Valid) && fresh(v.l2Valid)
    ensures fresh(v.l1Valid) && fresh(v.l0Valid) && fresh(v.offsetValid)
    ensures v.vaRange == 1 && v.addressValid.wasValid
    ensures v.ParseAddressRow() == Some(SCENARIO_ADDRESS)
    ensures v.Texts() == PartTexts("0", "0", "17", "5", "0")
    ensures v.l3Valid.wasValid && v.l2Valid.wasValid && v.l1Valid.wasValid
    ensures v.l0Valid.wasValid && v.offsetValid.wasValid
  {
    v := TypeAddress(SCENARIO_ADDRESS);
    TopAddressTexts();
  }

  /** Typing the Top address, then replacing the focused offset row's "0"
      with "5000" in one change (a paste): the offset row is flagged, the index
      rows stay valid, and the address row keeps its text. */
  method EditSession() returns (v: MainView)
    ensures v.Valid()
    ensures v.vaRange == 1 && v.addressValid.wasValid
    ensures v.ParseAddressRow() == Some(SCENARIO_ADDRESS)
    ensures v.Texts() == PartTexts("0", "0", "17", "5", "5000")
    ensures !v.offsetValid.wasValid && v.offsetValid.iconAttached
    ensures v.l3Valid.wasValid && v.l2Valid.wasValid && v.l1Valid.wasValid && v.l0Valid.wasValid
  {
    v := TypeTopAddress();
    v.offsetText := "5000";
    assert v.Texts() == PartTexts("0", "0", "17", "5", "5000");
    assert SelectedRange(v.vaRange) == Top;
    OutOfRangeOffsetRows();
    OutOfRangeOffsetUnread();
    v.OnPartChanged(true);
  }
}
