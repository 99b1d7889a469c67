/**
  The state behind the converter's main view: the address row, the VA range
  selector, the four index rows and the page-offset row, each editable row with
  its validity indicator, and the two change handlers that keep the address and
  its fields in step.
*/
module Postcode {
  import opened Options
  import opened Numerals
  import opened AddressCodec
  import opened Validity

  /** The texts of the four index rows and the page-offset row. */
  datatype PartTexts = PartTexts(l3: string, l2: string, l1: string, l0: string, offset: string)

  /** Reading the address row: strip the `0x` prefixes, parse as hexadecimal. */
  function ParseAddress(text: string): Option<U64> {
    ParseHex(TrimHexPrefix(text))
  }

  /** `parse_from_entry`: a decimal `u64` accepted only below `limit`. */
  function ParseFromEntry(text: string, limit: nat): (r: Option<U64>)
    ensures r.Some? ==> r == ParseDec(text) && r.value < limit
    ensures ParseDec(text).Some? && ParseDec(text).value < limit ==> r.Some?
  {
    match ParseDec(text)
    case Some(v) => if v < limit then Some(v) else None
    case None => None
  }

  /** The texts the address-changed handler writes for address `a`, with the
      masks as the handler has them: `0x1f` (five bits) for every index and
      `0x7ff` (eleven bits, printed in hexadecimal) for the offset. */
  function AddressPartTexts(a: U64): PartTexts {
    PartTexts(
      ToDec(a / L3_UNIT % 0x20),
      ToDec(a / L2_UNIT % 0x20),
      ToDec(a / L1_UNIT % 0x20),
      ToDec(a / L0_UNIT % 0x20),
      ToHexLower(a % 0x800))
  }

  /** The fields the part-changed handler reads from the rows: all five must
      parse under their bounds, or there is nothing to compose. */
  function PartsOf(range: VaRange, t: PartTexts): (r: Option<Parts>)
    ensures r.Some? ==> InBounds(r.value) && r.value.range == range
    ensures r.Some? <==>
      && ParseFromEntry(t.l3, INDEX_LIMIT).Some? && ParseFromEntry(t.l2, INDEX_LIMIT).Some?
      && ParseFromEntry(t.l1, INDEX_LIMIT).Some? && ParseFromEntry(t.l0, INDEX_LIMIT).Some?
      && ParseFromEntry(t.offset, OFFSET_LIMIT).Some?
    ensures r.Some? ==> r.value == Parts(range,
      ParseFromEntry(t.l3, INDEX_LIMIT).value, ParseFromEntry(t.l2, INDEX_LIMIT).value,
      ParseFromEntry(t.l1, INDEX_LIMIT).value, ParseFromEntry(t.l0, INDEX_LIMIT).value,
      ParseFromEntry(t.offset, OFFSET_LIMIT).value)
  {
    match (ParseFromEntry(t.l3, INDEX_LIMIT), ParseFromEntry(t.l2, INDEX_LIMIT),
           ParseFromEntry(t.l1, INDEX_LIMIT), ParseFromEntry(t.l0, INDEX_LIMIT),
           ParseFromEntry(t.offset, OFFSET_LIMIT))
    case (Some(l3), Some(l2), Some(l1), Some(l0), Some(offset)) => Some(Parts(range, l3, l2, l1, l0, offset))
    case _ => None
  }

  /** The combo row's items are "Bottom" (0) and "Top" (1). */
  function SelectedRange(selected: nat): (r: VaRange)
    requires selected <= 1
    ensures RangeBase(r) == if selected == 0 then 0x0000_0000_0000_0000 else 0xFFFF_0000_0000_0000
  {
    if selected == 0 then Bottom else Top
  }

  function SelectionOf(r: VaRange): (selected: nat)
    ensures selected <= 1 && SelectedRange(selected) == r
  {
    match r
    case Bottom => 0
    case Top => 1
  }

  class MainView {
    var addressText: string
    /** The selected item of the VA range combo row. */
    var vaRange: nat
    var l3Text: string
    var l2Text: string
    var l1Text: string
    var l0Text: string
    var offsetText: string

    const addressValid: ValidSetter
    const l3Valid: ValidSetter
    const l2Valid: ValidSetter
    const l1Valid: ValidSetter
    const l0Valid: ValidSetter
    const offsetValid: ValidSetter

    /** The address row's text as the address-changed handler reads it. */
    ghost function ParseAddressRow(): Option<U64>
      reads this
    {
      ParseAddress(addressText)
    }

    ghost function Texts(): PartTexts
      reads this
    {
      PartTexts(l3Text, l2Text, l1Text, l0Text, offsetText)
    }

    /** Each row has its own indicator. */
    ghost predicate SettersDistinct() {
      && addressValid != l3Valid && addressValid != l2Valid && addressValid != l1Valid
      && addressValid != l0Valid && addressValid != offsetValid
      && l3Valid != l2Valid && l3Valid != l1Valid && l3Valid != l0Valid && l3Valid != offsetValid
      && l2Valid != l1Valid && l2Valid != l0Valid && l2Valid != offsetValid
      && l1Valid != l0Valid && l1Valid != offsetValid
      && l0Valid != offsetValid
    }

    ghost predicate Valid()
      reads this, addressValid, l3Valid, l2Valid, l1Valid, l0Valid, offsetValid
    {
      && vaRange <= 1
      && SettersDistinct()
      && addressValid.Valid() && l3Valid.Valid() && l2Valid.Valid()
      && l1Valid.Valid() && l0Valid.Valid() && offsetValid.Valid()
    }

    /** Every row starts empty and valid, with "Bottom" selected. */
    constructor ()
      ensures Valid()
      ensures addressText == "" && vaRange == 0 && Texts() == PartTexts("", "", "", "", "")
      ensures addressValid.wasValid && l3Valid.wasValid && l2Valid.wasValid
      ensures l1Valid.wasValid && l0Valid.wasValid && offsetValid.wasValid
      ensures fresh(addressValid) && fresh(l3Valid) && fresh(l2Valid)
      ensures fresh(l1Valid) && fresh(l0Valid) && fresh(offsetValid)
    {
      addressText, vaRange := "", 0;
      l3Text, l2Text, l1Text, l0Text, offsetText := "", "", "", "", "";
      addressValid := new ValidSetter();
      l3Valid := new ValidSetter();
      l2Valid := new ValidSetter();
      l1Valid := new ValidSetter();
      l0Valid := new ValidSetter();
      offsetValid := new ValidSetter();
    }

    /** Reports the validity of the five field rows, in row order. */
    method SetPartsValid(l3: bool, l2: bool, l1: bool, l0: bool, offset: bool)
      requires Valid()
      modifies l3Valid, l2Valid, l1Valid, l0Valid, offsetValid
      ensures Valid()
      ensures l3Valid.wasValid == l3 && l2Valid.wasValid == l2 && l1Valid.wasValid == l1
      ensures l0Valid.wasValid == l0 && offsetValid.wasValid == offset
      ensures unchanged(addressValid)
      ensures old(l3Valid.wasValid) == l3 && old(l2Valid.wasValid) == l2 && old(l1Valid.wasValid) == l1
              && old(l0Valid.wasValid) == l0 && old(offsetValid.wasValid) == offset
              ==> unchanged(l3Valid, l2Valid, l1Valid, l0Valid, offsetValid)
    {
      var _ := l3Valid.Set(l3);
      var _ := l2Valid.Set(l2);
      var _ := l1Valid.Set(l1);
      var _ := l0Valid.Set(l0);
      var _ := offsetValid.Set(offset);
    }

    /** `set_text` on the five field rows. The change signals this raises reach
        `OnPartChanged` with the rows unfocused, which changes nothing. */
    method SetPartTexts(t: PartTexts)
      requires Valid()
      modifies this
      ensures Valid() && Texts() == t
      ensures addressText == old(addressText) && vaRange == old(vaRange)
    {
      l3Text, l2Text, l1Text, l0Text, offsetText := t.l3, t.l2, t.l1, t.l0, t.offset;
    }

    /** The body of the address-changed handler once the text has parsed:
        select the range from bits 63..48 (reporting whether they were
        `0x0000` or `0xFFFF`), write the five field rows and mark them valid. */
    method ShowAddress(address: U64) returns (isValid: bool)
      requires Valid()
      modifies this, l3Valid, l2Valid, l1Valid, l0Valid, offsetValid
      ensures Valid()
      ensures isValid == RangeOf(address).Some?
      ensures vaRange == (if isValid then SelectionOf(RangeOf(address).value) else old(vaRange))
      ensures addressText == old(addressText) && Texts() == AddressPartTexts(address)
      ensures unchanged(addressValid)
      ensures l3Valid.wasValid && l2Valid.wasValid && l1Valid.wasValid
      ensures l0Valid.wasValid && offsetValid.wasValid
    {
      isValid := true;
      // `address.checked_shr(48)` never fails for a shift of 48
      var top := address / TOP_UNIT;
      if top == 0x0000 {
        vaRange := 0;
      } else if top == 0xFFFF {
        vaRange := 1;
      } else {
        isValid := false;
      }
      SetPartTexts(AddressPartTexts(address));
      SetPartsValid(true, true, true, true, true);
    }

    /** The address row changed. Unless the row has focus (the change came from
        the other handler) nothing happens. A text that does not parse marks the
        address invalid and touches nothing else. A parsed address rewrites all
        five field rows and marks them valid, whatever its top bits; the range
        selection and the address's own validity follow bits 63..48. */
    method OnAddressChanged(focused: bool)
      requires Valid()
      modifies this, addressValid, l3Valid, l2Valid, l1Valid, l0Valid, offsetValid
      ensures Valid()
      ensures addressText == old(addressText)
      ensures !focused ==>
        unchanged(this, addressValid, l3Valid, l2Valid, l1Valid, l0Valid, offsetValid)
      ensures focused && ParseAddressRow().None? ==>
        && !addressValid.wasValid
        && unchanged(this, l3Valid, l2Valid, l1Valid, l0Valid, offsetValid)
      ensures focused && ParseAddressRow().Some? ==>
        var a := ParseAddressRow().value;
        && addressValid.wasValid == RangeOf(a).Some?
        && vaRange == (if RangeOf(a).Some? then SelectionOf(RangeOf(a).value) else old(vaRange))
        && Texts() == AddressPartTexts(a)
        && l3Valid.wasValid && l2Valid.wasValid && l1Valid.wasValid
        && l0Valid.wasValid && offsetValid.wasValid
    {
      if !focused {
        return;
      }
      var isValid := false;
      match ParseAddress(addressText) {
        case Some(address) =>
          isValid := ShowAddress(address);
        case None =>
      }
      var _ := addressValid.Set(isValid);
    }

    /** One of the range or field rows changed. Unless it has focus nothing
        happens. Every field row's validity is set to whether its text parses
        under its bound; the address row is rewritten, in lower-case
        hexadecimal, only when all five do, and its validity is never touched. */
    method OnPartChanged(focused: bool)
      requires Valid()
      modifies this, l3Valid, l2Valid, l1Valid, l0Valid, offsetValid
      ensures Valid()
      ensures vaRange == old(vaRange) && Texts() == old(Texts())
      ensures unchanged(addressValid)
      ensures !focused ==> unchanged(this, l3Valid, l2Valid, l1Valid, l0Valid, offsetValid)
      ensures focused ==>
        && l3Valid.wasValid == ParseFromEntry(l3Text, INDEX_LIMIT).Some?
        && l2Valid.wasValid == ParseFromEntry(l2Text, INDEX_LIMIT).Some?
        && l1Valid.wasValid == ParseFromEntry(l1Text, INDEX_LIMIT).Some?
        && l0Valid.wasValid == ParseFromEntry(l0Text, INDEX_LIMIT).Some?
        && offsetValid.wasValid == ParseFromEntry(offsetText, OFFSET_LIMIT).Some?
        && addressText == match PartsOf(SelectedRange(vaRange), Texts())
                          case Some(p) => ToHexLower(Compose(p))
                          case None => old(addressText)
    {
      if !focused {
        // avoids the two handlers triggering each other without end
        return;
      }
      var range := SelectedRange(vaRange);
      var l3 := ParseFromEntry(l3Text, INDEX_LIMIT);
      var l2 := ParseFromEntry(l2Text, INDEX_LIMIT);
      var l1 := ParseFromEntry(l1Text, INDEX_LIMIT);
      var l0 := ParseFromEntry(l0Text, INDEX_LIMIT);
      var offset := ParseFromEntry(offsetText, OFFSET_LIMIT);
      SetPartsValid(l3.Some?, l2.Some?, l1.Some?, l0.Some?, offset.Some?);
      if l3.None? || l2.None? || l1.None? || l0.None? || offset.None? {
        return;
      }
      var address := Compose(Parts(range, l3.value, l2.value, l1.value, l0.value, offset.value));
      addressText := ToHexLower(address);
    }
  }

  /** The address row reads the same value with or without a `0x` in front
      of its text, and reads the printed form of every address back. */
  lemma ParseAddressSkipsPrefix(text: string, n: U64)
    ensures ParseAddress("0x" + text) == ParseAddress(text)
    ensures ParseAddress(ToHexLower(n)) == Some(n)
    ensures ParseAddress("0x" + ToHexLower(n)) == Some(n)
  {
    TrimSkipsPrefix(text);
    TrimSkipsPrefix(ToHexLower(n));
    HexRoundTrip(n);
  }

  /** A field row holding the decimal text of `v` is accepted exactly when `v`
      is below the row's bound. */
  lemma ParseFromEntryPrinted(v: U64, limit: nat)
    ensures ParseFromEntry(ToDec(v), limit) == if v < limit then Some(v) else None
  {
    ParsePrinted(v, 10);
  }

  /** What the address-changed handler writes reads back, whatever the
      address: each index row holds the decimal of a five-bit field, which
      its bound of 512 accepts, and the offset row holds the hexadecimal of
      the low eleven bits. */
  lemma AddressPartTextsRead(a: U64)
    ensures ParseFromEntry(AddressPartTexts(a).l3, INDEX_LIMIT) == Some(a / L3_UNIT % 32)
    ensures ParseFromEntry(AddressPartTexts(a).l2, INDEX_LIMIT) == Some(a / L2_UNIT % 32)
    ensures ParseFromEntry(AddressPartTexts(a).l1, INDEX_LIMIT) == Some(a / L1_UNIT % 32)
    ensures ParseFromEntry(AddressPartTexts(a).l0, INDEX_LIMIT) == Some(a / L0_UNIT % 32)
    ensures ParseHex(AddressPartTexts(a).offset) == Some(a % 2048)
  {
    ParseFromEntryPrinted(a / L3_UNIT % 32, INDEX_LIMIT);
    ParseFromEntryPrinted(a / L2_UNIT % 32, INDEX_LIMIT);
    ParseFromEntryPrinted(a / L1_UNIT % 32, INDEX_LIMIT);
    ParseFromEntryPrinted(a / L0_UNIT % 32, INDEX_LIMIT);
    ParsePrinted(a % 2048, 16);
  }

  /** The address the part-changed handler writes is canonical, lies in the
      selected range, reads back through the address row's parser, and
      decomposes into exactly the fields it was composed from. */
  lemma RecomposedAddressReadsBack(range: VaRange, t: PartTexts)
    requires PartsOf(range, t).Some?
    ensures var a := Compose(PartsOf(range, t).value);
      && ParseAddress(ToHexLower(a)) == Some(a)
      && RangeOf(a) == Some(range)
      && Decompose(a) == PartsOf(range, t)
  {
    var p := PartsOf(range, t).value;
    HexRoundTrip(Compose(p));
    DecomposeCompose(p);
  }
}
