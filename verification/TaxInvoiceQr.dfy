/** The TLV payload of the tax invoice (_tlv and build_tlv_base64 of erp_core/einvoice.py). */
module TaxInvoiceQr {
  import opened Json
  import opened Utf8
  import opened Base64
  import opened Decimals

  /** A tag, a length byte and the UTF-8 value.  Python raises on a lone surrogate and on a length
      that does not fit the byte. */
  function Tlv(tag: Byte, value: Text): Decoded<Bytes> {
    if !Fits(value) then Malformed
    else Ok([tag, |Encode(value)|] + Encode(value))
  }

  predicate Fits(value: Text) {
    Encodable(value) && |Encode(value)| <= 255
  }

  function TlvAll(fields: seq<(Byte, Text)>): Decoded<Bytes> {
    if fields == [] then Ok([])
    else
      match (Tlv(fields[0].0, fields[0].1), TlvAll(fields[1..]))
      case (Ok(head), Ok(tail)) => Ok(head + tail)
      case _ => Malformed
  }

  /** Seller, tax number and timestamp as given; the two amounts, in piastres, with two decimals. */
  function BuildTlvBase64(seller: Text, trn: Text, timestamp: Text, total: int, vat: int): Decoded<Text> {
    match TlvAll([(1, seller), (2, trn), (3, timestamp), (4, Amount(total)), (5, Amount(vat))])
    case Malformed => Malformed
    case Ok(payload) => Ok(Encode64(payload))
  }

  // ---------- reading it back ----------

  /** The (tag, value) pairs of a TLV byte string. */
  function ReadTlv(s: Bytes): Decoded<seq<(Byte, Text)>>
    decreases |s|
  {
    if s == [] then Ok([])
    else if |s| < 2 || |s| < 2 + s[1] as int || !Valid(s[2..2 + s[1] as int]) then Malformed
    else
      match ReadTlv(s[2 + s[1] as int..])
      case Malformed => Malformed
      case Ok(more) => Ok([(s[0], Decode(s[2..2 + s[1] as int]))] + more)
  }

  lemma ReadsOne(tag: Byte, value: Text, rest: Bytes)
    requires Fits(value)
    ensures var s := [tag, |Encode(value)|] + Encode(value) + rest;
      ReadTlv(s) == match ReadTlv(rest)
        case Malformed => Malformed
        case Ok(more) => Ok([(tag, value)] + more)
  {
    var raw := Encode(value);
    var s := [tag, |raw|] + raw + rest;
    EncodeRoundTrip(value);
    assert s[2..2 + |raw|] == raw && s[2 + |raw|..] == rest;
  }

  predicate AllFit(fields: seq<(Byte, Text)>) {
    forall i :: 0 <= i < |fields| ==> Fits(fields[i].1)
  }

  lemma {:induction false} TlvReadsBack(fields: seq<(Byte, Text)>)
    ensures TlvAll(fields).Ok? <==> AllFit(fields)
    ensures TlvAll(fields).Ok? ==> ReadTlv(TlvAll(fields).value) == Ok(fields)
  {
    if fields != [] {
      var rest := fields[1..];
      TlvReadsBack(rest);
      assert AllFit(fields) <==> Fits(fields[0].1) && AllFit(rest) by {
        assert forall i :: 0 <= i < |rest| ==> rest[i] == fields[i + 1];
      }
      if TlvAll(fields).Ok? {
        ReadsOne(fields[0].0, fields[0].1, TlvAll(rest).value);
        assert [fields[0]] + rest == fields;
      }
    }
  }

  /** The QR text is produced exactly when the five values fit, and then reads back as those values
      under the tags 1 to 5; the amounts are the numbers they came from. */
  lemma QrReadsBack(seller: Text, trn: Text, timestamp: Text, total: int, vat: int)
    ensures var fields := [(1, seller), (2, trn), (3, timestamp), (4, Amount(total)), (5, Amount(vat))];
      var qr := BuildTlvBase64(seller, trn, timestamp, total, vat);
      && (qr.Ok? <==> AllFit(fields))
      && (qr.Ok? ==> exists payload :: Decode64(qr.value) == Ok(payload) && ReadTlv(payload) == Ok(fields))
    ensures ReadAmount(Amount(total)) == total && ReadAmount(Amount(vat)) == vat
  {
    var fields := [(1, seller), (2, trn), (3, timestamp), (4, Amount(total)), (5, Amount(vat))];
    TlvReadsBack(fields);
    if TlvAll(fields).Ok? {
      var payload := TlvAll(fields).value;
      Base64RoundTrip(payload);
      assert Decode64(Encode64(payload)) == Ok(payload) && ReadTlv(payload) == Ok(fields);
    }
    AmountRoundTrip(total);
    AmountRoundTrip(vat);
  }
}
