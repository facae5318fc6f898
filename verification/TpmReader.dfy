/** The forward-only cursor and the parsers written over it. */
module TpmReader {
  import opened Prelude
  import opened Tpm
  import opened TpmKeys

  /** The parse of the bytes that remain, as a reader step: the value is returned and
      the cursor is left at the rest; after an error the cursor does not matter. */
  ghost predicate Follows<T>(step: Parsed<T>, r: Result<T, ParseError>, rest: Bytes) {
    match step
    case Err(e) => r == Err(e)
    case Ok((v, s)) => r == Ok(v) && rest == s
  }

  class Reader {
    const buf: Bytes
    var pos: nat

    ghost predicate Valid()
      reads this
    {
      pos <= |buf|
    }

    ghost function Rest(): Bytes
      requires Valid()
      reads this
    {
      buf[pos..]
    }

    constructor (buf: Bytes)
      ensures Valid() && Rest() == buf
    {
      this.buf, this.pos := buf, 0;
    }

    function Remaining(): (n: nat)
      requires Valid()
      reads this
      ensures n == |Rest()|
    {
      |buf| - pos
    }

    method TakeBytes(n: nat, ctx: string) returns (r: Result<Bytes, ParseError>)
      requires Valid()
      modifies this
      ensures Valid() && Follows(Take(old(Rest()), n, ctx), r, Rest())
    {
      if Remaining() < n {
        return Err(Truncated(ctx));
      }
      r := Ok(buf[pos..pos + n]);
      assert buf[pos..][..n] == buf[pos..pos + n] && buf[pos..][n..] == buf[pos + n..];
      pos := pos + n;
    }

    method U8(ctx: string) returns (r: Result<Byte, ParseError>)
      requires Valid()
      modifies this
      ensures Valid() && Follows(ReadU8(old(Rest()), ctx), r, Rest())
    {
      var b :- TakeBytes(1, ctx);
      r := Ok(b[0]);
    }

    method U16(ctx: string) returns (r: Result<U16, ParseError>)
      requires Valid()
      modifies this
      ensures Valid() && Follows(ReadU16(old(Rest()), ctx), r, Rest())
    {
      var b :- TakeBytes(2, ctx);
      r := Ok(BeU16(b[0], b[1]));
    }

    method U32(ctx: string) returns (r: Result<U32, ParseError>)
      requires Valid()
      modifies this
      ensures Valid() && Follows(ReadU32(old(Rest()), ctx), r, Rest())
    {
      var b :- TakeBytes(4, ctx);
      r := Ok(BeU16(b[0], b[1]) * 0x1_0000 + BeU16(b[2], b[3]));
    }

    method Tpm2b(ctx: string) returns (r: Result<Bytes, ParseError>)
      requires Valid()
      modifies this
      ensures Valid() && Follows(ReadTpm2b(old(Rest()), ctx), r, Rest())
    {
      var len :- U16(ctx);
      if Remaining() < len {
        return Err(BadLength(ctx, len, Remaining()));
      }
      r := TakeBytes(len, ctx);
    }
  }

  /** What was read so far, put before what is still to be read. */
  function Prepend(done: seq<PcrSelection>, rest: Parsed<seq<PcrSelection>>): Parsed<seq<PcrSelection>> {
    match rest
    case Err(e) => Err(e)
    case Ok((more, s)) => Ok((done + more, s))
  }

  method ParseQuoteInfo(buf: Bytes) returns (res: Result<QuoteInfo, ParseError>)
    ensures res == ParseQuote(buf)
  {
    var r := new Reader(buf);
    var magic :- r.U32("TPMS_ATTEST.magic");
    var attestType :- r.U16("TPMS_ATTEST.type");
    var _ :- r.Tpm2b("TPMS_ATTEST.qualifiedSigner");
    var extraData :- r.Tpm2b("TPMS_ATTEST.extraData");
    ghost var s1 := r.Rest();
    assert ReadFront(buf).Ok? && ReadFront(buf).value.1 == s1;
    var _ :- r.TakeBytes(8, "TPMS_CLOCK_INFO.clock");
    var _ :- r.U32("TPMS_CLOCK_INFO.resetCount");
    var _ :- r.U32("TPMS_CLOCK_INFO.restartCount");
    var _ :- r.U8("TPMS_CLOCK_INFO.safe");
    var _ :- r.TakeBytes(8, "TPMS_ATTEST.firmwareVersion");
    ghost var s2 := r.Rest();
    assert ReadMiddle(s1).Ok? && ReadMiddle(s1).value.1 == s2;
    var count :- r.U32("TPML_PCR_SELECTION.count");
    var sels :- ReadAllSelections(r, count);
    var digest :- r.Tpm2b("TPMS_QUOTE_INFO.pcrDigest");
    if r.Remaining() != 0 {
      return Err(TrailingBytes(r.Remaining()));
    }
    res := Ok(QuoteInfo(magic, attestType, extraData, sels, digest));
  }

  method ReadAllSelections(r: Reader, count: nat) returns (res: Result<seq<PcrSelection>, ParseError>)
    requires r.Valid()
    modifies r
    ensures r.Valid() && Follows(ReadSelections(old(r.Rest()), count), res, r.Rest())
  {
    var out: seq<PcrSelection> := [];
    ghost var goal := ReadSelections(r.Rest(), count);
    PrependNothing(goal);
    for i := 0 to count
      invariant r.Valid() && Prepend(out, ReadSelections(r.Rest(), count - i)) == goal
    {
      ghost var s := r.Rest();
      var sel :- ReadOneSelection(r);
      PrependStep(out, sel, s, r.Rest(), count - i);
      out := out + [sel];
    }
    assert out + [] == out;
    res := Ok(out);
  }

  method ReadOneSelection(r: Reader) returns (res: Result<PcrSelection, ParseError>)
    requires r.Valid()
    modifies r
    ensures r.Valid() && Follows(ReadSelection(old(r.Rest())), res, r.Rest())
  {
    var hashAlg :- r.U16("TPMS_PCR_SELECTION.hash");
    var size :- r.U8("TPMS_PCR_SELECTION.sizeofSelect");
    var bitmap :- r.TakeBytes(size as int, "TPMS_PCR_SELECTION.pcrSelect");
    res := Ok(PcrSelection(hashAlg, bitmap));
  }

  lemma PrependNothing(r: Parsed<seq<PcrSelection>>)
    ensures Prepend([], r) == r
  {
    if r.Ok? {
      assert [] + r.value.0 == r.value.0;
    }
  }

  lemma PrependStep(done: seq<PcrSelection>, sel: PcrSelection, s: Bytes, rest: Bytes, count: nat)
    requires count > 0 && ReadSelection(s) == Ok((sel, rest))
    ensures Prepend(done, ReadSelections(s, count)) == Prepend(done + [sel], ReadSelections(rest, count - 1))
  {
    var r := ReadSelections(rest, count - 1);
    if r.Ok? {
      Assoc(done, [sel], r.value.0);
    }
  }

  method ParseEccPublic(buf: Bytes) returns (res: Result<EccPublic, ParseError>)
    ensures res == ParseEcc(buf)
  {
    var r := new Reader(buf);
    var objType :- r.U16("TPMT_PUBLIC.type");
    if objType != TPM_ALG_ECC {
      return Err(Unexpected("TPMT_PUBLIC.type", objType));
    }
    var _ :- r.U16("TPMT_PUBLIC.nameAlg");
    var attributes :- r.U32("TPMT_PUBLIC.objectAttributes");
    var _ :- r.Tpm2b("TPMT_PUBLIC.authPolicy");
    var symAlg :- r.U16("TPMT_SYM_DEF_OBJECT.algorithm");
    if symAlg != TPM_ALG_NULL {
      return Err(Unexpected("TPMT_SYM_DEF_OBJECT.algorithm", symAlg));
    }
    var scheme :- r.U16("TPMT_ECC_SCHEME.scheme");
    var schemeHash := 0;
    if scheme != TPM_ALG_NULL {
      schemeHash :- r.U16("TPMT_ECC_SCHEME.details.hashAlg");
    }
    var curveId :- r.U16("TPMS_ECC_PARMS.curveID");
    var kdf :- r.U16("TPMT_KDF_SCHEME.scheme");
    if kdf != TPM_ALG_NULL {
      return Err(Unexpected("TPMT_KDF_SCHEME.scheme", kdf));
    }
    var x :- r.Tpm2b("TPMS_ECC_POINT.x");
    var y :- r.Tpm2b("TPMS_ECC_POINT.y");
    if r.Remaining() != 0 {
      return Err(TrailingBytes(r.Remaining()));
    }
    res := Ok(EccPublic(attributes, curveId, scheme, schemeHash, x, y));
  }

  method ParseEcdsaSignature(buf: Bytes) returns (res: Result<EcdsaSignature, ParseError>)
    ensures res == ParseEcdsa(buf)
  {
    var r := new Reader(buf);
    var sigAlg :- r.U16("TPMT_SIGNATURE.sigAlg");
    if sigAlg != TPM_ALG_ECDSA {
      return Err(Unexpected("TPMT_SIGNATURE.sigAlg", sigAlg));
    }
    var hashAlg :- r.U16("TPMS_SIGNATURE_ECC.hash");
    var rVal :- r.Tpm2b("TPMS_SIGNATURE_ECC.signatureR");
    var sVal :- r.Tpm2b("TPMS_SIGNATURE_ECC.signatureS");
    if r.Remaining() != 0 {
      return Err(TrailingBytes(r.Remaining()));
    }
    res := Ok(EcdsaSignature(hashAlg, rVal, sVal));
  }
}
