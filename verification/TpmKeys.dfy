/** The AIK public area (TPMT_PUBLIC) and the quote signature (TPMT_SIGNATURE). */
module TpmKeys {
  import opened Prelude
  import opened Tpm

  datatype EcdsaSignature = EcdsaSignature(hashAlg: U16, r: Bytes, s: Bytes)

  function MarshalEcdsa(g: EcdsaSignature): Bytes
    requires |g.r| < 0x1_0000 && |g.s| < 0x1_0000
  {
    PutU16(TPM_ALG_ECDSA) + (PutU16(g.hashAlg) + (PutTpm2b(g.r) + PutTpm2b(g.s)))
  }

  function ParseEcdsa(buf: Bytes): Result<EcdsaSignature, ParseError> {
    var (alg, s1) :- ReadU16(buf, "TPMT_SIGNATURE.sigAlg");
    if alg != TPM_ALG_ECDSA then Err(Unexpected("TPMT_SIGNATURE.sigAlg", alg))
    else
      var (hashAlg, s2) :- ReadU16(s1, "TPMS_SIGNATURE_ECC.hash");
      var (r, s3) :- ReadTpm2b(s2, "TPMS_SIGNATURE_ECC.signatureR");
      var (s, s4) :- ReadTpm2b(s3, "TPMS_SIGNATURE_ECC.signatureS");
      if |s4| != 0 then Err(TrailingBytes(|s4|)) else Ok(EcdsaSignature(hashAlg, r, s))
  }

  /** A signature parses exactly when it is a marshaled ECDSA one, to its own fields. */
  lemma EcdsaRoundTrip(g: EcdsaSignature)
    requires |g.r| < 0x1_0000 && |g.s| < 0x1_0000
    ensures ParseEcdsa(MarshalEcdsa(g)) == Ok(g)
  {
    var r2 := PutTpm2b(g.s);
    var r1 := PutTpm2b(g.r) + r2;
    U16Round(TPM_ALG_ECDSA, PutU16(g.hashAlg) + r1, "TPMT_SIGNATURE.sigAlg");
    U16Round(g.hashAlg, r1, "TPMS_SIGNATURE_ECC.hash");
    Tpm2bRound(g.r, r2, "TPMS_SIGNATURE_ECC.signatureR");
    assert r2 + [] == r2;
    Tpm2bRound(g.s, [], "TPMS_SIGNATURE_ECC.signatureS");
  }

  lemma EcdsaExact(buf: Bytes)
    requires ParseEcdsa(buf).Ok?
    ensures var g := ParseEcdsa(buf).value; |g.r| < 0x1_0000 && |g.s| < 0x1_0000 && MarshalEcdsa(g) == buf
  {
    var (alg, s1) := ReadU16(buf, "TPMT_SIGNATURE.sigAlg").value;
    var (hashAlg, s2) := ReadU16(s1, "TPMS_SIGNATURE_ECC.hash").value;
    var (r, s3) := ReadTpm2b(s2, "TPMS_SIGNATURE_ECC.signatureR").value;
    var (s, s4) := ReadTpm2b(s3, "TPMS_SIGNATURE_ECC.signatureS").value;
    U16Exact(buf, "TPMT_SIGNATURE.sigAlg");
    U16Exact(s1, "TPMS_SIGNATURE_ECC.hash");
    Tpm2bExact(s2, "TPMS_SIGNATURE_ECC.signatureR");
    Tpm2bExact(s3, "TPMS_SIGNATURE_ECC.signatureS");
    assert s4 == [] && s3 == PutTpm2b(s);
  }

  /** What the parser keeps of a public area. */
  datatype EccPublic = EccPublic(attributes: U32, curveId: U16, scheme: U16, schemeHash: U16, x: Bytes, y: Bytes)

  /** A whole ECC TPMT_PUBLIC with no symmetric algorithm and no KDF. */
  datatype EccArea = EccArea(key: EccPublic, nameAlg: U16, authPolicy: Bytes)

  predicate GoodArea(a: EccArea) {
    && |a.authPolicy| < 0x1_0000 && |a.key.x| < 0x1_0000 && |a.key.y| < 0x1_0000
    && (a.key.scheme == TPM_ALG_NULL ==> a.key.schemeHash == 0)
  }

  /** A scheme and, unless it is NULL, its hash. */
  function PutScheme(scheme: U16, hash: U16): Bytes {
    PutU16(scheme) + if scheme == TPM_ALG_NULL then [] else PutU16(hash)
  }

  function ReadScheme(s: Bytes): Parsed<(U16, U16)> {
    var (scheme, s1) :- ReadU16(s, "TPMT_ECC_SCHEME.scheme");
    if scheme == TPM_ALG_NULL then Ok(((scheme, 0), s1))
    else
      var (hash, s2) :- ReadU16(s1, "TPMT_ECC_SCHEME.details.hashAlg");
      Ok(((scheme, hash), s2))
  }

  function ReadExpected(s: Bytes, want: U16, field: string): Parsed<U16> {
    var (got, rest) :- ReadU16(s, field);
    if got != want then Err(Unexpected(field, got)) else Ok((got, rest))
  }

  function MarshalEcc(a: EccArea): Bytes
    requires GoodArea(a)
  {
    PutU16(TPM_ALG_ECC) + (PutU16(a.nameAlg) +
      (PutU32(a.key.attributes) + (PutTpm2b(a.authPolicy) + (PutU16(TPM_ALG_NULL) +
    (PutScheme(a.key.scheme, a.key.schemeHash) +
      (PutU16(a.key.curveId) + (PutU16(TPM_ALG_NULL) + (PutTpm2b(a.key.x) + PutTpm2b(a.key.y)))))))))
  }

  function ParseEcc(buf: Bytes): Result<EccPublic, ParseError> {
    var (_, s1) :- ReadExpected(buf, TPM_ALG_ECC, "TPMT_PUBLIC.type");
    var (_, s2) :- ReadU16(s1, "TPMT_PUBLIC.nameAlg");
    var (attributes, s3) :- ReadU32(s2, "TPMT_PUBLIC.objectAttributes");
    var (_, s4) :- ReadTpm2b(s3, "TPMT_PUBLIC.authPolicy");
    var (_, s5) :- ReadExpected(s4, TPM_ALG_NULL, "TPMT_SYM_DEF_OBJECT.algorithm");
    var (scheme, s6) :- ReadScheme(s5);
    var (curve, s7) :- ReadU16(s6, "TPMS_ECC_PARMS.curveID");
    var (_, s8) :- ReadExpected(s7, TPM_ALG_NULL, "TPMT_KDF_SCHEME.scheme");
    var (x, s9) :- ReadTpm2b(s8, "TPMS_ECC_POINT.x");
    var (y, s10) :- ReadTpm2b(s9, "TPMS_ECC_POINT.y");
    if |s10| != 0 then Err(TrailingBytes(|s10|))
    else Ok(EccPublic(attributes, curve, scheme.0, scheme.1, x, y))
  }

  lemma SchemeRound(scheme: U16, hash: U16, rest: Bytes)
    requires scheme == TPM_ALG_NULL ==> hash == 0
    ensures ReadScheme(PutScheme(scheme, hash) + rest) == Ok(((scheme, hash), rest))
  {
    if scheme == TPM_ALG_NULL {
      assert PutScheme(scheme, hash) + rest == PutU16(scheme) + rest;
      U16Round(scheme, rest, "TPMT_ECC_SCHEME.scheme");
    } else {
      assert PutScheme(scheme, hash) + rest == PutU16(scheme) + (PutU16(hash) + rest);
      U16Round(scheme, PutU16(hash) + rest, "TPMT_ECC_SCHEME.scheme");
      U16Round(hash, rest, "TPMT_ECC_SCHEME.details.hashAlg");
    }
  }

  lemma SchemeExact(s: Bytes)
    ensures ReadScheme(s).Ok? ==>
              var (p, rest) := ReadScheme(s).value;
              (p.0 == TPM_ALG_NULL ==> p.1 == 0) && s == PutScheme(p.0, p.1) + rest
  {
    U16Exact(s, "TPMT_ECC_SCHEME.scheme");
    if ReadScheme(s).Ok? {
      var (scheme, s1) := ReadU16(s, "TPMT_ECC_SCHEME.scheme").value;
      U16Exact(s1, "TPMT_ECC_SCHEME.details.hashAlg");
      if scheme != TPM_ALG_NULL {
        var (hash, s2) := ReadU16(s1, "TPMT_ECC_SCHEME.details.hashAlg").value;
        Assoc(PutU16(scheme), PutU16(hash), s2);
      }
    }
  }

  lemma EccRoundTrip(a: EccArea)
    requires GoodArea(a)
    ensures ParseEcc(MarshalEcc(a)) == Ok(a.key)
  {
    var r9 := PutTpm2b(a.key.y);
    var r8 := PutTpm2b(a.key.x) + r9;
    var r7 := PutU16(TPM_ALG_NULL) + r8;
    var r6 := PutU16(a.key.curveId) + r7;
    var r5 := PutScheme(a.key.scheme, a.key.schemeHash) + r6;
    var r4 := PutU16(TPM_ALG_NULL) + r5;
    var r3 := PutTpm2b(a.authPolicy) + r4;
    var r2 := PutU32(a.key.attributes) + r3;
    var r1 := PutU16(a.nameAlg) + r2;
    U16Round(TPM_ALG_ECC, r1, "TPMT_PUBLIC.type");
    U16Round(a.nameAlg, r2, "TPMT_PUBLIC.nameAlg");
    U32Round(a.key.attributes, r3, "TPMT_PUBLIC.objectAttributes");
    Tpm2bRound(a.authPolicy, r4, "TPMT_PUBLIC.authPolicy");
    U16Round(TPM_ALG_NULL, r5, "TPMT_SYM_DEF_OBJECT.algorithm");
    SchemeRound(a.key.scheme, a.key.schemeHash, r6);
    U16Round(a.key.curveId, r7, "TPMS_ECC_PARMS.curveID");
    U16Round(TPM_ALG_NULL, r8, "TPMT_KDF_SCHEME.scheme");
    Tpm2bRound(a.key.x, r9, "TPMS_ECC_POINT.x");
    assert r9 + [] == r9;
    Tpm2bRound(a.key.y, [], "TPMS_ECC_POINT.y");
  }

  lemma EccExact(buf: Bytes) returns (a: EccArea)
    requires ParseEcc(buf).Ok?
    ensures GoodArea(a) && MarshalEcc(a) == buf && ParseEcc(buf) == Ok(a.key)
  {
    var (_, s1) := ReadExpected(buf, TPM_ALG_ECC, "TPMT_PUBLIC.type").value;
    var (nameAlg, s2) := ReadU16(s1, "TPMT_PUBLIC.nameAlg").value;
    var (_, s3) := ReadU32(s2, "TPMT_PUBLIC.objectAttributes").value;
    var (authPolicy, s4) := ReadTpm2b(s3, "TPMT_PUBLIC.authPolicy").value;
    var (_, s5) := ReadExpected(s4, TPM_ALG_NULL, "TPMT_SYM_DEF_OBJECT.algorithm").value;
    var (_, s6) := ReadScheme(s5).value;
    var (_, s7) := ReadU16(s6, "TPMS_ECC_PARMS.curveID").value;
    var (_, s8) := ReadExpected(s7, TPM_ALG_NULL, "TPMT_KDF_SCHEME.scheme").value;
    var (_, s9) := ReadTpm2b(s8, "TPMS_ECC_POINT.x").value;
    var (y, s10) := ReadTpm2b(s9, "TPMS_ECC_POINT.y").value;
    a := EccArea(ParseEcc(buf).value, nameAlg, authPolicy);
    U16Exact(buf, "TPMT_PUBLIC.type");
    U16Exact(s1, "TPMT_PUBLIC.nameAlg");
    U32Exact(s2, "TPMT_PUBLIC.objectAttributes");
    Tpm2bExact(s3, "TPMT_PUBLIC.authPolicy");
    U16Exact(s4, "TPMT_SYM_DEF_OBJECT.algorithm");
    SchemeExact(s5);
    U16Exact(s6, "TPMS_ECC_PARMS.curveID");
    U16Exact(s7, "TPMT_KDF_SCHEME.scheme");
    Tpm2bExact(s8, "TPMS_ECC_POINT.x");
    Tpm2bExact(s9, "TPMS_ECC_POINT.y");
    assert s10 == [] && s9 == PutTpm2b(y);
  }
}
