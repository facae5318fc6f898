/** The TPM 2.0 wire structures the quote verifier reads, in the big-endian
    marshaling of the TCG "TPM 2.0 Library, Part 2: Structures". */
module Tpm {
  import opened Prelude

  const TPM_GENERATED_VALUE: U32 := 0xFF54_4347
  const TPM_ST_ATTEST_CERTIFY: U16 := 0x8017
  const TPM_ST_ATTEST_QUOTE: U16 := 0x8018
  const TPM_ALG_ECC: U16 := 0x0023
  const TPM_ALG_ECDSA: U16 := 0x0018
  const TPM_ALG_NULL: U16 := 0x0010
  const TPM_ALG_SHA384: U16 := 0x000C

  type U16 = x: int | 0 <= x < 0x1_0000 witness 0
  type U32 = x: int | 0 <= x < 0x1_0000_0000 witness 0

  datatype ParseError =
    | Truncated(ctx: string)
    | Unexpected(field: string, got: U16)
    | TrailingBytes(count: nat)
    | BadLength(ctx: string, declared: nat, remaining: nat)

  type Parsed<T> = Result<(T, Bytes), ParseError>

  // ----------------------------------------------------------- primitive readers
  //
  // Each reads from the front of the bytes that remain and hands back the rest.

  function Take(s: Bytes, n: nat, ctx: string): Parsed<Bytes> {
    if |s| < n then Err(Truncated(ctx)) else Ok((s[..n], s[n..]))
  }

  function ReadU8(s: Bytes, ctx: string): Parsed<Byte> {
    var (b, rest) :- Take(s, 1, ctx);
    Ok((b[0], rest))
  }

  function BeU16(hi: Byte, lo: Byte): U16 {
    hi as int * 0x100 + lo as int
  }

  function ReadU16(s: Bytes, ctx: string): Parsed<U16> {
    var (b, rest) :- Take(s, 2, ctx);
    Ok((BeU16(b[0], b[1]), rest))
  }

  function ReadU32(s: Bytes, ctx: string): Parsed<U32> {
    var (b, rest) :- Take(s, 4, ctx);
    Ok((BeU16(b[0], b[1]) * 0x1_0000 + BeU16(b[2], b[3]), rest))
  }

  /** A UINT16 size and that many bytes. */
  function ReadTpm2b(s: Bytes, ctx: string): Parsed<Bytes> {
    var (len, rest) :- ReadU16(s, ctx);
    if |rest| < len then Err(BadLength(ctx, len, |rest|)) else Take(rest, len, ctx)
  }

  // --------------------------------------------------------------- their inverses

  function PutU16(x: U16): Bytes {
    [(x / 0x100) as Byte, (x % 0x100) as Byte]
  }

  function PutU32(x: U32): Bytes {
    PutU16(x / 0x1_0000) + PutU16(x % 0x1_0000)
  }

  function PutTpm2b(b: Bytes): Bytes
    requires |b| < 0x1_0000
  {
    PutU16(|b|) + b
  }

  lemma TakeRound(b: Bytes, rest: Bytes, ctx: string)
    ensures Take(b + rest, |b|, ctx) == Ok((b, rest))
  {
  }

  lemma U16Round(x: U16, rest: Bytes, ctx: string)
    ensures ReadU16(PutU16(x) + rest, ctx) == Ok((x, rest))
  {
    TakeRound(PutU16(x), rest, ctx);
  }

  lemma BeU16Digits(hi: Byte, lo: Byte)
    ensures PutU16(BeU16(hi, lo)) == [hi, lo]
  {
  }

  lemma PutU16Digits(x: U16)
    ensures |PutU16(x)| == 2 && BeU16(PutU16(x)[0], PutU16(x)[1]) == x
  {
  }

  /** Both are big-endian. */
  lemma BigEndian(s: Bytes, ctx: string)
    ensures |s| >= 2 ==> ReadU16(s, ctx) == Ok((0x100 * s[0] as int + s[1] as int, s[2..]))
    ensures |s| >= 4 ==>
              ReadU32(s, ctx) ==
              Ok((0x100_0000 * s[0] as int + 0x1_0000 * s[1] as int + 0x100 * s[2] as int + s[3] as int, s[4..]))
  {
  }

  /** A sized field fails for want of a size, or of the bytes it declares. */
  lemma SizedIff(s: Bytes, ctx: string)
    ensures |s| < 2 ==> ReadTpm2b(s, ctx) == Err(Truncated(ctx))
    ensures |s| >= 2 ==>
              var len := 0x100 * s[0] as int + s[1] as int;
              ReadTpm2b(s, ctx) ==
              if |s| - 2 < len then Err(BadLength(ctx, len, |s| - 2)) else Ok((s[2..2 + len], s[2 + len..]))
  {
    BigEndian(s, ctx);
    if |s| >= 2 {
      var len := 0x100 * s[0] as int + s[1] as int;
      if len <= |s| - 2 {
        assert s[2..][..len] == s[2..2 + len] && s[2..][len..] == s[2 + len..];
      }
    }
  }

  lemma U16Exact(s: Bytes, ctx: string)
    ensures ReadU16(s, ctx).Ok? ==> s == PutU16(ReadU16(s, ctx).value.0) + ReadU16(s, ctx).value.1
  {
    if |s| >= 2 {
      BeU16Digits(s[0], s[1]);
      assert s == [s[0], s[1]] + s[2..];
    }
  }

  lemma U32Round(x: U32, rest: Bytes, ctx: string)
    ensures ReadU32(PutU32(x) + rest, ctx) == Ok((x, rest))
  {
    var hi: int, lo: int := x / 0x1_0000, x % 0x1_0000;
    var b := PutU32(x);
    PutU16Digits(hi);
    PutU16Digits(lo);
    assert b[0] == PutU16(hi)[0] && b[1] == PutU16(hi)[1] && b[2] == PutU16(lo)[0] && b[3] == PutU16(lo)[1];
    TakeRound(b, rest, ctx);
  }

  lemma U32Exact(s: Bytes, ctx: string)
    ensures ReadU32(s, ctx).Ok? ==> s == PutU32(ReadU32(s, ctx).value.0) + ReadU32(s, ctx).value.1
  {
    if |s| >= 4 {
      var hi: int, lo: int := BeU16(s[0], s[1]), BeU16(s[2], s[3]);
      assert (hi * 0x1_0000 + lo) / 0x1_0000 == hi && (hi * 0x1_0000 + lo) % 0x1_0000 == lo;
      BeU16Digits(s[0], s[1]);
      BeU16Digits(s[2], s[3]);
      assert s == [s[0], s[1]] + [s[2], s[3]] + s[4..];
    }
  }

  lemma Tpm2bRound(b: Bytes, rest: Bytes, ctx: string)
    requires |b| < 0x1_0000
    ensures ReadTpm2b(PutTpm2b(b) + rest, ctx) == Ok((b, rest))
  {
    assert PutTpm2b(b) + rest == PutU16(|b|) + (b + rest);
    U16Round(|b|, b + rest, ctx);
    TakeRound(b, rest, ctx);
  }

  lemma Tpm2bExact(s: Bytes, ctx: string)
    ensures ReadTpm2b(s, ctx).Ok? ==>
              |ReadTpm2b(s, ctx).value.0| < 0x1_0000 &&
                s == PutTpm2b(ReadTpm2b(s, ctx).value.0) + ReadTpm2b(s, ctx).value.1
  {
    U16Exact(s, ctx);
    var r := ReadTpm2b(s, ctx);
    if r.Ok? {
      var (len, rest) := ReadU16(s, ctx).value;
      assert rest == r.value.0 + r.value.1;
    }
  }

  // -------------------------------------------------------------- TPMS_ATTEST quote

  datatype PcrSelection = PcrSelection(hashAlg: U16, bitmap: Bytes)

  /** What the parser keeps of a quote. */
  datatype QuoteInfo = QuoteInfo(magic: U32, attestType: U16, extraData: Bytes, selections: seq<PcrSelection>,
    pcrDigest: Bytes)

  /** A whole TPMS_ATTEST holding a TPMS_QUOTE_INFO: also the fields the parser skips. */
  datatype Attest = Attest(info: QuoteInfo, qualifiedSigner: Bytes, clock: Bytes, resetCount: U32, restartCount: U32,
    safe: Byte, firmware: Bytes)

  predicate GoodSelection(sel: PcrSelection) {
    |sel.bitmap| < 0x100
  }

  predicate GoodAttest(a: Attest) {
    && |a.qualifiedSigner| < 0x1_0000 && |a.info.extraData| < 0x1_0000 && |a.info.pcrDigest| < 0x1_0000
    && |a.clock| == 8 && |a.firmware| == 8 && |a.info.selections| < 0x1_0000_0000
    && forall i | 0 <= i < |a.info.selections| :: GoodSelection(a.info.selections[i])
  }

  function PutSelection(sel: PcrSelection): Bytes
    requires GoodSelection(sel)
  {
    PutU16(sel.hashAlg) + ([|sel.bitmap| as Byte] + sel.bitmap)
  }

  function PutSelections(sels: seq<PcrSelection>): Bytes
    requires forall i | 0 <= i < |sels| :: GoodSelection(sels[i])
  {
    if sels == [] then [] else PutSelection(sels[0]) + PutSelections(sels[1..])
  }

  function MarshalQuote(a: Attest): Bytes
    requires GoodAttest(a)
  {
    PutU32(a.info.magic) + (PutU16(a.info.attestType) + (PutTpm2b(a.qualifiedSigner) + (PutTpm2b(a.info.extraData) + (
    a.clock + (PutU32(a.resetCount) + (PutU32(a.restartCount) + ([a.safe] + (a.firmware + (
    PutU32(|a.info.selections|) + (PutSelections(a.info.selections) + PutTpm2b(a.info.pcrDigest)))))))))))
  }

  function ReadSelection(s: Bytes): Parsed<PcrSelection> {
    var (hashAlg, s1) :- ReadU16(s, "TPMS_PCR_SELECTION.hash");
    var (size, s2) :- ReadU8(s1, "TPMS_PCR_SELECTION.sizeofSelect");
    var (bitmap, s3) :- Take(s2, size as int, "TPMS_PCR_SELECTION.pcrSelect");
    Ok((PcrSelection(hashAlg, bitmap), s3))
  }

  function ReadSelections(s: Bytes, count: nat): Parsed<seq<PcrSelection>>
    decreases count
  {
    if count == 0 then Ok(([], s))
    else
      var (sel, rest) :- ReadSelection(s);
      var (sels, end) :- ReadSelections(rest, count - 1);
      Ok(([sel] + sels, end))
  }

  /** The part of a quote before its PCR selections, and after. */
  datatype Front = Front(magic: U32, attestType: U16, qualifiedSigner: Bytes, extraData: Bytes)

  datatype Middle = Middle(clock: Bytes, resetCount: U32, restartCount: U32, safe: Byte, firmware: Bytes)

  function ReadFront(s: Bytes): Parsed<Front> {
    var (magic, s1) :- ReadU32(s, "TPMS_ATTEST.magic");
    var (attestType, s2) :- ReadU16(s1, "TPMS_ATTEST.type");
    var (signer, s3) :- ReadTpm2b(s2, "TPMS_ATTEST.qualifiedSigner");
    var (extra, s4) :- ReadTpm2b(s3, "TPMS_ATTEST.extraData");
    Ok((Front(magic, attestType, signer, extra), s4))
  }

  function ReadMiddle(s: Bytes): Parsed<Middle> {
    var (clock, s1) :- Take(s, 8, "TPMS_CLOCK_INFO.clock");
    var (reset, s2) :- ReadU32(s1, "TPMS_CLOCK_INFO.resetCount");
    var (restart, s3) :- ReadU32(s2, "TPMS_CLOCK_INFO.restartCount");
    var (safe, s4) :- ReadU8(s3, "TPMS_CLOCK_INFO.safe");
    var (firmware, s5) :- Take(s4, 8, "TPMS_ATTEST.firmwareVersion");
    Ok((Middle(clock, reset, restart, safe, firmware), s5))
  }

  function ParseQuote(buf: Bytes): Result<QuoteInfo, ParseError> {
    var (front, s1) :- ReadFront(buf);
    var (_, s2) :- ReadMiddle(s1);
    var (count, s3) :- ReadU32(s2, "TPML_PCR_SELECTION.count");
    var (sels, s4) :- ReadSelections(s3, count);
    var (digest, s5) :- ReadTpm2b(s4, "TPMS_QUOTE_INFO.pcrDigest");
    if |s5| != 0 then Err(TrailingBytes(|s5|))
    else Ok(QuoteInfo(front.magic, front.attestType, front.extraData, sels, digest))
  }

  function PutFront(f: Front): Bytes
    requires |f.qualifiedSigner| < 0x1_0000 && |f.extraData| < 0x1_0000
  {
    PutU32(f.magic) + (PutU16(f.attestType) + (PutTpm2b(f.qualifiedSigner) + PutTpm2b(f.extraData)))
  }

  function PutMiddle(m: Middle): Bytes {
    m.clock + (PutU32(m.resetCount) + (PutU32(m.restartCount) + ([m.safe] + m.firmware)))
  }

  lemma FrontRound(f: Front, rest: Bytes)
    requires |f.qualifiedSigner| < 0x1_0000 && |f.extraData| < 0x1_0000
    ensures ReadFront(PutFront(f) + rest) == Ok((f, rest))
  {
    var r3 := PutTpm2b(f.extraData) + rest;
    var r2 := PutTpm2b(f.qualifiedSigner) + r3;
    var r1 := PutU16(f.attestType) + r2;
    assert PutFront(f) + rest == PutU32(f.magic) + r1;
    U32Round(f.magic, r1, "TPMS_ATTEST.magic");
    U16Round(f.attestType, r2, "TPMS_ATTEST.type");
    Tpm2bRound(f.qualifiedSigner, r3, "TPMS_ATTEST.qualifiedSigner");
    Tpm2bRound(f.extraData, rest, "TPMS_ATTEST.extraData");
  }

  lemma FrontExact(s: Bytes)
    ensures ReadFront(s).Ok? ==>
              var (f, rest) := ReadFront(s).value;
              |f.qualifiedSigner| < 0x1_0000 && |f.extraData| < 0x1_0000 && s == PutFront(f) + rest
  {
    if ReadFront(s).Ok? {
      var (magic, s1) := ReadU32(s, "TPMS_ATTEST.magic").value;
      var (attestType, s2) := ReadU16(s1, "TPMS_ATTEST.type").value;
      var (signer, s3) := ReadTpm2b(s2, "TPMS_ATTEST.qualifiedSigner").value;
      var (extra, s4) := ReadTpm2b(s3, "TPMS_ATTEST.extraData").value;
      U32Exact(s, "TPMS_ATTEST.magic");
      U16Exact(s1, "TPMS_ATTEST.type");
      Tpm2bExact(s2, "TPMS_ATTEST.qualifiedSigner");
      Tpm2bExact(s3, "TPMS_ATTEST.extraData");
      assert s == PutU32(magic) + (PutU16(attestType) + (PutTpm2b(signer) + (PutTpm2b(extra) + s4)));
    }
  }

  lemma MiddleThen(m: Middle, rest: Bytes)
    ensures PutMiddle(m) + rest == m.clock + (PutU32(m.resetCount) +
            (PutU32(m.restartCount) + ([m.safe] + (m.firmware + rest))))
  {
  }

  lemma MiddleRound(m: Middle, rest: Bytes)
    requires |m.clock| == 8 && |m.firmware| == 8
    ensures ReadMiddle(PutMiddle(m) + rest) == Ok((m, rest))
  {
    var r4 := m.firmware + rest;
    var r3 := [m.safe] + r4;
    var r2 := PutU32(m.restartCount) + r3;
    var r1 := PutU32(m.resetCount) + r2;
    MiddleThen(m, rest);
    TakeRound(m.clock, r1, "TPMS_CLOCK_INFO.clock");
    U32Round(m.resetCount, r2, "TPMS_CLOCK_INFO.resetCount");
    U32Round(m.restartCount, r3, "TPMS_CLOCK_INFO.restartCount");
    TakeRound([m.safe], r4, "TPMS_CLOCK_INFO.safe");
    TakeRound(m.firmware, rest, "TPMS_ATTEST.firmwareVersion");
  }

  lemma MiddleExact(s: Bytes)
    ensures ReadMiddle(s).Ok? ==>
              var (m, rest) := ReadMiddle(s).value;
              |m.clock| == 8 && |m.firmware| == 8 && s == PutMiddle(m) + rest
  {
    if ReadMiddle(s).Ok? {
      var (clock, s1) := Take(s, 8, "TPMS_CLOCK_INFO.clock").value;
      var (reset, s2) := ReadU32(s1, "TPMS_CLOCK_INFO.resetCount").value;
      var (restart, s3) := ReadU32(s2, "TPMS_CLOCK_INFO.restartCount").value;
      var (safe, s4) := ReadU8(s3, "TPMS_CLOCK_INFO.safe").value;
      var (firmware, s5) := Take(s4, 8, "TPMS_ATTEST.firmwareVersion").value;
      U32Exact(s1, "TPMS_CLOCK_INFO.resetCount");
      U32Exact(s2, "TPMS_CLOCK_INFO.restartCount");
      assert s4 == firmware + s5;
      assert s3 == [safe] + s4;
      assert s == clock + s1;
      MiddleThen(Middle(clock, reset, restart, safe, firmware), s5);
    }
  }

  lemma SelectionThen(sel: PcrSelection, rest: Bytes)
    requires GoodSelection(sel)
    ensures PutSelection(sel) + rest == PutU16(sel.hashAlg) + ([|sel.bitmap| as Byte] + (sel.bitmap + rest))
  {
  }

  lemma SelectionRound(sel: PcrSelection, rest: Bytes)
    requires GoodSelection(sel)
    ensures ReadSelection(PutSelection(sel) + rest) == Ok((sel, rest))
  {
    var r2 := sel.bitmap + rest;
    var r1 := [|sel.bitmap| as Byte] + r2;
    SelectionThen(sel, rest);
    U16Round(sel.hashAlg, r1, "TPMS_PCR_SELECTION.hash");
    TakeRound([|sel.bitmap| as Byte], r2, "TPMS_PCR_SELECTION.sizeofSelect");
    TakeRound(sel.bitmap, rest, "TPMS_PCR_SELECTION.pcrSelect");
  }

  lemma SelectionExact(s: Bytes)
    ensures ReadSelection(s).Ok? ==>
              GoodSelection(ReadSelection(s).value.0) &&
                s == PutSelection(ReadSelection(s).value.0) + ReadSelection(s).value.1
  {
    if ReadSelection(s).Ok? {
      var (hashAlg, s1) := ReadU16(s, "TPMS_PCR_SELECTION.hash").value;
      var (size, s2) := ReadU8(s1, "TPMS_PCR_SELECTION.sizeofSelect").value;
      var (bitmap, s3) := Take(s2, size as int, "TPMS_PCR_SELECTION.pcrSelect").value;
      U16Exact(s, "TPMS_PCR_SELECTION.hash");
      assert s1 == [size] + s2;
      assert s2 == bitmap + s3;
      SelectionThen(PcrSelection(hashAlg, bitmap), s3);
    }
  }

  lemma PutSelectionsCons(sel: PcrSelection, more: seq<PcrSelection>, rest: Bytes)
    requires GoodSelection(sel) && forall i | 0 <= i < |more| :: GoodSelection(more[i])
    ensures forall i | 0 <= i < |[sel] + more| :: GoodSelection(([sel] + more)[i])
    ensures PutSelections([sel] + more) + rest == PutSelection(sel) + (PutSelections(more) + rest)
  {
    var all := [sel] + more;
    assert all[1..] == more && all[0] == sel;
    Assoc(PutSelection(sel), PutSelections(more), rest);
  }

  lemma Assoc<T>(a: seq<T>, b: seq<T>, c: seq<T>)
    ensures (a + b) + c == a + (b + c)
  {
  }

  lemma {:induction false} SelectionsRound(sels: seq<PcrSelection>, rest: Bytes)
    requires forall i | 0 <= i < |sels| :: GoodSelection(sels[i])
    ensures ReadSelections(PutSelections(sels) + rest, |sels|) == Ok((sels, rest))
    decreases |sels|
  {
    if sels == [] {
      assert PutSelections(sels) + rest == rest;
    } else {
      var sel, more := sels[0], sels[1..];
      assert sels == [sel] + more;
      PutSelectionsCons(sel, more, rest);
      SelectionRound(sel, PutSelections(more) + rest);
      SelectionsRound(more, rest);
    }
  }

  lemma {:induction false} SelectionsExact(s: Bytes, count: nat)
    requires ReadSelections(s, count).Ok?
    ensures var (sels, rest) := ReadSelections(s, count).value;
            && |sels| == count && (forall i | 0 <= i < |sels| :: GoodSelection(sels[i]))
            && s == PutSelections(sels) + rest
    decreases count
  {
    if count == 0 {
      assert s == PutSelections([]) + s;
    } else {
      var (sel, s1) := ReadSelection(s).value;
      var (more, rest) := ReadSelections(s1, count - 1).value;
      SelectionExact(s);
      SelectionsExact(s1, count - 1);
      PutSelectionsCons(sel, more, rest);
    }
  }

  function FrontOf(a: Attest): Front {
    Front(a.info.magic, a.info.attestType, a.qualifiedSigner, a.info.extraData)
  }

  function MiddleOf(a: Attest): Middle {
    Middle(a.clock, a.resetCount, a.restartCount, a.safe, a.firmware)
  }

  lemma MarshalByParts(a: Attest)
    requires GoodAttest(a)
    ensures MarshalQuote(a) ==
            PutFront(FrontOf(a)) + (PutMiddle(MiddleOf(a)) + (PutU32(|a.info.selections|) +
            (PutSelections(a.info.selections) + PutTpm2b(a.info.pcrDigest))))
  {
  }

  lemma MarshalThen(a: Attest, rest: Bytes)
    requires GoodAttest(a)
    ensures MarshalQuote(a) + rest ==
            PutFront(FrontOf(a)) + (PutMiddle(MiddleOf(a)) + (PutU32(|a.info.selections|) +
            (PutSelections(a.info.selections) + (PutTpm2b(a.info.pcrDigest) + rest))))
  {
    MarshalByParts(a);
  }

  /** Everything laid out as a quote parses to its fields, whatever its magic and type;
      bytes after it are counted and refused. */
  lemma QuoteThen(a: Attest, rest: Bytes)
    requires GoodAttest(a)
    ensures ParseQuote(MarshalQuote(a) + rest) == if rest == [] then Ok(a.info) else Err(TrailingBytes(|rest|))
  {
    var digest := PutTpm2b(a.info.pcrDigest) + rest;
    var r3 := PutSelections(a.info.selections) + digest;
    var r2 := PutU32(|a.info.selections|) + r3;
    var r1 := PutMiddle(MiddleOf(a)) + r2;
    MarshalThen(a, rest);
    FrontRound(FrontOf(a), r1);
    MiddleRound(MiddleOf(a), r2);
    U32Round(|a.info.selections|, r3, "TPML_PCR_SELECTION.count");
    SelectionsRound(a.info.selections, digest);
    Tpm2bRound(a.info.pcrDigest, rest, "TPMS_QUOTE_INFO.pcrDigest");
  }

  lemma QuoteRoundTrip(a: Attest)
    requires GoodAttest(a)
    ensures ParseQuote(MarshalQuote(a)) == Ok(a.info)
  {
    QuoteThen(a, []);
    assert MarshalQuote(a) + [] == MarshalQuote(a);
  }

  predicate TooShort(e: ParseError) {
    e.Truncated? || e.BadLength?
  }

  lemma {:induction false} SelectionsErrors(s: Bytes, count: nat)
    ensures ReadSelections(s, count).Err? ==> TooShort(ReadSelections(s, count).error)
    decreases count
  {
    if count > 0 && ReadSelection(s).Ok? {
      SelectionsErrors(ReadSelection(s).value.1, count - 1);
    }
  }

  /** Where a parse that gets past the last field has read its fields. */
  lemma QuoteStages(buf: Bytes)
    ensures ParseQuote(buf).Err? ==> TooShort(ParseQuote(buf).error) || ParseQuote(buf).error.TrailingBytes?
    ensures ParseQuote(buf).Ok? || ParseQuote(buf).error.TrailingBytes? ==>
              && ReadFront(buf).Ok? && ReadMiddle(ReadFront(buf).value.1).Ok?
              && var count := ReadU32(ReadMiddle(ReadFront(buf).value.1).value.1, "TPML_PCR_SELECTION.count");
                 count.Ok? && ReadSelections(count.value.1, count.value.0).Ok?
  {
    if ReadFront(buf).Ok? && ReadMiddle(ReadFront(buf).value.1).Ok? {
      var s2 := ReadMiddle(ReadFront(buf).value.1).value.1;
      var count := ReadU32(s2, "TPML_PCR_SELECTION.count");
      if count.Ok? {
        SelectionsErrors(count.value.1, count.value.0);
      }
    }
  }

  /** Only a quote and bytes after it is refused for those bytes. */
  lemma QuotePrefix(buf: Bytes) returns (a: Attest, rest: Bytes)
    requires ParseQuote(buf).Ok? || ParseQuote(buf).error.TrailingBytes?
    ensures GoodAttest(a) && MarshalQuote(a) + rest == buf
    ensures ParseQuote(buf) == if rest == [] then Ok(a.info) else Err(TrailingBytes(|rest|))
  {
    QuoteStages(buf);
    var (f, s1) := ReadFront(buf).value;
    var (m, s2) := ReadMiddle(s1).value;
    var (count, s3) := ReadU32(s2, "TPML_PCR_SELECTION.count").value;
    var (sels, s4) := ReadSelections(s3, count).value;
    var (digest, s5) := ReadTpm2b(s4, "TPMS_QUOTE_INFO.pcrDigest").value;
    FrontExact(buf);
    MiddleExact(s1);
    U32Exact(s2, "TPML_PCR_SELECTION.count");
    SelectionsExact(s3, count);
    Tpm2bExact(s4, "TPMS_QUOTE_INFO.pcrDigest");
    rest := s5;
    a := Attest(QuoteInfo(f.magic, f.attestType, f.extraData, sels, digest), f.qualifiedSigner, m.clock, m.resetCount,
      m.restartCount, m.safe, m.firmware);
    MarshalThen(a, rest);
  }

  /** Nothing else parses: what is accepted is laid out as a quote, to the last byte. */
  lemma QuoteExact(buf: Bytes) returns (a: Attest)
    requires ParseQuote(buf).Ok?
    ensures GoodAttest(a) && MarshalQuote(a) == buf && ParseQuote(buf) == Ok(a.info)
  {
    var rest: Bytes;
    a, rest := QuotePrefix(buf);
    assert MarshalQuote(a) + [] == MarshalQuote(a);
  }

  lemma Rejoin(x: Bytes, rest: Bytes, buf: Bytes, k: nat)
    requires k <= |buf| && x + rest == buf[..k]
    ensures x + (rest + buf[k..]) == buf
  {
    assert buf == buf[..k] + buf[k..];
  }

  /** A quote cut short anywhere is refused as too short. */
  lemma CutQuote(a: Attest, k: nat)
    requires GoodAttest(a) && k < |MarshalQuote(a)|
    ensures ParseQuote(MarshalQuote(a)[..k]).Err? && TooShort(ParseQuote(MarshalQuote(a)[..k]).error)
  {
    var buf := MarshalQuote(a);
    var cut := buf[..k];
    QuoteStages(cut);
    if ParseQuote(cut).Ok? || ParseQuote(cut).error.TrailingBytes? {
      var b, rest := QuotePrefix(cut);
      Rejoin(MarshalQuote(b), rest, buf, k);
      QuoteThen(b, rest + buf[k..]);
      QuoteRoundTrip(a);
      assert false;
    }
  }

  // ------------------------------------------------------------- magic and type

  datatype RejectReason = Malformed(error: ParseError) | BadMagic | NotAQuote

  /** The parse and the two checks the verifier makes right after it. */
  function CheckQuote(buf: Bytes): Result<QuoteInfo, RejectReason> {
    match ParseQuote(buf)
    case Err(e) => Err(Malformed(e))
    case Ok(info) =>
      if info.magic != TPM_GENERATED_VALUE then Err(BadMagic)
      else if info.attestType != TPM_ST_ATTEST_QUOTE then Err(NotAQuote)
      else Ok(info)
  }

  /** The encoding of a quote the TPM itself generated. */
  ghost predicate EncodesQuote(buf: Bytes, info: QuoteInfo) {
    && info.magic == TPM_GENERATED_VALUE && info.attestType == TPM_ST_ATTEST_QUOTE
    && exists a: Attest | GoodAttest(a) :: a.info == info && MarshalQuote(a) == buf
  }

  /** The checks pass on exactly the encodings of generated quotes, with their fields. */
  lemma GenuineQuoteIff(buf: Bytes, info: QuoteInfo)
    ensures CheckQuote(buf) == Ok(info) <==> EncodesQuote(buf, info)
  {
    if CheckQuote(buf) == Ok(info) {
      var a := QuoteExact(buf);
    }
    if EncodesQuote(buf, info) {
      var a: Attest :| GoodAttest(a) && a.info == info && MarshalQuote(a) == buf;
      QuoteRoundTrip(a);
    }
  }

  /** The parser alone looks at neither: with any magic and any type, the layout of a
      quote parses. */
  lemma AnyTypeParses(a: Attest, magic: U32, attestType: U16) returns (other: Attest)
    requires GoodAttest(a)
    ensures GoodAttest(other) && other.info == a.info.(magic := magic, attestType := attestType)
    ensures ParseQuote(MarshalQuote(other)) == Ok(other.info)
  {
    other := a.(info := a.info.(magic := magic, attestType := attestType));
    QuoteRoundTrip(other);
  }

  /** An input of another type that parses: a certify attestation in the layout of an
      empty quote. */
  lemma CertifyParses() returns (buf: Bytes)
    ensures ParseQuote(buf).Ok? && ParseQuote(buf).value.attestType == TPM_ST_ATTEST_CERTIFY
    ensures CheckQuote(buf) == Err(NotAQuote)
  {
    var zeros: Bytes := seq(8, _ => 0);
    var a := Attest(QuoteInfo(TPM_GENERATED_VALUE, TPM_ST_ATTEST_CERTIFY, [], [], []), [], zeros, 0, 0, 0, zeros);
    QuoteRoundTrip(a);
    buf := MarshalQuote(a);
  }
}
