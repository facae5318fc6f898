/** The JSON nesting guard: a byte scan that must equal the nesting depth of the
    value, for every text of it. */
module JsonDepth {
  import opened Prelude

  const QUOTE: Byte := 34
  const BACKSLASH: Byte := 92
  const COMMA: Byte := 44
  const COLON: Byte := 58
  const OPEN_BRACKET: Byte := 91
  const CLOSE_BRACKET: Byte := 93
  const OPEN_BRACE: Byte := 123
  const CLOSE_BRACE: Byte := 125

  // ------------------------------------------------------------------- the scan

  datatype Scan = Scan(depth: nat, max: nat, inString: bool, escaped: bool)

  const BEGIN: Scan := Scan(0, 0, false, false)

  function ScanByte(s: Scan, b: Byte): Scan {
    if s.inString then
      if s.escaped then s.(escaped := false)
      else if b == BACKSLASH then s.(escaped := true)
      else if b == QUOTE then s.(inString := false)
      else s
    else if b == QUOTE then s.(inString := true)
    else if b == OPEN_BRACE || b == OPEN_BRACKET then s.(depth := s.depth + 1, max := Max(s.max, s.depth + 1))
    else if b == CLOSE_BRACE || b == CLOSE_BRACKET then s.(depth := if s.depth == 0 then 0 else s.depth - 1)
    else s
  }

  function ScanAll(s: Scan, json: Bytes): Scan
    decreases |json|
  {
    if json == [] then s else ScanAll(ScanByte(s, json[0]), json[1..])
  }

  function Depth(json: Bytes): nat {
    ScanAll(BEGIN, json).max
  }

  method JsonNesting(json: Bytes) returns (max: nat)
    ensures max == Depth(json)
  {
    var depth, inString, escaped := 0, false, false;
    max := 0;
    for i := 0 to |json|
      invariant 0 <= depth && ScanAll(Scan(depth, max, inString, escaped), json[i..]) == ScanAll(BEGIN, json)
    {
      var b := json[i];
      assert json[i..][0] == b && json[i..][1..] == json[i + 1..];
      if inString {
        if escaped {
          escaped := false;
        } else if b == BACKSLASH {
          escaped := true;
        } else if b == QUOTE {
          inString := false;
        }
        continue;
      }
      if b == QUOTE {
        inString := true;
      } else if b == OPEN_BRACE || b == OPEN_BRACKET {
        depth := depth + 1;
        max := Max(max, depth);
      } else if b == CLOSE_BRACE || b == CLOSE_BRACKET {
        depth := if depth == 0 then 0 else depth - 1;
      }
    }
  }

  // ------------------------------------------------------------------ JSON values

  /** A JSON value as written: scalars and strings keep their spelling. A string is
      the bytes between its quotes. */
  datatype Json =
    | Scalar(text: Bytes)
    | Str(body: Bytes)
    | Arr(items: List)
    | Obj(members: Members)

  /** White space may stand before and after every token. */
  datatype List = Nil(gap: Bytes) | Cons(before: Bytes, head: Json, after: Bytes, tail: List)

  datatype Members = NoMembers(gap: Bytes) | Member(before: Bytes, name: Bytes, mid: Bytes, sep: Bytes, value: Json,
    after: Bytes, rest: Members)

  /** Neither quote nor bracket nor brace: digits, letters, signs, white space. */
  predicate Plain(b: Byte) {
    b !in {QUOTE, OPEN_BRACKET, CLOSE_BRACKET, OPEN_BRACE, CLOSE_BRACE}
  }

  predicate AllPlain(s: Bytes) {
    forall i | 0 <= i < |s| :: Plain(s[i])
  }

  /** A string body: every backslash escapes the byte after it, and no bare quote. */
  predicate StringBody(s: Bytes) {
    || s == []
    || (s[0] == BACKSLASH && |s| >= 2 && StringBody(s[2..]))
    || (s[0] != BACKSLASH && s[0] != QUOTE && StringBody(s[1..]))
  }

  predicate Legal(v: Json) {
    match v
    case Scalar(text) => AllPlain(text)
    case Str(body) => StringBody(body)
    case Arr(items) => LegalList(items)
    case Obj(members) => LegalMembers(members)
  }

  predicate LegalList(l: List) {
    match l
    case Nil(gap) => AllPlain(gap)
    case Cons(before, head, after, tail) => AllPlain(before) && Legal(head) && AllPlain(after) && LegalList(tail)
  }

  predicate LegalMembers(m: Members) {
    match m
    case NoMembers(gap) => AllPlain(gap)
    case Member(before, name, mid, sep, value, after, rest) =>
      AllPlain(before) && StringBody(name) && AllPlain(mid) && AllPlain(sep) && Legal(value) && AllPlain(after) &&
        LegalMembers(rest)
  }

  function Quoted(body: Bytes): Bytes {
    [QUOTE] + (body + [QUOTE])
  }

  /** The text of a value. */
  function Text(v: Json): Bytes {
    match v
    case Scalar(text) => text
    case Str(body) => Quoted(body)
    case Arr(items) => [OPEN_BRACKET] + (ListText(items) + [CLOSE_BRACKET])
    case Obj(members) => [OPEN_BRACE] + (MembersText(members) + [CLOSE_BRACE])
  }

  function ListText(l: List): Bytes {
    match l
    case Nil(gap) => gap
    case Cons(before, head, after, tail) =>
      before + (Text(head) + (after + ((if tail.Nil? then [] else [COMMA]) + ListText(tail))))
  }

  function MembersText(m: Members): Bytes {
    match m
    case NoMembers(gap) => gap
    case Member(before, name, mid, sep, value, after, rest) =>
      before + (Quoted(name) + (mid + ([COLON] +
        (sep + (Text(value) + (after + ((if rest.NoMembers? then [] else [COMMA]) + MembersText(rest))))))))
  }

  /** The nesting of arrays and objects. */
  function Nesting(v: Json): nat {
    match v
    case Scalar(_) => 0
    case Str(_) => 0
    case Arr(items) => 1 + ListNesting(items)
    case Obj(members) => 1 + MembersNesting(members)
  }

  function ListNesting(l: List): nat {
    match l
    case Nil(_) => 0
    case Cons(_, head, _, tail) => Max(Nesting(head), ListNesting(tail))
  }

  function MembersNesting(m: Members): nat {
    match m
    case NoMembers(_) => 0
    case Member(_, _, _, _, value, _, rest) => Max(Nesting(value), MembersNesting(rest))
  }

  // ------------------------------------------------------------------- exactness

  lemma {:induction false} ScanConcat(s: Scan, a: Bytes, b: Bytes)
    ensures ScanAll(s, a + b) == ScanAll(ScanAll(s, a), b)
    decreases |a|
  {
    if a == [] {
      assert a + b == b;
    } else {
      assert (a + b)[1..] == a[1..] + b;
      ScanConcat(ScanByte(s, a[0]), a[1..], b);
    }
  }

  lemma {:induction false} ScanPlain(s: Scan, text: Bytes)
    requires !s.inString && AllPlain(text)
    ensures ScanAll(s, text) == s
    decreases |text|
  {
    if text != [] {
      ScanPlain(s, text[1..]);
    }
  }

  /** Inside a string nothing counts, whatever its escapes and brackets. */
  lemma {:induction false} ScanBody(s: Scan, body: Bytes)
    requires s.inString && !s.escaped && StringBody(body)
    ensures ScanAll(s, body) == s
    decreases |body|
  {
    if body != [] {
      if body[0] == BACKSLASH {
        assert body[1..][1..] == body[2..];
        ScanBody(s, body[2..]);
      } else {
        ScanBody(s, body[1..]);
      }
    }
  }

  lemma ScanQuoted(s: Scan, body: Bytes)
    requires !s.inString && !s.escaped && StringBody(body)
    ensures ScanAll(s, Quoted(body)) == s
  {
    var t := s.(inString := true);
    ScanConcat(s, [QUOTE], body + [QUOTE]);
    ScanConcat(t, body, [QUOTE]);
    ScanBody(t, body);
    ScanOne(s, QUOTE);
    ScanOne(t, QUOTE);
  }

  lemma ScanOne(s: Scan, b: Byte)
    ensures ScanAll(s, [b]) == ScanByte(s, b)
  {
    assert [b][1..] == [];
  }

  /** The scanner outside a string, raised to a new maximum. */
  function Raised(s: Scan, nesting: nat): Scan {
    s.(max := Max(s.max, s.depth + nesting))
  }

  predicate Outside(s: Scan) {
    !s.inString && !s.escaped && s.depth <= s.max
  }

  /** Scanning a value leaves the depth as it was and raises the maximum by exactly
      its nesting. */
  lemma {:induction false} ScanValue(s: Scan, v: Json)
    requires Outside(s) && Legal(v)
    ensures ScanAll(s, Text(v)) == Raised(s, Nesting(v))
    decreases v
  {
    match v
    case Scalar(text) => ScanPlain(s, text);
    case Str(body) => ScanQuoted(s, body);
    case Arr(items) =>
      var t := ScanByte(s, OPEN_BRACKET);
      ScanConcat(s, [OPEN_BRACKET], ListText(items) + [CLOSE_BRACKET]);
      ScanOne(s, OPEN_BRACKET);
      ScanList(t, items);
      ScanConcat(t, ListText(items), [CLOSE_BRACKET]);
      ScanOne(Raised(t, ListNesting(items)), CLOSE_BRACKET);
    case Obj(members) =>
      var t := ScanByte(s, OPEN_BRACE);
      ScanConcat(s, [OPEN_BRACE], MembersText(members) + [CLOSE_BRACE]);
      ScanOne(s, OPEN_BRACE);
      ScanMembers(t, members);
      ScanConcat(t, MembersText(members), [CLOSE_BRACE]);
      ScanOne(Raised(t, MembersNesting(members)), CLOSE_BRACE);
  }

  lemma {:induction false} ScanList(s: Scan, l: List)
    requires Outside(s) && LegalList(l)
    ensures ScanAll(s, ListText(l)) == Raised(s, ListNesting(l))
    decreases l
  {
    match l
    case Nil(gap) => ScanPlain(s, gap);
    case Cons(before, head, after, tail) =>
      var t := Raised(s, Nesting(head));
      var comma := if tail.Nil? then [] else [COMMA];
      var r3 := comma + ListText(tail);
      var r2 := after + r3;
      ScanConcat(s, before, Text(head) + r2);
      ScanPlain(s, before);
      ScanConcat(s, Text(head), r2);
      ScanValue(s, head);
      ScanConcat(t, after, r3);
      ScanPlain(t, after);
      ScanConcat(t, comma, ListText(tail));
      ScanPlain(t, comma);
      ScanList(t, tail);
  }

  lemma {:induction false} ScanMembers(s: Scan, m: Members)
    requires Outside(s) && LegalMembers(m)
    ensures ScanAll(s, MembersText(m)) == Raised(s, MembersNesting(m))
    decreases m
  {
    match m
    case NoMembers(gap) => ScanPlain(s, gap);
    case Member(before, name, mid, sep, value, after, rest) =>
      var t := Raised(s, Nesting(value));
      var comma := if rest.NoMembers? then [] else [COMMA];
      var r7 := comma + MembersText(rest);
      var r6 := after + r7;
      var r5 := Text(value) + r6;
      ScanKey(s, before, name, mid, sep, r5);
      ScanConcat(s, Text(value), r6);
      ScanValue(s, value);
      ScanConcat(t, after, r7);
      ScanPlain(t, after);
      ScanConcat(t, comma, MembersText(rest));
      ScanPlain(t, comma);
      ScanMembers(t, rest);
  }

  /** A member's key and colon leave the scanner as it was. */
  lemma ScanKey(s: Scan, before: Bytes, name: Bytes, mid: Bytes, sep: Bytes, rest: Bytes)
    requires Outside(s) && AllPlain(before) && StringBody(name) && AllPlain(mid) && AllPlain(sep)
    ensures ScanAll(s, before + (Quoted(name) + (mid + ([COLON] + (sep + rest))))) == ScanAll(s, rest)
  {
    var r3 := sep + rest;
    var r2 := [COLON] + r3;
    var r1 := mid + r2;
    ScanConcat(s, before, Quoted(name) + r1);
    ScanPlain(s, before);
    ScanConcat(s, Quoted(name), r1);
    ScanQuoted(s, name);
    ScanConcat(s, mid, r2);
    ScanPlain(s, mid);
    ScanConcat(s, [COLON], r3);
    ScanPlain(s, [COLON]);
    ScanConcat(s, sep, rest);
    ScanPlain(s, sep);
  }

  /** The guard is exact: for every legal text of every value, with white space around
      it, the scanned depth is the value's nesting. */
  lemma DepthIsNesting(v: Json, before: Bytes, after: Bytes)
    requires Legal(v) && AllPlain(before) && AllPlain(after)
    ensures Depth(before + (Text(v) + after)) == Nesting(v)
  {
    ScanConcat(BEGIN, before, Text(v) + after);
    ScanPlain(BEGIN, before);
    ScanConcat(BEGIN, Text(v), after);
    ScanValue(BEGIN, v);
    ScanPlain(Raised(BEGIN, Nesting(v)), after);
  }

  // ------------------------------------------------------------- the note descriptor

  /** A descriptor up to its first NUL. */
  function Trimmed(desc: Bytes): (json: Bytes)
    ensures json <= desc && 0 !in json && (json == desc || desc[|json|] == 0)
    decreases |desc|
  {
    if desc == [] || desc[0] == 0 then [] else [desc[0]] + Trimmed(desc[1..])
  }

  /** The text handed to the JSON parser, or None when it is refused as too deep. */
  method BoundDescriptor(desc: Bytes, maxDepth: nat) returns (r: Option<Bytes>)
    ensures r == if Depth(Trimmed(desc)) > maxDepth then None else Some(Trimmed(desc))
  {
    var end := 0;
    while end < |desc| && desc[end] != 0
      invariant end <= |desc|
      invariant 0 !in desc[..end]
    {
      end := end + 1;
    }
    var json := desc[..end];
    assert json + desc[end..] == desc;
    TrimmedPadding(json, desc[end..]);
    var depth := JsonNesting(json);
    r := if depth > maxDepth then None else Some(json);
  }

  lemma {:induction false} TrimmedPadding(json: Bytes, padding: Bytes)
    requires 0 !in json && (padding == [] || padding[0] == 0)
    ensures Trimmed(json + padding) == json
    decreases |json|
  {
    if json != [] {
      assert json[0] in json && forall b | b in json[1..] :: b in json;
      assert (json + padding)[1..] == json[1..] + padding;
      TrimmedPadding(json[1..], padding);
    } else {
      assert json + padding == padding;
    }
  }

  /** A NUL-padded descriptor holding a JSON value goes to the parser exactly when the
      value nests no deeper than the bound. */
  lemma DescriptorBounded(v: Json, before: Bytes, after: Bytes, padding: Bytes, maxDepth: nat)
    requires Legal(v) && AllPlain(before) && AllPlain(after)
    requires 0 !in before + (Text(v) + after) && (padding == [] || padding[0] == 0)
    ensures Trimmed(before + (Text(v) + after) + padding) == before + (Text(v) + after)
    ensures Depth(Trimmed(before + (Text(v) + after) + padding)) > maxDepth <==> Nesting(v) > maxDepth
  {
    TrimmedPadding(before + (Text(v) + after), padding);
    DepthIsNesting(v, before, after);
  }
}
