/** The RIM allowlist: versioned generations, manual approvals, and the policy id
    reserved for the host-key tier. */
module Rim {
  import opened Prelude
  import opened MachineInts

  const MAX_GENERATIONS: nat := 6
  const HOST_KEY_POLICY_ID: string := "host-key"

  // -------------------------------------------------------------- reserved names

  /** The characters with the Unicode White_Space property. */
  predicate IsWhitespace(c: char) {
    var n := c as int;
    || 0x09 <= n <= 0x0D || n == 0x20 || n == 0x85 || n == 0xA0 || n == 0x1680
    || 0x2000 <= n <= 0x200A || n == 0x2028 || n == 0x2029 || n == 0x202F || n == 0x205F || n == 0x3000
  }

  function TrimStart(s: string): string {
    if s != [] && IsWhitespace(s[0]) then TrimStart(s[1..]) else s
  }

  function TrimEnd(s: string): string {
    if s != [] && IsWhitespace(s[|s| - 1]) then TrimEnd(s[..|s| - 1]) else s
  }

  function LowerChar(c: char): char {
    if 'A' <= c <= 'Z' then (c as int + 32) as char else c
  }

  predicate EqIgnoreCase(a: string, b: string) {
    |a| == |b| && forall i | 0 <= i < |a| :: LowerChar(a[i]) == LowerChar(b[i])
  }

  predicate IsReserved(policy: string) {
    EqIgnoreCase(TrimEnd(TrimStart(policy)), HOST_KEY_POLICY_ID)
  }

  lemma {:induction false} TrimStartOff(pad: string, s: string)
    requires forall c | c in pad :: IsWhitespace(c)
    requires s != [] ==> !IsWhitespace(s[0])
    ensures TrimStart(pad + s) == s
  {
    if pad == [] {
      assert pad + s == s;
    } else {
      assert (pad + s)[1..] == pad[1..] + s;
      TrimStartOff(pad[1..], s);
    }
  }

  lemma {:induction false} TrimEndOff(s: string, pad: string)
    requires forall c | c in pad :: IsWhitespace(c)
    requires s != [] ==> !IsWhitespace(s[|s| - 1])
    ensures TrimEnd(s + pad) == s
  {
    if pad == [] {
      assert s + pad == s;
    } else {
      assert (s + pad)[..|s + pad| - 1] == s + pad[..|pad| - 1];
      TrimEndOff(s, pad[..|pad| - 1]);
    }
  }

  lemma {:induction false} TrimStartIsSuffix(s: string)
    ensures exists pad :: s == pad + TrimStart(s) && forall c | c in pad :: IsWhitespace(c)
  {
    if s != [] && IsWhitespace(s[0]) {
      TrimStartIsSuffix(s[1..]);
      var pad :| s[1..] == pad + TrimStart(s[1..]) && forall c | c in pad :: IsWhitespace(c);
      assert s == [s[0]] + pad + TrimStart(s);
      assert forall c | c in [s[0]] + pad :: IsWhitespace(c);
    } else {
      assert s == [] + TrimStart(s);
    }
  }

  lemma {:induction false} TrimEndIsPrefix(s: string)
    ensures exists pad :: s == TrimEnd(s) + pad && forall c | c in pad :: IsWhitespace(c)
  {
    if s != [] && IsWhitespace(s[|s| - 1]) {
      var t, last := s[..|s| - 1], s[|s| - 1];
      TrimEndIsPrefix(t);
      var pad :| t == TrimEnd(t) + pad && forall c | c in pad :: IsWhitespace(c);
      assert s == TrimEnd(s) + (pad + [last]);
      assert forall c | c in pad + [last] :: IsWhitespace(c);
    } else {
      assert s == TrimEnd(s) + [];
    }
  }

  /** The reserved ids are exactly the spellings of "host-key": any letter case, any
      surrounding white space. */
  ghost predicate SpellsHostKey(policy: string) {
    exists a, core, b :: policy == a + core + b && EqIgnoreCase(core, HOST_KEY_POLICY_ID) &&
                         (forall c | c in a :: IsWhitespace(c)) && (forall c | c in b :: IsWhitespace(c))
  }

  lemma ReservedIffSpelling(policy: string)
    ensures IsReserved(policy) <==> SpellsHostKey(policy)
  {
    if IsReserved(policy) {
      TrimStartIsSuffix(policy);
      TrimEndIsPrefix(TrimStart(policy));
      var a :| policy == a + TrimStart(policy) && forall c | c in a :: IsWhitespace(c);
      var core := TrimEnd(TrimStart(policy));
      var b :| TrimStart(policy) == core + b && forall c | c in b :: IsWhitespace(c);
      assert policy == a + core + b;
    }
    if SpellsHostKey(policy) {
      var a, core, b :| policy == a + core + b && EqIgnoreCase(core, HOST_KEY_POLICY_ID) &&
                        (forall c | c in a :: IsWhitespace(c)) && (forall c | c in b :: IsWhitespace(c));
      CoreIsSolid(core);
      assert policy == a + (core + b);
      TrimStartOff(a, core + b);
      TrimEndOff(core, b);
    }
  }

  lemma CoreIsSolid(core: string)
    requires EqIgnoreCase(core, HOST_KEY_POLICY_ID)
    ensures |core| == 8 && !IsWhitespace(core[0]) && !IsWhitespace(core[7])
  {
    assert LowerChar(core[0]) == 'h' && LowerChar(core[7]) == 'y';
  }

  // ------------------------------------------------------------------- the store

  type PcrDigest = Bytes

  datatype Generation = Generation(version: nat, policyId: string, notBefore: I64, notAfter: I64,
    approved: set<PcrDigest>)

  predicate IsActive(g: Generation, now: I64) {
    g.notBefore <= now < g.notAfter
  }

  datatype ApplyError =
    | NonMonotonic(current: nat, incoming: nat)
    | InvalidWindow(notBefore: I64, notAfter: I64)
    | ReservedPolicyId(policy: string)

  datatype ApplyOutcome = ApplyOutcome(version: nat, retained: nat, pruned: nat)

  datatype Store = Store(generations: seq<Generation>, manual: map<PcrDigest, string>, lastVersion: nat)

  const EMPTY: Store := Store([], map[], 0)

  function LastGenerations(gs: seq<Generation>): seq<Generation> {
    if |gs| > MAX_GENERATIONS then gs[|gs| - MAX_GENERATIONS..] else gs
  }

  function Applied(s: Store, g: Generation): (Store, Result<ApplyOutcome, ApplyError>) {
    if IsReserved(g.policyId) then (s, Err(ReservedPolicyId(g.policyId)))
    else if g.notBefore >= g.notAfter then (s, Err(InvalidWindow(g.notBefore, g.notAfter)))
    else if g.version <= s.lastVersion then (s, Err(NonMonotonic(s.lastVersion, g.version)))
    else
      var all := s.generations + [g];
      var kept := LastGenerations(all);
      (Store(kept, s.manual, g.version), Ok(ApplyOutcome(g.version, |kept|, |all| - |kept|)))
  }

  function Approved(s: Store, digest: PcrDigest, policy: string): (Store, Result<(), ApplyError>) {
    if IsReserved(policy) then (s, Err(ReservedPolicyId(policy)))
    else (s.(manual := s.manual[digest := policy]), Ok(()))
  }

  predicate Matches(g: Generation, digest: PcrDigest, now: I64) {
    IsActive(g, now) && digest in g.approved
  }

  /** The newest of the first n generations that approves the digest now. */
  function NewestMatch(gs: seq<Generation>, n: nat, digest: PcrDigest, now: I64): Option<string>
    requires n <= |gs|
  {
    if n == 0 then None
    else if Matches(gs[n - 1], digest, now) then Some(gs[n - 1].policyId)
    else NewestMatch(gs, n - 1, digest, now)
  }

  function Lookup(s: Store, digest: PcrDigest, now: I64): Option<string> {
    if digest in s.manual then Some(s.manual[digest])
    else NewestMatch(s.generations, |s.generations|, digest, now)
  }

  /** The generation's window holds now, and it approves the digest. */
  predicate AnswersFor(g: Generation, digest: PcrDigest, now: I64) {
    g.notBefore <= now && now < g.notAfter && digest in g.approved
  }

  class RimStore {
    var generations: seq<Generation>
    var manual: map<PcrDigest, string>
    var lastVersion: nat

    ghost function Value(): Store
      reads this
    {
      Store(generations, manual, lastVersion)
    }

    constructor ()
      ensures Value() == EMPTY
    {
      generations, manual, lastVersion := [], map[], 0;
    }

    method Approve(digest: PcrDigest, policy: string) returns (r: Result<(), ApplyError>)
      modifies this
      ensures (Value(), r) == Approved(old(Value()), digest, policy)
      // refused exactly for a spelling of the reserved id, changing nothing; else only this digest is mapped
      ensures r == if SpellsHostKey(policy) then Err(ReservedPolicyId(policy)) else Ok(())
      ensures r.Err? ==> manual == old(manual)
      ensures r.Ok? ==> digest in manual && manual[digest] == policy
      ensures forall d | d != digest ::
                (d in manual <==> d in old(manual)) && (d in manual ==> manual[d] == old(manual)[d])
      ensures generations == old(generations) && lastVersion == old(lastVersion)
    {
      ReservedIffSpelling(policy);
      if IsReserved(policy) {
        return Err(ReservedPolicyId(policy));
      }
      manual := manual[digest := policy];
      r := Ok(());
    }

    method LookupAt(digest: PcrDigest, now: I64) returns (r: Option<string>)
      ensures r == Lookup(Value(), digest, now)
      // a manual approval answers first; then the newest generation whose window holds now
      ensures digest in manual ==> r == Some(manual[digest])
      ensures digest !in manual && r.None? ==> forall g | g in generations :: !AnswersFor(g, digest, now)
      ensures digest !in manual && r.Some? ==> exists i | 0 <= i < |generations| ::
                && r == Some(generations[i].policyId) && AnswersFor(generations[i], digest, now)
                && forall j | i < j < |generations| :: !AnswersFor(generations[j], digest, now)
    {
      if digest in manual {
        return Some(manual[digest]);
      }
      var n := |generations|;
      while n > 0
        invariant 0 <= n <= |generations|
        invariant forall j | n <= j < |generations| :: !AnswersFor(generations[j], digest, now)
        invariant NewestMatch(generations, |generations|, digest, now) == NewestMatch(generations, n, digest, now)
      {
        n := n - 1;
        if IsActive(generations[n], now) && digest in generations[n].approved {
          return Some(generations[n].policyId);
        }
      }
      r := None;
    }

    method Apply(g: Generation) returns (r: Result<ApplyOutcome, ApplyError>)
      modifies this
      ensures (Value(), r) == Applied(old(Value()), g)
      // refused in this order, changing nothing
      ensures SpellsHostKey(g.policyId) ==> r == Err(ReservedPolicyId(g.policyId))
      ensures !SpellsHostKey(g.policyId) && g.notBefore >= g.notAfter ==>
                r == Err(InvalidWindow(g.notBefore, g.notAfter))
      ensures !SpellsHostKey(g.policyId) && g.notBefore < g.notAfter && g.version <= old(lastVersion) ==>
                r == Err(NonMonotonic(old(lastVersion), g.version))
      ensures r.Err? ==> generations == old(generations) && lastVersion == old(lastVersion)
      // accepted: newest last, the oldest dropped beyond six, and so reported
      ensures r.Ok? <==> !SpellsHostKey(g.policyId) && g.notBefore < g.notAfter && old(lastVersion) < g.version
      ensures r.Ok? ==> exists dropped: nat | dropped <= |old(generations)| ::
                && generations == old(generations)[dropped..] + [g] && lastVersion == g.version
                && r.value == ApplyOutcome(g.version, |generations|, dropped)
                && |generations| <= 6 && (dropped > 0 ==> |generations| == 6)
      ensures manual == old(manual)
    {
      ReservedIffSpelling(g.policyId);
      if IsReserved(g.policyId) {
        return Err(ReservedPolicyId(g.policyId));
      }
      if g.notBefore >= g.notAfter {
        return Err(InvalidWindow(g.notBefore, g.notAfter));
      }
      if g.version <= lastVersion {
        return Err(NonMonotonic(lastVersion, g.version));
      }
      lastVersion := g.version;
      generations := generations + [g];
      ghost var all := generations;
      var pruned := 0;
      while |generations| > MAX_GENERATIONS
        invariant pruned <= |all| && generations == all[pruned..]
        invariant pruned == 0 || |generations| >= MAX_GENERATIONS
        invariant manual == old(manual) && lastVersion == g.version
      {
        generations := generations[1..];
        pruned := pruned + 1;
      }
      assert generations == LastGenerations(all);
      assert generations == old(generations)[pruned..] + [g];
      r := Ok(ApplyOutcome(g.version, |generations|, pruned));
    }
  }

  // ------------------------------------------------------------------ whole runs

  datatype Op = Apply(g: Generation) | Approve(digest: PcrDigest, policy: string)

  function Step(s: Store, op: Op): Store {
    match op
    case Apply(g) => Applied(s, g).0
    case Approve(d, p) => Approved(s, d, p).0
  }

  function Run(ops: seq<Op>): Store {
    if ops == [] then EMPTY else Step(Run(ops[..|ops| - 1]), ops[|ops| - 1])
  }

  /** The generations a run accepted, oldest first. */
  function Accepted(ops: seq<Op>): seq<Generation> {
    if ops == [] then []
    else
      var before, op := ops[..|ops| - 1], ops[|ops| - 1];
      if Takes(Run(before), op) then Accepted(before) + [op.g] else Accepted(before)
  }

  predicate Takes(s: Store, op: Op) {
    op.Apply? && Applied(s, op.g).1.Ok?
  }

  predicate Clean(s: Store) {
    && (forall g | g in s.generations :: !IsReserved(g.policyId))
    && (forall d | d in s.manual :: !IsReserved(s.manual[d]))
  }

  lemma {:induction false} RunIsClean(ops: seq<Op>)
    ensures Clean(Run(ops))
  {
    if ops != [] {
      RunIsClean(ops[..|ops| - 1]);
    }
  }

  lemma {:induction false} MatchIsListed(gs: seq<Generation>, n: nat, digest: PcrDigest, now: I64)
    requires n <= |gs|
    ensures match NewestMatch(gs, n, digest, now)
            case None => forall i | 0 <= i < n :: !Matches(gs[i], digest, now)
            case Some(p) => exists i | 0 <= i < n ::
              gs[i].policyId == p && Matches(gs[i], digest, now) && forall j | i < j < n :: !Matches(gs[j], digest, now)
  {
    if n > 0 && !Matches(gs[n - 1], digest, now) {
      MatchIsListed(gs, n - 1, digest, now);
    }
  }

  /** No sequence of applies and approvals makes a lookup answer a reserved id. */
  lemma LookupNeverReserved(ops: seq<Op>, digest: PcrDigest, now: I64)
    ensures Lookup(Run(ops), digest, now).Some? ==> !IsReserved(Lookup(Run(ops), digest, now).value)
  {
    var s := Run(ops);
    RunIsClean(ops);
    MatchIsListed(s.generations, |s.generations|, digest, now);
  }

  lemma LastOfLast(a: seq<Generation>, g: Generation)
    ensures LastGenerations(LastGenerations(a) + [g]) == LastGenerations(a + [g])
  {
  }

  /** What one operation does to the generations and the version. */
  lemma StepGenerations(s: Store, op: Op)
    ensures !Takes(s, op) ==> Step(s, op).generations == s.generations && Step(s, op).lastVersion == s.lastVersion
    ensures Takes(s, op) ==>
              && Step(s, op).generations == LastGenerations(s.generations + [op.g])
              && s.lastVersion < op.g.version == Step(s, op).lastVersion
  {
  }

  /** Accepted versions strictly increase, up to the last one applied. */
  lemma {:induction false} VersionsIncrease(ops: seq<Op>)
    ensures forall i, j | 0 <= i < j < |Accepted(ops)| :: Accepted(ops)[i].version < Accepted(ops)[j].version
    ensures forall i | 0 <= i < |Accepted(ops)| :: 0 < Accepted(ops)[i].version <= Run(ops).lastVersion
  {
    if ops != [] {
      var before, op := ops[..|ops| - 1], ops[|ops| - 1];
      VersionsIncrease(before);
      StepGenerations(Run(before), op);
    }
  }

  /** The retained generations are the last at most six accepted ones, oldest first. */
  lemma {:induction false} RetainedAreTheLastApplied(ops: seq<Op>)
    ensures Run(ops).generations == LastGenerations(Accepted(ops))
  {
    if ops != [] {
      var before, op := ops[..|ops| - 1], ops[|ops| - 1];
      RetainedAreTheLastApplied(before);
      StepGenerations(Run(before), op);
      if Takes(Run(before), op) {
        LastOfLast(Accepted(before), op.g);
      }
    }
  }
}
