/** The recovery policy: what weakens it, how a change is authorised, and what holds over whole histories. */
module Recovery {
  import opened Prelude
  import opened Quorum

  datatype RecoveryMethod =
    | Phrase(recoveryKey: Bytes)
    | Device(deviceKey: Bytes, name: Bytes)
    | Social(guardians: seq<Bytes>, threshold: Byte)

  datatype MethodPredicate = AnyPhrase | Devices(n: Byte) | Guardians(n: Byte) | Ik

  datatype Threshold = Threshold(anyOf: seq<MethodPredicate>)

  datatype RecoveryPolicy = RecoveryPolicy(
    suite: Suite, ik: Bytes, version: U64, methods: seq<RecoveryMethod>,
    recoverThreshold: Threshold, rotateThreshold: Threshold, prev: Option<Bytes>, ts: U64, sig: Bytes)

  /** The content address of a policy version. */
  type ContentIds = RecoveryPolicy -> Bytes

  datatype RecoveryGuardError = WeakeningUnquorumed | VetoWindowActive | Vetoed | IncompleteHistory

  /** 72 hours in milliseconds. */
  const RECOVERY_VETO_WINDOW_MS: U64 := 72 * 60 * 60 * 1000

  const RECOVERY_APPROVAL_DS: Bytes := DomainTag("DMTAP-v0/recovery-approval")

  const RECOVERY_VETO_DS: Bytes := DomainTag("DMTAP-v0/recovery-veto")

  // ---------------------------------------------------------------- strength

  function PredicateCount(p: MethodPredicate): nat {
    match p
    case Devices(n) => n
    case Guardians(n) => n
    case _ => 1
  }

  /** `threshold_min`: the easiest predicate decides; an empty threshold counts as 0. */
  function ThresholdMin(t: Threshold): (m: nat)
    ensures t.anyOf == [] ==> m == 0
    ensures t.anyOf != [] ==> exists p :: p in t.anyOf && PredicateCount(p) == m
    ensures forall p | p in t.anyOf :: m <= PredicateCount(p)
    decreases |t.anyOf|
  {
    if t.anyOf == [] then 0
    else
      var rest := Threshold(t.anyOf[1..]);
      var c := PredicateCount(t.anyOf[0]);
      assert t.anyOf == [t.anyOf[0]] + rest.anyOf;
      if rest.anyOf == [] || c <= ThresholdMin(rest) then c else ThresholdMin(rest)
  }

  /** `method_at_least_as_strong`: same kind and same material, not narrowed. */
  predicate AtLeastAsStrong(prev: RecoveryMethod, cand: RecoveryMethod) {
    match (prev, cand)
    case (Phrase(a), Phrase(b)) => a == b
    case (Device(ka, la), Device(kb, lb)) => la == lb && ka == kb
    case (Social(pg, pt), Social(cg, ct)) => ct >= pt && forall g | g in pg :: g in cg
    case _ => false
  }

  /** The later policy keeps a match for this method. */
  predicate Kept(m: RecoveryMethod, p: RecoveryPolicy) {
    exists n :: n in p.methods && AtLeastAsStrong(m, n)
  }

  /** `recovery_change_is_weakening`. */
  predicate Weakening(prev: RecoveryPolicy, next: RecoveryPolicy) {
    || (exists m :: m in prev.methods && !Kept(m, next))
    || ThresholdMin(next.recoverThreshold) < ThresholdMin(prev.recoverThreshold)
    || ThresholdMin(next.rotateThreshold) < ThresholdMin(prev.rotateThreshold)
  }

  // ---------------------------------------------------------------- what strength means

  /** So many factors of its kind satisfy this predicate. */
  predicate Satisfies(k: nat, p: MethodPredicate) {
    match p
    case AnyPhrase => k >= 1
    case Ik => k >= 1
    case Devices(n) => k >= n
    case Guardians(n) => k >= n
  }

  /** So many factors meet the threshold: they satisfy one of its predicates, and nothing is asked if it has none. */
  ghost predicate Meets(k: nat, t: Threshold) {
    t.anyOf == [] || exists p :: p in t.anyOf && Satisfies(k, p)
  }

  lemma MeetsIff(k: nat, t: Threshold)
    ensures Meets(k, t) <==> k >= ThresholdMin(t)
  {
    if t.anyOf != [] {
      if k >= ThresholdMin(t) {
        var p :| p in t.anyOf && PredicateCount(p) == ThresholdMin(t);
        assert Satisfies(k, p);
      }
    }
  }

  /** A threshold's minimum is lower exactly if some number of factors meets it and not the other. */
  lemma LowerIff(t: Threshold, u: Threshold)
    ensures ThresholdMin(t) < ThresholdMin(u) <==> exists k: nat :: Meets(k, t) && !Meets(k, u)
  {
    hide ThresholdMin, Meets;
    if ThresholdMin(t) < ThresholdMin(u) {
      MeetsIff(ThresholdMin(t), t);
      MeetsIff(ThresholdMin(t), u);
    }
    if k: nat :| Meets(k, t) && !Meets(k, u) {
      MeetsIff(k, t);
      MeetsIff(k, u);
    }
  }

  /** The social method with these guardians and threshold is kept or widened: none removed, no fewer needed. */
  ghost predicate SocialKept(guardians: seq<Bytes>, threshold: Byte, p: RecoveryPolicy) {
    exists gs, t ::
      Social(gs, t) in p.methods && threshold <= t && forall i | 0 <= i < |guardians| :: guardians[i] in gs
  }

  /** Every factor of the earlier policy is still there, by its own key material. */
  ghost predicate FactorsKept(p: RecoveryPolicy, q: RecoveryPolicy) {
    && (forall k | Phrase(k) in p.methods :: Phrase(k) in q.methods)
    && (forall k, l | Device(k, l) in p.methods :: Device(k, l) in q.methods)
    && (forall gs, t | Social(gs, t) in p.methods :: SocialKept(gs, t, q))
  }

  /** No number of factors meets the later threshold that did not meet the earlier one. */
  ghost predicate ThresholdKept(t: Threshold, u: Threshold) {
    forall k: nat | Meets(k, u) :: Meets(k, t)
  }

  lemma KeptIff(m: RecoveryMethod, q: RecoveryPolicy)
    ensures m.Phrase? ==> (Kept(m, q) <==> m in q.methods)
    ensures m.Device? ==> (Kept(m, q) <==> m in q.methods)
    ensures m.Social? ==> (Kept(m, q) <==> SocialKept(m.guardians, m.threshold, q))
  {
    if Kept(m, q) {
      var n :| n in q.methods && AtLeastAsStrong(m, n);
      if m.Social? {
        assert n == Social(n.guardians, n.threshold);
        assert forall i | 0 <= i < |m.guardians| :: m.guardians[i] in m.guardians;
      }
    }
    if m in q.methods {
      assert AtLeastAsStrong(m, m);
    }
    if m.Social? && SocialKept(m.guardians, m.threshold, q) {
      var gs, t :|
        Social(gs, t) in q.methods && m.threshold <= t && forall i | 0 <= i < |m.guardians| :: m.guardians[i] in gs;
      assert AtLeastAsStrong(m, Social(gs, t));
    }
  }

  lemma AllKeptIff(p: RecoveryPolicy, q: RecoveryPolicy)
    ensures (forall m | m in p.methods :: Kept(m, q)) <==> FactorsKept(p, q)
  {
    hide Kept, SocialKept;
    forall m: RecoveryMethod
      ensures m.Phrase? || m.Device? ==> (Kept(m, q) <==> m in q.methods)
      ensures m.Social? ==> (Kept(m, q) <==> SocialKept(m.guardians, m.threshold, q))
    {
      KeptIff(m, q);
    }
    if FactorsKept(p, q) {
      forall m | m in p.methods
        ensures Kept(m, q)
      {
        match m {
          case Phrase(k) => assert Phrase(k) in p.methods;
          case Device(k, l) => assert Device(k, l) in p.methods;
          case Social(gs, t) => assert Social(gs, t) in p.methods;
        }
      }
    }
  }

  lemma ThresholdKeptIff(t: Threshold, u: Threshold)
    ensures ThresholdMin(u) >= ThresholdMin(t) <==> ThresholdKept(t, u)
  {
    hide Meets, ThresholdMin;
    LowerIff(u, t);
  }

  /** What a weakening is, factor by factor and threshold by threshold. */
  lemma WeakeningIff(prev: RecoveryPolicy, next: RecoveryPolicy)
    ensures !Weakening(prev, next) <==>
            && FactorsKept(prev, next)
            && ThresholdKept(prev.recoverThreshold, next.recoverThreshold)
            && ThresholdKept(prev.rotateThreshold, next.rotateThreshold)
  {
    hide Kept, ThresholdMin, FactorsKept, ThresholdKept;
    AllKeptIff(prev, next);
    ThresholdKeptIff(prev.recoverThreshold, next.recoverThreshold);
    ThresholdKeptIff(prev.rotateThreshold, next.rotateThreshold);
  }

  /** The distinct members of a set who are among the guardians reach the threshold. */
  ghost predicate CanRecover(s: set<Bytes>, guardians: seq<Bytes>, threshold: Byte) {
    |set g | g in guardians && g in s| >= threshold
  }

  /** Where a social method is kept, some method lists all its guardians, and too few for it are too few there. */
  lemma SocialKeptMeans(guardians: seq<Bytes>, threshold: Byte, q: RecoveryPolicy)
    returns (gs: seq<Bytes>, t: Byte)
    requires SocialKept(guardians, threshold, q)
    ensures Social(gs, t) in q.methods && forall i | 0 <= i < |guardians| :: guardians[i] in gs
    ensures forall s: set<Bytes> | |s| < threshold :: !CanRecover(s, gs, t)
  {
    gs, t :| Social(gs, t) in q.methods && threshold <= t && forall i | 0 <= i < |guardians| :: guardians[i] in gs;
    forall s: set<Bytes> | |s| < threshold
      ensures !CanRecover(s, gs, t)
    {
      SubsetSize((set g | g in gs && g in s), s);
    }
  }

  /** A method that some version had and the last one lacks. */
  ghost predicate Evicted(history: seq<RecoveryPolicy>, m: RecoveryMethod)
    requires history != []
  {
    m !in history[|history| - 1].methods && exists i :: 0 <= i < |history| && m in history[i].methods
  }

  /** `recovery_change_is_weakening_vs_history`. */
  ghost predicate WeakeningVsHistory(history: seq<RecoveryPolicy>, next: RecoveryPolicy) {
    history != [] &&
    (Weakening(history[|history| - 1], next) || exists m :: m in next.methods && Evicted(history, m))
  }

  // ---------------------------------------------------------------- authorisation

  /** `verify_policy_chain` as a property: hash-linked from genesis with increasing versions. */
  ghost predicate ChainOk(cid: ContentIds, history: seq<RecoveryPolicy>) {
    && history != [] && history[0].prev == None
    && forall i | 0 < i < |history| ::
      history[i].prev == Some(cid(history[i - 1])) && history[i - 1].version < history[i].version
  }

  method VerifyPolicyChain(cid: ContentIds, history: seq<RecoveryPolicy>) returns (r: Result<(), RecoveryGuardError>)
    ensures r == if ChainOk(cid, history) then Ok(()) else Err(IncompleteHistory)
  {
    if history == [] || history[0].prev.Some? {
      return Err(IncompleteHistory);
    }
    for i := 1 to |history|
      invariant forall k | 0 < k < i ::
        history[k].prev == Some(cid(history[k - 1])) && history[k - 1].version < history[k].version
    {
      var a, b := history[i - 1], history[i];
      if b.prev != Some(cid(a)) || b.version <= a.version {
        return Err(IncompleteHistory);
      }
    }
    return Ok(());
  }

  /** The methods that the newest version lacks. */
  function Lacking(ms: seq<RecoveryMethod>, prev: RecoveryPolicy): (r: seq<RecoveryMethod>)
    ensures forall m :: m in r <==> m in ms && m !in prev.methods
  {
    if ms == [] then []
    else
      assert ms == [ms[0]] + ms[1..];
      (if ms[0] in prev.methods then [] else [ms[0]]) + Lacking(ms[1..], prev)
  }

  /** The methods of any version that the newest one lacks, version by version. */
  function EvictedMethods(history: seq<RecoveryPolicy>, prev: RecoveryPolicy): (r: seq<RecoveryMethod>)
    ensures forall m :: m in r <==> m !in prev.methods && exists i :: 0 <= i < |history| && m in history[i].methods
  {
    if history == [] then []
    else
      assert forall i | 0 < i < |history| :: history[i] == history[1..][i - 1];
      Lacking(history[0].methods, prev) + EvictedMethods(history[1..], prev)
  }

  /** Collects the evicted methods and looks for a reintroduced one. */
  function IsWeakeningVsHistory(history: seq<RecoveryPolicy>, next: RecoveryPolicy): (w: bool)
    ensures w <==> WeakeningVsHistory(history, next)
  {
    if history == [] then false
    else
      var prev := history[|history| - 1];
      var evicted := EvictedMethods(history, prev);
      Weakening(prev, next) || exists m :: m in next.methods && m in evicted
  }

  /** The counter-signatures and clock readings that accompany one proposed change. */
  datatype Change = Change(
    guardians: seq<Bytes>, approvals: seq<GuardianApproval>, vetoes: seq<GuardianApproval>, announcedAt: U64, now: U64)

  /** The quorum a weakening change must reach: the stronger of a majority and the policy's own minimum. */
  function Required(prev: RecoveryPolicy, n: nat): nat {
    var policyMin := ThresholdMin(prev.rotateThreshold);
    if MajorityMin(n) > policyMin then MajorityMin(n) else policyMin
  }

  ghost function Approvals(verify: Verifier, cid: ContentIds, next: RecoveryPolicy, c: Change): nat {
    |Signers(verify, c.guardians, c.approvals, RECOVERY_APPROVAL_DS, cid(next))|
  }

  ghost function Vetoes(verify: Verifier, cid: ContentIds, next: RecoveryPolicy, c: Change): nat {
    |Signers(verify, c.guardians, c.vetoes, RECOVERY_VETO_DS, cid(next))|
  }

  /** Quorum reached, not vetoed by a majority, and the window waited out. */
  ghost predicate Guarded(verify: Verifier, cid: ContentIds, prev: RecoveryPolicy, next: RecoveryPolicy, c: Change) {
    && AsU32(Approvals(verify, cid, next, c)) >= Required(prev, |c.guardians|)
    && !(Vetoes(verify, cid, next, c) * 2 > |c.guardians|)
    && c.now >= SaturatingAdd(c.announcedAt, RECOVERY_VETO_WINDOW_MS)
  }

  /** The verdict on a change: first the chain, then whether it weakens, then quorum, veto and window in turn. */
  ghost function Verdict(verify: Verifier, cid: ContentIds, history: seq<RecoveryPolicy>, next: RecoveryPolicy,
                         c: Change)
    : (r: Result<(), RecoveryGuardError>)
    ensures r.Ok? <==>
      (&& ChainOk(cid, history)
       && (WeakeningVsHistory(history, next) ==> Guarded(verify, cid, history[|history| - 1], next, c)))
  {
    if !ChainOk(cid, history) then Err(IncompleteHistory)
    else if !WeakeningVsHistory(history, next) then Ok(())
    else if AsU32(Approvals(verify, cid, next, c)) < Required(history[|history| - 1], |c.guardians|) then
      Err(WeakeningUnquorumed)
    else if Vetoes(verify, cid, next, c) * 2 > |c.guardians| then Err(Vetoed)
    else if c.now < SaturatingAdd(c.announcedAt, RECOVERY_VETO_WINDOW_MS) then Err(VetoWindowActive)
    else Ok(())
  }

  /** `authorize_recovery_change`. */
  method AuthorizeRecoveryChange(verify: Verifier, cid: ContentIds, history: seq<RecoveryPolicy>,
                                 next: RecoveryPolicy, c: Change)
    returns (r: Result<(), RecoveryGuardError>)
    ensures r == Verdict(verify, cid, history, next, c)
  {
    r := VerifyPolicyChain(cid, history);
    if r.Err? {
      return;
    }
    var prev := history[|history| - 1];
    var weakening := IsWeakeningVsHistory(history, next);
    if !weakening {
      return Ok(());
    }
    var n := |c.guardians|;
    var preimage := cid(next);
    var approveQ := CountQuorum(verify, c.guardians, c.approvals, RECOVERY_APPROVAL_DS, preimage);
    var majorityMin := AsU32(n) / 2 + 1;
    var policyMin := ThresholdMin(prev.rotateThreshold);
    var required := if majorityMin > policyMin then majorityMin else policyMin;
    if AsU32(approveQ) < required {
      return Err(WeakeningUnquorumed);
    }
    var vetoQ := CountQuorum(verify, c.guardians, c.vetoes, RECOVERY_VETO_DS, preimage);
    if vetoQ * 2 > n {
      return Err(Vetoed);
    }
    if c.now < SaturatingAdd(c.announcedAt, RECOVERY_VETO_WINDOW_MS) {
      return Err(VetoWindowActive);
    }
    return Ok(());
  }

  // ---------------------------------------------------------------- whole histories

  /** A run: a verifiable chain in which every version after genesis was authorised against all before it. */
  ghost predicate Run(verify: Verifier, cid: ContentIds, history: seq<RecoveryPolicy>, changes: seq<Change>) {
    && ChainOk(cid, history) && |changes| == |history|
    && forall j | 0 < j < |history| :: Verdict(verify, cid, history[..j], history[j], changes[j]).Ok?
  }

  /** Step `k` of a run met quorum, veto and window. */
  ghost predicate GuardedStep(verify: Verifier, cid: ContentIds, history: seq<RecoveryPolicy>, changes: seq<Change>,
                              k: nat)
    requires 0 < k < |history| == |changes|
  {
    Guarded(verify, cid, history[k - 1], history[k], changes[k])
  }

  /** A step that was not guarded weakened nothing, seen against the whole history before it. */
  lemma UnguardedStep(verify: Verifier, cid: ContentIds, history: seq<RecoveryPolicy>, changes: seq<Change>, k: nat)
    requires Run(verify, cid, history, changes) && 0 < k < |history|
    requires !GuardedStep(verify, cid, history, changes, k)
    ensures !Weakening(history[k - 1], history[k])
    ensures forall m | m in history[k].methods :: !Evicted(history[..k], m)
  {
    assert Verdict(verify, cid, history[..k], history[k], changes[k]).Ok?;
    assert history[..k][|history[..k]| - 1] == history[k - 1];
  }

  lemma AtLeastAsStrongTransitive(a: RecoveryMethod, b: RecoveryMethod, c: RecoveryMethod)
    requires AtLeastAsStrong(a, b) && AtLeastAsStrong(b, c)
    ensures AtLeastAsStrong(a, c)
  {
  }

  /** The later policy is no weaker, method by method and threshold by threshold. */
  ghost predicate NoWeaker(p: RecoveryPolicy, q: RecoveryPolicy) {
    && (forall m | m in p.methods :: Kept(m, q))
    && ThresholdMin(q.recoverThreshold) >= ThresholdMin(p.recoverThreshold)
    && ThresholdMin(q.rotateThreshold) >= ThresholdMin(p.rotateThreshold)
  }

  /** Without a guarded step in between, strength is kept over any number of versions. */
  lemma {:induction false} UnguardedKeepsStrength(verify: Verifier, cid: ContentIds, history: seq<RecoveryPolicy>,
                                                  changes: seq<Change>, i: nat, j: nat)
    requires Run(verify, cid, history, changes) && i <= j < |history|
    requires forall k | i < k <= j :: !GuardedStep(verify, cid, history, changes, k)
    ensures NoWeaker(history[i], history[j])
    decreases j
  {
    hide Evicted, ThresholdMin, ChainOk, Guarded;
    if i == j {
      forall m | m in history[i].methods
        ensures Kept(m, history[i])
      {
        assert AtLeastAsStrong(m, m);
      }
    } else {
      UnguardedKeepsStrength(verify, cid, history, changes, i, j - 1);
      UnguardedStep(verify, cid, history, changes, j);
      forall m | m in history[i].methods
        ensures Kept(m, history[j])
      {
        var n :| n in history[j - 1].methods && AtLeastAsStrong(m, n);
        assert Kept(n, history[j]);
        var o :| o in history[j].methods && AtLeastAsStrong(n, o);
        AtLeastAsStrongTransitive(m, n, o);
      }
    }
  }

  /**
   Recovery strength over runs: whenever a later version is weaker than an earlier one in any method or
   threshold, some step in between met the quorum, was not vetoed and waited out the window.
   */
  lemma WeakerOnlyIfGuarded(verify: Verifier, cid: ContentIds, history: seq<RecoveryPolicy>, changes: seq<Change>,
                            i: nat, j: nat)
    returns (k: nat)
    requires Run(verify, cid, history, changes) && i <= j < |history|
    requires !NoWeaker(history[i], history[j])
    ensures i < k <= j && GuardedStep(verify, cid, history, changes, k)
  {
    if forall k | i < k <= j :: !GuardedStep(verify, cid, history, changes, k) {
      UnguardedKeepsStrength(verify, cid, history, changes, i, j);
    }
    k :| i < k <= j && GuardedStep(verify, cid, history, changes, k);
  }

  /** In terms of factors: without a guarded step in between every factor and both thresholds are kept. */
  lemma UnguardedKeepsFactors(verify: Verifier, cid: ContentIds, history: seq<RecoveryPolicy>, changes: seq<Change>,
                              i: nat, j: nat)
    requires Run(verify, cid, history, changes) && i <= j < |history|
    requires forall k | i < k <= j :: !GuardedStep(verify, cid, history, changes, k)
    ensures FactorsKept(history[i], history[j])
    ensures ThresholdKept(history[i].recoverThreshold, history[j].recoverThreshold)
    ensures ThresholdKept(history[i].rotateThreshold, history[j].rotateThreshold)
  {
    hide Run, GuardedStep, Kept, ThresholdMin, FactorsKept, ThresholdKept;
    UnguardedKeepsStrength(verify, cid, history, changes, i, j);
    AllKeptIff(history[i], history[j]);
    ThresholdKeptIff(history[i].recoverThreshold, history[j].recoverThreshold);
    ThresholdKeptIff(history[i].rotateThreshold, history[j].rotateThreshold);
  }

  /**
   The other half: a change that keeps every method and both thresholds and adds only methods no version ever
   had passes at once, with no approvals and against any vetoes.
   */
  lemma AdditionsPass(verify: Verifier, cid: ContentIds, history: seq<RecoveryPolicy>, next: RecoveryPolicy, c: Change)
    requires ChainOk(cid, history)
    requires var prev := history[|history| - 1];
      && (forall m | m in prev.methods :: m in next.methods)
      && next.recoverThreshold == prev.recoverThreshold && next.rotateThreshold == prev.rotateThreshold
      && forall m | m in next.methods && m !in prev.methods :: forall i | 0 <= i < |history| :: m !in history[i].methods
    ensures !WeakeningVsHistory(history, next)
    ensures Verdict(verify, cid, history, next, c) == Ok(())
  {
    hide ThresholdMin;
    var prev := history[|history| - 1];
    forall m | m in prev.methods
      ensures Kept(m, next)
    {
      assert AtLeastAsStrong(m, m);
    }
  }

  /**
   Eviction is durable over runs: a method that an earlier version had, a later one lacked and a still later
   one has again came back through a guarded step after its eviction.
   */
  lemma {:induction false} ReturnOnlyIfGuarded(verify: Verifier, cid: ContentIds, history: seq<RecoveryPolicy>,
                                               changes: seq<Change>,
                                               a: nat, b: nat, j: nat, m: RecoveryMethod) returns (k: nat)
    requires Run(verify, cid, history, changes) && a < b < j < |history|
    requires m in history[a].methods && m !in history[b].methods && m in history[j].methods
    ensures b < k <= j && GuardedStep(verify, cid, history, changes, k)
    decreases j
  {
    hide ChainOk, Guarded, GuardedStep, Weakening, Verdict;
    if m in history[j - 1].methods {
      k := ReturnOnlyIfGuarded(verify, cid, history, changes, a, b, j - 1, m);
    } else {
      k := j;
      EvictedBefore(history, a, j, m);
      if !GuardedStep(verify, cid, history, changes, j) {
        UnguardedStep(verify, cid, history, changes, j);
      }
    }
  }

  lemma EvictedBefore(history: seq<RecoveryPolicy>, a: nat, j: nat, m: RecoveryMethod)
    requires a < j < |history| && m in history[a].methods && m !in history[j - 1].methods
    ensures Evicted(history[..j], m)
  {
    assert history[..j][a] == history[a] && history[..j][|history[..j]| - 1] == history[j - 1];
  }

  /** A change that the one guardian approves and the window allows passes, whatever it does. */
  lemma OneGuardianPasses(cid: ContentIds, history: seq<RecoveryPolicy>, next: RecoveryPolicy, c: Change)
    requires ChainOk(cid, history) && history[|history| - 1].rotateThreshold.anyOf == []
    requires c == Change([[]], [GuardianApproval([], [])], [], 0, RECOVERY_VETO_WINDOW_MS)
    ensures Verdict((k, d, x, s) => true, cid, history, next, c).Ok?
  {
    hide ChainOk, WeakeningVsHistory;
    var verify: Verifier := (k, d, x, s) => true;
    assert Signers(verify, c.guardians, c.approvals, RECOVERY_APPROVAL_DS, cid(next)) == {[]} by {
      assert c.approvals[0] in c.approvals && c.guardians[0] in c.guardians;
    }
    assert Signers(verify, c.guardians, c.vetoes, RECOVERY_VETO_DS, cid(next)) == {};
  }

  /** Guarded changes do pass: there is a run that evicts a method and, again guarded, takes it back. */
  lemma GuardedRunExists()
    returns (verify: Verifier, cid: ContentIds, history: seq<RecoveryPolicy>, changes: seq<Change>, m: RecoveryMethod)
    ensures Run(verify, cid, history, changes) && |history| == 3
    ensures m in history[0].methods && m !in history[1].methods && m in history[2].methods
    ensures !NoWeaker(history[0], history[1])
  {
    hide Verdict, ThresholdMin;
    verify, cid, m := (k, d, x, s) => true, (p: RecoveryPolicy) => [p.version % 256], Phrase([]);
    var none := Threshold([]);
    history := [
      RecoveryPolicy(Classical, [], 0, [m], none, none, None, 0, []),
      RecoveryPolicy(Classical, [], 1, [], none, none, Some([0]), 0, []),
      RecoveryPolicy(Classical, [], 2, [m], none, none, Some([1]), 0, [])];
    var c := Change([[]], [GuardianApproval([], [])], [], 0, RECOVERY_VETO_WINDOW_MS);
    changes := [c, c, c];
    assert ChainOk(cid, history);
    OneGuardianPasses(cid, history[..1], history[1], c);
    OneGuardianPasses(cid, history[..2], history[2], c);
    assert history[0].methods[0] == m && history[2].methods[0] == m;
  }

  /** Along a chain versions rise over any distance, and genesis alone has no predecessor. */
  lemma {:induction false} VersionsRise(cid: ContentIds, history: seq<RecoveryPolicy>, i: nat, j: nat)
    requires ChainOk(cid, history) && i < j < |history|
    ensures history[i].version < history[j].version && history[j].prev == Some(cid(history[j - 1]))
    ensures history[0].prev == None
    decreases j
  {
    if i < j - 1 {
      VersionsRise(cid, history, i, j - 1);
    }
  }

  /**
   What a guarded step is, below 2^32 guardians: more than half of the guardians approve, as many as the
   rotation threshold asks, not more than half veto, and 72 hours have passed since the announcement (or the
   clock stands at its end).
   */
  lemma GuardedIff(verify: Verifier, cid: ContentIds, prev: RecoveryPolicy, next: RecoveryPolicy, c: Change)
    requires |c.guardians| < U32_LIMIT
    ensures Guarded(verify, cid, prev, next, c) <==>
            && 2 * Approvals(verify, cid, next, c) > |c.guardians|
            && Meets(Approvals(verify, cid, next, c), prev.rotateThreshold)
            && 2 * Vetoes(verify, cid, next, c) <= |c.guardians|
            && (c.now >= c.announcedAt + 259_200_000 || c.now == 0xFFFF_FFFF_FFFF_FFFF)
  {
    hide Signers, Meets, ThresholdMin;
    SignersListed(verify, c.guardians, c.approvals, RECOVERY_APPROVAL_DS, cid(next));
    MeetsIff(Approvals(verify, cid, next, c), prev.rotateThreshold);
    BarIff(Approvals(verify, cid, next, c), prev, |c.guardians|);
  }

  /** Both bars: a count reaches what is required exactly if it is a majority and meets the rotation threshold. */
  lemma BarIff(k: nat, policy: RecoveryPolicy, n: nat)
    requires k <= n < U32_LIMIT
    ensures AsU32(k) >= Required(policy, n) <==> 2 * k > n && Meets(k, policy.rotateThreshold)
  {
    hide Meets, ThresholdMin;
    MeetsIff(k, policy.rotateThreshold);
  }

  /** The errors of a change, each with its condition, in the order in which they are found. */
  lemma VerdictErrors(verify: Verifier, cid: ContentIds, history: seq<RecoveryPolicy>, next: RecoveryPolicy, c: Change)
    ensures var r := Verdict(verify, cid, history, next, c);
      if !ChainOk(cid, history) then r == Err(IncompleteHistory)
      else if !WeakeningVsHistory(history, next) then r == Ok(())
      else
        var quorum := AsU32(Approvals(verify, cid, next, c)) >= Required(history[|history| - 1], |c.guardians|);
        var vetoed := 2 * Vetoes(verify, cid, next, c) > |c.guardians|;
        && (r == Err(WeakeningUnquorumed) <==> !quorum)
        && (r == Err(Vetoed) <==> quorum && vetoed)
        && (r == Err(VetoWindowActive) <==>
            quorum && !vetoed && c.now < c.announcedAt + 259_200_000 && c.now < 0xFFFF_FFFF_FFFF_FFFF)
  {
    hide ChainOk, WeakeningVsHistory, Signers, Required;
  }

  /** An approval is never a veto: what is signed for the one is not what is signed for the other. */
  lemma ApprovalIsNoVeto(x: Bytes, y: Bytes)
    ensures RECOVERY_APPROVAL_DS + x != RECOVERY_VETO_DS + y
  {
    assert (RECOVERY_APPROVAL_DS + x)[18] == RECOVERY_APPROVAL_DS[18];
    assert (RECOVERY_VETO_DS + y)[18] == RECOVERY_VETO_DS[18];
  }

  /** Content ids that do not collide on the policies at hand. */
  ghost predicate NoCollision(cid: ContentIds, ps: set<RecoveryPolicy>) {
    forall p, q | p in ps && q in ps && cid(p) == cid(q) :: p == q
  }

  lemma TipTellsGenesis(cid: ContentIds, h: seq<RecoveryPolicy>)
    requires ChainOk(cid, h)
    ensures |h| >= 1 && (|h| == 1 <==> h[|h| - 1].prev == None)
  {
    if |h| > 1 {
      assert h[|h| - 1].prev == Some(cid(h[|h| - 2]));
    }
  }

  /** Without its tip a longer chain is still one, and the tip names the version before it. */
  lemma WithoutTip(cid: ContentIds, h: seq<RecoveryPolicy>)
    requires ChainOk(cid, h) && |h| > 1
    ensures ChainOk(cid, h[..|h| - 1]) && h[|h| - 1].prev == Some(cid(h[..|h| - 1][|h| - 2]))
  {
    assert h[|h| - 1].prev == Some(cid(h[|h| - 2]));
  }

  /** Hash-linked histories are unique: the tip determines the whole chain, and so what was ever evicted. */
  lemma {:induction false} HistoryUnique(cid: ContentIds, ps: set<RecoveryPolicy>, g: seq<RecoveryPolicy>,
                                         h: seq<RecoveryPolicy>)
    requires ChainOk(cid, g) && ChainOk(cid, h)
    requires NoCollision(cid, ps) && (forall p | p in g :: p in ps) && (forall p | p in h :: p in ps)
    requires g[|g| - 1] == h[|h| - 1]
    ensures g == h
    decreases |g|
  {
    hide ChainOk;
    TipTellsGenesis(cid, g);
    TipTellsGenesis(cid, h);
    if |g| > 1 {
      var g', h' := g[..|g| - 1], h[..|h| - 1];
      WithoutTip(cid, g);
      WithoutTip(cid, h);
      assert g'[|g| - 2] in g && h'[|h| - 2] in h;
      HistoryUnique(cid, ps, g', h');
      assert g == g' + [g[|g| - 1]] && h == h' + [h[|h| - 1]];
    }
  }

  /** Two weakening changes authorised under one guardian list were both approved by some one guardian. */
  lemma WeakeningsShareApprover(verify: Verifier, cid: ContentIds,
                                history: seq<RecoveryPolicy>, next: RecoveryPolicy, c: Change,
                                history': seq<RecoveryPolicy>, next': RecoveryPolicy, c': Change) returns (g: Bytes)
    requires Verdict(verify, cid, history, next, c).Ok? && WeakeningVsHistory(history, next)
    requires Verdict(verify, cid, history', next', c').Ok? && WeakeningVsHistory(history', next')
    requires c.guardians == c'.guardians && |c.guardians| < U32_LIMIT
    ensures g in c.guardians
    ensures exists s :: s in c.approvals && s.guardian == g && verify(g, RECOVERY_APPROVAL_DS, cid(next), s.sig)
    ensures exists s :: s in c'.approvals && s.guardian == g && verify(g, RECOVERY_APPROVAL_DS, cid(next'), s.sig)
  {
    g := QuorumsIntersect(verify, c.guardians, c.approvals, RECOVERY_APPROVAL_DS, cid(next),
                          c'.approvals, RECOVERY_APPROVAL_DS, cid(next'));
  }
}
