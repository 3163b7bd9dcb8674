/** Rotating the identity key under a published recovery policy. */
module KeyRotation {
  import opened Prelude
  import opened Quorum
  import opened Recovery

  /** The parts of a rotation record that authorisation reads; `body` is what guardians co-sign. */
  datatype Rotation = Rotation(oldIk: Bytes, newIk: Bytes, body: Bytes, rotateQuorum: Option<Bytes>)

  datatype KeyRotationError = Unauthorized

  const KEY_ROTATION_QUORUM_DS: Bytes := DomainTag("DMTAP-v0/key-rotation-quorum")

  const KEY_ROTATION_VETO_DS: Bytes := DomainTag("DMTAP-v0/key-rotation-veto")

  /** `policy_guardians`: the guardians of every social method, in order, repetitions kept. */
  function PolicyGuardians(methods: seq<RecoveryMethod>): (gs: seq<Bytes>)
    ensures forall g :: g in gs <==> exists m :: m in methods && m.Social? && g in m.guardians
  {
    if methods == [] then []
    else
      assert methods == [methods[0]] + methods[1..];
      (match methods[0] case Social(gs, _) => gs case _ => []) + PolicyGuardians(methods[1..])
  }

  /** Listing is method by method: lists join, a social method gives its guardians, any other none. */
  lemma {:induction false} PolicyGuardiansJoin(a: seq<RecoveryMethod>, b: seq<RecoveryMethod>, m: RecoveryMethod)
    ensures PolicyGuardians(a + b) == PolicyGuardians(a) + PolicyGuardians(b)
    ensures PolicyGuardians([m]) == if m.Social? then m.guardians else []
    decreases |a|
  {
    assert [m][1..] == [] && PolicyGuardians([]) == [];
    if a == [] {
      assert a + b == b;
    } else {
      PolicyGuardiansJoin(a[1..], b, m);
      assert (a + b)[1..] == a[1..] + b;
    }
  }

  ghost function RotationApprovals(verify: Verifier, r: Rotation, policy: RecoveryPolicy,
                                   approvals: seq<GuardianApproval>): nat {
    |Signers(verify, PolicyGuardians(policy.methods), approvals, KEY_ROTATION_QUORUM_DS, r.body)|
  }

  ghost function RotationVetoes(verify: Verifier, r: Rotation, policy: RecoveryPolicy,
                                vetoes: seq<GuardianApproval>): nat {
    |Signers(verify, PolicyGuardians(policy.methods), vetoes, KEY_ROTATION_VETO_DS, r.body)|
  }

  /** Path (a): the record claims a quorum, and the policy's guardians reach it. */
  ghost predicate QuorumBacked(verify: Verifier, r: Rotation, policy: RecoveryPolicy,
                               approvals: seq<GuardianApproval>) {
    && r.rotateQuorum.Some?
    && AsU32(RotationApprovals(verify, r, policy, approvals)) >= Required(policy, |PolicyGuardians(policy.methods)|)
  }

  /** Path (b): the record claims no quorum, no majority vetoed it, and the window has elapsed. */
  ghost predicate PublishedAndDelayed(verify: Verifier, r: Rotation, policy: RecoveryPolicy,
                                      vetoes: seq<GuardianApproval>, announcedAt: U64, now: U64) {
    && r.rotateQuorum.None?
    && !(RotationVetoes(verify, r, policy, vetoes) * 2 > |PolicyGuardians(policy.methods)|)
    && now >= SaturatingAdd(announcedAt, RECOVERY_VETO_WINDOW_MS)
  }

  /**
   What quorum-backed means, below 2^32 guardians: a quorum is claimed, more than half of the policy's guardians
   co-sign, and as many as its rotation threshold asks.
   */
  lemma QuorumBackedIff(verify: Verifier, r: Rotation, policy: RecoveryPolicy, approvals: seq<GuardianApproval>)
    requires |PolicyGuardians(policy.methods)| < U32_LIMIT
    ensures QuorumBacked(verify, r, policy, approvals) <==>
            && r.rotateQuorum.Some?
            && 2 * RotationApprovals(verify, r, policy, approvals) > |PolicyGuardians(policy.methods)|
            && Meets(RotationApprovals(verify, r, policy, approvals), policy.rotateThreshold)
  {
    hide Signers, Meets, Required;
    SignersListed(verify, PolicyGuardians(policy.methods), approvals, KEY_ROTATION_QUORUM_DS, r.body);
    BarIff(RotationApprovals(verify, r, policy, approvals), policy, |PolicyGuardians(policy.methods)|);
  }

  /** What the delayed path means: 72 hours without a majority veto, and no quorum claimed. */
  lemma DelayedIff(verify: Verifier, r: Rotation, policy: RecoveryPolicy, vetoes: seq<GuardianApproval>,
                   announcedAt: U64, now: U64)
    ensures PublishedAndDelayed(verify, r, policy, vetoes, announcedAt, now) <==>
            && r.rotateQuorum.None?
            && 2 * RotationVetoes(verify, r, policy, vetoes) <= |PolicyGuardians(policy.methods)|
            && (now >= announcedAt + 259_200_000 || now == 0xFFFF_FFFF_FFFF_FFFF)
  {
    hide Signers;
  }

  /** A co-signature is never a veto. */
  lemma CosigningIsNoVeto(x: Bytes, y: Bytes)
    ensures KEY_ROTATION_QUORUM_DS + x != KEY_ROTATION_VETO_DS + y
  {
    assert (KEY_ROTATION_QUORUM_DS + x)[22] == KEY_ROTATION_QUORUM_DS[22];
    assert (KEY_ROTATION_VETO_DS + y)[22] == KEY_ROTATION_VETO_DS[22];
  }

  /** `key_rotation_is_quorum_backed`. */
  method KeyRotationIsQuorumBacked(verify: Verifier, r: Rotation, policy: RecoveryPolicy,
                                   approvals: seq<GuardianApproval>)
    returns (backed: bool)
    ensures backed <==> QuorumBacked(verify, r, policy, approvals)
  {
    if r.rotateQuorum.None? {
      return false;
    }
    var guardians := PolicyGuardians(policy.methods);
    var q := CountQuorum(verify, guardians, approvals, KEY_ROTATION_QUORUM_DS, r.body);
    return AsU32(q) >= Required(policy, |guardians|);
  }

  /** `authorize_key_rotation`: without a policy always, with one by exactly one of the two paths. */
  method AuthorizeKeyRotation(verify: Verifier, r: Rotation, policy: Option<RecoveryPolicy>,
                              approvals: seq<GuardianApproval>,
                              vetoes: seq<GuardianApproval>, announcedAt: U64, now: U64)
    returns (result: Result<(), KeyRotationError>)
    ensures result.Ok? <==>
      (policy.None? || QuorumBacked(verify, r, policy.value, approvals)
       || PublishedAndDelayed(verify, r, policy.value, vetoes, announcedAt, now))
  {
    if policy.None? {
      return Ok(());
    }
    var backed := KeyRotationIsQuorumBacked(verify, r, policy.value, approvals);
    if backed {
      return Ok(());
    }
    if r.rotateQuorum.None? {
      var guardians := PolicyGuardians(policy.value.methods);
      var vetoQ := CountQuorum(verify, guardians, vetoes, KEY_ROTATION_VETO_DS, r.body);
      var vetoed := vetoQ * 2 > |guardians|;
      if !vetoed && now >= SaturatingAdd(announcedAt, RECOVERY_VETO_WINDOW_MS) {
        return Ok(());
      }
    }
    return Err(Unauthorized);
  }

  /** Two rotations backed by a quorum under one policy were co-signed by some one of its guardians. */
  lemma RotationsShareCosigner(verify: Verifier, policy: RecoveryPolicy, r: Rotation, approvals: seq<GuardianApproval>,
                               r': Rotation, approvals': seq<GuardianApproval>) returns (g: Bytes)
    requires QuorumBacked(verify, r, policy, approvals) && QuorumBacked(verify, r', policy, approvals')
    requires |PolicyGuardians(policy.methods)| < U32_LIMIT
    ensures exists m :: m in policy.methods && m.Social? && g in m.guardians
    ensures exists s :: s in approvals && s.guardian == g && verify(g, KEY_ROTATION_QUORUM_DS, r.body, s.sig)
    ensures exists s :: s in approvals' && s.guardian == g && verify(g, KEY_ROTATION_QUORUM_DS, r'.body, s.sig)
  {
    g := QuorumsIntersect(verify, PolicyGuardians(policy.methods), approvals, KEY_ROTATION_QUORUM_DS, r.body,
                          approvals', KEY_ROTATION_QUORUM_DS, r'.body);
  }

  /**
   Guardians who refuse to co-sign a second rotation also stop its delayed path: if more than half of the
   listed guardians veto a rotation, it is authorised at no time and by no approvals unless some guardian
   who vetoed it also co-signed it.
   */
  lemma VetoedOnlyWithTurncoat(verify: Verifier, policy: RecoveryPolicy, r: Rotation, approvals: seq<GuardianApproval>,
                               vetoes: seq<GuardianApproval>, announcedAt: U64, now: U64) returns (g: Bytes)
    requires |PolicyGuardians(policy.methods)| < U32_LIMIT
    requires RotationVetoes(verify, r, policy, vetoes) * 2 > |PolicyGuardians(policy.methods)|
    requires
      || QuorumBacked(verify, r, policy, approvals)
      || PublishedAndDelayed(verify, r, policy, vetoes, announcedAt, now)
    ensures exists s :: s in approvals && s.guardian == g && verify(g, KEY_ROTATION_QUORUM_DS, r.body, s.sig)
    ensures exists s :: s in vetoes && s.guardian == g && verify(g, KEY_ROTATION_VETO_DS, r.body, s.sig)
  {
    SignersListed(verify, PolicyGuardians(policy.methods), vetoes, KEY_ROTATION_VETO_DS, r.body);
    g := QuorumsIntersect(verify, PolicyGuardians(policy.methods), approvals, KEY_ROTATION_QUORUM_DS, r.body,
                          vetoes, KEY_ROTATION_VETO_DS, r.body);
  }
}
