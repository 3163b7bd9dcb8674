/** Delegated capabilities: attenuation along token chains. */
module Capability {
  import opened Prelude
  import opened CborValue
  import P = CborParse
  import F = CborFields
  import N = CborCanon
  import M = MoteCodec

  type Caveats = Option<Cv>

  datatype Grant = Grant(resource: Str, ability: Str, caveats: Caveats)

  datatype Token = Token(
    suite: Suite, iss: Bytes, aud: Bytes, caps: seq<Grant>, nbf: U64, exp: U64,
    nonce: Bytes, prnt: Option<Bytes>, sig: Bytes)

  datatype CapabilityError =
    | BadSignature
    | AttenuationViolation
    | BrokenChain
    | WindowNotNested
    | UntrustedRoot
    | NotYetValid
    | Expired
    | Revoked

  /** Whether a token's own signature verifies, and its content address. */
  datatype Scheme = Scheme(verify: Token -> bool, cid: Token -> Bytes)

  const SLASH: Byte := 47

  // ---------------------------------------------------------------- covering

  /** `scope_covers`: equal, or a sub-scope after a slash. */
  predicate ScopeCovers(parent: Bytes, child: Bytes) {
    parent == child || (parent <= child && |parent| < |child| && child[|parent|] == SLASH)
  }

  /** `caveats_tightened`. */
  predicate CaveatsTightened(parent: Caveats, child: Caveats) {
    if parent.None? then true
    else if !parent.value.TextMap? then false
    else if child.None? then parent.value.t == []
    else if !child.value.TextMap? then false
    else forall i | 0 <= i < |parent.value.t| :: parent.value.t[i] in child.value.t
  }

  /** `capability_covers`. */
  predicate Covers(parent: Grant, child: Grant) {
    && ScopeCovers(parent.resource, child.resource)
    && ScopeCovers(parent.ability, child.ability)
    && CaveatsTightened(parent.caveats, child.caveats)
  }

  lemma ScopeCoversTransitive(a: Bytes, b: Bytes, c: Bytes)
    requires ScopeCovers(a, b) && ScopeCovers(b, c)
    ensures ScopeCovers(a, c)
  {
    if a != b && b != c {
      assert c[|a|] == c[..|b|][|a|] == b[|a|];
      assert a == b[..|a|] == c[..|b|][..|a|] == c[..|a|];
    }
  }

  /** A scope covers itself and whatever extends it after a slash. */
  lemma ScopeMeans(parent: Bytes, child: Bytes)
    ensures ScopeCovers(parent, child) <==> parent == child || exists rest :: child == parent + [47] + rest
  {
    if ScopeCovers(parent, child) && parent != child {
      assert child == parent + [47] + child[|parent| + 1..];
    }
  }

  /** The shape every decoder gives caveats: absent, or a text map. */
  predicate DecodedShape(c: Caveats) {
    c.None? || c.value.TextMap?
  }

  /** The conditions that caveats of decoded shape impose. */
  function Conditions(c: Caveats): set<(Str, Cv)>
    requires DecodedShape(c)
  {
    if c.None? then {} else set p | p in c.value.t
  }

  /** Tightening keeps every condition; malformed caveats cover nothing, and are covered where there are none. */
  lemma TighteningMeans(parent: Caveats, child: Caveats)
    ensures DecodedShape(parent) && DecodedShape(child) ==>
            (CaveatsTightened(parent, child) <==> Conditions(parent) <= Conditions(child))
    ensures !DecodedShape(parent) ==> !CaveatsTightened(parent, child)
    ensures DecodedShape(parent) && !DecodedShape(child) ==> (CaveatsTightened(parent, child) <==> parent == None)
  {
    if DecodedShape(parent) && DecodedShape(child) && parent.Some? {
      assert parent.value.t != [] ==> parent.value.t[0] in Conditions(parent);
      if Conditions(parent) <= Conditions(child) && child.Some? {
        forall i | 0 <= i < |parent.value.t|
          ensures parent.value.t[i] in child.value.t
        {
          assert parent.value.t[i] in Conditions(parent);
        }
      }
    }
  }

  /** A grant covers another whose resource and ability are its own or extend them, with all its conditions. */
  lemma CoversMeans(parent: Grant, child: Grant)
    requires DecodedShape(parent.caveats) && DecodedShape(child.caveats)
    ensures Covers(parent, child) <==>
            && (child.resource == parent.resource || exists rest :: child.resource == parent.resource + [47] + rest)
            && (child.ability == parent.ability || exists rest :: child.ability == parent.ability + [47] + rest)
            && Conditions(parent.caveats) <= Conditions(child.caveats)
  {
    hide ScopeCovers, CaveatsTightened, Conditions;
    ScopeMeans(parent.resource, child.resource);
    ScopeMeans(parent.ability, child.ability);
    TighteningMeans(parent.caveats, child.caveats);
  }

  function GrantSlots(g: Grant): seq<F.Slot> {
    [(1, Some(Text(g.resource))), (2, Some(Text(g.ability))), (3, g.caveats)]
  }

  /** `Capability::to_cv`. */
  function GrantCv(g: Grant): Cv {
    Map(F.Build(GrantSlots(g)))
  }

  /** Caveats as they come back: in wire order. */
  function NormalCaveats(c: Caveats): Caveats
    requires DecodedShape(c)
  {
    if c.None? then None else Some(TextMap(M.NormalExt(c.value.t)))
  }

  /** A grant of decoded shape reads back as it was written, up to the order of caveats. */
  lemma GrantWritten(g: Grant)
    requires DecodedShape(g.caveats)
    ensures GrantFrom(N.Normal(GrantCv(g))) == Ok(g.(caveats := NormalCaveats(g.caveats)))
  {
    hide F.Take, F.Build, CaveatsFrom, M.NormalExt, N.Normal;
    var s, t := GrantSlots(g), F.NormalSlots(GrantSlots(g));
    F.NormalBuild(s);
    M.BuildEnds(t);
    CaveatsWritten(g);
    M.TakeAt(t, 0);
    M.TakeAt(t, 1);
    M.TakeAt(t, 2);
  }

  lemma CaveatsWritten(g: Grant)
    requires DecodedShape(g.caveats)
    ensures var t := F.NormalSlots(GrantSlots(g));
      && t[0] == (1, Some(Text(g.resource))) && t[1] == (2, Some(Text(g.ability))) && t[2].0 == 3
      && CaveatsFrom(t[2].1) == Ok(NormalCaveats(g.caveats))
  {
    hide OrderFrom;
    if g.caveats.Some? {
      if g.caveats.value.t == [] {
        M.ExtWritten([]);
        assert Count(g.caveats.value) == 0;
      } else {
        M.ExtNormal(g.caveats.value.t);
      }
    }
  }

  /** `Capability::from_cv`: whatever it accepts has caveats in that shape, an empty map counting as a text map. */
  function GrantFrom(v: Cv): (r: Result<Grant, P.CborError>)
    ensures r.Ok? ==> DecodedShape(r.value.caveats)
  {
    var f :- F.FieldsOf(v);
    var (x, f) :- F.Req(f, 1);
    var resource :- F.AsText(x);
    var (x, f) :- F.Req(f, 2);
    var ability :- F.AsText(x);
    var (x, f) := F.Take(f, 3);
    var caveats :- CaveatsFrom(x);
    var _ :- F.DenyUnknown(f);
    Ok(Grant(resource, ability, caveats))
  }

  function CaveatsFrom(x: Option<Cv>): Result<Caveats, P.CborError> {
    match x
    case None => Ok(None)
    case Some(TextMap(_)) => Ok(x)
    case Some(Map(m)) => if m == [] then Ok(Some(TextMap([]))) else Err(P.TypeMismatch)
    case Some(_) => Err(P.TypeMismatch)
  }

  /**
   Tightening composes exactly when the outermost side has no caveats or the innermost ones have the shape a
   decoder gives them.
   */
  lemma TighteningComposes(a: Caveats, b: Caveats, c: Caveats)
    requires CaveatsTightened(a, b) && CaveatsTightened(b, c)
    ensures CaveatsTightened(a, c) <==> a.None? || DecodedShape(c)
  {
    assert a.Some? && a.value.t != [] && b.Some? ==> a.value.t[0] in b.value.t;
    if a.Some? && b.Some? && c.Some? && c.value.TextMap? {
      forall i | 0 <= i < |a.value.t|
        ensures a.value.t[i] in c.value.t
      {
        assert a.value.t[i] in b.value.t;
        var j :| 0 <= j < |b.value.t| && b.value.t[j] == a.value.t[i];
      }
    }
  }

  /** It does fail otherwise: an empty caveat map, then none, then a malformed one. */
  lemma TighteningDoesNotAlwaysCompose()
    ensures var a, b, c := Some(TextMap([])), None, Some(Uint(0));
      CaveatsTightened(a, b) && CaveatsTightened(b, c) && !CaveatsTightened(a, c)
  {
  }

  /** So covering composes under exactly the same condition. */
  lemma CoversComposes(a: Grant, b: Grant, c: Grant)
    requires Covers(a, b) && Covers(b, c)
    ensures Covers(a, c) <==> a.caveats.None? || DecodedShape(c.caveats)
  {
    ScopeCoversTransitive(a.resource, b.resource, c.resource);
    ScopeCoversTransitive(a.ability, b.ability, c.ability);
    TighteningComposes(a.caveats, b.caveats, c.caveats);
  }

  // ---------------------------------------------------------------- chains

  /** Every grant of the child is covered by one of the parent. */
  predicate Attenuated(parent: Token, child: Token) {
    forall c | c in child.caps :: exists p :: p in parent.caps && Covers(p, c)
  }

  /** The checks on one link, in the order they are made. */
  function Link(s: Scheme, child: Token, parent: Token): Result<(), CapabilityError> {
    if !s.verify(parent) then Err(BadSignature)
    else if child.prnt != Some(s.cid(parent)) || child.iss != parent.aud then Err(BrokenChain)
    else if child.nbf < parent.nbf || child.exp > parent.exp then Err(WindowNotNested)
    else if !Attenuated(parent, child) then Err(AttenuationViolation)
    else Ok(())
  }

  /** The walk from `child` up its ancestors, nearest first. */
  function Walk(s: Scheme, child: Token, chain: seq<Token>): Result<(), CapabilityError>
    decreases |chain|
  {
    if chain == [] then
      if child.prnt.Some? then Err(BrokenChain) else Ok(())
    else
      var _ :- Link(s, child, chain[0]);
      Walk(s, chain[0], chain[1..])
  }

  /** What `verify_chain` decides. */
  function ChainVerdict(s: Scheme, token: Token, chain: seq<Token>): Result<(), CapabilityError> {
    if !s.verify(token) then Err(BadSignature) else Walk(s, token, chain)
  }

  /** `verify_chain`: a loop that moves `child` up the chain. */
  method VerifyChain(s: Scheme, token: Token, chain: seq<Token>) returns (r: Result<(), CapabilityError>)
    ensures r == ChainVerdict(s, token, chain)
  {
    if !s.verify(token) {
      return Err(BadSignature);
    }
    var child := token;
    assert chain[0..] == chain;
    for i := 0 to |chain|
      invariant Walk(s, token, chain) == Walk(s, child, chain[i..])
    {
      var parent := chain[i];
      assert chain[i..][1..] == chain[i + 1..];
      if !s.verify(parent) {
        return Err(BadSignature);
      }
      if child.prnt != Some(s.cid(parent)) {
        return Err(BrokenChain);
      }
      if child.iss != parent.aud {
        return Err(BrokenChain);
      }
      if child.nbf < parent.nbf || child.exp > parent.exp {
        return Err(WindowNotNested);
      }
      for j := 0 to |child.caps|
        invariant forall k | 0 <= k < j :: exists p :: p in parent.caps && Covers(p, child.caps[k])
      {
        var c := child.caps[j];
        if !exists p :: p in parent.caps && Covers(p, c) {
          assert c in child.caps;
          return Err(AttenuationViolation);
        }
      }
      child := parent;
    }
    return if child.prnt.Some? then Err(BrokenChain) else Ok(());
  }

  /** The token below ancestor `i`. */
  function Below(token: Token, chain: seq<Token>, i: nat): Token
    requires i <= |chain|
  {
    if i == 0 then token else chain[i - 1]
  }

  /** A child hangs on its parent: by address, by key, within its window and its grants. */
  ghost predicate Hangs(s: Scheme, child: Token, parent: Token) {
    && child.prnt == Some(s.cid(parent)) && child.iss == parent.aud
    && parent.nbf <= child.nbf && child.exp <= parent.exp
    && forall c | c in child.caps :: exists p :: p in parent.caps && Covers(p, c)
  }

  ghost predicate Stands(s: Scheme, token: Token, chain: seq<Token>) {
    && (forall i | 0 <= i < |chain| :: s.verify(chain[i]) && Hangs(s, Below(token, chain, i), chain[i]))
    && Below(token, chain, |chain|).prnt == None
  }

  lemma {:induction false} WalkIff(s: Scheme, token: Token, chain: seq<Token>)
    ensures Walk(s, token, chain).Ok? <==> Stands(s, token, chain)
    decreases |chain|
  {
    hide Covers;
    if chain != [] {
      var up := chain[1..];
      WalkIff(s, chain[0], up);
      LinkIff(s, token, chain[0]);
      assert Below(token, chain, |chain|) == Below(chain[0], up, |up|);
      forall i | 0 <= i < |up|
        ensures Below(chain[0], up, i) == Below(token, chain, i + 1) && up[i] == chain[i + 1]
      {
      }
      assert forall i | 1 <= i < |chain| ::
        chain[i] == up[i - 1] && Below(token, chain, i) == Below(chain[0], up, i - 1);
    }
  }

  lemma LinkIff(s: Scheme, child: Token, parent: Token)
    ensures Link(s, child, parent).Ok? <==> s.verify(parent) && Hangs(s, child, parent)
  {
    hide Covers;
  }

  /** The errors of one link, each with its condition. */
  lemma LinkErrors(s: Scheme, child: Token, parent: Token)
    ensures Link(s, child, parent) == Err(BadSignature) <==> !s.verify(parent)
    ensures Link(s, child, parent) == Err(BrokenChain) <==>
            s.verify(parent) && (child.prnt != Some(s.cid(parent)) || child.iss != parent.aud)
    ensures Link(s, child, parent) == Err(WindowNotNested) ==> !(parent.nbf <= child.nbf && child.exp <= parent.exp)
    ensures Link(s, child, parent) == Err(AttenuationViolation) ==>
            exists c :: c in child.caps && forall p | p in parent.caps :: !Covers(p, c)
  {
    hide Covers;
  }

  /**
   What `verify_chain` accepts: the token and every ancestor signed, each hanging on the next by address, key,
   window and grants, and the last without a parent.
   */
  lemma ChainIff(s: Scheme, token: Token, chain: seq<Token>)
    ensures ChainVerdict(s, token, chain).Ok? <==> s.verify(token) && Stands(s, token, chain)
  {
    WalkIff(s, token, chain);
  }

  /** The issuer at the root of a chain. */
  function RootIssuer(token: Token, chain: seq<Token>): Bytes {
    if chain == [] then token.iss else chain[|chain| - 1].iss
  }

  /** `verify_chain_rooted`. */
  method VerifyChainRooted(s: Scheme, token: Token, chain: seq<Token>, trustedRoot: Bytes)
    returns (r: Result<(), CapabilityError>)
    ensures r.Ok? <==> (ChainVerdict(s, token, chain).Ok? && RootIssuer(token, chain) == trustedRoot)
    ensures ChainVerdict(s, token, chain).Err? ==> r == ChainVerdict(s, token, chain)
    ensures r.Err? && ChainVerdict(s, token, chain).Ok? ==> r == Err(UntrustedRoot)
  {
    r := VerifyChain(s, token, chain);
    if r.Err? {
      return;
    }
    if RootIssuer(token, chain) != trustedRoot {
      return Err(UntrustedRoot);
    }
  }

  /** `verify_at`. */
  function VerifyAt(s: Scheme, t: Token, now: U64, revocations: seq<Bytes>): Result<(), CapabilityError> {
    if !s.verify(t) then Err(BadSignature)
    else if now < t.nbf then Err(NotYetValid)
    else if now >= t.exp then Err(Expired)
    else if s.cid(t) in revocations then Err(Revoked)
    else Ok(())
  }

  /** What `verify_at` answers, case by case. */
  lemma VerifyAtIff(s: Scheme, t: Token, now: U64, revocations: seq<Bytes>)
    ensures var r, inside := VerifyAt(s, t, now, revocations), t.nbf <= now < t.exp;
      var listed := exists i :: 0 <= i < |revocations| && revocations[i] == s.cid(t);
      && (r.Ok? <==> s.verify(t) && inside && !listed)
      && (r == Err(Revoked) <==> s.verify(t) && inside && listed)
      && (r == Err(NotYetValid) <==> s.verify(t) && now < t.nbf)
      && (r == Err(Expired) <==> s.verify(t) && t.nbf <= now && t.exp <= now)
      && (r == Err(BadSignature) <==> !s.verify(t))
  {
  }

  // ---------------------------------------------------------------- end to end

  /** The window of the child lies within that of the parent. */
  predicate Nested(child: Token, parent: Token) {
    parent.nbf <= child.nbf && child.exp <= parent.exp
  }

  /** One link up: the parent's grants still cover whatever the child's covered. */
  lemma CoverUp(leaf: Token, child: Token, parent: Token)
    requires Attenuated(child, leaf) && Attenuated(parent, child)
    requires forall c | c in leaf.caps :: DecodedShape(c.caveats)
    ensures Attenuated(parent, leaf)
  {
    hide Covers;
    forall c | c in leaf.caps
      ensures exists p :: p in parent.caps && Covers(p, c)
    {
      var m :| m in child.caps && Covers(m, c);
      var p :| p in parent.caps && Covers(p, m);
      CoversComposes(p, m, c);
    }
  }

  /** Walking on from an ancestor that already covers the leaf, every further ancestor covers it too. */
  lemma {:induction false} WalkCovers(s: Scheme, leaf: Token, child: Token, chain: seq<Token>, i: nat)
    requires Walk(s, child, chain).Ok? && i < |chain|
    requires forall c | c in leaf.caps :: DecodedShape(c.caveats)
    requires leaf == child || Attenuated(child, leaf)
    requires Nested(leaf, child)
    ensures Attenuated(chain[i], leaf) && Nested(leaf, chain[i]) && s.verify(chain[i])
    decreases |chain|
  {
    hide Attenuated;
    assert Link(s, child, chain[0]).Ok?;
    if leaf != child {
      CoverUp(leaf, child, chain[0]);
    }
    if i > 0 {
      WalkCovers(s, leaf, chain[0], chain[1..], i - 1);
    }
  }

  /**
   Attenuation is end to end: under an accepted chain every grant of the leaf is covered by some grant of
   every ancestor up to the root, its window lies within each ancestor's, and a clock at which the leaf is
   valid lies in the window of every ancestor.
   */
  lemma AttenuationEndToEnd(s: Scheme, leaf: Token, chain: seq<Token>, i: nat, now: U64, revocations: seq<Bytes>)
    requires ChainVerdict(s, leaf, chain).Ok? && i < |chain|
    requires forall c | c in leaf.caps :: DecodedShape(c.caveats)
    ensures Attenuated(chain[i], leaf) && Nested(leaf, chain[i])
    ensures VerifyAt(s, leaf, now, revocations).Ok? ==> chain[i].nbf <= now < chain[i].exp
  {
    WalkCovers(s, leaf, leaf, chain, i);
  }

  /**
   The shape is needed, whatever the malformed value: there is an accepted chain whose leaf carries it and
   claims what the root never granted.
   */
  lemma MalformedLeafEscapes(x: Cv) returns (s: Scheme, leaf: Token, chain: seq<Token>)
    requires !x.TextMap?
    ensures leaf.caps == [Grant([], [], Some(x))] && |chain| == 2
    ensures ChainVerdict(s, leaf, chain) == Ok(()) && !Attenuated(chain[1], leaf)
  {
    s := Scheme(t => true, (t: Token) => t.aud);
    var root := Token(Classical, [], [1], [Grant([], [], Some(TextMap([])))], 0, 1, [], None, []);
    var middle := Token(Classical, [1], [2], [Grant([], [], None)], 0, 1, [], Some([1]), []);
    leaf := Token(Classical, [2], [3], [Grant([], [], Some(x))], 0, 1, [], Some([2]), []);
    chain := [middle, root];
    assert middle.caps[0] in middle.caps && root.caps[0] in root.caps && leaf.caps[0] in leaf.caps;
    assert Attenuated(middle, leaf) && Attenuated(root, middle);
    assert Walk(s, root, []) == Ok(());
    assert Walk(s, middle, [root]) == Ok(()) by {
      assert [root][1..] == [];
    }
    assert chain[1..] == [root];
  }

  /** Content ids that do not collide on the tokens at hand. */
  ghost predicate NoCollision(s: Scheme, ts: set<Token>) {
    forall t, u | t in ts && u in ts && s.cid(t) == s.cid(u) :: t == u
  }

  /** Delegation chains are unique: a token determines its accepted ancestors, and so its root issuer. */
  lemma {:induction false} ChainUnique(s: Scheme, ts: set<Token>, token: Token, chain: seq<Token>, chain': seq<Token>)
    requires Walk(s, token, chain).Ok? && Walk(s, token, chain').Ok?
    requires NoCollision(s, ts) && (forall t | t in chain :: t in ts) && (forall t | t in chain' :: t in ts)
    ensures chain == chain' && RootIssuer(token, chain) == RootIssuer(token, chain')
    decreases |chain|
  {
    hide Attenuated;
    if chain != [] && chain' != [] {
      assert Link(s, token, chain[0]).Ok? && Link(s, token, chain'[0]).Ok?;
      assert chain[0] in ts && chain'[0] in ts;
      ChainUnique(s, ts, chain[0], chain[1..], chain'[1..]);
      assert chain == [chain[0]] + chain[1..] && chain' == [chain'[0]] + chain'[1..];
    }
  }

  /** Above any ancestor the walk is accepted too. */
  lemma {:induction false} WalkAbove(s: Scheme, token: Token, chain: seq<Token>, i: nat)
    requires Walk(s, token, chain).Ok? && i < |chain|
    ensures Walk(s, chain[i], chain[i + 1..]).Ok?
    decreases |chain|
  {
    hide Attenuated;
    assert Link(s, token, chain[0]).Ok?;
    if i > 0 {
      WalkAbove(s, chain[0], chain[1..], i - 1);
      assert chain[1..][i..] == chain[i + 1..];
    }
  }

  /** No token is its own ancestor. */
  lemma NeverOwnAncestor(s: Scheme, ts: set<Token>, token: Token, chain: seq<Token>, i: nat)
    requires Walk(s, token, chain).Ok? && i < |chain|
    requires NoCollision(s, ts) && forall t | t in chain :: t in ts
    ensures token != chain[i]
  {
    WalkAbove(s, token, chain, i);
    if token == chain[i] {
      ChainUnique(s, ts, token, chain, chain[i + 1..]);
    }
  }

  /**
   The revocation list is matched against the token's own address only: listing an ancestor's address never
   changes the verdict on a descendant, so a caller has to check every link of the chain.
   */
  lemma AncestorRevocationNotSeen(s: Scheme, ts: set<Token>, leaf: Token, chain: seq<Token>, i: nat, now: U64,
                                  revocations: seq<Bytes>)
    requires ChainVerdict(s, leaf, chain).Ok? && i < |chain|
    requires NoCollision(s, ts) && leaf in ts && forall t | t in chain :: t in ts
    ensures VerifyAt(s, leaf, now, revocations + [s.cid(chain[i])]) == VerifyAt(s, leaf, now, revocations)
  {
    NeverOwnAncestor(s, ts, leaf, chain, i);
    assert chain[i] in ts;
  }

  /** Verification follows the delegation: each issuer is the audience of the next ancestor. */
  lemma {:induction false} AuthorityFlows(s: Scheme, token: Token, chain: seq<Token>, i: nat)
    requires Walk(s, token, chain).Ok? && i < |chain|
    ensures (if i == 0 then token else chain[i - 1]).iss == chain[i].aud
    ensures i == |chain| - 1 <==> chain[i].prnt == None
    decreases |chain|
  {
    hide Attenuated;
    assert Link(s, token, chain[0]).Ok?;
    if i > 0 {
      AuthorityFlows(s, chain[0], chain[1..], i - 1);
    } else if |chain| > 1 {
      assert Link(s, chain[0], chain[1..][0]).Ok?;
    }
  }
}
