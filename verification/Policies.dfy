/** The relying party's policy: named cosigners, quorum groups over earlier names,
    and per-CA requirements. It is built call by call, and the order of the calls
    keeps the group graph free of cycles.
 */
module Policies {
  import opened Bits
  import opened Hashing
  import opened Subtrees
  import opened TrustAnchorText

  datatype PolicyIndex = PolicyIndex(isGroup: bool, index: nat)

  datatype PolicyGroup = PolicyGroup(name: Bytes, number: int, members: seq<PolicyIndex>)

  /** A cosigner's public side; verify(message, signature) is abstract. */
  datatype CosignerPublic = CosignerPublic(id: Bytes, verify: (Bytes, Bytes) -> bool)

  datatype RevokedRange = RevokedRange(minSerial: uint64, maxSerial: uint64)

  datatype TrustedSubtree = TrustedSubtree(log: uint16, start: uint64, end: uint64, hash: HashValue)

  datatype TrustedCA = TrustedCA(
    cosignerIndex: nat,
    requirements: seq<PolicyIndex>,
    revokedRanges: seq<RevokedRange>,
    trustedSubtrees: seq<TrustedSubtree>)

  /** The state of a policy as a value. Names are texts; a CA's key is the text of its ID. */
  datatype State = State(
    names: map<Bytes, PolicyIndex>,
    cosigners: seq<CosignerPublic>,
    groups: seq<PolicyGroup>,
    requirementsForAllCAs: seq<PolicyIndex>,
    cas: map<Bytes, TrustedCA>)

  const EMPTY: State := State(map[], [], [], [], map[])

  // ----- The calls, as functions of the state: None is an error -----

  function AddedCosigner(p: State, id: Bytes, key: Option<CosignerPublic>): Option<State> {
    var name := IdText(id);
    if name in p.names || key.None? then None
    else Some(p.(
      cosigners := p.cosigners + [key.value],
      names := p.names[name := PolicyIndex(false, |p.cosigners|)]))
  }

  /** The serials outside [minSerial, maxSerial] of a CA certificate are revoked. */
  function OutsideRanges(minSerial: uint64, maxSerial: uint64): seq<RevokedRange> {
    (if minSerial > 0 then [RevokedRange(0, minSerial - 1)] else [])
    + (if maxSerial < 0xFFFF_FFFF_FFFF_FFFF then [RevokedRange(maxSerial + 1, 0xFFFF_FFFF_FFFF_FFFF)] else [])
  }

  function AddedCA(p: State, id: Bytes, key: Option<CosignerPublic>, minSerial: uint64, maxSerial: uint64): Option<State> {
    var name := IdText(id);
    if name in p.cas then None
    else
      match AddedCosigner(p, id, key)
      case None => None
      case Some(q) =>
        Some(q.(cas := q.cas[name := TrustedCA(|p.cosigners|, [], OutsideRanges(minSerial, maxSerial), [])]))
  }

  function Resolved(names: map<Bytes, PolicyIndex>, members: seq<Bytes>): Option<seq<PolicyIndex>> {
    if |members| == 0 then Some([])
    else
      match Resolved(names, members[..|members| - 1])
      case None => None
      case Some(found) =>
        var m := members[|members| - 1];
        if m in names then Some(found + [names[m]]) else None
  }

  function AddedGroup(p: State, name: Bytes, number: int, members: seq<Bytes>): Option<State> {
    if name in p.names then None
    else
      match Resolved(p.names, members)
      case None => None
      case Some(found) => Some(p.(
        groups := p.groups + [PolicyGroup(name, number, found)],
        names := p.names[name := PolicyIndex(true, |p.groups|)]))
  }

  function RequiredForCA(p: State, ca: Bytes, name: Bytes): Option<State> {
    var key := IdText(ca);
    if name !in p.names || key !in p.cas then None
    else Some(p.(cas := p.cas[key := p.cas[key].(requirements := p.cas[key].requirements + [p.names[name]])]))
  }

  function RequiredForAllCAs(p: State, name: Bytes): Option<State> {
    if name !in p.names then None
    else Some(p.(requirementsForAllCAs := p.requirementsForAllCAs + [p.names[name]]))
  }

  function Revoked(p: State, ca: Bytes, minSerial: uint64, maxSerial: uint64): Option<State> {
    var key := IdText(ca);
    if minSerial > maxSerial || key !in p.cas then None
    else Some(p.(cas := p.cas[key := p.cas[key].(revokedRanges := p.cas[key].revokedRanges + [RevokedRange(minSerial, maxSerial)])]))
  }

  function Trusted(p: State, ca: Bytes, t: TrustedSubtree): Option<State> {
    var key := IdText(ca);
    if !IsValidSubtree(t.start, t.end) || key !in p.cas then None
    else Some(p.(cas := p.cas[key := p.cas[key].(trustedSubtrees := p.cas[key].trustedSubtrees + [t])]))
  }

  // ----- What every sequence of calls keeps -----

  /** An index that is in bounds and, for a group, below the given one. */
  predicate Refers(idx: PolicyIndex, cosigners: nat, groups: nat) {
    if idx.isGroup then idx.index < groups else idx.index < cosigners
  }

  predicate AllRefer(ids: seq<PolicyIndex>, cosigners: nat, groups: nat) {
    forall k :: 0 <= k < |ids| ==> Refers(ids[k], cosigners, groups)
  }

  /** Group members refer to earlier groups only. */
  predicate Layered(groups: seq<PolicyGroup>, cosigners: nat) {
    forall g :: 0 <= g < |groups| ==> AllRefer(groups[g].members, cosigners, g)
  }

  predicate GoodCA(p: State, key: Bytes)
    requires key in p.cas
  {
    var ca := p.cas[key];
    && ca.cosignerIndex < |p.cosigners|
    && IdText(p.cosigners[ca.cosignerIndex].id) == key
    && key in p.names && p.names[key] == PolicyIndex(false, ca.cosignerIndex)
    && AllRefer(ca.requirements, |p.cosigners|, |p.groups|)
  }

  /** A name is that of the cosigner or group it stands for. */
  predicate IsNameOf(p: State, n: Bytes)
    requires n in p.names
  {
    var idx := p.names[n];
    && Refers(idx, |p.cosigners|, |p.groups|)
    && n == (if idx.isGroup then p.groups[idx.index].name else IdText(p.cosigners[idx.index].id))
  }

  predicate WellFormed(p: State) {
    && (forall n :: n in p.names ==> IsNameOf(p, n))
    && (forall i :: 0 <= i < |p.cosigners| ==> IsNamed(p, i))
    && Layered(p.groups, |p.cosigners|)
    && AllRefer(p.requirementsForAllCAs, |p.cosigners|, |p.groups|)
    && (forall key :: key in p.cas ==> GoodCA(p, key))
  }

  /** A cosigner is found under the text of its own ID, and under no other index. */
  predicate IsNamed(p: State, i: nat)
    requires i < |p.cosigners|
  {
    var name := IdText(p.cosigners[i].id);
    name in p.names && p.names[name] == PolicyIndex(false, i)
  }

  datatype Call =
    | AddCosigner(id: Bytes, key: Option<CosignerPublic>)
    | AddCA(id: Bytes, key: Option<CosignerPublic>, minSerial: uint64, maxSerial: uint64)
    | AddGroup(name: Bytes, number: int, members: seq<Bytes>)
    | RequireForCA(ca: Bytes, name: Bytes)
    | RequireForAllCAs(name: Bytes)
    | Revoke(ca: Bytes, minSerial: uint64, maxSerial: uint64)
    | Trust(ca: Bytes, subtree: TrustedSubtree)

  function Outcome(p: State, call: Call): Option<State> {
    match call
    case AddCosigner(id, key) => AddedCosigner(p, id, key)
    case AddCA(id, key, lo, hi) => AddedCA(p, id, key, lo, hi)
    case AddGroup(name, number, members) => AddedGroup(p, name, number, members)
    case RequireForCA(ca, name) => RequiredForCA(p, ca, name)
    case RequireForAllCAs(name) => RequiredForAllCAs(p, name)
    case Revoke(ca, lo, hi) => Revoked(p, ca, lo, hi)
    case Trust(ca, t) => Trusted(p, ca, t)
  }

  /** The key handed over is the one of the cosigner named in the call. */
  predicate KeyMatches(call: Call) {
    (call.AddCosigner? || call.AddCA?) && call.key.Some? ==> call.key.value.id == call.id
  }

  /** A call that fails leaves the policy as it was. */
  function Run(p: State, calls: seq<Call>): State
    decreases |calls|
  {
    if |calls| == 0 then p
    else
      var q := Outcome(p, calls[0]);
      Run(if q.Some? then q.value else p, calls[1..])
  }

  lemma {:induction false} RefersMore(ids: seq<PolicyIndex>, c: nat, g: nat, c': nat, g': nat)
    requires AllRefer(ids, c, g) && c <= c' && g <= g'
    ensures AllRefer(ids, c', g')
  {
  }

  lemma {:induction false} LayeredMore(groups: seq<PolicyGroup>, c: nat, c': nat)
    requires Layered(groups, c) && c <= c'
    ensures Layered(groups, c')
  {
    forall g | 0 <= g < |groups| ensures AllRefer(groups[g].members, c', g) {
      RefersMore(groups[g].members, c, g, c', g);
    }
  }

  lemma {:induction false} CosignerKeepsForm(p: State, id: Bytes, key: Option<CosignerPublic>)
    requires WellFormed(p) && AddedCosigner(p, id, key).Some? && key.value.id == id
    ensures WellFormed(AddedCosigner(p, id, key).value)
  {
    hide IdText, AllRefer, Layered;
    var q := AddedCosigner(p, id, key).value;
    var c, g := |p.cosigners|, |p.groups|;
    LayeredMore(p.groups, c, c + 1);
    RefersMore(p.requirementsForAllCAs, c, g, c + 1, g);
    forall i | 0 <= i < |q.cosigners| ensures IsNamed(q, i) {
      if i < c { assert IsNamed(p, i); }
    }
    forall key | key in q.cas ensures GoodCA(q, key) {
      assert GoodCA(p, key);
      RefersMore(p.cas[key].requirements, c, g, c + 1, g);
    }
  }

  lemma {:induction false} CAKeepsForm(p: State, id: Bytes, key: Option<CosignerPublic>, lo: uint64, hi: uint64)
    requires WellFormed(p) && AddedCA(p, id, key, lo, hi).Some? && key.value.id == id
    ensures WellFormed(AddedCA(p, id, key, lo, hi).value)
  {
    hide IdText, Layered, OutsideRanges;
    var m := AddedCosigner(p, id, key).value;
    var q := AddedCA(p, id, key, lo, hi).value;
    CosignerKeepsForm(p, id, key);
    forall i | 0 <= i < |q.cosigners| ensures IsNamed(q, i) { assert IsNamed(m, i); }
    forall k | k in q.cas ensures GoodCA(q, k) {
      if k != IdText(id) { assert GoodCA(m, k); }
    }
  }

  lemma {:induction false} ResolvedRefer(p: State, members: seq<Bytes>)
    requires WellFormed(p) && Resolved(p.names, members).Some?
    ensures AllRefer(Resolved(p.names, members).value, |p.cosigners|, |p.groups|)
  {
    hide IdText, Layered, GoodCA;
    if |members| != 0 { ResolvedRefer(p, members[..|members| - 1]); }
  }

  lemma {:induction false} GroupKeepsForm(p: State, name: Bytes, number: int, members: seq<Bytes>)
    requires WellFormed(p) && AddedGroup(p, name, number, members).Some?
    ensures WellFormed(AddedGroup(p, name, number, members).value)
  {
    hide IdText, AllRefer, Resolved;
    var q := AddedGroup(p, name, number, members).value;
    var c, g := |p.cosigners|, |p.groups|;
    ResolvedRefer(p, members);
    RefersMore(p.requirementsForAllCAs, c, g, c, g + 1);
    forall i | 0 <= i < |q.cosigners| ensures IsNamed(q, i) { assert IsNamed(p, i); }
    forall k | k in q.cas ensures GoodCA(q, k) {
      assert GoodCA(p, k);
      RefersMore(p.cas[k].requirements, c, g, c, g + 1);
    }
  }

  lemma {:induction false} RequireKeepsForm(p: State, ca: Bytes, name: Bytes)
    requires WellFormed(p) && RequiredForCA(p, ca, name).Some?
    ensures WellFormed(RequiredForCA(p, ca, name).value)
  {
    hide IdText, Layered;
    var q := RequiredForCA(p, ca, name).value;
    forall i | 0 <= i < |q.cosigners| ensures IsNamed(q, i) { assert IsNamed(p, i); }
    forall k | k in q.cas ensures GoodCA(q, k) { assert GoodCA(p, k); }
  }

  /** Changing only ranges or trusted subtrees of CAs. */
  lemma {:induction false} OtherKeepsForm(p: State, q: State)
    requires WellFormed(p)
    requires q == p.(cas := q.cas) && q.cas.Keys == p.cas.Keys
    requires forall k :: k in q.cas ==>
      q.cas[k].cosignerIndex == p.cas[k].cosignerIndex && q.cas[k].requirements == p.cas[k].requirements
    ensures WellFormed(q)
  {
    hide IdText, Layered, AllRefer;
    forall i | 0 <= i < |q.cosigners| ensures IsNamed(q, i) { assert IsNamed(p, i); }
    forall k | k in q.cas ensures GoodCA(q, k) { assert GoodCA(p, k); }
  }

  lemma {:induction false} CallKeepsForm(p: State, call: Call)
    requires WellFormed(p) && KeyMatches(call)
    ensures Outcome(p, call).Some? ==> WellFormed(Outcome(p, call).value)
  {
    hide WellFormed, IdText, OutsideRanges, Resolved;
    if Outcome(p, call).Some? {
      var q := Outcome(p, call).value;
      match call {
        case AddCosigner(id, key) => CosignerKeepsForm(p, id, key);
        case AddCA(id, key, lo, hi) => CAKeepsForm(p, id, key, lo, hi);
        case AddGroup(name, number, members) => GroupKeepsForm(p, name, number, members);
        case RequireForCA(ca, name) => RequireKeepsForm(p, ca, name);
        case RequireForAllCAs(name) => RequireAllKeepsForm(p, name);
        case Revoke(_, _, _) => OtherKeepsForm(p, q);
        case Trust(_, _) => OtherKeepsForm(p, q);
      }
    }
  }

  lemma {:induction false} RequireAllKeepsForm(p: State, name: Bytes)
    requires WellFormed(p) && RequiredForAllCAs(p, name).Some?
    ensures WellFormed(RequiredForAllCAs(p, name).value)
  {
    hide IdText, Layered;
    var q := RequiredForAllCAs(p, name).value;
    forall i | 0 <= i < |q.cosigners| ensures IsNamed(q, i) { assert IsNamed(p, i); }
    forall k | k in q.cas ensures GoodCA(q, k) { assert GoodCA(p, k); }
  }

  /** Whatever the calls, in whatever order: every index is in bounds, group members
      refer to earlier groups, and each CA's cosigner is the one of its own name. */
  lemma {:induction false} RunKeepsForm(p: State, calls: seq<Call>)
    requires WellFormed(p)
    requires forall k :: 0 <= k < |calls| ==> KeyMatches(calls[k])
    ensures WellFormed(Run(p, calls))
    decreases |calls|
  {
    hide WellFormed, Outcome, KeyMatches;
    if |calls| != 0 {
      CallKeepsForm(p, calls[0]);
      var q := Outcome(p, calls[0]);
      RunKeepsForm(if q.Some? then q.value else p, calls[1..]);
    }
  }

  /** Calls take effect one after the other. */
  lemma {:induction false} RunAppend(p: State, calls: seq<Call>, call: Call)
    ensures Run(p, []) == p
    ensures var q := Run(p, calls);
      Run(p, calls + [call]) == if Outcome(q, call).Some? then Outcome(q, call).value else q
    decreases |calls|
  {
    hide Outcome;
    var all := calls + [call];
    if |calls| == 0 {
      assert all == [call] && all[1..] == [];
    } else {
      var q := Outcome(p, calls[0]);
      RunAppend(if q.Some? then q.value else p, calls[1..], call);
      assert all[1..] == calls[1..] + [call];
    }
  }

  lemma {:induction false} EveryPolicyIsWellFormed(calls: seq<Call>)
    requires forall k :: 0 <= k < |calls| ==> KeyMatches(calls[k])
    ensures WellFormed(Run(EMPTY, calls))
  {
    hide Run, KeyMatches;
    RunKeepsForm(EMPTY, calls);
  }

  /** Which calls succeed: a cosigner or group needs a new name, members and requirements
      need known names, a range must not be inverted, a subtree must be one. */
  lemma {:induction false} CallSucceeds(p: State, call: Call)
    ensures Outcome(p, call).Some? <==>
      match call
      case AddCosigner(id, key) => IdText(id) !in p.names && key.Some?
      case AddCA(id, key, _, _) => IdText(id) !in p.cas && IdText(id) !in p.names && key.Some?
      case AddGroup(name, _, members) => name !in p.names && forall m :: m in members ==> m in p.names
      case RequireForCA(ca, name) => name in p.names && IdText(ca) in p.cas
      case RequireForAllCAs(name) => name in p.names
      case Revoke(ca, minSerial, maxSerial) => minSerial <= maxSerial && IdText(ca) in p.cas
      case Trust(ca, t) => IsSubtree(t.start, t.end) && IdText(ca) in p.cas
  {
    hide IdText, IsValidSubtree, IsSubtree;
    match call {
      case AddGroup(_, _, members) => ResolvedIs(p.names, members);
      case Trust(_, t) => IsValidSubtreeIsExact(t.start, t.end);
      case _ =>
    }
  }

  lemma {:induction false} ResolvedIs(names: map<Bytes, PolicyIndex>, members: seq<Bytes>)
    ensures Resolved(names, members).Some? <==> forall m :: m in members ==> m in names
    ensures Resolved(names, members).Some? ==>
      |Resolved(names, members).value| == |members|
      && forall k :: 0 <= k < |members| ==> members[k] in names && Resolved(names, members).value[k] == names[members[k]]
  {
    if |members| != 0 {
      var n := |members| - 1;
      ResolvedIs(names, members[..n]);
      assert members == members[..n] + [members[n]];
    }
  }

  /** A new cosigner is found under the text of its ID; nothing else changes. */
  lemma {:induction false} AddedCosignerMeans(p: State, id: Bytes, key: Option<CosignerPublic>)
    requires AddedCosigner(p, id, key).Some?
    ensures var q := AddedCosigner(p, id, key).value;
      && q.names.Keys == p.names.Keys + {IdText(id)}
      && (forall n :: n in p.names ==> q.names[n] == p.names[n])
      && q.names[IdText(id)] == PolicyIndex(false, |p.cosigners|)
      && |q.cosigners| == |p.cosigners| + 1 && q.cosigners[..|p.cosigners|] == p.cosigners
      && Some(q.cosigners[|p.cosigners|]) == key
      && q == p.(names := q.names, cosigners := q.cosigners)
  {
    hide IdText;
  }

  /** A new CA has a cosigner of its own ID, and asks for nothing else and trusts nothing yet. */
  lemma {:induction false} AddedCAMeans(p: State, id: Bytes, key: Option<CosignerPublic>, minSerial: uint64, maxSerial: uint64)
    requires AddedCA(p, id, key, minSerial, maxSerial).Some?
    ensures var q, ca := AddedCA(p, id, key, minSerial, maxSerial).value, IdText(id);
      && q.cas.Keys == p.cas.Keys + {ca}
      && q.cas[ca].cosignerIndex < |q.cosigners| && Some(q.cosigners[q.cas[ca].cosignerIndex]) == key
      && q.cas[ca].requirements == [] && q.cas[ca].trustedSubtrees == []
      && AddedCosigner(p, id, key) == Some(q.(cas := p.cas))
  {
    hide IdText, OutsideRanges;
  }

  // ----- The meaning of a group -----

  /** The recursive meaning: a cosigner is satisfied when it is among the valid ones,
      a group when enough of its members are. */
  predicate Satisfied(groups: seq<PolicyGroup>, valid: seq<bool>, idx: PolicyIndex)
    requires Layered(groups, |valid|) && Refers(idx, |valid|, |groups|)
    decreases if idx.isGroup then idx.index + 1 else 0, 0, 0
  {
    if idx.isGroup then SatisfiedCount(groups, valid, groups[idx.index].members, idx.index) >= groups[idx.index].number
    else valid[idx.index]
  }

  /** How many of the members are satisfied, a repeated member counting each time. */
  function SatisfiedCount(groups: seq<PolicyGroup>, valid: seq<bool>, members: seq<PolicyIndex>, g: nat): nat
    requires Layered(groups, |valid|) && g <= |groups| && AllRefer(members, |valid|, g)
    decreases g, 1, |members|
  {
    if |members| == 0 then 0
    else
      SatisfiedCount(groups, valid, members[..|members| - 1], g)
      + (if Satisfied(groups, valid, members[|members| - 1]) then 1 else 0)
  }

  /** Fewer valid cosigners never satisfy more. */
  lemma {:induction false} SatisfiedIsMonotone(groups: seq<PolicyGroup>, fewer: seq<bool>, more: seq<bool>, idx: PolicyIndex)
    requires |fewer| == |more| && (forall i :: 0 <= i < |fewer| && fewer[i] ==> more[i])
    requires Layered(groups, |fewer|) && Refers(idx, |fewer|, |groups|)
    ensures Satisfied(groups, fewer, idx) ==> Satisfied(groups, more, idx)
    decreases if idx.isGroup then idx.index + 1 else 0, 0, 0
  {
    if idx.isGroup { CountIsMonotone(groups, fewer, more, groups[idx.index].members, idx.index); }
  }

  lemma {:induction false} CountIsMonotone(groups: seq<PolicyGroup>, fewer: seq<bool>, more: seq<bool>, members: seq<PolicyIndex>, g: nat)
    requires |fewer| == |more| && (forall i :: 0 <= i < |fewer| && fewer[i] ==> more[i])
    requires Layered(groups, |fewer|) && g <= |groups| && AllRefer(members, |fewer|, g)
    ensures SatisfiedCount(groups, fewer, members, g) <= SatisfiedCount(groups, more, members, g)
    decreases g, 1, |members|
  {
    if |members| != 0 {
      CountIsMonotone(groups, fewer, more, members[..|members| - 1], g);
      SatisfiedIsMonotone(groups, fewer, more, members[|members| - 1]);
    }
  }

  /** What is added later leaves the meaning of what is there. */
  lemma {:induction false} MeaningIsKept(groups: seq<PolicyGroup>, moreGroups: seq<PolicyGroup>, valid: seq<bool>, moreValid: seq<bool>, idx: PolicyIndex)
    requires groups <= moreGroups && valid <= moreValid
    requires Layered(groups, |valid|) && Layered(moreGroups, |moreValid|) && Refers(idx, |valid|, |groups|)
    ensures Satisfied(moreGroups, moreValid, idx) == Satisfied(groups, valid, idx)
    decreases if idx.isGroup then idx.index + 1 else 0, 0, 0
  {
    if idx.isGroup { CountIsKept(groups, moreGroups, valid, moreValid, groups[idx.index].members, idx.index); }
  }

  lemma {:induction false} CountIsKept(groups: seq<PolicyGroup>, moreGroups: seq<PolicyGroup>, valid: seq<bool>, moreValid: seq<bool>,
      members: seq<PolicyIndex>, g: nat)
    requires groups <= moreGroups && valid <= moreValid
    requires Layered(groups, |valid|) && Layered(moreGroups, |moreValid|)
    requires g <= |groups| && AllRefer(members, |valid|, g)
    ensures AllRefer(members, |moreValid|, g)
    ensures SatisfiedCount(moreGroups, moreValid, members, g) == SatisfiedCount(groups, valid, members, g)
    decreases g, 1, |members|
  {
    RefersMore(members, |valid|, g, |moreValid|, g);
    if |members| != 0 {
      CountIsKept(groups, moreGroups, valid, moreValid, members[..|members| - 1], g);
      MeaningIsKept(groups, moreGroups, valid, moreValid, members[|members| - 1]);
    }
  }

  /** How many of the named members are satisfied. */
  function NamedCount(p: State, valid: seq<bool>, members: seq<Bytes>): nat
    requires WellFormed(p) && |valid| == |p.cosigners| && Resolved(p.names, members).Some?
  {
    if |members| == 0 then 0
    else
      NamedCount(p, valid, members[..|members| - 1])
      + (if Satisfied(p.groups, valid, p.names[members[|members| - 1]]) then 1 else 0)
  }

  /** A new group is satisfied exactly when at least `number` of the members it was
      given by name are, and every other name means what it meant. */
  lemma {:induction false} AddedGroupMeans(p: State, name: Bytes, number: int, members: seq<Bytes>, valid: seq<bool>)
    requires WellFormed(p) && AddedGroup(p, name, number, members).Some? && |valid| == |p.cosigners|
    ensures var q := AddedGroup(p, name, number, members).value;
      && WellFormed(q) && q.cosigners == p.cosigners
      && name in q.names && Refers(q.names[name], |valid|, |q.groups|)
      && (Satisfied(q.groups, valid, q.names[name]) <==> NamedCount(p, valid, members) >= number)
      && forall n :: n in p.names ==>
           && n in q.names && q.names[n] == p.names[n]
           && Refers(p.names[n], |valid|, |p.groups|) && Refers(p.names[n], |valid|, |q.groups|)
           && Satisfied(q.groups, valid, p.names[n]) == Satisfied(p.groups, valid, p.names[n])
  {
    hide IdText, GoodCA, Satisfied, SatisfiedCount, NamedCount, Layered, IsNamed;
    var q := AddedGroup(p, name, number, members).value;
    GroupKeepsForm(p, name, number, members);
    NamedCountIs(p, q.groups, valid, members);
    GroupIs(q.groups, valid, |p.groups|);
    forall n | n in p.names
      ensures Refers(p.names[n], |valid|, |p.groups|) && Refers(p.names[n], |valid|, |q.groups|)
      ensures Satisfied(q.groups, valid, p.names[n]) == Satisfied(p.groups, valid, p.names[n])
    {
      MeaningIsKept(p.groups, q.groups, valid, valid, p.names[n]);
    }
  }

  lemma {:induction false} GroupIs(groups: seq<PolicyGroup>, valid: seq<bool>, g: nat)
    requires Layered(groups, |valid|) && g < |groups|
    ensures Satisfied(groups, valid, PolicyIndex(true, g)) <==> SatisfiedCount(groups, valid, groups[g].members, g) >= groups[g].number
  {
  }

  lemma {:induction false} NamedCountIs(p: State, groups: seq<PolicyGroup>, valid: seq<bool>, members: seq<Bytes>)
    requires WellFormed(p) && |valid| == |p.cosigners| && Resolved(p.names, members).Some?
    requires p.groups <= groups && Layered(groups, |valid|)
    ensures AllRefer(Resolved(p.names, members).value, |valid|, |p.groups|)
    ensures SatisfiedCount(groups, valid, Resolved(p.names, members).value, |p.groups|) == NamedCount(p, valid, members)
  {
    hide WellFormed, Satisfied, Layered;
    ResolvedRefer(p, members);
    WellFormedGroups(p);
    if |members| != 0 {
      NamedCountIs(p, groups, valid, members[..|members| - 1]);
      var ids, found := Resolved(p.names, members).value, Resolved(p.names, members[..|members| - 1]).value;
      assert ids[..|ids| - 1] == found;
      MeaningIsKept(p.groups, groups, valid, valid, ids[|ids| - 1]);
    }
  }

  lemma {:induction false} WellFormedGroups(p: State)
    requires WellFormed(p)
    ensures Layered(p.groups, |p.cosigners|)
  {
    hide IdText, Layered, AllRefer, GoodCA;
  }

  datatype PolicyResult = PolicyResult(cosigners: seq<bool>, groups: seq<bool>)

  /** PolicyResult.Satisfied */
  predicate IsSatisfied(r: PolicyResult, idx: PolicyIndex)
    requires Refers(idx, |r.cosigners|, |r.groups|)
  {
    if idx.isGroup then r.groups[idx.index] else r.cosigners[idx.index]
  }

  /** The single forward pass over the groups. */
  method EvaluateGroups(groups: seq<PolicyGroup>, cosigners: seq<bool>) returns (r: PolicyResult)
    requires Layered(groups, |cosigners|)
    ensures r.cosigners == cosigners && |r.groups| == |groups|
    ensures forall idx :: Refers(idx, |cosigners|, |groups|) ==>
      (IsSatisfied(r, idx) <==> Satisfied(groups, cosigners, idx))
  {
    var done := new bool[|groups|];
    for i := 0 to |groups|
      invariant forall g :: 0 <= g < i ==> done[g] == Satisfied(groups, cosigners, PolicyIndex(true, g))
    {
      var g := groups[i];
      var count := 0;
      for k := 0 to |g.members|
        invariant AllRefer(g.members[..k], |cosigners|, i)
        invariant count == SatisfiedCount(groups, cosigners, g.members[..k], i)
      {
        var m := g.members[k];
        assert g.members[..k + 1][..k] == g.members[..k];
        if (if m.isGroup then done[m.index] else cosigners[m.index]) { count := count + 1; }
      }
      assert g.members[..|g.members|] == g.members;
      done[i] := count >= g.number;
    }
    r := PolicyResult(cosigners, done[..]);
  }

  // ----- Revoked serials -----

  predicate IsRevoked(ranges: seq<RevokedRange>, serial: nat) {
    exists k :: 0 <= k < |ranges| && ranges[k].minSerial <= serial <= ranges[k].maxSerial
  }

  lemma {:induction false} RevokedOneMore(ranges: seq<RevokedRange>, r: RevokedRange, serial: nat)
    ensures IsRevoked(ranges + [r], serial) <==> IsRevoked(ranges, serial) || r.minSerial <= serial <= r.maxSerial
  {
    var more := ranges + [r];
    assert more[|ranges|] == r;
    if IsRevoked(ranges, serial) {
      var k :| 0 <= k < |ranges| && ranges[k].minSerial <= serial <= ranges[k].maxSerial;
      assert more[k] == ranges[k];
    }
  }

  /** A CA added with a range of serials has exactly the serials outside it revoked. */
  lemma {:induction false} AddedCARevokes(p: State, id: Bytes, key: Option<CosignerPublic>, minSerial: uint64, maxSerial: uint64, serial: uint64)
    requires AddedCA(p, id, key, minSerial, maxSerial).Some?
    ensures var q := AddedCA(p, id, key, minSerial, maxSerial).value;
      && IdText(id) in q.cas
      && (IsRevoked(q.cas[IdText(id)].revokedRanges, serial) <==> serial < minSerial || maxSerial < serial)
      && forall k :: k in p.cas ==> k in q.cas && q.cas[k] == p.cas[k]
  {
    hide IdText, IsRevoked;
    var low := if minSerial > 0 then [RevokedRange(0, minSerial - 1)] else [];
    NoneRevoked(serial);
    if minSerial > 0 {
      RevokedOneMore([], RevokedRange(0, minSerial - 1), serial);
      assert [] + low == low;
    }
    if maxSerial < 0xFFFF_FFFF_FFFF_FFFF {
      RevokedOneMore(low, RevokedRange(maxSerial + 1, 0xFFFF_FFFF_FFFF_FFFF), serial);
    } else {
      assert low + [] == low;
    }
  }

  lemma {:induction false} NoneRevoked(serial: nat)
    ensures !IsRevoked([], serial)
  {
  }

  /** Revoking a range revokes its serials for that CA, and nothing else. */
  lemma {:induction false} RevokedExactly(p: State, ca: Bytes, minSerial: uint64, maxSerial: uint64, key: Bytes, serial: nat)
    requires Revoked(p, ca, minSerial, maxSerial).Some? && key in p.cas
    ensures var q := Revoked(p, ca, minSerial, maxSerial).value;
      && key in q.cas
      && (IsRevoked(q.cas[key].revokedRanges, serial) <==>
           IsRevoked(p.cas[key].revokedRanges, serial) || (key == IdText(ca) && minSerial <= serial <= maxSerial))
  {
    hide IdText, IsRevoked;
    RevokedOneMore(p.cas[key].revokedRanges, RevokedRange(minSerial, maxSerial), serial);
  }

  // ----- Trusted subtrees -----

  /** The first match decides. */
  function FindTrusted(list: seq<TrustedSubtree>, log: uint16, start: nat, end: nat): Option<HashValue> {
    if |list| == 0 then None
    else if list[0].log == log && list[0].start == start && list[0].end == end then Some(list[0].hash)
    else FindTrusted(list[1..], log, start, end)
  }

  /** A trusted subtree is found at its own position, unless one was there before. */
  lemma {:induction false} TrustedOneMore(list: seq<TrustedSubtree>, t: TrustedSubtree, log: uint16, start: nat, end: nat)
    ensures FindTrusted(list + [t], log, start, end) ==
      if FindTrusted(list, log, start, end).Some? then FindTrusted(list, log, start, end)
      else if t.log == log && t.start == start && t.end == end then Some(t.hash) else None
  {
    if |list| == 0 {
      assert (list + [t])[1..] == [];
    } else {
      TrustedOneMore(list[1..], t, log, start, end);
      assert (list + [t])[1..] == list[1..] + [t];
    }
  }

  /** Trusting a subtree adds it for that CA at that position, unless one was there
      before, and nothing else. */
  lemma {:induction false} TrustedExactly(p: State, ca: Bytes, t: TrustedSubtree, key: Bytes, log: uint16, start: nat, end: nat)
    requires Trusted(p, ca, t).Some? && key in p.cas
    ensures var q := Trusted(p, ca, t).value;
      && key in q.cas
      && var before := FindTrusted(p.cas[key].trustedSubtrees, log, start, end);
      && FindTrusted(q.cas[key].trustedSubtrees, log, start, end) ==
         if before.None? && key == IdText(ca) && (log, start, end) == (t.log, t.start as nat, t.end as nat) then Some(t.hash) else before
  {
    hide IdText, FindTrusted;
    TrustedOneMore(p.cas[key].trustedSubtrees, t, log, start, end);
  }

  method FindTrustedSubtree(ca: TrustedCA, log: uint16, start: nat, end: nat) returns (r: Option<HashValue>)
    ensures r == FindTrusted(ca.trustedSubtrees, log, start, end)
  {
    var list := ca.trustedSubtrees;
    assert list[0..] == list;
    for i := 0 to |list|
      invariant FindTrusted(list, log, start, end) == FindTrusted(list[i..], log, start, end)
    {
      var t := list[i];
      if t.log == log && t.start == start && t.end == end { return Some(t.hash); }
    }
    return None;
  }

  // ----- The policy object -----

  class Policy {
    var names: map<Bytes, PolicyIndex>
    var cosigners: seq<CosignerPublic>
    var groups: seq<PolicyGroup>
    var requirementsForAllCAs: seq<PolicyIndex>
    var cas: map<Bytes, TrustedCA>

    ghost function Value(): State
      reads this
    {
      State(names, cosigners, groups, requirementsForAllCAs, cas)
    }

    constructor ()
      ensures Value() == EMPTY
    {
      names, cosigners, groups, requirementsForAllCAs, cas := map[], [], [], [], map[];
    }

    method AddCosigner(id: Bytes, key: Option<CosignerPublic>) returns (ok: bool)
      modifies this
      ensures var q := AddedCosigner(old(Value()), id, key);
        ok == q.Some? && Value() == if ok then q.value else old(Value())
    {
      if IdText(id) in names { return false; }
      if key.None? { return false; }
      cosigners := cosigners + [key.value];
      names := names[IdText(id) := PolicyIndex(false, |cosigners| - 1)];
      return true;
    }

    method AddCA(id: Bytes, key: Option<CosignerPublic>, minSerial: uint64, maxSerial: uint64) returns (ok: bool)
      modifies this
      ensures var q := AddedCA(old(Value()), id, key, minSerial, maxSerial);
        ok == q.Some? && Value() == if ok then q.value else old(Value())
    {
      hide IdText;
      if IdText(id) in cas { return false; }
      ok := AddCosigner(id, key);
      if !ok { return; }
      var ranges: seq<RevokedRange> := [];
      if minSerial > 0 { ranges := ranges + [RevokedRange(0, minSerial - 1)]; }
      if maxSerial < 0xFFFF_FFFF_FFFF_FFFF { ranges := ranges + [RevokedRange(maxSerial + 1, 0xFFFF_FFFF_FFFF_FFFF)]; }
      assert ranges == OutsideRanges(minSerial, maxSerial);
      cas := cas[IdText(id) := TrustedCA(|cosigners| - 1, [], ranges, [])];
    }

    method AddGroup(name: Bytes, number: int, members: seq<Bytes>) returns (ok: bool)
      modifies this
      ensures var q := AddedGroup(old(Value()), name, number, members);
        ok == q.Some? && Value() == if ok then q.value else old(Value())
    {
      if name in names { return false; }
      var found: seq<PolicyIndex> := [];
      for i := 0 to |members|
        invariant Resolved(names, members[..i]) == Some(found)
      {
        assert members[..i + 1][..i] == members[..i];
        if members[i] !in names {
          ResolvedStops(names, members, i + 1);
          return false;
        }
        found := found + [names[members[i]]];
      }
      assert members[..|members|] == members;
      groups := groups + [PolicyGroup(name, number, found)];
      names := names[name := PolicyIndex(true, |groups| - 1)];
      return true;
    }

    method RequireCosignersForCA(ca: Bytes, name: Bytes) returns (ok: bool)
      modifies this
      ensures var q := RequiredForCA(old(Value()), ca, name);
        ok == q.Some? && Value() == if ok then q.value else old(Value())
    {
      if name !in names || IdText(ca) !in cas { return false; }
      var entry := cas[IdText(ca)];
      cas := cas[IdText(ca) := entry.(requirements := entry.requirements + [names[name]])];
      return true;
    }

    method RequireCosignersForAllCAs(name: Bytes) returns (ok: bool)
      modifies this
      ensures var q := RequiredForAllCAs(old(Value()), name);
        ok == q.Some? && Value() == if ok then q.value else old(Value())
    {
      if name !in names { return false; }
      requirementsForAllCAs := requirementsForAllCAs + [names[name]];
      return true;
    }

    method RevokeRange(ca: Bytes, minSerial: uint64, maxSerial: uint64) returns (ok: bool)
      modifies this
      ensures var q := Revoked(old(Value()), ca, minSerial, maxSerial);
        ok == q.Some? && Value() == if ok then q.value else old(Value())
    {
      if minSerial > maxSerial || IdText(ca) !in cas { return false; }
      var entry := cas[IdText(ca)];
      cas := cas[IdText(ca) := entry.(revokedRanges := entry.revokedRanges + [RevokedRange(minSerial, maxSerial)])];
      return true;
    }

    method AddTrustedSubtree(ca: Bytes, t: TrustedSubtree) returns (ok: bool)
      modifies this
      ensures var q := Trusted(old(Value()), ca, t);
        ok == q.Some? && Value() == if ok then q.value else old(Value())
    {
      if !IsValidSubtree(t.start, t.end) || IdText(ca) !in cas { return false; }
      var entry := cas[IdText(ca)];
      cas := cas[IdText(ca) := entry.(trustedSubtrees := entry.trustedSubtrees + [t])];
      return true;
    }
  }

  lemma {:induction false} ResolvedStops(names: map<Bytes, PolicyIndex>, members: seq<Bytes>, i: nat)
    requires i <= |members|
    requires Resolved(names, members[..i]).None?
    ensures Resolved(names, members).None?
    decreases |members|
  {
    if i == |members| {
      assert members[..i] == members;
    } else {
      assert members[..|members| - 1][..i] == members[..i];
      ResolvedStops(names, members[..|members| - 1], i);
    }
  }
}
