/** The policy store as it is built: policy states and exception states that point at
    each other on the heap, updated in place by the watch handlers under one lock.
    `Graph` is the heap as a value whose atoms are the objects themselves; the methods
    are proved to change it by the functions below, which keep it well formed. */
module Store {
  import opened Api
  import opened StoreModel
  import Ordering
  import CacheKey

  class Mutex {
    var held: bool

    constructor ()
      ensures !held
    {
      held := false;
    }
  }

  class PolicyState {
    var policy: ValidatingPolicy
    var exceptions: map<Name, ExceptionState>
    var exceptionEventCounter: nat

    constructor (policy: ValidatingPolicy)
      ensures this.policy == policy && exceptions == map[] && exceptionEventCounter == 0
    {
      this.policy, exceptions, exceptionEventCounter := policy, map[], 0;
    }

    ghost function Fields(): Fields
      reads this
    {
      MakeFields(policy, exceptions, exceptionEventCounter)
    }
  }

  class ExceptionState {
    const exception: PolicyException
    var references: map<Name, PolicyState>

    constructor (exception: PolicyException)
      ensures this.exception == exception && references == map[]
    {
      this.exception, references := exception, map[];
    }
  }

  type Refs = map<Name, PolicyState>

  datatype Fields = MakeFields(policy: ValidatingPolicy, exceptions: map<Name, ExceptionState>, counter: nat)

  datatype Graph = MakeGraph(
    policies: map<Name, PolicyState>,
    exceptions: map<Name, ExceptionState>,
    fields: map<Name, Fields>,
    references: map<Name, Refs>)

  ghost predicate Injective<T>(m: map<Name, T>) {
    forall i, j :: i in m && j in m && m[i] == m[j] ==> i == j
  }

  /** A stored exception references exactly the present policies that it names, each
      by the stored object, and that object links back to this very exception. */
  ghost predicate WellReferenced(g: Graph, k: Name)
    requires k in g.exceptions && k in g.references && g.fields.Keys == g.policies.Keys
  {
    var refs := g.exceptions[k].exception.policyRefs;
    && refs != []
    && (forall n :: n in g.references[k] <==> n in refs && n in g.policies)
    && (forall n :: n in g.references[k] ==>
          && g.references[k][n] == g.policies[n]
          && k in g.fields[n].exceptions && g.fields[n].exceptions[k] == g.exceptions[k])
  }

  /** Whatever a policy links to sits under a stored key and names the policy. */
  ghost predicate WellLinked(g: Graph, p: Name)
    requires p in g.fields
  {
    forall k :: k in g.fields[p].exceptions ==>
      k in g.exceptions && p in g.fields[p].exceptions[k].exception.policyRefs
  }

  ghost predicate WellFormed(g: Graph) {
    && g.fields.Keys == g.policies.Keys && g.references.Keys == g.exceptions.Keys
    && Injective(g.policies) && Injective(g.exceptions)
    && (forall k :: k in g.exceptions ==> WellReferenced(g, k))
    && (forall p :: p in g.policies ==> WellLinked(g, p))
  }

  // ------------------------------------------------------- what methods do

  function Pointing(excs: map<Name, ExceptionState>, name: Name): map<Name, ExceptionState> {
    map k | k in excs && name in excs[k].exception.policyRefs :: excs[k]
  }

  /** The back references of the exceptions once those in `done` forgot a policy. */
  function Forgotten(refs: map<Name, Refs>, done: set<Name>, name: Name): map<Name, Refs> {
    map k | k in refs :: if k in done then refs[k] - {name} else refs[k]
  }

  /** The back references once the exceptions in `done` were linked to a new policy. */
  function PointedBack(refs: map<Name, Refs>, done: set<Name>, excs: map<Name, ExceptionState>,
                       name: Name, polState: PolicyState): map<Name, Refs>
  {
    map k | k in refs ::
      if k in done && k in excs && name in excs[k].exception.policyRefs then refs[k][name := polState] else refs[k]
  }

  /** The policies once those in `done` dropped a deleted exception. */
  function Dropped(fields: map<Name, Fields>, done: set<Name>, excKey: Name): map<Name, Fields> {
    map p | p in fields ::
      if p in done then MakeFields(fields[p].policy, fields[p].exceptions - {excKey}, fields[p].counter + 1)
      else fields[p]
  }

  /** The policies once the references `refs` of a delivered exception were linked. */
  function LinkedBy(fields: map<Name, Fields>, refs: seq<Name>, excKey: Name, excState: ExceptionState): map<Name, Fields> {
    map p | p in fields ::
      if p in refs then
        MakeFields(fields[p].policy, fields[p].exceptions[excKey := excState], fields[p].counter + multiset(refs)[p])
      else fields[p]
  }

  function Referenced(refs: seq<Name>, policies: map<Name, PolicyState>): Refs {
    map n | n in refs && n in policies :: policies[n]
  }

  predicate AnyIn(refs: seq<Name>, names: set<Name>) {
    exists n :: n in refs && n in names
  }

  ghost function PolicyDeleted(g: Graph, key: Name): Graph {
    MakeGraph(g.policies - {key}, g.exceptions, g.fields - {key}, Forgotten(g.references, g.references.Keys, key))
  }

  ghost function PolicyReplaced(g: Graph, key: Name, policy: ValidatingPolicy): Graph
    requires key in g.fields
  {
    g.(fields := g.fields[key := g.fields[key].(policy := policy)])
  }

  ghost function PolicyCreated(g: Graph, key: Name, policy: ValidatingPolicy, polState: PolicyState): Graph {
    MakeGraph(g.policies[key := polState], g.exceptions,
              g.fields[key := MakeFields(policy, Pointing(g.exceptions, key), 0)],
              PointedBack(g.references, g.references.Keys, g.exceptions, key, polState))
  }

  ghost function PolexDeleted(g: Graph, excKey: Name): Graph {
    MakeGraph(g.policies, g.exceptions - {excKey}, Dropped(g.fields, g.fields.Keys, excKey), g.references - {excKey})
  }

  ghost function PolexUpserted(g: Graph, excKey: Name, excState: ExceptionState): Graph {
    var refs := excState.exception.policyRefs;
    var fields := LinkedBy(g.fields, refs, excKey, excState);
    if AnyIn(refs, g.policies.Keys) then
      MakeGraph(g.policies, g.exceptions[excKey := excState], fields,
                g.references[excKey := Referenced(refs, g.policies)])
    else g.(fields := fields)
  }

  // --------------------------------------------- the graph stays well formed

  lemma PolicyDeletedKeeps(g: Graph, key: Name)
    requires WellFormed(g)
    ensures WellFormed(PolicyDeleted(g, key))
  {
    var h := PolicyDeleted(g, key);
    forall k | k in h.exceptions ensures WellReferenced(h, k) { assert WellReferenced(g, k); }
    forall p | p in h.policies ensures WellLinked(h, p) { assert WellLinked(g, p); }
  }

  lemma PolicyReplacedKeeps(g: Graph, key: Name, policy: ValidatingPolicy)
    requires WellFormed(g) && key in g.policies
    ensures WellFormed(PolicyReplaced(g, key, policy))
  {
    var h := PolicyReplaced(g, key, policy);
    forall k | k in h.exceptions ensures WellReferenced(h, k) { assert WellReferenced(g, k); }
    forall p | p in h.policies ensures WellLinked(h, p) { assert WellLinked(g, p); }
  }

  lemma InsertInjective<T>(m: map<Name, T>, k: Name, t: T)
    requires Injective(m) && t !in m.Values
    ensures Injective(m[k := t])
  {
    forall i | i in m ensures m[i] != t {
      assert m[i] in m.Values;
    }
  }

  lemma CreatedReferenced(g: Graph, key: Name, policy: ValidatingPolicy, polState: PolicyState, k: Name)
    requires g.fields.Keys == g.policies.Keys && g.references.Keys == g.exceptions.Keys
    requires k in g.exceptions && key !in g.policies && WellReferenced(g, k)
    ensures WellReferenced(PolicyCreated(g, key, policy, polState), k)
  {
    var h := PolicyCreated(g, key, policy, polState);
    var refs := g.exceptions[k].exception.policyRefs;
    assert h.references[k] == if key in refs then g.references[k][key := polState] else g.references[k];
    forall n | n in h.references[k]
      ensures h.references[k][n] == h.policies[n]
      ensures k in h.fields[n].exceptions && h.fields[n].exceptions[k] == h.exceptions[k]
    {
      if n != key {
        assert h.fields[n] == g.fields[n];
      }
    }
  }

  lemma CreatedReferences(g: Graph, key: Name, policy: ValidatingPolicy, polState: PolicyState)
    requires WellFormed(g) && key !in g.policies
    ensures var h := PolicyCreated(g, key, policy, polState);
            forall k :: k in h.exceptions ==> WellReferenced(h, k)
  {
    var h := PolicyCreated(g, key, policy, polState);
    forall k | k in h.exceptions ensures WellReferenced(h, k) {
      CreatedReferenced(g, key, policy, polState, k);
    }
  }

  lemma CreatedLinks(g: Graph, key: Name, policy: ValidatingPolicy, polState: PolicyState)
    requires WellFormed(g) && key !in g.policies
    ensures var h := PolicyCreated(g, key, policy, polState);
            forall p :: p in h.policies ==> WellLinked(h, p)
  {
    var h := PolicyCreated(g, key, policy, polState);
    forall p | p in h.policies ensures WellLinked(h, p) {
      assert p != key ==> WellLinked(g, p) && h.fields[p] == g.fields[p];
    }
  }

  lemma PolicyCreatedKeeps(g: Graph, key: Name, policy: ValidatingPolicy, polState: PolicyState)
    requires WellFormed(g) && key !in g.policies && polState !in g.policies.Values
    ensures WellFormed(PolicyCreated(g, key, policy, polState))
  {
    InsertInjective(g.policies, key, polState);
    CreatedReferences(g, key, policy, polState);
    CreatedLinks(g, key, policy, polState);
  }

  lemma PolexDeletedKeeps(g: Graph, excKey: Name)
    requires WellFormed(g)
    ensures WellFormed(PolexDeleted(g, excKey))
  {
    var h := PolexDeleted(g, excKey);
    forall k | k in h.exceptions ensures WellReferenced(h, k) { assert WellReferenced(g, k); }
    forall p | p in h.policies ensures WellLinked(h, p) { assert WellLinked(g, p); }
  }

  lemma UpsertedReferenced(g: Graph, excKey: Name, excState: ExceptionState, k: Name)
    requires g.fields.Keys == g.policies.Keys && g.references.Keys == g.exceptions.Keys
    requires AnyIn(excState.exception.policyRefs, g.policies.Keys)
    requires k != excKey ==> k in g.exceptions && WellReferenced(g, k)
    ensures WellReferenced(PolexUpserted(g, excKey, excState), k)
  {
    var h := PolexUpserted(g, excKey, excState);
    forall n | n in h.references[k]
      ensures h.references[k][n] == h.policies[n]
      ensures k in h.fields[n].exceptions && h.fields[n].exceptions[k] == h.exceptions[k]
    {
      if k != excKey {
        assert h.references[k] == g.references[k];
        assert k in g.fields[n].exceptions;
      }
    }
  }

  lemma UpsertedLinked(g: Graph, excKey: Name, excState: ExceptionState, p: Name)
    requires g.fields.Keys == g.policies.Keys && g.references.Keys == g.exceptions.Keys
    requires AnyIn(excState.exception.policyRefs, g.policies.Keys)
    requires p in g.policies && WellLinked(g, p)
    ensures WellLinked(PolexUpserted(g, excKey, excState), p)
  {
  }

  lemma UpsertedNowhere(g: Graph, excKey: Name, excState: ExceptionState)
    requires g.fields.Keys == g.policies.Keys
    requires !AnyIn(excState.exception.policyRefs, g.policies.Keys)
    ensures PolexUpserted(g, excKey, excState) == g
  {
    var refs := excState.exception.policyRefs;
    assert forall p :: p in g.fields ==> p !in refs;
    assert LinkedBy(g.fields, refs, excKey, excState) == g.fields;
  }

  lemma PolexUpsertedKeeps(g: Graph, excKey: Name, excState: ExceptionState)
    requires WellFormed(g) && excState !in g.exceptions.Values
    ensures WellFormed(PolexUpserted(g, excKey, excState))
  {
    var refs := excState.exception.policyRefs;
    if AnyIn(refs, g.policies.Keys) {
      PolexLinkedKeeps(g, excKey, excState);
    } else {
      UpsertedNowhere(g, excKey, excState);
    }
  }

  lemma PolexLinkedKeeps(g: Graph, excKey: Name, excState: ExceptionState)
    requires WellFormed(g) && excState !in g.exceptions.Values
    requires AnyIn(excState.exception.policyRefs, g.policies.Keys)
    ensures WellFormed(PolexUpserted(g, excKey, excState))
  {
    var h := PolexUpserted(g, excKey, excState);
    InsertInjective(g.exceptions, excKey, excState);
    assert h.fields.Keys == h.policies.Keys && h.references.Keys == h.exceptions.Keys;
    forall k | k in h.exceptions ensures WellReferenced(h, k) {
      UpsertedReferenced(g, excKey, excState, k);
    }
    forall p | p in h.policies ensures WellLinked(h, p) {
      UpsertedLinked(g, excKey, excState, p);
    }
  }

  // ------------------------------------------------- the graph and the model

  ghost function PolicyViewOf(f: Fields): PolicyView {
    PolicyView(f.policy, map k | k in f.exceptions :: f.exceptions[k].exception, f.counter)
  }

  ghost function ViewOf(g: Graph): StoreView {
    StoreView(map p | p in g.fields :: PolicyViewOf(g.fields[p]), map k | k in g.exceptions :: g.exceptions[k].exception)
  }

  lemma WellFormedLinks(g: Graph, p: Name)
    requires WellFormed(g) && p in g.policies
    ensures LinksOf(ViewOf(g), p)
  {
    assert WellLinked(g, p);
    forall k | k in g.exceptions && p in g.exceptions[k].exception.policyRefs
      ensures k in g.fields[p].exceptions && g.fields[p].exceptions[k] == g.exceptions[k]
    {
      assert WellReferenced(g, k);
      assert p in g.references[k];
    }
  }

  lemma WellFormedIsLinked(g: Graph)
    requires WellFormed(g)
    ensures Linked(ViewOf(g))
  {
    forall p | p in g.policies { WellFormedLinks(g, p); }
    forall k | k in g.exceptions ensures g.exceptions[k].exception.policyRefs != [] {
      assert WellReferenced(g, k);
    }
  }

  lemma PolicyDeletedView(g: Graph, key: Name)
    ensures ViewOf(PolicyDeleted(g, key)) == ViewOf(g).(policies := ViewOf(g).policies - {key})
  {
    assert ViewOf(PolicyDeleted(g, key)).policies == ViewOf(g).policies - {key};
  }

  lemma PolicyReplacedView(g: Graph, key: Name, policy: ValidatingPolicy)
    requires key in g.fields
    ensures var v := ViewOf(g);
            ViewOf(PolicyReplaced(g, key, policy)) ==
            v.(policies := v.policies[key := v.policies[key].(policy := policy)])
  {
    var v := ViewOf(g);
    assert ViewOf(PolicyReplaced(g, key, policy)).policies == v.policies[key := v.policies[key].(policy := policy)];
  }

  lemma PolicyCreatedView(g: Graph, key: Name, policy: ValidatingPolicy, polState: PolicyState)
    ensures var v := ViewOf(g);
            ViewOf(PolicyCreated(g, key, policy, polState)) ==
            v.(policies := v.policies[key := PolicyView(policy, Naming(v.exceptions, key), 0)])
  {
    var v, w := ViewOf(g), ViewOf(PolicyCreated(g, key, policy, polState));
    assert PolicyViewOf(MakeFields(policy, Pointing(g.exceptions, key), 0)).exceptions == Naming(v.exceptions, key);
    assert w.policies == v.policies[key := PolicyView(policy, Naming(v.exceptions, key), 0)];
  }

  lemma PolexDeletedView(g: Graph, excKey: Name, exc: PolicyException)
    ensures ViewOf(PolexDeleted(g, excKey)) == AfterPolex(ViewOf(g), excKey, exc, true)
  {
    var v, w := ViewOf(PolexDeleted(g, excKey)), AfterPolex(ViewOf(g), excKey, exc, true);
    forall p | p in v.policies ensures v.policies[p] == w.policies[p] {
      assert v.policies[p].exceptions == w.policies[p].exceptions;
    }
    assert v.policies == w.policies && v.exceptions == w.exceptions;
  }

  lemma LinkedByView(g: Graph, refs: seq<Name>, excKey: Name, excState: ExceptionState, p: Name)
    requires p in g.fields
    ensures PolicyViewOf(LinkedBy(g.fields, refs, excKey, excState)[p]) ==
            var was := PolicyViewOf(g.fields[p]);
            if p in refs then
              PolicyView(was.policy, was.exceptions[excKey := excState.exception], was.counter + multiset(refs)[p])
            else was
  {
    if p in refs {
      var now := LinkedBy(g.fields, refs, excKey, excState)[p];
      assert PolicyViewOf(now).exceptions == PolicyViewOf(g.fields[p]).exceptions[excKey := excState.exception];
    }
  }

  lemma PolexUpsertedView(g: Graph, excKey: Name, excState: ExceptionState)
    requires g.fields.Keys == g.policies.Keys
    ensures ViewOf(PolexUpserted(g, excKey, excState)) == AfterPolex(ViewOf(g), excKey, excState.exception, false)
  {
    var exc := excState.exception;
    assert SomePresent(ViewOf(g), exc.policyRefs) <==> AnyIn(exc.policyRefs, g.policies.Keys);
    if AnyIn(exc.policyRefs, g.policies.Keys) {
      var v, w := ViewOf(PolexUpserted(g, excKey, excState)), AfterPolex(ViewOf(g), excKey, exc, false);
      forall p | p in v.policies ensures v.policies[p] == w.policies[p] {
        LinkedByView(g, exc.policyRefs, excKey, excState, p);
      }
      assert v.policies == w.policies && v.exceptions == w.exceptions;
    } else {
      UpsertedNowhere(g, excKey, excState);
    }
  }

  // ------------------------------------------------------------- loop steps

  lemma ForgottenStep(refs: map<Name, Refs>, done: set<Name>, k: Name, name: Name)
    requires k in refs && k !in done
    ensures Forgotten(refs, done + {k}, name) == Forgotten(refs, done, name)[k := refs[k] - {name}]
  {
  }

  lemma DroppedStep(fields: map<Name, Fields>, done: set<Name>, p: Name, excKey: Name)
    requires p in fields && p !in done
    ensures Dropped(fields, done + {p}, excKey) == Dropped(fields, done, excKey)[
              p := MakeFields(fields[p].policy, fields[p].exceptions - {excKey}, fields[p].counter + 1)]
  {
  }

  lemma PointingStep(refs: map<Name, Refs>, done: set<Name>, excs: map<Name, ExceptionState>,
                     k: Name, name: Name, polState: PolicyState)
    requires k in refs && k in excs && k !in done
    ensures var named := name in excs[k].exception.policyRefs;
      && PointedBack(refs, done + {k}, excs, name, polState) ==
           PointedBack(refs, done, excs, name, polState)[k := if named then refs[k][name := polState] else refs[k]]
      && Pointing(Only(excs, done + {k}), name) ==
           if named then Pointing(Only(excs, done), name)[k := excs[k]] else Pointing(Only(excs, done), name)
  {
  }

  function Only(excs: map<Name, ExceptionState>, names: set<Name>): map<Name, ExceptionState> {
    map k | k in excs && k in names :: excs[k]
  }

  lemma LinkedByStep(fields: map<Name, Fields>, refs: seq<Name>, name: Name, excKey: Name, excState: ExceptionState)
    ensures LinkedBy(fields, refs + [name], excKey, excState) ==
            var so := LinkedBy(fields, refs, excKey, excState);
            if name in fields then
              so[name := MakeFields(so[name].policy, so[name].exceptions[excKey := excState], so[name].counter + 1)]
            else so
  {
    var so, next := LinkedBy(fields, refs, excKey, excState), LinkedBy(fields, refs + [name], excKey, excState);
    forall p | p in fields
      ensures next[p] == if p == name
        then MakeFields(so[p].policy, so[p].exceptions[excKey := excState], so[p].counter + 1) else so[p]
    {
      assert p in refs + [name] <==> p in refs || p == name;
      if p !in refs { assert multiset(refs)[p] == 0; }
    }
  }

  lemma ReferencedStep(refs: seq<Name>, name: Name, policies: map<Name, PolicyState>)
    ensures AnyIn(refs + [name], policies.Keys) <==> AnyIn(refs, policies.Keys) || name in policies
    ensures Referenced(refs + [name], policies) ==
            if name in policies then Referenced(refs, policies)[name := policies[name]] else Referenced(refs, policies)
  {
    assert forall p :: p in refs + [name] <==> p in refs || p == name;
    if name in policies {
      assert name in refs + [name];
    }
    if AnyIn(refs, policies.Keys) {
      var n :| n in refs && n in policies.Keys;
      assert n in refs + [name];
    }
  }

  /** The policies' fields, the back references and the stored exceptions after the
      references `refs` of a delivered exception were walked. */
  ghost predicate Walked(policies: map<Name, PolicyState>, fields: map<Name, Fields>, stored: map<Name, ExceptionState>,
                         refs: seq<Name>, excKey: Name, excState: ExceptionState,
                         nowFields: map<Name, Fields>, nowRefs: Refs, nowStored: map<Name, ExceptionState>)
  {
    && nowFields == LinkedBy(fields, refs, excKey, excState)
    && nowRefs == Referenced(refs, policies)
    && nowStored == if AnyIn(refs, policies.Keys) then stored[excKey := excState] else stored
  }

  lemma WalkedNone(policies: map<Name, PolicyState>, fields: map<Name, Fields>, stored: map<Name, ExceptionState>,
                   excKey: Name, excState: ExceptionState)
    ensures Walked(policies, fields, stored, [], excKey, excState, fields, map[], stored)
  {
    assert LinkedBy(fields, [], excKey, excState) == fields;
  }

  lemma WalkedStep(policies: map<Name, PolicyState>, fields: map<Name, Fields>, stored: map<Name, ExceptionState>,
                   refs: seq<Name>, excKey: Name, excState: ExceptionState,
                   nowFields: map<Name, Fields>, nowRefs: Refs, nowStored: map<Name, ExceptionState>, name: Name)
    requires fields.Keys == policies.Keys
    requires Walked(policies, fields, stored, refs, excKey, excState, nowFields, nowRefs, nowStored)
    ensures name !in policies ==>
      Walked(policies, fields, stored, refs + [name], excKey, excState, nowFields, nowRefs, nowStored)
    ensures name in policies ==> name in nowFields
    ensures name in policies ==>
      Walked(policies, fields, stored, refs + [name], excKey, excState,
             nowFields[name := MakeFields(nowFields[name].policy, nowFields[name].exceptions[excKey := excState],
                                          nowFields[name].counter + 1)],
             nowRefs[name := policies[name]], nowStored[excKey := excState])
  {
    LinkedByStep(fields, refs, name, excKey, excState);
    ReferencedStep(refs, name, policies);
  }

  /** The links of a created policy and the back references to it once the stored
      exceptions in `done` were visited. */
  ghost predicate Visited(exceptions: map<Name, ExceptionState>, refs: map<Name, Refs>, done: set<Name>,
                          policyKey: Name, polState: PolicyState,
                          nowLinks: map<Name, ExceptionState>, nowRefs: map<Name, Refs>)
  {
    && nowLinks == Pointing(Only(exceptions, done), policyKey)
    && nowRefs == PointedBack(refs, done, exceptions, policyKey, polState)
  }

  lemma VisitedStep(exceptions: map<Name, ExceptionState>, refs: map<Name, Refs>, done: set<Name>,
                    policyKey: Name, polState: PolicyState,
                    nowLinks: map<Name, ExceptionState>, nowRefs: map<Name, Refs>, k: Name)
    requires k in exceptions && k !in done && refs.Keys == exceptions.Keys
    requires Visited(exceptions, refs, done, policyKey, polState, nowLinks, nowRefs)
    ensures k in nowRefs && nowRefs[k] == refs[k]
    ensures policyKey in exceptions[k].exception.policyRefs ==>
      Visited(exceptions, refs, done + {k}, policyKey, polState,
              nowLinks[k := exceptions[k]], nowRefs[k := nowRefs[k][policyKey := polState]])
    ensures policyKey !in exceptions[k].exception.policyRefs ==>
      Visited(exceptions, refs, done + {k}, policyKey, polState, nowLinks, nowRefs[k := nowRefs[k]])
  {
    PointingStep(refs, done, exceptions, k, policyKey, polState);
  }

  ghost predicate SameElsewhere<T>(m: map<Name, T>, m': map<Name, T>, k: Name) {
    m' - {k} == m - {k}
  }

  lemma InsertElsewhere<T>(m: map<Name, T>, k: Name, t: T)
    ensures SameElsewhere(m, m[k := t], k) && SameElsewhere(m, m, k)
  {
    assert m[k := t] - {k} == m - {k};
  }

  lemma RemoveElsewhere<T>(m: map<Name, T>, k: Name)
    ensures SameElsewhere(m, m - {k}, k)
  {
  }

  /** Once all exceptions were visited, the created policy is linked to all that name it. */
  lemma VisitedAll(exceptions: map<Name, ExceptionState>, refs: map<Name, Refs>, done: set<Name>,
                   policyKey: Name, polState: PolicyState,
                   nowLinks: map<Name, ExceptionState>, nowRefs: map<Name, Refs>)
    requires Visited(exceptions, refs, done, policyKey, polState, nowLinks, nowRefs) && done == exceptions.Keys
    ensures nowLinks == Pointing(exceptions, policyKey)
    ensures nowRefs == PointedBack(refs, exceptions.Keys, exceptions, policyKey, polState)
  {
    assert Only(exceptions, done) == exceptions;
  }

  ghost function FieldsOf(policies: map<Name, PolicyState>): map<Name, Fields>
    reads policies.Values
  {
    map p | p in policies :: policies[p].Fields()
  }

  ghost function ReferencesOf(exceptions: map<Name, ExceptionState>): map<Name, Refs>
    reads exceptions.Values
  {
    map k | k in exceptions :: exceptions[k].references
  }

  lemma FieldsInsert(m: map<Name, PolicyState>, p: Name, polState: PolicyState)
    ensures FieldsOf(m[p := polState]) == FieldsOf(m)[p := polState.Fields()]
  {
  }

  lemma FieldsRemove(m: map<Name, PolicyState>, p: Name)
    ensures FieldsOf(m - {p}) == FieldsOf(m) - {p}
  {
  }

  lemma ReferencesInsert(m: map<Name, ExceptionState>, k: Name, excState: ExceptionState)
    ensures ReferencesOf(m[k := excState]) == ReferencesOf(m)[k := excState.references]
  {
  }

  twostate lemma FieldsKept(m: map<Name, PolicyState>)
    requires forall p :: p in m ==> m[p].Fields() == old(m[p].Fields())
    ensures FieldsOf(m) == old(FieldsOf(m))
  {
  }

  twostate lemma ReferencesKept(m: map<Name, ExceptionState>)
    requires forall k :: k in m ==> m[k].references == old(m[k].references)
    ensures ReferencesOf(m) == old(ReferencesOf(m))
  {
  }

  lemma ReferencesRemove(m: map<Name, ExceptionState>, k: Name)
    ensures ReferencesOf(m - {k}) == ReferencesOf(m) - {k}
  {
  }

  /** `listed` is the `i`-th of the stored policies in increasing key order. */
  ghost predicate IsListed(policies: map<Name, PolicyState>, i: nat, listed: PolicyState) {
    var names := Ordering.Sorted(policies.Keys);
    i < |names| && names[i] in policies && policies[names[i]] == listed
  }

  class CompositeStore {
    const mutex: Mutex
    var policies: map<Name, PolicyState>
    var exceptions: map<Name, ExceptionState>

    ghost function Graph(): Graph
      reads this`policies, this`exceptions, policies.Values, exceptions.Values
    {
      MakeGraph(policies, exceptions, FieldsOf(policies), ReferencesOf(exceptions))
    }

    ghost predicate Valid()
      reads this`policies, this`exceptions, policies.Values, exceptions.Values
    {
      WellFormed(Graph())
    }

    ghost function View(): StoreView
      reads this`policies, this`exceptions, policies.Values, exceptions.Values
    {
      ViewOf(Graph())
    }

    lemma ViewHolds()
      ensures View().policies.Keys == policies.Keys
      ensures forall p :: p in policies ==> View().policies[p].policy == policies[p].policy
    {
    }

    constructor ()
      ensures Valid() && View() == EMPTY_STORE && !mutex.held && fresh(mutex)
    {
      mutex := new Mutex();
      policies, exceptions := map[], map[];
    }

    /** Taking the free lock. */
    method Lock()
      requires !mutex.held
      modifies mutex
      ensures mutex.held && Graph() == old(Graph())
    {
      mutex.held := true;
    }

    method Unlock()
      requires mutex.held
      modifies mutex
      ensures !mutex.held && Graph() == old(Graph())
    {
      mutex.held := false;
    }

    twostate lemma SameStore()
      requires Graph() == old(Graph())
      ensures Valid() == old(Valid()) && View() == old(View())
    {
    }

    /** A policy event deletes one object, updates it in place or adds a new one; every
        other object stays, and the deleted one keeps its content for whoever holds it. */
    twostate predicate KeepsPolicies(was: map<Name, PolicyState>, key: Name, isDelete: bool)
      reads this, was.Values
    {
      if isDelete then
        policies == was - {key} && (key in was ==> was[key].policy == old(was[key].policy))
      else if key in was then policies == was
      else key in policies && fresh(policies[key]) && policies == was[key := policies[key]]
    }

    method HandlePolicy(rawKey: string, policy: ValidatingPolicy, isDelete: bool)
      requires Valid() && !mutex.held
      modifies this, mutex, policies.Values, exceptions.Values
      ensures Valid() && !mutex.held
      ensures View() == AfterPolicy(old(View()), rawKey, policy, isDelete)
      ensures KeepsPolicies(old(policies), Trimmed(rawKey), isDelete) && exceptions == old(exceptions)
    {
      Lock();
      SameStore();
      ApplyPolicy(rawKey, policy, isDelete);
      label applied:
      Unlock();
      SameStore@applied();
    }

    method ApplyPolicy(rawKey: string, policy: ValidatingPolicy, isDelete: bool)
      requires Valid()
      modifies this, policies.Values, exceptions.Values
      ensures Valid() && View() == AfterPolicy(old(View()), rawKey, policy, isDelete)
      ensures KeepsPolicies(old(policies), Trimmed(rawKey), isDelete) && exceptions == old(exceptions)
    {
      var policyKey := Trimmed(rawKey);
      ghost var g := Graph();
      if isDelete {
        DeletePolicy(policyKey);
        PolicyDeletedKeeps(g, policyKey);
        PolicyDeletedView(g, policyKey);
      } else if policyKey in policies {
        ReplacePolicy(policyKey, policy);
        PolicyReplacedKeeps(g, policyKey, policy);
        PolicyReplacedView(g, policyKey, policy);
      } else {
        var polState := CreatePolicy(policyKey, policy);
        PolicyCreatedKeeps(g, policyKey, policy, polState);
        PolicyCreatedView(g, policyKey, policy, polState);
      }
    }

    method DeletePolicy(policyKey: Name)
      requires Injective(exceptions)
      modifies this, exceptions.Values
      ensures Graph() == PolicyDeleted(old(Graph()), policyKey)
    {
      FieldsRemove(policies, policyKey);
      policies := policies - {policyKey};
      ForgetPolicy(policyKey);
    }

    method ReplacePolicy(policyKey: Name, policy: ValidatingPolicy)
      requires Injective(policies) && policyKey in policies
      modifies policies.Values
      ensures Graph() == PolicyReplaced(old(Graph()), policyKey, policy)
    {
      ghost var fields := FieldsOf(policies);
      policies[policyKey].policy := policy;
      assert FieldsOf(policies) == fields[policyKey := fields[policyKey].(policy := policy)];
    }

    method CreatePolicy(policyKey: Name, policy: ValidatingPolicy) returns (polState: PolicyState)
      requires Injective(exceptions) && Injective(policies) && policyKey !in policies
      modifies this, exceptions.Values
      ensures fresh(polState)
      ensures policies == old(policies)[policyKey := polState] && exceptions == old(exceptions)
      ensures FieldsOf(policies) ==
              old(FieldsOf(policies))[policyKey := MakeFields(policy, Pointing(exceptions, policyKey), 0)]
      ensures ReferencesOf(exceptions) ==
              PointedBack(old(ReferencesOf(exceptions)), exceptions.Keys, exceptions, policyKey, polState)
    {
      ghost var fields, refs := FieldsOf(policies), ReferencesOf(exceptions);
      polState := AddPolicy(policyKey, policy);
      LinkCreated(fields, refs, policyKey, polState);
    }

    method AddPolicy(policyKey: Name, policy: ValidatingPolicy) returns (polState: PolicyState)
      requires Injective(policies) && policyKey !in policies
      modifies this`policies
      ensures Injective(policies) && ReferencesOf(exceptions) == old(ReferencesOf(exceptions))
      ensures fresh(polState) && policies == old(policies)[policyKey := polState]
      ensures polState.Fields() == MakeFields(policy, map[], 0)
      ensures FieldsOf(policies) == old(FieldsOf(policies))[policyKey := MakeFields(policy, map[], 0)]
    {
      polState := new PolicyState(policy);
      FieldsInsert(policies, policyKey, polState);
      InsertInjective(policies, policyKey, polState);
      policies := policies[policyKey := polState];
    }

    /** `fields` and `refs` are what the store held before the policy was added. */
    method LinkCreated(ghost fields: map<Name, Fields>, ghost refs: map<Name, Refs>, policyKey: Name, polState: PolicyState)
      requires Injective(exceptions) && Injective(policies)
      requires policyKey in policies && policies[policyKey] == polState && polState.exceptions == map[]
      requires FieldsOf(policies) == fields[policyKey := polState.Fields()] && ReferencesOf(exceptions) == refs
      modifies polState`exceptions, exceptions.Values
      ensures FieldsOf(policies) ==
              fields[policyKey := old(polState.Fields()).(exceptions := Pointing(exceptions, policyKey))]
      ensures ReferencesOf(exceptions) == PointedBack(refs, exceptions.Keys, exceptions, policyKey, polState)
    {
      LinkStored(policyKey, polState);
      SameFieldsBut(policyKey);
    }

    /** When one policy changed, its fields are the only ones that did. */
    twostate lemma SameFieldsBut(policyKey: Name)
      requires Injective(policies) && policies == old(policies) && policyKey in policies
      requires forall p :: p in policies && p != policyKey ==> policies[p].Fields() == old(policies[p].Fields())
      ensures FieldsOf(policies) == old(FieldsOf(policies))[policyKey := policies[policyKey].Fields()]
    {
    }

    /** The loop of a policy deletion over the stored exceptions. */
    method ForgetPolicy(policyKey: Name)
      requires Injective(exceptions)
      modifies exceptions.Values
      ensures ReferencesOf(exceptions) == Forgotten(old(ReferencesOf(exceptions)), exceptions.Keys, policyKey)
    {
      var todo := exceptions.Keys;
      ghost var done: set<Name> := {};
      while todo != {}
        invariant todo !! done && todo + done == exceptions.Keys
        invariant ReferencesOf(exceptions) == Forgotten(old(ReferencesOf(exceptions)), done, policyKey)
        decreases todo
      {
        var k :| k in todo;
        ForgottenStep(old(ReferencesOf(exceptions)), done, k, policyKey);
        ghost var before := ReferencesOf(exceptions);
        exceptions[k].references := exceptions[k].references - {policyKey};
        assert ReferencesOf(exceptions) == before[k := before[k] - {policyKey}];
        todo, done := todo - {k}, done + {k};
      }
    }

    /** The exceptions in `done` are linked to the created policy, the others are as in `refs`. */
    ghost predicate LinkedSoFar(refs: map<Name, Refs>, done: set<Name>, policyKey: Name, polState: PolicyState)
      reads this, exceptions.Values, polState
    {
      Visited(exceptions, refs, done, policyKey, polState, polState.exceptions, ReferencesOf(exceptions))
    }

    /** The loop of a policy creation over the stored exceptions. */
    method LinkStored(policyKey: Name, polState: PolicyState)
      requires Injective(exceptions)
      requires policyKey in policies && policies[policyKey] == polState && polState.exceptions == map[]
      modifies polState`exceptions, exceptions.Values
      ensures polState.exceptions == Pointing(exceptions, policyKey)
      ensures ReferencesOf(exceptions) ==
              PointedBack(old(ReferencesOf(exceptions)), exceptions.Keys, exceptions, policyKey, polState)
    {
      var todo := exceptions.Keys;
      ghost var done: set<Name> := {};
      while todo != {}
        invariant todo !! done && todo + done == exceptions.Keys
        invariant LinkedSoFar(old(ReferencesOf(exceptions)), done, policyKey, polState)
        decreases todo
      {
        var k :| k in todo;
        LinkOne(old(ReferencesOf(exceptions)), done, policyKey, polState, k, exceptions[k]);
        todo, done := todo - {k}, done + {k};
      }
      VisitedAll(exceptions, old(ReferencesOf(exceptions)), done, policyKey, polState,
                 polState.exceptions, ReferencesOf(exceptions));
    }

    method LinkOne(ghost refs: map<Name, Refs>, ghost done: set<Name>, policyKey: Name, polState: PolicyState,
                   k: Name, exc: ExceptionState)
      requires Injective(exceptions) && policyKey in policies && policies[policyKey] == polState
      requires k in exceptions && exceptions[k] == exc && k !in done && refs.Keys == exceptions.Keys
      requires LinkedSoFar(refs, done, policyKey, polState)
      modifies polState`exceptions, exc`references
      ensures LinkedSoFar(refs, done + {k}, policyKey, polState)
    {
      ghost var links, back := polState.exceptions, ReferencesOf(exceptions);
      VisitedStep(exceptions, refs, done, policyKey, polState, links, back, k);
      LinkIfNamed(polState, policyKey, k, exc);
      assert ReferencesOf(exceptions) == back[k := exc.references];
    }

    /** Link one stored exception, once per matching reference. */
    method LinkIfNamed(polState: PolicyState, policyKey: Name, excKey: Name, exc: ExceptionState)
      requires policyKey in policies && policies[policyKey] == polState
      modifies polState`exceptions, exc`references
      ensures var named := policyKey in exc.exception.policyRefs;
        && polState.exceptions == (if named then old(polState.exceptions)[excKey := exc] else old(polState.exceptions))
        && exc.references == if named then old(exc.references)[policyKey := polState] else old(exc.references)
    {
      var refs := exc.exception.policyRefs;
      var i := 0;
      while i < |refs|
        invariant 0 <= i <= |refs|
        invariant var named := policyKey in refs[..i];
          && polState.exceptions == (if named then old(polState.exceptions)[excKey := exc] else old(polState.exceptions))
          && exc.references == if named then old(exc.references)[policyKey := polState] else old(exc.references)
      {
        if refs[i] == policyKey {
          exc.references := exc.references[policyKey := policies[policyKey]];
          polState.exceptions := polState.exceptions[excKey := exc];
        }
        assert refs[..i + 1] == refs[..i] + [refs[i]];
        i := i + 1;
      }
      assert refs[..i] == refs;
    }

    method HandlePolex(excKey: Name, exc: PolicyException, isDelete: bool)
      requires Valid() && !mutex.held
      modifies this, mutex, policies.Values
      ensures Valid() && !mutex.held
      ensures View() == AfterPolex(old(View()), excKey, exc, isDelete)
      ensures policies == old(policies) && SameElsewhere(old(exceptions), exceptions, excKey)
    {
      Lock();
      SameStore();
      ApplyPolex(excKey, exc, isDelete);
      label applied:
      Unlock();
      SameStore@applied();
    }

    method ApplyPolex(excKey: Name, exc: PolicyException, isDelete: bool)
      requires Valid()
      modifies this, policies.Values
      ensures Valid() && View() == AfterPolex(old(View()), excKey, exc, isDelete)
      ensures policies == old(policies) && SameElsewhere(old(exceptions), exceptions, excKey)
    {
      ghost var g := Graph();
      if isDelete {
        DeletePolex(excKey);
        PolexDeletedKeeps(g, excKey);
        PolexDeletedView(g, excKey, exc);
      } else {
        var excState := UpsertPolex(excKey, exc);
        PolexUpsertedKeeps(g, excKey, excState);
        PolexUpsertedView(g, excKey, excState);
      }
    }

    method DeletePolex(excKey: Name)
      requires Injective(policies)
      modifies this, policies.Values
      ensures policies == old(policies) && exceptions == old(exceptions) - {excKey}
      ensures SameElsewhere(old(exceptions), exceptions, excKey)
      ensures FieldsOf(policies) == Dropped(old(FieldsOf(policies)), policies.Keys, excKey)
      ensures ReferencesOf(exceptions) == old(ReferencesOf(exceptions)) - {excKey}
    {
      ReferencesRemove(exceptions, excKey);
      RemoveElsewhere(exceptions, excKey);
      exceptions := exceptions - {excKey};
      FieldsKept(policies);
      DropException(excKey);
      ReferencesKept(exceptions);
    }

    method UpsertPolex(excKey: Name, exc: PolicyException) returns (excState: ExceptionState)
      requires Injective(policies)
      modifies this, policies.Values
      ensures fresh(excState) && excState.exception == exc
      ensures policies == old(policies) && SameElsewhere(old(exceptions), exceptions, excKey)
      ensures FieldsOf(policies) == LinkedBy(old(FieldsOf(policies)), exc.policyRefs, excKey, excState)
      ensures AnyIn(exc.policyRefs, policies.Keys) ==>
        && exceptions == old(exceptions)[excKey := excState]
        && ReferencesOf(exceptions) == old(ReferencesOf(exceptions))[excKey := Referenced(exc.policyRefs, policies)]
      ensures !AnyIn(exc.policyRefs, policies.Keys) ==>
        exceptions == old(exceptions) && ReferencesOf(exceptions) == old(ReferencesOf(exceptions))
    {
      excState := new ExceptionState(exc);
      ghost var before := exceptions;
      LinkReferences(excKey, excState);
      ReferencesKept(before);
      ReferencesInsert(before, excKey, excState);
      InsertElsewhere(before, excKey, excState);
    }

    /** The loop of an exception deletion over all policies. */
    method DropException(excKey: Name)
      requires Injective(policies)
      modifies policies.Values
      ensures FieldsOf(policies) == Dropped(old(FieldsOf(policies)), policies.Keys, excKey)
    {
      var todo := policies.Keys;
      ghost var done: set<Name> := {};
      while todo != {}
        invariant todo !! done && todo + done == policies.Keys
        invariant FieldsOf(policies) == Dropped(old(FieldsOf(policies)), done, excKey)
        decreases todo
      {
        var p :| p in todo;
        DroppedStep(old(FieldsOf(policies)), done, p, excKey);
        label before:
        var polState := policies[p];
        polState.exceptionEventCounter := polState.exceptionEventCounter + 1;
        polState.exceptions := polState.exceptions - {excKey};
        SameFieldsBut@before(p);
        todo, done := todo - {p}, done + {p};
      }
    }

    /** What a delivery has changed once it has walked the references `refs`. */
    ghost predicate WalkedSoFar(fields: map<Name, Fields>, stored: map<Name, ExceptionState>,
                                refs: seq<Name>, excKey: Name, excState: ExceptionState)
      reads this, policies.Values, excState
    {
      Walked(policies, fields, stored, refs, excKey, excState, FieldsOf(policies), excState.references, exceptions)
    }

    /** The loop of an exception delivery over its references. */
    method LinkReferences(excKey: Name, excState: ExceptionState)
      requires Injective(policies) && excState.references == map[]
      modifies this`exceptions, policies.Values, excState
      ensures WalkedSoFar(old(FieldsOf(policies)), old(exceptions), excState.exception.policyRefs, excKey, excState)
    {
      var refs := excState.exception.policyRefs;
      var i := 0;
      ghost var fields, stored := FieldsOf(policies), exceptions;
      WalkedNone(policies, fields, stored, excKey, excState);
      assert refs[..0] == [];
      while i < |refs|
        invariant 0 <= i <= |refs|
        invariant WalkedSoFar(fields, stored, refs[..i], excKey, excState)
      {
        assert refs[..i + 1] == refs[..i] + [refs[i]];
        WalkOne(fields, stored, refs[..i], excKey, excState, refs[i]);
        i := i + 1;
      }
      assert refs[..i] == refs;
    }

    /** One reference of a delivered exception: link the policy if it is present. */
    method WalkOne(ghost fields: map<Name, Fields>, ghost stored: map<Name, ExceptionState>, ghost refs: seq<Name>,
                   excKey: Name, excState: ExceptionState, name: Name)
      requires Injective(policies) && fields.Keys == policies.Keys
      requires WalkedSoFar(fields, stored, refs, excKey, excState)
      modifies this`exceptions, policies.Values, excState`references
      ensures WalkedSoFar(fields, stored, refs + [name], excKey, excState)
    {
      WalkedStep(policies, fields, stored, refs, excKey, excState,
                 FieldsOf(policies), excState.references, exceptions, name);
      if name in policies {
        LinkPresent(excKey, excState, name, policies[name]);
      }
    }

    method LinkPresent(excKey: Name, excState: ExceptionState, name: Name, polState: PolicyState)
      requires Injective(policies) && name in policies && policies[name] == polState
      modifies this`exceptions, polState, excState`references
      ensures FieldsOf(policies) == old(FieldsOf(policies))[name := MakeFields(
                old(polState.policy), old(polState.exceptions)[excKey := excState], old(polState.exceptionEventCounter) + 1)]
      ensures excState.references == old(excState.references)[name := polState]
      ensures exceptions == old(exceptions)[excKey := excState]
    {
      polState.exceptions := polState.exceptions[excKey := excState];
      polState.exceptionEventCounter := polState.exceptionEventCounter + 1;
      excState.references := excState.references[name := polState];
      exceptions := exceptions[excKey := excState];
    }

    /** The stored policies in increasing key order. */
    method Load() returns (loaded: seq<PolicyState>)
      requires !mutex.held
      modifies mutex
      ensures !mutex.held
      ensures |loaded| == |Ordering.Sorted(policies.Keys)|
      ensures forall i :: 0 <= i < |loaded| ==> IsListed(policies, i, loaded[i])
    {
      Lock();
      var keys := Ordering.SortKeys(policies.Keys);
      Ordering.SortedLists(policies.Keys);
      forall j | 0 <= j < |keys| ensures keys[j] in policies {
        assert keys[j] in keys;
      }
      loaded := [];
      var i := 0;
      while i < |keys|
        invariant 0 <= i <= |keys| && |loaded| == i && mutex.held
        invariant forall j :: 0 <= j < i ==> loaded[j] == policies[keys[j]]
      {
        loaded := loaded + [policies[keys[i]]];
        i := i + 1;
      }
      Unlock();
    }

    /** The cache key of a policy, from its text and the counter of its live state. */
    method KeyFunc(policy: ValidatingPolicy) returns (key: Option<string>)
      requires !mutex.held
      modifies mutex
      ensures !mutex.held
      ensures key.Some? <==> policy.name in policies
      ensures key.Some? ==>
        key.value == CacheKey.Key(policy.name.text, policy.resourceVersion, policies[policy.name].exceptionEventCounter)
    {
      Lock();
      if policy.name !in policies {
        key := None;
      } else {
        key := Some(CacheKey.Key(policy.name.text, policy.resourceVersion, policies[policy.name].exceptionEventCounter));
      }
      Unlock();
    }

    /** The exceptions handed to the compiler for a policy. When the policy is gone the
        error return leaves the lock taken: afterwards the lock is free if and only if
        the policy was present. */
    method SelectExceptions(policy: ValidatingPolicy)
      returns (selected: Option<seq<PolicyException>>, ghost order: seq<Name>)
      requires !mutex.held
      modifies mutex
      ensures !mutex.held <==> policy.name in policies
      ensures selected.Some? <==> policy.name in policies
      ensures selected.Some? ==>
        Enumerates(selected.value, order, CacheKey.OfMode(View().policies[policy.name].exceptions, policy.mode))
    {
      order := [];
      Lock();
      if policy.name !in policies {
        return None, [];
      }
      var polState := policies[policy.name];
      Unlock();
      var exceptions: seq<PolicyException> := [];
      var todo := polState.exceptions.Keys;
      ghost var all := View().policies[policy.name].exceptions;
      while todo != {}
        invariant todo <= polState.exceptions.Keys && !mutex.held
        invariant Enumerates(exceptions, order, CacheKey.OfMode(all - todo, policy.mode))
        decreases todo
      {
        var k :| k in todo;
        var exc := polState.exceptions[k];
        OfModeStep(all, todo, k, policy.mode);
        if exc.exception.mode == policy.mode {
          EnumeratesStep(exceptions, order, CacheKey.OfMode(all - todo, policy.mode), k, exc.exception);
          exceptions := exceptions + [exc.exception];
          order := order + [k];
        }
        todo := todo - {k};
      }
      assert all - todo == all;
      selected := Some(exceptions);
    }
  }

  /** `s` holds the values of `m`, each key once, in the order `keys`. */
  ghost predicate Enumerates(s: seq<PolicyException>, keys: seq<Name>, m: map<Name, PolicyException>) {
    if keys == [] then s == [] && m == map[]
    else
      && s != [] && keys[|keys| - 1] in m && s[|s| - 1] == m[keys[|keys| - 1]]
      && Enumerates(s[..|s| - 1], keys[..|keys| - 1], m - {keys[|keys| - 1]})
  }

  lemma EnumeratesStep(s: seq<PolicyException>, keys: seq<Name>, m: map<Name, PolicyException>,
                       k: Name, e: PolicyException)
    requires Enumerates(s, keys, m) && k !in m
    ensures Enumerates(s + [e], keys + [k], m[k := e])
  {
    assert (s + [e])[..|s|] == s && (keys + [k])[..|keys|] == keys;
    assert m[k := e] - {k} == m;
  }

  lemma {:induction false} EnumeratesMembers(s: seq<PolicyException>, keys: seq<Name>, m: map<Name, PolicyException>)
    requires Enumerates(s, keys, m)
    ensures |s| == |keys|
    ensures forall e :: e in s <==> exists k :: k in m && m[k] == e
  {
    if keys == [] {
    } else {
      var k, e, rest := keys[|keys| - 1], s[|s| - 1], m - {keys[|keys| - 1]};
      EnumeratesMembers(s[..|s| - 1], keys[..|keys| - 1], rest);
      assert s == s[..|s| - 1] + [e];
      forall d ensures d in s <==> exists n :: n in m && m[n] == d {
        if n :| n in m && m[n] == d {
          assert n == k || (n in rest && rest[n] == d);
        }
        if d in s && d != e {
          var n :| n in rest && rest[n] == d;
          assert n in m && m[n] == d;
        }
      }
    }
  }

  lemma OfModeStep(all: map<Name, PolicyException>, todo: set<Name>, k: Name, mode: Mode)
    requires k in todo && k in all
    ensures k !in CacheKey.OfMode(all - todo, mode)
    ensures CacheKey.OfMode(all - (todo - {k}), mode) ==
            var before := CacheKey.OfMode(all - todo, mode);
            if all[k].mode == mode then before[k := all[k]] else before
  {
  }
}
