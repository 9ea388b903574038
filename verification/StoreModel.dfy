/** What the policy store holds, as a value, and what each watch event does to it.
    The heap classes in `Store` are proved against these functions; here the
    functions are proved to do what the batch join of the static source does. */
module StoreModel {
  import opened Api

  datatype PolicyView = PolicyView(
    policy: ValidatingPolicy,
    exceptions: map<Name, PolicyException>,
    counter: nat)

  datatype StoreView = StoreView(
    policies: map<Name, PolicyView>,
    exceptions: map<Name, PolicyException>)

  datatype Event =
    | PolicyEvent(key: string, policy: ValidatingPolicy, isDelete: bool)
    | PolexEvent(name: Name, exception: PolicyException, isDelete: bool)

  const EMPTY_STORE := StoreView(map[], map[])

  function Trimmed(key: string): Name {
    Name(if |key| > 0 && key[0] == '/' then key[1..] else key)
  }

  /** One leading slash is dropped, and nothing else. */
  lemma TrimmedExactly(key: string)
    ensures Trimmed("/" + key) == Name(key)
    ensures Trimmed(key) == Name(key) <==> !("/" <= key)
  {
    assert ("/" + key)[1..] == key;
  }

  /** The exceptions of `excs` that name the policy `name`: the join condition. */
  function Naming(excs: map<Name, PolicyException>, name: Name): map<Name, PolicyException> {
    map k | k in excs && name in excs[k].policyRefs :: excs[k]
  }

  function AfterPolicy(v: StoreView, rawKey: string, policy: ValidatingPolicy, isDelete: bool): StoreView {
    var key := Trimmed(rawKey);
    if isDelete then
      v.(policies := v.policies - {key})
    else if key in v.policies then
      v.(policies := v.policies[key := v.policies[key].(policy := policy)])
    else
      v.(policies := v.policies[key := PolicyView(policy, Naming(v.exceptions, key), 0)])
  }

  predicate SomePresent(v: StoreView, refs: seq<Name>) {
    exists n :: n in refs && n in v.policies
  }

  function AfterPolex(v: StoreView, key: Name, exc: PolicyException, isDelete: bool): StoreView {
    if isDelete then
      StoreView(
        map p | p in v.policies ::
          PolicyView(v.policies[p].policy, v.policies[p].exceptions - {key}, v.policies[p].counter + 1),
        v.exceptions - {key})
    else if SomePresent(v, exc.policyRefs) then
      StoreView(
        map p | p in v.policies ::
          if p in exc.policyRefs then
            PolicyView(v.policies[p].policy,
                       v.policies[p].exceptions[key := exc],
                       v.policies[p].counter + multiset(exc.policyRefs)[p])
          else v.policies[p],
        v.exceptions[key := exc])
    else v
  }

  function Step(v: StoreView, e: Event): StoreView {
    match e
    case PolicyEvent(key, policy, isDelete) => AfterPolicy(v, key, policy, isDelete)
    case PolexEvent(name, exc, isDelete) => AfterPolex(v, name, exc, isDelete)
  }

  function Run(es: seq<Event>): StoreView {
    if es == [] then EMPTY_STORE else Step(Run(es[..|es| - 1]), es[|es| - 1])
  }

  // ---------------------------------------------------------------- invariant

  /** The links of `p` against the stored exceptions: a linked exception sits under a
      stored key and names the policy, and a stored exception that names it is linked. */
  ghost predicate LinksOf(v: StoreView, p: Name)
    requires p in v.policies
  {
    var links := v.policies[p].exceptions;
    && (forall k :: k in links ==> k in v.exceptions && p in links[k].policyRefs)
    && (forall k :: k in v.exceptions && p in v.exceptions[k].policyRefs ==> k in links && links[k] == v.exceptions[k])
  }

  /** What every reachable store satisfies. */
  ghost predicate Linked(v: StoreView) {
    && (forall p :: p in v.policies ==> LinksOf(v, p))
    && (forall k :: k in v.exceptions ==> v.exceptions[k].policyRefs != [])
  }

  lemma PolicyStepKeepsLinked(v: StoreView, key: string, policy: ValidatingPolicy, isDelete: bool)
    requires Linked(v)
    ensures Linked(AfterPolicy(v, key, policy, isDelete))
  {
    var w := AfterPolicy(v, key, policy, isDelete);
    forall p | p in w.policies ensures LinksOf(w, p) {
      assert p in v.policies ==> LinksOf(v, p);
    }
  }

  lemma PolexStepKeepsLinked(v: StoreView, key: Name, exc: PolicyException, isDelete: bool)
    requires Linked(v)
    ensures Linked(AfterPolex(v, key, exc, isDelete))
  {
    var w := AfterPolex(v, key, exc, isDelete);
    forall p | p in w.policies ensures LinksOf(w, p) {
      assert LinksOf(v, p);
    }
  }

  lemma {:induction false} RunIsLinked(es: seq<Event>)
    ensures Linked(Run(es))
  {
    if es == [] {
    } else {
      RunIsLinked(es[..|es| - 1]);
      match es[|es| - 1]
      case PolicyEvent(key, policy, isDelete) =>
        PolicyStepKeepsLinked(Run(es[..|es| - 1]), key, policy, isDelete);
      case PolexEvent(name, exc, isDelete) =>
        PolexStepKeepsLinked(Run(es[..|es| - 1]), name, exc, isDelete);
    }
  }

  // ------------------------------------------------- the batch side of a run

  function DeliveredAfter(d: map<Name, PolicyException>, e: Event): map<Name, PolicyException> {
    match e
    case PolicyEvent(_, _, _) => d
    case PolexEvent(name, exc, isDelete) => if isDelete then d - {name} else d[name := exc]
  }

  /** The exceptions last delivered, whatever the store did with them. */
  function Delivered(es: seq<Event>): map<Name, PolicyException> {
    if es == [] then map[] else DeliveredAfter(Delivered(es[..|es| - 1]), es[|es| - 1])
  }

  /** The policies that survive, with their last content. */
  function Surviving(es: seq<Event>): map<Name, ValidatingPolicy> {
    if es == [] then map[] else
    var before := Surviving(es[..|es| - 1]);
    match es[|es| - 1]
    case PolicyEvent(key, policy, isDelete) =>
      if isDelete then before - {Trimmed(key)} else before[Trimmed(key) := policy]
    case PolexEvent(_, _, _) => before
  }

  lemma {:induction false} RunKeepsSurvivors(es: seq<Event>)
    ensures Run(es).policies.Keys == Surviving(es).Keys
    ensures forall p :: p in Surviving(es) ==> Run(es).policies[p].policy == Surviving(es)[p]
  {
    if es == [] {
    } else {
      RunKeepsSurvivors(es[..|es| - 1]);
    }
  }

  /** The links of every present policy are what joining with `d` gives. */
  ghost predicate Agrees(v: StoreView, d: map<Name, PolicyException>) {
    forall p :: p in v.policies ==> v.policies[p].exceptions == Naming(d, p)
  }

  // ------------------------------------------------------ plain agreement

  /** An event keeps the agreement: a delivery names again every policy that is linked
      to its key, and a created policy finds stored the delivered exceptions that name it. */
  ghost predicate KeepsAgreement(v: StoreView, d: map<Name, PolicyException>, e: Event) {
    match e
    case PolicyEvent(key, _, isDelete) =>
      isDelete || Trimmed(key) in v.policies || Naming(v.exceptions, Trimmed(key)) == Naming(d, Trimmed(key))
    case PolexEvent(name, exc, isDelete) =>
      isDelete || forall p :: p in v.policies && name in v.policies[p].exceptions ==> p in exc.policyRefs
  }

  lemma PolicyStepAgreesExactly(v: StoreView, d: map<Name, PolicyException>, e: Event)
    requires Agrees(v, d) && e.PolicyEvent?
    ensures Agrees(Step(v, e), d) <==> KeepsAgreement(v, d, e)
  {
    var w, n := Step(v, e), Trimmed(e.key);
    assert forall p :: p in w.policies && p in v.policies ==> w.policies[p].exceptions == v.policies[p].exceptions;
    if !e.isDelete && n !in v.policies {
      assert n in w.policies && w.policies[n].exceptions == Naming(v.exceptions, n);
    }
  }

  lemma DeliveryLinks(v: StoreView, d: map<Name, PolicyException>, key: Name, exc: PolicyException, p: Name)
    requires p in v.policies && v.policies[p].exceptions == Naming(d, p)
    ensures AfterPolex(v, key, exc, false).policies[p].exceptions == Naming(d[key := exc], p) <==>
            (key in v.policies[p].exceptions ==> p in exc.policyRefs)
  {
    var links := AfterPolex(v, key, exc, false).policies[p].exceptions;
    if p in exc.policyRefs {
      assert links == Naming(d, p)[key := exc] == Naming(d[key := exc], p);
    } else {
      assert links == Naming(d, p) && Naming(d[key := exc], p) == Naming(d, p) - {key};
    }
  }

  lemma PolexStepAgreesExactly(v: StoreView, d: map<Name, PolicyException>, e: Event)
    requires Agrees(v, d) && e.PolexEvent?
    ensures Agrees(Step(v, e), DeliveredAfter(d, e)) <==> KeepsAgreement(v, d, e)
  {
    var w, d' := Step(v, e), DeliveredAfter(d, e);
    assert w.policies.Keys == v.policies.Keys;
    if e.isDelete {
      forall p | p in v.policies ensures w.policies[p].exceptions == Naming(d', p) {
        assert Naming(d', p) == Naming(d, p) - {e.name};
      }
    } else {
      forall p | p in v.policies
        ensures w.policies[p].exceptions == Naming(d', p) <==>
                (e.name in v.policies[p].exceptions ==> p in e.exception.policyRefs)
      {
        DeliveryLinks(v, d, e.name, e.exception, p);
      }
    }
  }

  ghost predicate EveryPrefixAgrees(es: seq<Event>) {
    forall i :: 0 <= i <= |es| ==> Agrees(Run(es[..i]), Delivered(es[..i]))
  }

  // ------------------------------------------- the same, from events alone

  /** Event `i` delivers an exception while some policy it names survives. */
  predicate Reaches(es: seq<Event>, i: nat)
    requires i < |es|
  {
    IsDelivery(es[i]) && exists n :: n in es[i].exception.policyRefs && n in Surviving(es[..i])
  }

  /** Event `i` is the last delivery under the key that reached a policy, and the key was
      not deleted since. */
  ghost predicate KeptFrom(es: seq<Event>, key: Name, i: nat) {
    && i < |es| && Reaches(es, i) && es[i].name == key
    && forall j :: i < j < |es| && es[j].PolexEvent? && es[j].name == key ==> !es[j].isDelete && !Reaches(es, j)
  }

  lemma KeptFromEarlier(es: seq<Event>, e: Event, key: Name, i: nat)
    requires i < |es|
    ensures KeptFrom(es + [e], key, i) <==>
      KeptFrom(es, key, i) && (e.PolexEvent? && e.name == key ==> !e.isDelete && !Reaches(es + [e], |es|))
  {
    var es' := es + [e];
    assert es'[|es|] == e;
    forall j | 0 <= j < |es| ensures es'[j] == es[j] && (Reaches(es', j) <==> Reaches(es, j)) {
      assert es'[..j] == es[..j];
    }
  }

  /** Whether the newest event stores its exception. */
  lemma ReachesNow(es: seq<Event>, e: Event)
    ensures Reaches(es + [e], |es|) <==> IsDelivery(e) && SomePresent(Run(es), e.exception.policyRefs)
  {
    assert (es + [e])[..|es|] == es;
    RunKeepsSurvivors(es);
  }

  /** Which exceptions the store holds: under each key the one of the last delivery that
      reached a policy, unless the key was deleted since. */
  lemma {:induction false} StoredExactly(es: seq<Event>, key: Name)
    ensures key in Run(es).exceptions <==> exists i: nat :: KeptFrom(es, key, i)
    ensures forall i: nat :: KeptFrom(es, key, i) ==> es[i].exception == Run(es).exceptions[key]
  {
    if es == [] {
    } else {
      var init, e := es[..|es| - 1], es[|es| - 1];
      assert es == init + [e];
      StoredExactly(init, key);
      StoredStep(init, e, key);
    }
  }

  lemma StoredStep(es: seq<Event>, e: Event, key: Name)
    requires key in Run(es).exceptions <==> exists i: nat :: KeptFrom(es, key, i)
    requires forall i: nat :: KeptFrom(es, key, i) ==> es[i].exception == Run(es).exceptions[key]
    ensures key in Run(es + [e]).exceptions <==> exists i: nat :: KeptFrom(es + [e], key, i)
    ensures forall i: nat :: KeptFrom(es + [e], key, i) ==> (es + [e])[i].exception == Run(es + [e]).exceptions[key]
  {
    var es' := es + [e];
    Extend(es, e);
    ReachesNow(es, e);
    forall i: nat | i < |es|
      ensures KeptFrom(es', key, i) <==>
        KeptFrom(es, key, i) && (e.PolexEvent? && e.name == key ==> !e.isDelete && !Reaches(es', |es|))
    {
      KeptFromEarlier(es, e, key, i);
    }
    assert KeptFrom(es', key, |es|) <==> Reaches(es', |es|) && e.name == key;
    if key in Run(es').exceptions && !KeptFrom(es', key, |es|) {
      var i: nat :| KeptFrom(es, key, i);
      assert KeptFrom(es', key, i);
    }
  }

  /** If the last delivery under the key names `n`, that text is the one kept; and a text
      kept that names `n` is the one last delivered. */
  ghost predicate FindsStored(es: seq<Event>, n: Name, key: Name) {
    var d := Delivered(es);
    && (key in d && n in d[key].policyRefs ==> exists i: nat :: KeptFrom(es, key, i) && es[i].exception == d[key])
    && (forall i: nat :: KeptFrom(es, key, i) && n in es[i].exception.policyRefs ==>
          key in d && d[key] == es[i].exception)
  }

  lemma FindsStoredExactly(es: seq<Event>, n: Name)
    ensures (forall key :: FindsStored(es, n, key)) <==> Naming(Run(es).exceptions, n) == Naming(Delivered(es), n)
  {
    var d, v := Delivered(es), Run(es).exceptions;
    forall key
      ensures FindsStored(es, n, key) <==>
        (key in Naming(v, n) <==> key in Naming(d, n)) && (key in Naming(v, n) ==> v[key] == d[key])
    {
      StoredExactly(es, key);
      if key in v {
        var i: nat :| KeptFrom(es, key, i);
        assert es[i].exception == v[key];
      }
    }
    if Naming(v, n) == Naming(d, n) {
      forall key ensures FindsStored(es, n, key) {
        assert key in Naming(v, n) ==> Naming(v, n)[key] == Naming(d, n)[key];
      }
    }
    if forall key :: FindsStored(es, n, key) {
      forall key ensures (key in Naming(v, n) <==> key in Naming(d, n)) && (key in Naming(v, n) ==> v[key] == d[key]) {
        assert FindsStored(es, n, key);
      }
    }
  }

  /** Event `i` keeps the store right, told from the events before it alone: a delivery
      names again every surviving policy that the text it replaces names, and a created
      policy finds stored what was delivered for it. */
  ghost predicate EventKeepsAgreement(es: seq<Event>, i: nat)
    requires i < |es|
  {
    var before := es[..i];
    match es[i]
    case PolicyEvent(key, _, isDelete) =>
      isDelete || Trimmed(key) in Surviving(before) || forall k :: FindsStored(before, Trimmed(key), k)
    case PolexEvent(name, exc, isDelete) =>
      isDelete || name !in Delivered(before) ||
      forall p :: p in Surviving(before) && p in Delivered(before)[name].policyRefs ==> p in exc.policyRefs
  }

  ghost predicate EveryEventKeepsAgreement(es: seq<Event>) {
    forall i :: 0 <= i < |es| ==> EventKeepsAgreement(es, i)
  }

  lemma KeepsByEvents(es: seq<Event>, i: nat)
    requires i < |es| && Agrees(Run(es[..i]), Delivered(es[..i]))
    ensures KeepsAgreement(Run(es[..i]), Delivered(es[..i]), es[i]) <==> EventKeepsAgreement(es, i)
  {
    var before := es[..i];
    var v, d := Run(before), Delivered(before);
    RunKeepsSurvivors(before);
    if es[i].PolicyEvent? {
      FindsStoredExactly(before, Trimmed(es[i].key));
    } else {
      var name := es[i].name;
      forall p | p in v.policies
        ensures name in v.policies[p].exceptions <==> name in d && p in d[name].policyRefs
      {
        assert v.policies[p].exceptions == Naming(d, p);
      }
    }
  }

  lemma PrefixAgreesExactly(es: seq<Event>, i: nat)
    requires i < |es| && Agrees(Run(es[..i]), Delivered(es[..i]))
    ensures Agrees(Run(es[..i + 1]), Delivered(es[..i + 1])) <==> EventKeepsAgreement(es, i)
  {
    assert es[..i + 1][..i] == es[..i];
    KeepsByEvents(es, i);
    if es[i].PolicyEvent? {
      PolicyStepAgreesExactly(Run(es[..i]), Delivered(es[..i]), es[i]);
    } else {
      PolexStepAgreesExactly(Run(es[..i]), Delivered(es[..i]), es[i]);
    }
  }

  lemma {:induction false} KeptAgreement(es: seq<Event>, n: nat)
    requires EveryEventKeepsAgreement(es) && n <= |es|
    ensures Agrees(Run(es[..n]), Delivered(es[..n]))
  {
    if n == 0 {
    } else {
      KeptAgreement(es, n - 1);
      PrefixAgreesExactly(es, n - 1);
    }
  }

  /** The incremental store gives the batch join at every moment of a run if and only if
      every event keeps it right; whether it does is told by the events before it. */
  lemma StoreRefinesBatch(es: seq<Event>)
    ensures EveryPrefixAgrees(es) <==> EveryEventKeepsAgreement(es)
  {
    if EveryPrefixAgrees(es) {
      forall i | 0 <= i < |es| ensures EventKeepsAgreement(es, i) {
        PrefixAgreesExactly(es, i);
      }
    }
    if EveryEventKeepsAgreement(es) {
      forall i | 0 <= i <= |es| ensures Agrees(Run(es[..i]), Delivered(es[..i])) {
        KeptAgreement(es, i);
      }
    }
  }

  // -------------------------------------- agreement that survives re-creation

  function Recreate(v: StoreView, n: Name, pol: ValidatingPolicy): StoreView {
    Step(Step(v, PolicyEvent("/" + n.text, pol, true)), PolicyEvent("/" + n.text, pol, false))
  }

  /** The store is as good as the batch join: it agrees now, and still agrees after
      any one policy is removed and created again (or created for the first time). */
  ghost predicate Faithful(v: StoreView, d: map<Name, PolicyException>) {
    && Agrees(v, d)
    && forall n: Name, pol: ValidatingPolicy :: Agrees(Recreate(v, n, pol), d)
  }

  /** An exception without references can never match a policy. */
  function Referring(d: map<Name, PolicyException>): map<Name, PolicyException> {
    map k | k in d && d[k].policyRefs != [] :: d[k]
  }

  ghost predicate InSync(v: StoreView, d: map<Name, PolicyException>) {
    Agrees(v, d) && v.exceptions == Referring(d)
  }

  /** The guard a caller can test before delivering an exception: some referenced
      policy is present and every policy still linked to the key is referenced again;
      or no referenced policy is present and the store has nothing to forget. */
  ghost predicate Accepted(v: StoreView, key: Name, exc: PolicyException) {
    if SomePresent(v, exc.policyRefs) then
      forall p :: p in v.policies && key in v.policies[p].exceptions ==> p in exc.policyRefs
    else if exc.policyRefs == [] then
      key !in v.exceptions
    else
      key in v.exceptions && v.exceptions[key] == exc
  }

  lemma RecreateLinks(v: StoreView, n: Name, pol: ValidatingPolicy)
    ensures var r := Recreate(v, n, pol);
            && r.exceptions == v.exceptions
            && r.policies == v.policies[n := PolicyView(pol, Naming(v.exceptions, n), 0)]
  {
    assert Trimmed("/" + n.text) == n;
  }

  lemma FaithfulIsInSync(v: StoreView, d: map<Name, PolicyException>)
    requires Linked(v)
    ensures Faithful(v, d) <==> InSync(v, d)
  {
    if InSync(v, d) {
      forall n: Name, pol: ValidatingPolicy
        ensures Agrees(Recreate(v, n, pol), d)
      {
        RecreateLinks(v, n, pol);
        assert Naming(v.exceptions, n) == Naming(d, n);
      }
    }
    if Faithful(v, d) {
      forall n: Name
        ensures Naming(v.exceptions, n) == Naming(d, n)
      {
        var pol := ValidatingPolicy(n, "", HTTP, None, [], [], []);
        RecreateLinks(v, n, pol);
        assert Agrees(Recreate(v, n, pol), d);
        assert n in Recreate(v, n, pol).policies;
      }
      forall k | k in v.exceptions
        ensures k in d && d[k] == v.exceptions[k]
      {
        var n := v.exceptions[k].policyRefs[0];
        assert k in Naming(v.exceptions, n);
        assert k in Naming(d, n);
      }
      forall k | k in d && d[k].policyRefs != []
        ensures k in v.exceptions
      {
        var n := d[k].policyRefs[0];
        assert k in Naming(d, n);
        assert k in Naming(v.exceptions, n);
      }
      assert v.exceptions == Referring(d);
    }
  }

  lemma AcceptedKeepsLinks(v: StoreView, d: map<Name, PolicyException>, key: Name, exc: PolicyException, p: Name)
    requires Linked(v) && InSync(v, d) && Accepted(v, key, exc) && p in v.policies
    ensures AfterPolex(v, key, exc, false).policies[p].exceptions == Naming(d[key := exc], p)
  {
    assert v.policies[p].exceptions == Naming(d, p);
    if SomePresent(v, exc.policyRefs) {
      if p in exc.policyRefs {
        assert Naming(d[key := exc], p) == Naming(d, p)[key := exc];
      } else {
        assert LinksOf(v, p) && key !in Naming(d, p);
        assert Naming(d[key := exc], p) == Naming(d, p);
      }
    } else {
      assert p !in exc.policyRefs;
      assert forall k :: k in Naming(d, p) ==> k in Referring(d) && Referring(d)[k] == d[k];
      assert Naming(d[key := exc], p) == Naming(d, p);
    }
  }

  lemma AcceptedKeepsSync(v: StoreView, d: map<Name, PolicyException>, key: Name, exc: PolicyException)
    requires Linked(v) && InSync(v, d) && Accepted(v, key, exc)
    ensures InSync(AfterPolex(v, key, exc, false), d[key := exc])
  {
    var w, d' := AfterPolex(v, key, exc, false), d[key := exc];
    forall p | p in w.policies
      ensures w.policies[p].exceptions == Naming(d', p)
    {
      AcceptedKeepsLinks(v, d, key, exc, p);
    }
    assert w.exceptions == Referring(d');
  }

  lemma InSyncWasAccepted(v: StoreView, d: map<Name, PolicyException>, key: Name, exc: PolicyException)
    requires Linked(v) && InSync(v, d) && InSync(AfterPolex(v, key, exc, false), d[key := exc])
    ensures Accepted(v, key, exc)
  {
    var w, d' := AfterPolex(v, key, exc, false), d[key := exc];
    if SomePresent(v, exc.policyRefs) {
      forall p | p in v.policies && key in v.policies[p].exceptions
        ensures p in exc.policyRefs
      {
        assert w.policies[p].exceptions == Naming(d', p);
        assert key in w.policies[p].exceptions;
      }
    } else {
      assert v.exceptions == Referring(d');
      assert key in d';
    }
  }

  /** Delivering an exception keeps the store in sync exactly when it is accepted. */
  lemma PolexStepExact(v: StoreView, d: map<Name, PolicyException>, key: Name, exc: PolicyException)
    requires Linked(v) && InSync(v, d)
    ensures InSync(AfterPolex(v, key, exc, false), d[key := exc]) <==> Accepted(v, key, exc)
  {
    if Accepted(v, key, exc) {
      AcceptedKeepsSync(v, d, key, exc);
    }
    if InSync(AfterPolex(v, key, exc, false), d[key := exc]) {
      InSyncWasAccepted(v, d, key, exc);
    }
  }

  predicate IsDelivery(e: Event) { e.PolexEvent? && !e.isDelete }

  lemma OtherStepKeepsSync(v: StoreView, d: map<Name, PolicyException>, e: Event)
    requires InSync(v, d) && !IsDelivery(e)
    ensures InSync(Step(v, e), DeliveredAfter(d, e))
  {
    if e.PolicyEvent? {
      assert Naming(v.exceptions, Trimmed(e.key)) == Naming(d, Trimmed(e.key));
      PolicyStepAgreesExactly(v, d, e);
    } else {
      PolexStepAgreesExactly(v, d, e);
      assert v.exceptions - {e.name} == Referring(d - {e.name});
    }
  }

  ghost predicate EveryPrefixFaithful(es: seq<Event>) {
    forall i :: 0 <= i <= |es| ==> Faithful(Run(es[..i]), Delivered(es[..i]))
  }

  ghost predicate EveryDeliveryAccepted(es: seq<Event>) {
    forall i :: 0 <= i < |es| && IsDelivery(es[i]) ==> Accepted(Run(es[..i]), es[i].name, es[i].exception)
  }

  lemma PrefixesFaithful(es: seq<Event>)
    requires es != []
    ensures var i := es[..|es| - 1];
            EveryPrefixFaithful(es) <==> EveryPrefixFaithful(i) && Faithful(Run(es), Delivered(es))
  {
    var i := es[..|es| - 1];
    assert forall j :: 0 <= j < |es| ==> i[..j] == es[..j];
    assert es[..|es|] == es;
    if EveryPrefixFaithful(i) && Faithful(Run(es), Delivered(es)) {
      forall j | 0 <= j <= |es| ensures Faithful(Run(es[..j]), Delivered(es[..j])) {
        if j < |es| { assert Faithful(Run(i[..j]), Delivered(i[..j])); }
      }
    }
    if EveryPrefixFaithful(es) {
      forall j | 0 <= j <= |i| ensures Faithful(Run(i[..j]), Delivered(i[..j])) {
        assert Faithful(Run(es[..j]), Delivered(es[..j]));
      }
      assert Faithful(Run(es[..|es|]), Delivered(es[..|es|]));
    }
  }

  lemma DeliveriesAccepted(es: seq<Event>)
    requires es != []
    ensures var i, e := es[..|es| - 1], es[|es| - 1];
            EveryDeliveryAccepted(es) <==>
            EveryDeliveryAccepted(i) && (IsDelivery(e) ==> Accepted(Run(i), e.name, e.exception))
  {
    var i := es[..|es| - 1];
    assert forall j :: 0 <= j < |i| ==> i[..j] == es[..j] && i[j] == es[j];
    if EveryDeliveryAccepted(es) {
      forall j | 0 <= j < |i| && IsDelivery(i[j])
        ensures Accepted(Run(i[..j]), i[j].name, i[j].exception)
      {
        assert IsDelivery(es[j]);
      }
    }
    if EveryDeliveryAccepted(i) {
      forall j | 0 <= j < |i| && IsDelivery(es[j])
        ensures Accepted(Run(es[..j]), es[j].name, es[j].exception)
      {
        assert IsDelivery(i[j]);
      }
    }
  }

  /** The store is as good as the batch join throughout a run if and only if every
      exception delivery of the run is accepted. */
  lemma {:induction false} StoreStaysFaithful(es: seq<Event>)
    ensures EveryPrefixFaithful(es) <==> EveryDeliveryAccepted(es)
  {
    if es == [] {
      assert es[..0] == [];
      FaithfulIsInSync(EMPTY_STORE, map[]);
      assert InSync(EMPTY_STORE, map[]);
    } else {
      var i, e := es[..|es| - 1], es[|es| - 1];
      StoreStaysFaithful(i);
      PrefixesFaithful(es);
      DeliveriesAccepted(es);
      if EveryPrefixFaithful(i) {
        assert i[..|i|] == i;
        assert Faithful(Run(i), Delivered(i));
        FaithfulAfter(es);
      }
    }
  }

  /** Accepted deliveries, which can be told without the history, keep plain agreement. */
  lemma AcceptedAgrees(es: seq<Event>)
    requires EveryDeliveryAccepted(es)
    ensures EveryEventKeepsAgreement(es)
  {
    StoreStaysFaithful(es);
    forall i | 0 <= i <= |es| ensures Agrees(Run(es[..i]), Delivered(es[..i])) {
      assert Faithful(Run(es[..i]), Delivered(es[..i]));
    }
    StoreRefinesBatch(es);
  }

  lemma FaithfulAfter(es: seq<Event>)
    requires es != []
    requires Faithful(Run(es[..|es| - 1]), Delivered(es[..|es| - 1]))
    ensures var i, e := es[..|es| - 1], es[|es| - 1];
            Faithful(Run(es), Delivered(es)) <==>
            (IsDelivery(e) ==> Accepted(Run(i), e.name, e.exception))
  {
    var i, e := es[..|es| - 1], es[|es| - 1];
    RunIsLinked(i);
    RunIsLinked(es);
    FaithfulIsInSync(Run(i), Delivered(i));
    FaithfulIsInSync(Run(es), Delivered(es));
    if IsDelivery(e) {
      PolexStepExact(Run(i), Delivered(i), e.name, e.exception);
    } else {
      OtherStepKeepsSync(Run(i), Delivered(i), e);
    }
  }

  lemma Extend(es: seq<Event>, e: Event)
    ensures Run(es + [e]) == Step(Run(es), e)
    ensures e.PolicyEvent? ==> Delivered(es + [e]) == Delivered(es)
    ensures e.PolexEvent? && !e.isDelete ==> Delivered(es + [e]) == Delivered(es)[e.name := e.exception]
  {
    assert (es + [e])[..|es + [e]| - 1] == es;
  }

  /** An exception delivered before any policy it names is lost. */
  lemma EarlyExceptionIsLost(e0: Event, e1: Event, a: Name)
    requires IsDelivery(e0) && e0.exception.policyRefs == [a]
    requires e1.PolicyEvent? && !e1.isDelete && Trimmed(e1.key) == a
    ensures var es := [e0] + [e1];
            a in Run(es).policies && Run(es).policies[a].exceptions == map[] &&
            Naming(Delivered(es), a) == map[e0.name := e0.exception]
  {
    var none: seq<Event> := [];
    assert none + [e0] == [e0];
    Extend(none, e0);
    Extend([e0], e1);
  }

  lemma TwoPoliciesCreated(e0: Event, e1: Event, a: Name, b: Name)
    requires e0.PolicyEvent? && !e0.isDelete && Trimmed(e0.key) == a
    requires e1.PolicyEvent? && !e1.isDelete && Trimmed(e1.key) == b
    requires a != b
    ensures var v := Run([e0] + [e1]);
      v.policies.Keys == {a, b} && v.policies[a].exceptions == map[] && v.exceptions == map[]
    ensures Delivered([e0] + [e1]) == map[]
  {
    var none: seq<Event> := [];
    assert none + [e0] == [e0];
    Extend(none, e0);
    Extend([e0], e1);
  }

  lemma TwoPoliciesOneException(e0: Event, e1: Event, e2: Event, a: Name, b: Name)
    requires e0.PolicyEvent? && !e0.isDelete && Trimmed(e0.key) == a
    requires e1.PolicyEvent? && !e1.isDelete && Trimmed(e1.key) == b
    requires a != b && IsDelivery(e2) && e2.exception.policyRefs == [a]
    ensures var w := Run([e0] + [e1] + [e2]);
      a in w.policies && b in w.policies && w.policies[a].exceptions == map[e2.name := e2.exception]
    ensures Delivered([e0] + [e1] + [e2]) == map[e2.name := e2.exception]
  {
    TwoPoliciesCreated(e0, e1, a, b);
    Extend([e0] + [e1], e2);
    assert a in e2.exception.policyRefs && SomePresent(Run([e0] + [e1]), e2.exception.policyRefs);
  }

  /** An exception update that drops a policy leaves that policy linked to the old text. */
  lemma DroppedReferenceStaysLinked(e0: Event, e1: Event, e2: Event, e3: Event, a: Name, b: Name)
    requires e0.PolicyEvent? && !e0.isDelete && Trimmed(e0.key) == a
    requires e1.PolicyEvent? && !e1.isDelete && Trimmed(e1.key) == b
    requires a != b && IsDelivery(e2) && e2.exception.policyRefs == [a]
    requires IsDelivery(e3) && e3.name == e2.name && e3.exception.policyRefs == [b]
    ensures var es := [e0] + [e1] + [e2] + [e3];
            a in Run(es).policies &&
            Run(es).policies[a].exceptions == map[e2.name := e2.exception] &&
            Naming(Delivered(es), a) == map[]
  {
    TwoPoliciesOneException(e0, e1, e2, a, b);
    Extend([e0] + [e1] + [e2], e3);
    var w := Run([e0] + [e1] + [e2]);
    assert b in e3.exception.policyRefs && SomePresent(w, e3.exception.policyRefs);
    assert Delivered([e0] + [e1] + [e2] + [e3]) == map[e3.name := e3.exception];
  }
}
