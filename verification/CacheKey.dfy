/** The compile cache: what its key tells apart, what the exception counter versions,
    and when loading through the cache is the same as compiling everything again. */
module CacheKey {
  import opened Api
  import opened Decimal
  import opened StoreModel
  import Ordering

  function Key(name: string, resourceVersion: string, counter: nat): string {
    name + resourceVersion + Itoa(counter)
  }

  /** With names of one length and resource versions of one length, the key
      determines the triple. */
  lemma KeyDeterminesTriple(n1: string, r1: string, c1: nat, n2: string, r2: string, c2: nat)
    requires |n1| == |n2| && |r1| == |r2|
    ensures Key(n1, r1, c1) == Key(n2, r2, c2) <==> n1 == n2 && r1 == r2 && c1 == c2
  {
    var k1, k2 := Key(n1, r1, c1), Key(n2, r2, c2);
    assert k1[..|n1|] == n1 && k1[|n1|..|n1| + |r1|] == r1 && k1[|n1| + |r1|..] == Itoa(c1);
    assert k2[..|n2|] == n2 && k2[|n2|..|n2| + |r2|] == r2 && k2[|n2| + |r2|..] == Itoa(c2);
    ItoaInjective(c1, c2);
  }

  /** The lengths matter: two policies, or two lives of one policy, can share a key. */
  lemma KeyCollides()
    ensures Key("a", "11", 0) == Key("a1", "1", 0)
    ensures Key("a", "1", 12) == Key("a", "11", 2)
  {
    assert Digits(12) == Digits(1) + [DigitChar(2)];
    assert Itoa(12) == "12" && Itoa(2) == "2";
    assert Key("a", "1", 12) == "a112" == Key("a", "11", 2);
    assert Itoa(0) == "0";
    assert Key("a", "11", 0) == "a110" == Key("a1", "1", 0);
  }

  /** The longer text continues the shorter one with digits that do not start with a
      zero, and the first counter is these digits shifted past the second counter. */
  predicate Continues(a: string, c1: nat, b: string, c2: nat) {
    && |a| <= |b| && b[..|a|] == a
    && var ds := b[|a|..];
       && AllDigits(ds) && (ds != "" ==> ds[0] != '0')
       && c1 == Shifted(Value(ds), |Digits(c2)|) + c2
  }

  lemma PrintedContinues(ds: string, c1: nat, c2: nat)
    ensures Digits(c1) == ds + Digits(c2) <==>
            AllDigits(ds) && (ds != "" ==> ds[0] != '0') && c1 == Shifted(Value(ds), |Digits(c2)|) + c2
  {
    var s := ds + Digits(c2);
    PrintedExactly(c1, s);
    PrintedExactly(c2, Digits(c2));
    assert AllDigits(s) ==> AllDigits(ds) by {
      assert forall i :: 0 <= i < |ds| ==> ds[i] == s[i];
    }
    if AllDigits(ds) {
      ValueOfConcat(ds, Digits(c2));
    }
    assert ds == "" ==> s == Digits(c2);
    assert ds != "" ==> |s| > 1 && s[0] == ds[0];
  }

  lemma EqualTextsContinue(a: string, x: string, b: string, y: string)
    requires |a| <= |b|
    ensures a + x == b + y <==> b[..|a|] == a && x == b[|a|..] + y
  {
    if a + x == b + y {
      assert b[..|a|] == (b + y)[..|a|] == (a + x)[..|a|] == a;
      assert x == (a + x)[|a|..] == (b + y)[|a|..] == b[|a|..] + y;
    }
    if b[..|a|] == a && x == b[|a|..] + y {
      assert b == a + b[|a|..];
    }
  }

  /** Exactly when two keys are equal, in names, versions and counters. */
  lemma KeysEqualExactly(n1: string, r1: string, c1: nat, n2: string, r2: string, c2: nat)
    requires |n1 + r1| <= |n2 + r2|
    ensures Key(n1, r1, c1) == Key(n2, r2, c2) <==> Continues(n1 + r1, c1, n2 + r2, c2)
  {
    EqualTextsContinue(n1 + r1, Digits(c1), n2 + r2, Digits(c2));
    PrintedContinues((n2 + r2)[|n1 + r1|..], c1, c2);
  }

  // ----------------------------------------------- the counter as a version

  predicate Deletes(e: Event, p: Name) {
    e.PolicyEvent? && e.isDelete && Trimmed(e.key) == p
  }

  predicate Writes(e: Event, p: Name) {
    e.PolicyEvent? && !e.isDelete && Trimmed(e.key) == p
  }

  /** While a policy is not deleted, its counter never falls, and two moments with
      equal counters have identical exception maps. */
  lemma {:induction false} CounterVersionsExceptions(es: seq<Event>, i: nat, j: nat, p: Name)
    requires i <= j <= |es|
    requires p in Run(es[..i]).policies
    requires forall t :: i <= t < j ==> !Deletes(es[t], p)
    ensures p in Run(es[..j]).policies
    ensures var a, b := Run(es[..i]).policies[p], Run(es[..j]).policies[p];
            a.counter <= b.counter && (a.counter == b.counter ==> a.exceptions == b.exceptions)
    decreases j
  {
    if i == j {
    } else {
      CounterVersionsExceptions(es, i, j - 1, p);
      CounterStep(es, j - 1, p);
    }
  }

  lemma CounterStep(es: seq<Event>, j: nat, p: Name)
    requires j < |es| && p in Run(es[..j]).policies && !Deletes(es[j], p)
    ensures p in Run(es[..j + 1]).policies
    ensures var a, b := Run(es[..j]).policies[p], Run(es[..j + 1]).policies[p];
            || a.counter < b.counter
            || (a.counter == b.counter && a.exceptions == b.exceptions)
  {
    assert es[..j + 1][..j] == es[..j];
  }

  /** By how much an event moves the counter of a present policy: once for each time a
      delivery names it, and once for each deletion of an exception, linked or not. */
  function Moves(e: Event, p: Name): nat {
    match e
    case PolicyEvent(_, _, _) => 0
    case PolexEvent(_, exc, isDelete) => if isDelete then 1 else multiset(exc.policyRefs)[p]
  }

  function AllMoves(es: seq<Event>, p: Name): nat {
    if es == [] then 0 else AllMoves(es[..|es| - 1], p) + Moves(es[|es| - 1], p)
  }

  /** The counter of a policy counts the moves since its creation, where it is zero. */
  lemma CounterCounts(es: seq<Event>, create: Event, more: seq<Event>, p: Name)
    requires p !in Run(es).policies && Writes(create, p) && forall t :: 0 <= t < |more| ==> !Deletes(more[t], p)
    ensures var v := Run(es + [create] + more);
            p in v.policies && v.policies[p].counter == AllMoves(more, p)
  {
    Extend(es, create);
    CounterMovesOn(es + [create], more, p);
  }

  lemma {:induction false} CounterMovesOn(es: seq<Event>, more: seq<Event>, p: Name)
    requires p in Run(es).policies && forall t :: 0 <= t < |more| ==> !Deletes(more[t], p)
    ensures p in Run(es + more).policies
    ensures Run(es + more).policies[p].counter == Run(es).policies[p].counter + AllMoves(more, p)
  {
    if more == [] {
      assert es + more == es;
    } else {
      var init, e := more[..|more| - 1], more[|more| - 1];
      CounterMovesOn(es, init, p);
      assert es + more == es + init + [e];
      Extend(es + init, e);
      CounterMoves(Run(es + init), e, p);
    }
  }

  lemma CounterMoves(v: StoreView, e: Event, p: Name)
    requires p in v.policies && !Deletes(e, p)
    ensures p in Step(v, e).policies && Step(v, e).policies[p].counter == v.policies[p].counter + Moves(e, p)
  {
    if e.PolexEvent? && !e.isDelete && p in e.exception.policyRefs {
      assert SomePresent(v, e.exception.policyRefs);
    }
  }

  // ------------------------------------------------------- memoised lookups

  /** What computing a value gives: only values that are `ok` come out. */
  ghost function Wanted<V>(v: V, ok: V -> bool): Option<V> {
    if ok(v) then Some(v) else None
  }

  /** The table after the first `n` lookups: the first value under a key that came out
      stays. */
  ghost function Table<K, V>(ls: seq<(K, V)>, ok: V -> bool, n: nat): map<K, V>
    requires n <= |ls|
  {
    if n == 0 then map[] else
    var t := Table(ls, ok, n - 1);
    var (k, v) := ls[n - 1];
    if k in t || !ok(v) then t else t[k := v]
  }

  /** What lookup number `i` answers. */
  ghost function Answer<K, V>(ls: seq<(K, V)>, ok: V -> bool, i: nat): Option<V>
    requires i < |ls|
  {
    var t := Table(ls, ok, i);
    if ls[i].0 in t then Some(t[ls[i].0]) else Wanted(ls[i].1, ok)
  }

  /** Lookup `j` is the first one under its key whose value comes out. */
  ghost predicate FirstOk<K, V>(ls: seq<(K, V)>, ok: V -> bool, j: nat) {
    j < |ls| && ok(ls[j].1) && forall h :: 0 <= h < j && ls[h].0 == ls[j].0 ==> !ok(ls[h].1)
  }

  lemma {:induction false} TableHolds<K, V>(ls: seq<(K, V)>, ok: V -> bool, n: nat, k: K) returns (j: nat)
    requires n <= |ls| && k in Table(ls, ok, n)
    ensures j < n && FirstOk(ls, ok, j) && ls[j] == (k, Table(ls, ok, n)[k])
    decreases n
  {
    if k in Table(ls, ok, n - 1) {
      j := TableHolds(ls, ok, n - 1, k);
    } else {
      j := n - 1;
      TableLacks(ls, ok, j, k);
    }
  }

  lemma {:induction false} TableLacks<K, V>(ls: seq<(K, V)>, ok: V -> bool, n: nat, k: K)
    requires n <= |ls| && k !in Table(ls, ok, n)
    ensures forall h :: 0 <= h < n && ls[h].0 == k ==> !ok(ls[h].1)
    decreases n
  {
    if n == 0 {
    } else {
      TableLacks(ls, ok, n - 1, k);
    }
  }

  /** A value that came out is the value of every later lookup under its key. */
  ghost predicate Functional<K, V>(ls: seq<(K, V)>, ok: V -> bool) {
    forall i, j :: 0 <= i < j < |ls| && ls[i].0 == ls[j].0 && ok(ls[i].1) ==> ls[i].1 == ls[j].1
  }

  /** Memoising by key answers every lookup as computing its value would if and only if
      equal keys, once a value came out, come with equal values. */
  lemma MemoTransparent<K, V>(ls: seq<(K, V)>, ok: V -> bool)
    ensures (forall i :: 0 <= i < |ls| ==> Answer(ls, ok, i) == Wanted(ls[i].1, ok)) <==> Functional(ls, ok)
  {
    forall i | 0 <= i < |ls|
      ensures Functional(ls, ok) ==> Answer(ls, ok, i) == Wanted(ls[i].1, ok)
    {
      if ls[i].0 in Table(ls, ok, i) {
        var j := TableHolds(ls, ok, i, ls[i].0);
      }
    }
    if forall i :: 0 <= i < |ls| ==> Answer(ls, ok, i) == Wanted(ls[i].1, ok) {
      forall i, j | 0 <= i < j < |ls| && ls[i].0 == ls[j].0 && ok(ls[i].1)
        ensures ls[i].1 == ls[j].1
      {
        AnswersAgree(ls, ok, i, j);
      }
    }
  }

  /** Once a value came out, every lookup under its key answers the first that did. */
  lemma AnswersFirst<K, V>(ls: seq<(K, V)>, ok: V -> bool, i: nat, j: nat)
    requires i <= j < |ls| && ls[i].0 == ls[j].0 && ok(ls[i].1)
    ensures exists g: nat :: FirstOk(ls, ok, g) && ls[g].0 == ls[j].0 && Answer(ls, ok, j) == Some(ls[g].1)
  {
    if ls[j].0 in Table(ls, ok, j) {
      var g := TableHolds(ls, ok, j, ls[j].0);
    } else {
      TableLacks(ls, ok, j, ls[j].0);
      assert i == j && FirstOk(ls, ok, j);
    }
  }

  lemma FirstOkUnique<K, V>(ls: seq<(K, V)>, ok: V -> bool, i: nat, j: nat)
    requires FirstOk(ls, ok, i) && FirstOk(ls, ok, j) && ls[i].0 == ls[j].0
    ensures i == j
  {
  }

  /** After a value came out, every lookup under its key answers the same. */
  lemma AnswersAgree<K, V>(ls: seq<(K, V)>, ok: V -> bool, i: nat, j: nat)
    requires i < j < |ls| && ls[i].0 == ls[j].0 && ok(ls[i].1)
    ensures Answer(ls, ok, i) == Answer(ls, ok, j)
  {
    AnswersFirst(ls, ok, i, i);
    AnswersFirst(ls, ok, i, j);
    var g: nat :| FirstOk(ls, ok, g) && ls[g].0 == ls[i].0 && Answer(ls, ok, i) == Some(ls[g].1);
    var h: nat :| FirstOk(ls, ok, h) && ls[h].0 == ls[j].0 && Answer(ls, ok, j) == Some(ls[h].1);
    FirstOkUnique(ls, ok, g, h);
  }

  // ------------------------------------------------------ runs with loads

  datatype Op = Deliver(event: Event) | Load

  /** What compiling one policy starts from. */
  datatype CompileInput = CompileInput(policy: ValidatingPolicy, exceptions: map<Name, PolicyException>)

  function OfMode(excs: map<Name, PolicyException>, mode: Mode): map<Name, PolicyException> {
    map k | k in excs && excs[k].mode == mode :: excs[k]
  }

  function InputOf(pv: PolicyView): CompileInput {
    CompileInput(pv.policy, OfMode(pv.exceptions, pv.policy.mode))
  }

  function KeyOf(pv: PolicyView): string {
    Key(pv.policy.name.text, pv.policy.resourceVersion, pv.counter)
  }

  function Events(ops: seq<Op>): seq<Event> {
    if ops == [] then [] else
    Events(ops[..|ops| - 1]) + (match ops[|ops| - 1] case Deliver(e) => [e] case Load => [])
  }

  /** The policy states one load looks up, in increasing order of their names. */
  ghost function LookupsOf(v: StoreView): seq<PolicyView> {
    Ordering.SortedLists(v.policies.Keys);
    StatesOf(v, Ordering.Sorted(v.policies.Keys))
  }

  ghost function StatesOf(v: StoreView, names: seq<Name>): (pvs: seq<PolicyView>)
    requires forall n :: n in names ==> n in v.policies
    ensures |pvs| == |names|
  {
    if names == [] then [] else
    assert names[0] in names;
    [v.policies[names[0]]] + StatesOf(v, names[1..])
  }

  lemma {:induction false} StateAt(v: StoreView, names: seq<Name>, i: nat)
    requires i < |names| && forall n :: n in names ==> n in v.policies
    ensures names[i] in v.policies && StatesOf(v, names)[i] == v.policies[names[i]]
  {
    assert names[i] in names;
    if i == 0 {
    } else {
      StateAt(v, names[1..], i - 1);
    }
  }

  lemma LookupAt(v: StoreView, i: nat)
    requires i < |LookupsOf(v)|
    ensures var names := Ordering.Sorted(v.policies.Keys);
      |names| == |LookupsOf(v)| && names[i] in v.policies && LookupsOf(v)[i] == v.policies[names[i]]
  {
    Ordering.SortedLists(v.policies.Keys);
    StateAt(v, Ordering.Sorted(v.policies.Keys), i);
  }

  /** Every policy state that some load of the run looks up, in order. */
  ghost function Lookups(ops: seq<Op>): seq<PolicyView> {
    if ops == [] then [] else
    var before := ops[..|ops| - 1];
    Lookups(before) + if ops[|ops| - 1].Load? then LookupsOf(Run(Events(before))) else []
  }

  ghost function Keyed(pvs: seq<PolicyView>): seq<(string, CompileInput)> {
    seq(|pvs|, i requires 0 <= i < |pvs| => (KeyOf(pvs[i]), InputOf(pvs[i])))
  }

  type Inputs = CompileInput -> bool

  /** Every load of the run hands out what compiling everything again would, where the
      inputs that are `ok` are those that compile. */
  ghost predicate EveryLoadFresh(ops: seq<Op>, ok: Inputs) {
    var pvs := Lookups(ops);
    forall i :: 0 <= i < |pvs| ==> Answer(Keyed(pvs), ok, i) == Wanted(InputOf(pvs[i]), ok)
  }

  /** After a lookup that compiled, lookups under its key have the same input. */
  ghost predicate NoStaleKey(ops: seq<Op>, ok: Inputs) {
    var pvs := Lookups(ops);
    forall i, j :: 0 <= i < j < |pvs| && KeyOf(pvs[i]) == KeyOf(pvs[j]) && ok(InputOf(pvs[i])) ==>
      InputOf(pvs[i]) == InputOf(pvs[j])
  }

  lemma FreshByInputs(ops: seq<Op>, ok: Inputs)
    ensures EveryLoadFresh(ops, ok) <==> NoStaleKey(ops, ok)
  {
    var pvs := Lookups(ops);
    var ls := Keyed(pvs);
    MemoTransparent(ls, ok);
    if NoStaleKey(ops, ok) {
      forall i, j | 0 <= i < j < |ls| && ls[i].0 == ls[j].0 && ok(ls[i].1) ensures ls[i].1 == ls[j].1 {
        assert KeyOf(pvs[i]) == KeyOf(pvs[j]);
      }
    }
    if Functional(ls, ok) {
      forall i, j | 0 <= i < j < |pvs| && KeyOf(pvs[i]) == KeyOf(pvs[j]) && ok(InputOf(pvs[i]))
        ensures InputOf(pvs[i]) == InputOf(pvs[j])
      {
        assert ls[i].0 == ls[j].0;
      }
    }
  }

  /** The key of every policy event is the policy's name. */
  ghost predicate NamesMatch(es: seq<Event>) {
    forall i :: 0 <= i < |es| && es[i].PolicyEvent? && !es[i].isDelete ==> es[i].policy.name == Trimmed(es[i].key)
  }

  /** Resource versions do their job: two writes of one policy with the same version
      have the same content, and no deletion lies between them. */
  ghost predicate Honest(es: seq<Event>) {
    forall i, j :: 0 <= i < j < |es| && es[i].PolicyEvent? && Writes(es[i], Trimmed(es[i].key)) &&
                   Writes(es[j], Trimmed(es[i].key)) &&
                   es[i].policy.resourceVersion == es[j].policy.resourceVersion ==>
      es[i].policy == es[j].policy && forall t :: i < t < j ==> !Deletes(es[t], Trimmed(es[i].key))
  }

  /** Once a state compiled, the cache key tells it from other looked-up states. */
  ghost predicate KeysSeparate(pvs: seq<PolicyView>, ok: Inputs) {
    forall i, j :: 0 <= i < j < |pvs| && KeyOf(pvs[i]) == KeyOf(pvs[j]) && ok(InputOf(pvs[i])) ==>
      && pvs[i].policy.name == pvs[j].policy.name
      && pvs[i].policy.resourceVersion == pvs[j].policy.resourceVersion
      && pvs[i].counter == pvs[j].counter
  }

  /** `at` events into the run, `p` was present with state `pv`. */
  ghost predicate SeenAt(es: seq<Event>, at: nat, p: Name, pv: PolicyView) {
    at <= |es| && p in Run(es[..at]).policies && Run(es[..at]).policies[p] == pv
  }

  /** The write that gave a present policy its content, with nothing after it. */
  lemma {:induction false} LastWrite(es: seq<Event>, at: nat, p: Name) returns (w: nat)
    requires at <= |es| && p in Run(es[..at]).policies
    ensures w < at && Writes(es[w], p) && es[w].policy == Run(es[..at]).policies[p].policy
    ensures forall t :: w < t < at ==> !Writes(es[t], p) && !Deletes(es[t], p)
    decreases at
  {
    assert at > 0;
    assert es[..at][..at - 1] == es[..at - 1];
    var e := es[at - 1];
    if Writes(e, p) {
      w := at - 1;
    } else {
      w := LastWrite(es, at - 1, p);
    }
  }

  lemma SameVersionSameStretch(es: seq<Event>, i: nat, j: nat, p: Name, a: PolicyView, b: PolicyView)
    requires Honest(es) && i <= j && SeenAt(es, i, p, a) && SeenAt(es, j, p, b)
    requires a.policy.resourceVersion == b.policy.resourceVersion
    ensures a.policy == b.policy && forall t :: i <= t < j ==> !Deletes(es[t], p)
  {
    var w := LastWrite(es, i, p);
    var x := LastWrite(es, j, p);
    assert w <= x;
    assert Trimmed(es[w].key) == p;
  }

  lemma SameVersionSameInput(es: seq<Event>, i: nat, j: nat, p: Name, a: PolicyView, b: PolicyView)
    requires Honest(es) && i <= j && SeenAt(es, i, p, a) && SeenAt(es, j, p, b)
    requires a.policy.resourceVersion == b.policy.resourceVersion && a.counter == b.counter
    ensures InputOf(a) == InputOf(b)
  {
    SameVersionSameStretch(es, i, j, p, a, b);
    CounterVersionsExceptions(es, i, j, p);
  }

  /** Each looked-up state was seen at some moment; later lookups at later moments. */
  lemma {:induction false} LookupMoments(ops: seq<Op>) returns (at: seq<nat>)
    requires NamesMatch(Events(ops))
    ensures |at| == |Lookups(ops)|
    ensures forall i :: 0 <= i < |at| ==> SeenAt(Events(ops), at[i], Lookups(ops)[i].policy.name, Lookups(ops)[i])
    ensures forall i, j :: 0 <= i < j < |at| ==> at[i] <= at[j]
  {
    if ops == [] {
      at := [];
    } else {
      var before := ops[..|ops| - 1];
      var es, es0 := Events(ops), Events(before);
      assert es0 == es[..|es0|];
      at := LookupMoments(before);
      forall i | 0 <= i < |at|
        ensures SeenAt(es, at[i], Lookups(before)[i].policy.name, Lookups(before)[i])
      {
        assert es0[..at[i]] == es[..at[i]];
      }
      if ops[|ops| - 1].Load? {
        var v := Run(es0);
        var added := LookupsOf(v);
        assert es[..|es0|] == es0;
        forall i | 0 <= i < |added|
          ensures SeenAt(es, |es0|, added[i].policy.name, added[i])
        {
          LookupAt(v, i);
          var w := LastWrite(es, |es0|, Ordering.Sorted(v.policies.Keys)[i]);
        }
        at := at + seq(|added|, _ => |es0|);
      }
    }
  }

  /** With honest resource versions, loading through the cache equals compiling everything
      again, at every load of a run, exactly when the key tells the looked-up states that
      compile apart: equal keys come with equal names, versions and counters. */
  lemma CachedLoadsFreshExactly(ops: seq<Op>, ok: Inputs)
    requires NamesMatch(Events(ops)) && Honest(Events(ops))
    ensures EveryLoadFresh(ops, ok) <==> KeysSeparate(Lookups(ops), ok)
  {
    var pvs := Lookups(ops);
    FreshByInputs(ops, ok);
    if KeysSeparate(pvs, ok) {
      var at := LookupMoments(ops);
      forall i, j | 0 <= i < j < |pvs| && KeyOf(pvs[i]) == KeyOf(pvs[j]) && ok(InputOf(pvs[i]))
        ensures InputOf(pvs[i]) == InputOf(pvs[j])
      {
        SameVersionSameInput(Events(ops), at[i], at[j], pvs[i].policy.name, pvs[i], pvs[j]);
      }
    }
    if EveryLoadFresh(ops, ok) {
      forall i, j | 0 <= i < j < |pvs| && KeyOf(pvs[i]) == KeyOf(pvs[j]) && ok(InputOf(pvs[i]))
        ensures pvs[i].policy == pvs[j].policy && pvs[i].counter == pvs[j].counter
      {
        var a, b := pvs[i], pvs[j];
        assert InputOf(a) == InputOf(b);
        KeyDeterminesTriple(a.policy.name.text, a.policy.resourceVersion, a.counter,
                            b.policy.name.text, b.policy.resourceVersion, b.counter);
      }
    }
  }

  /** All policy names have one length, and all resource versions have one length. */
  ghost predicate UniformLengths(es: seq<Event>, nameLength: nat, versionLength: nat) {
    forall i :: 0 <= i < |es| && es[i].PolicyEvent? && !es[i].isDelete ==>
      |es[i].policy.name.text| == nameLength && |es[i].policy.resourceVersion| == versionLength
  }

  lemma UniformLengthsSeparate(ops: seq<Op>, ok: Inputs, nameLength: nat, versionLength: nat)
    requires NamesMatch(Events(ops)) && UniformLengths(Events(ops), nameLength, versionLength)
    ensures KeysSeparate(Lookups(ops), ok)
  {
    var at := LookupMoments(ops);
    var es, pvs := Events(ops), Lookups(ops);
    forall i | 0 <= i < |pvs|
      ensures |pvs[i].policy.name.text| == nameLength && |pvs[i].policy.resourceVersion| == versionLength
    {
      var w := LastWrite(es, at[i], pvs[i].policy.name);
    }
    forall i, j | 0 <= i < j < |pvs| && KeyOf(pvs[i]) == KeyOf(pvs[j])
      ensures && pvs[i].policy.name == pvs[j].policy.name
              && pvs[i].policy.resourceVersion == pvs[j].policy.resourceVersion
              && pvs[i].counter == pvs[j].counter
    {
      var a, b := pvs[i], pvs[j];
      KeyDeterminesTriple(a.policy.name.text, a.policy.resourceVersion, a.counter,
                          b.policy.name.text, b.policy.resourceVersion, b.counter);
    }
  }

  function Bare(name: string, version: string): ValidatingPolicy {
    ValidatingPolicy(Name(name), version, HTTP, None, [], [], [])
  }

  lemma TwoPolicies(e0: Event, e1: Event)
    requires e0 == PolicyEvent("a", Bare("a", "11"), false)
    requires e1 == PolicyEvent("a1", Bare("a1", "1"), false)
    ensures Run([e0] + [e1]).policies.Keys == {Name("a"), Name("a1")}
    ensures Run([e0] + [e1]).policies[Name("a")] == PolicyView(Bare("a", "11"), map[], 0)
    ensures Run([e0] + [e1]).policies[Name("a1")] == PolicyView(Bare("a1", "1"), map[], 0)
    ensures Ordering.Sorted({Name("a"), Name("a1")}) == [Name("a"), Name("a1")]
  {
    assert [] + [e0] == [e0];
    Extend([], e0);
    Extend([e0], e1);
    assert Ordering.Less(Name("a"), Name("a1"));
    Ordering.SortedLists({Name("a"), Name("a1")});
    Ordering.ListsUnique([Name("a"), Name("a1")], Ordering.Sorted({Name("a"), Name("a1")}), {Name("a"), Name("a1")});
  }

  lemma ExtendOps(ops: seq<Op>, op: Op)
    ensures Events(ops + [op]) == Events(ops) + (if op.Deliver? then [op.event] else [])
    ensures Lookups(ops + [op]) == Lookups(ops) + (if op.Load? then LookupsOf(Run(Events(ops))) else [])
  {
    assert (ops + [op])[..|ops + [op]| - 1] == ops;
  }

  lemma DeliverTwoThenLoad(e0: Event, e1: Event)
    ensures Events([Deliver(e0)] + [Deliver(e1)] + [Load]) == [e0] + [e1]
    ensures Lookups([Deliver(e0)] + [Deliver(e1)] + [Load]) == LookupsOf(Run([e0] + [e1]))
  {
    var none: seq<Op> := [];
    assert none + [Deliver(e0)] == [Deliver(e0)];
    ExtendOps(none, Deliver(e0));
    ExtendOps([Deliver(e0)], Deliver(e1));
    ExtendOps([Deliver(e0)] + [Deliver(e1)], Load);
  }

  lemma OneStaleLookup(ops: seq<Op>, ok: Inputs, i: nat, j: nat)
    requires i < j < |Lookups(ops)|
    requires KeyOf(Lookups(ops)[i]) == KeyOf(Lookups(ops)[j])
    requires InputOf(Lookups(ops)[i]) != InputOf(Lookups(ops)[j]) && ok(InputOf(Lookups(ops)[i]))
    ensures !EveryLoadFresh(ops, ok)
  {
    FreshByInputs(ops, ok);
  }

  lemma CollidingLookups(e0: Event, e1: Event, pvs: seq<PolicyView>)
    requires e0 == PolicyEvent("a", Bare("a", "11"), false)
    requires e1 == PolicyEvent("a1", Bare("a1", "1"), false)
    requires pvs == LookupsOf(Run([e0] + [e1]))
    ensures |pvs| == 2 && KeyOf(pvs[0]) == KeyOf(pvs[1]) && InputOf(pvs[0]) != InputOf(pvs[1])
    ensures InputOf(pvs[0]) == CompileInput(Bare("a", "11"), map[])
  {
    TwoPolicies(e0, e1);
    KeyCollides();
    Ordering.SortedLists(Run([e0] + [e1]).policies.Keys);
    LookupAt(Run([e0] + [e1]), 0);
    LookupAt(Run([e0] + [e1]), 1);
  }

  /** Honest resource versions alone are not enough: with two present policies whose
      keys collide, one load already hands out one policy compiled as the other. */
  lemma StaleCompile(e0: Event, e1: Event, ok: Inputs)
    requires e0 == PolicyEvent("a", Bare("a", "11"), false)
    requires e1 == PolicyEvent("a1", Bare("a1", "1"), false)
    requires ok(CompileInput(Bare("a", "11"), map[]))
    ensures var ops := [Deliver(e0)] + [Deliver(e1)] + [Load];
            Events(ops) == [e0] + [e1] && NamesMatch([e0] + [e1]) && !EveryLoadFresh(ops, ok)
    ensures Honest([e0] + [e1])
  {
    var ops := [Deliver(e0)] + [Deliver(e1)] + [Load];
    DeliverTwoThenLoad(e0, e1);
    CollidingLookups(e0, e1, Lookups(ops));
    OneStaleLookup(ops, ok, 0, 1);
  }
}
