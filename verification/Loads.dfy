/** Loads that watch events may interrupt. A load lists the policies, and then for each
    of them computes the key and, on a miss, compiles; each of these is one step under
    the store's lock, and events are handled between them. */
module Loads {
  import opened Api
  import Ordering
  import opened StoreModel
  import opened CacheKey

  /** A pointer the load holds to a listed policy, and what it reads there: the content
      changes with updates in place; once the policy is deleted, it stays as it was. */
  datatype Listed = Listed(name: Name, policy: ValidatingPolicy, live: bool)

  /** A computed key: through which pointer, from which counter, after how many events. */
  datatype Lookup = Lookup(listed: Listed, counter: nat, at: nat)

  /** What was compiled after a lookup missed, and after how many events. */
  datatype Entry = Entry(lookup: Lookup, listed: Listed, at: nat, input: CompileInput)

  /** The entry that a load answered for a lookup, with the pointer at that moment. */
  datatype Answer = Answer(lookup: Lookup, listed: Listed, at: nat, entry: Entry)

  /** In `Compiling` the first of `todo` is the policy whose lookup missed. */
  datatype Phase = Idle | Keying(todo: seq<Listed>) | Compiling(lookup: Lookup, todo: seq<Listed>)

  datatype State = State(
    events: seq<Event>,
    entries: map<string, Entry>,
    phase: Phase,
    locked: bool,
    answers: seq<Answer>)

  /** `Compile` may succeed or not; a load may end at any moment with `GiveUp`, so that it
      covers loads that end at the first failure and loads that go on. */
  datatype Label = Handle(event: Event) | List | Key | Compile(succeeds: bool) | GiveUp

  const START := State([], map[], Idle, false, [])

  function KeyText(k: Lookup): string {
    CacheKey.Key(k.listed.policy.name.text, k.listed.policy.resourceVersion, k.counter)
  }

  /** What an event does to a pointer. */
  function Refresh(l: Listed, e: Event): Listed {
    if !l.live then l
    else if Deletes(e, l.name) then l.(live := false)
    else if Writes(e, l.name) then l.(policy := e.policy)
    else l
  }

  function RefreshAll(ls: seq<Listed>, e: Event): (rs: seq<Listed>)
    ensures |rs| == |ls|
  {
    seq(|ls|, i requires 0 <= i < |ls| => Refresh(ls[i], e))
  }

  function Refreshed(p: Phase, e: Event): Phase {
    match p
    case Idle => Idle
    case Keying(todo) => Keying(RefreshAll(todo, e))
    case Compiling(k, todo) => Compiling(k, RefreshAll(todo, e))
  }

  ghost function ListedOf(v: StoreView): seq<Listed> {
    var names := Ordering.Sorted(v.policies.Keys);
    Ordering.SortedLists(v.policies.Keys);
    seq(|names|, i requires 0 <= i < |names| =>
      assert names[i] in names;
      Listed(names[i], v.policies[names[i]].policy, true))
  }

  /** Once the lock stays taken, every further step waits for it. A lookup of a policy
      that is gone fails, and so does a compilation that does not succeed, which leaves
      nothing in the cache; a compilation of a policy that is gone fails and keeps the
      lock. */
  ghost function Next(s: State, l: Label): State {
    var v := Run(s.events);
    if s.locked then s else
    match l
    case Handle(e) => s.(events := s.events + [e], phase := Refreshed(s.phase, e))
    case List => if s.phase.Idle? then s.(phase := Keying(ListedOf(v))) else s
    case Key =>
      if !s.phase.Keying? then s
      else if s.phase.todo == [] then s.(phase := Idle)
      else LookedUp(s, v, s.phase.todo)
    case Compile(succeeds) =>
      if !s.phase.Compiling? || s.phase.todo == [] then s
      else CompiledNext(s, v, s.phase.lookup, s.phase.todo, succeeds)
    case GiveUp => s.(phase := Idle)
  }

  ghost function LookedUp(s: State, v: StoreView, todo: seq<Listed>): State
    requires todo != []
  {
    var listed := todo[0];
    if listed.policy.name !in v.policies then s.(phase := Keying(todo[1..]))
    else
      var k := Lookup(listed, v.policies[listed.policy.name].counter, |s.events|);
      if KeyText(k) in s.entries then
        s.(answers := s.answers + [Answer(k, listed, |s.events|, s.entries[KeyText(k)])], phase := Keying(todo[1..]))
      else s.(phase := Compiling(k, todo))
  }

  ghost function CompiledNext(s: State, v: StoreView, k: Lookup, todo: seq<Listed>, succeeds: bool): State
    requires todo != []
  {
    var listed := todo[0];
    if listed.policy.name !in v.policies then s.(phase := Keying(todo[1..]), locked := true)
    else if !succeeds then s.(phase := Keying(todo[1..]))
    else
      var input := CompileInput(listed.policy, OfMode(v.policies[listed.policy.name].exceptions, listed.policy.mode));
      var entry := Entry(k, listed, |s.events|, input);
      s.(entries := s.entries[KeyText(k) := entry],
         answers := s.answers + [Answer(k, listed, |s.events|, entry)],
         phase := Keying(todo[1..]))
  }

  ghost function After(ls: seq<Label>): State {
    if ls == [] then START else Next(After(ls[..|ls| - 1]), ls[|ls| - 1])
  }

  // ------------------------------------------------- what the records stand for

  /** The policy `n` was written with this content, and deleted later. */
  ghost predicate WasDeleted(es: seq<Event>, at: nat, n: Name, policy: ValidatingPolicy)
    requires at <= |es|
  {
    exists w, d :: 0 <= w < d < at && Writes(es[w], n) && es[w].policy == policy && Deletes(es[d], n)
  }

  ghost predicate ListedOk(es: seq<Event>, at: nat, l: Listed) {
    && at <= |es| && l.policy.name == l.name
    && if l.live then l.name in Run(es[..at]).policies && Run(es[..at]).policies[l.name].policy == l.policy
       else WasDeleted(es, at, l.name, l.policy)
  }

  /** The state that the store held for a policy after `at` events. */
  ghost predicate Held(es: seq<Event>, at: nat, n: Name) {
    at <= |es| && n in Run(es[..at]).policies
  }

  ghost predicate LookupOk(es: seq<Event>, k: Lookup) {
    && ListedOk(es, k.at, k.listed) && Held(es, k.at, k.listed.name)
    && k.counter == Run(es[..k.at]).policies[k.listed.name].counter
  }

  /** The pointer `a` after `i` events is the pointer `b` after `j` events. */
  ghost predicate Followed(es: seq<Event>, i: nat, a: Listed, j: nat, b: Listed) {
    && i <= j <= |es| && a.name == b.name && (!a.live ==> b == a)
    && (b.live <==> a.live && forall t :: i <= t < j ==> !Deletes(es[t], a.name))
  }

  ghost predicate EntryOk(es: seq<Event>, x: Entry) {
    && LookupOk(es, x.lookup) && ListedOk(es, x.at, x.listed) && Held(es, x.at, x.listed.name)
    && Followed(es, x.lookup.at, x.lookup.listed, x.at, x.listed)
    && x.input == CompileInput(x.listed.policy,
                               OfMode(Run(es[..x.at]).policies[x.listed.name].exceptions, x.listed.policy.mode))
  }

  /** An answer is a fresh compilation, or an entry found under the key of the lookup. */
  ghost predicate AnswerOk(es: seq<Event>, a: Answer) {
    && LookupOk(es, a.lookup) && EntryOk(es, a.entry)
    && (|| (a.entry.lookup == a.lookup && a.at == a.entry.at && a.listed == a.entry.listed)
        || (a.at == a.lookup.at && a.listed == a.lookup.listed && a.entry.at <= a.at &&
            KeyText(a.entry.lookup) == KeyText(a.lookup)))
  }

  ghost predicate TodoOk(es: seq<Event>, todo: seq<Listed>) {
    forall i :: 0 <= i < |todo| ==> ListedOk(es, |es|, todo[i])
  }

  ghost predicate PhaseOk(es: seq<Event>, p: Phase) {
    match p
    case Idle => true
    case Keying(todo) => TodoOk(es, todo)
    case Compiling(k, todo) =>
      && TodoOk(es, todo) && todo != [] && LookupOk(es, k)
      && Followed(es, k.at, k.listed, |es|, todo[0])
  }

  ghost predicate EntriesOk(es: seq<Event>, entries: map<string, Entry>) {
    forall k :: k in entries ==> EntryOk(es, entries[k]) && KeyText(entries[k].lookup) == k
  }

  ghost predicate AnswersOk(es: seq<Event>, answers: seq<Answer>) {
    forall i :: 0 <= i < |answers| ==> AnswerOk(es, answers[i])
  }

  ghost predicate Inv(s: State) {
    PhaseOk(s.events, s.phase) && EntriesOk(s.events, s.entries) && AnswersOk(s.events, s.answers)
  }

  lemma RefreshFollows(es: seq<Event>, l: Listed, e: Event)
    requires ListedOk(es, |es|, l) && NamesMatch(es + [e])
    ensures ListedOk(es + [e], |es| + 1, Refresh(l, e))
  {
    var es' := es + [e];
    assert es'[..|es'|] == es' && es[..|es|] == es;
    Extend(es, e);
    if l.live && Deletes(e, l.name) {
      var w := LastWrite(es, |es|, l.name);
      assert Writes(es'[w], l.name) && Deletes(es'[|es|], l.name);
    } else if !l.live {
      var w, d :| 0 <= w < d < |es| && Writes(es[w], l.name) && es[w].policy == l.policy && Deletes(es[d], l.name);
      assert Writes(es'[w], l.name) && es'[w].policy == l.policy && Deletes(es'[d], l.name);
    }
  }

  lemma Grown(es: seq<Event>, e: Event, at: nat, l: Listed)
    requires ListedOk(es, at, l)
    ensures ListedOk(es + [e], at, l) && (es + [e])[..at] == es[..at]
  {
    var es' := es + [e];
    assert es'[..at] == es[..at];
    if !l.live {
      var w, d :| 0 <= w < d < at && Writes(es[w], l.name) && es[w].policy == l.policy && Deletes(es[d], l.name);
      assert Writes(es'[w], l.name) && es'[w].policy == l.policy && Deletes(es'[d], l.name);
    }
  }

  lemma LookupGrown(es: seq<Event>, e: Event, k: Lookup)
    requires LookupOk(es, k)
    ensures LookupOk(es + [e], k)
  {
    Grown(es, e, k.at, k.listed);
  }

  lemma FollowedGrown(es: seq<Event>, e: Event, i: nat, a: Listed, j: nat, b: Listed)
    requires Followed(es, i, a, j, b)
    ensures Followed(es + [e], i, a, j, b)
    ensures j == |es| ==> Followed(es + [e], i, a, j + 1, Refresh(b, e))
  {
    var es' := es + [e];
    assert forall t :: 0 <= t < |es| ==> es'[t] == es[t];
    assert es'[|es|] == e;
  }

  lemma EntryGrown(es: seq<Event>, e: Event, x: Entry)
    requires EntryOk(es, x)
    ensures EntryOk(es + [e], x)
  {
    LookupGrown(es, e, x.lookup);
    Grown(es, e, x.at, x.listed);
    FollowedGrown(es, e, x.lookup.at, x.lookup.listed, x.at, x.listed);
  }

  lemma AnswerGrown(es: seq<Event>, e: Event, a: Answer)
    requires AnswerOk(es, a)
    ensures AnswerOk(es + [e], a)
  {
    LookupGrown(es, e, a.lookup);
    EntryGrown(es, e, a.entry);
  }

  lemma TodoGrown(es: seq<Event>, e: Event, todo: seq<Listed>)
    requires TodoOk(es, todo) && NamesMatch(es + [e])
    ensures TodoOk(es + [e], RefreshAll(todo, e))
  {
    forall i | 0 <= i < |todo| ensures ListedOk(es + [e], |es| + 1, Refresh(todo[i], e)) {
      RefreshFollows(es, todo[i], e);
    }
  }

  lemma PhaseGrown(es: seq<Event>, e: Event, p: Phase)
    requires PhaseOk(es, p) && NamesMatch(es + [e])
    ensures PhaseOk(es + [e], Refreshed(p, e))
  {
    if !p.Idle? {
      TodoGrown(es, e, p.todo);
    }
    if p.Compiling? {
      LookupGrown(es, e, p.lookup);
      FollowedGrown(es, e, p.lookup.at, p.lookup.listed, |es|, p.todo[0]);
    }
  }

  lemma HandleKeeps(s: State, e: Event)
    requires Inv(s) && NamesMatch(s.events + [e])
    ensures Inv(s.(events := s.events + [e], phase := Refreshed(s.phase, e)))
  {
    PhaseGrown(s.events, e, s.phase);
    forall k | k in s.entries ensures EntryOk(s.events + [e], s.entries[k]) {
      EntryGrown(s.events, e, s.entries[k]);
    }
    forall i | 0 <= i < |s.answers| ensures AnswerOk(s.events + [e], s.answers[i]) {
      AnswerGrown(s.events, e, s.answers[i]);
    }
  }

  lemma ListKeeps(s: State)
    requires Inv(s) && NamesMatch(s.events)
    ensures Inv(s.(phase := Keying(ListedOf(Run(s.events)))))
  {
    var es, v := s.events, Run(s.events);
    var todo := ListedOf(v);
    assert es[..|es|] == es;
    Ordering.SortedLists(v.policies.Keys);
    forall i | 0 <= i < |todo| ensures ListedOk(es, |es|, todo[i]) {
      assert Ordering.Sorted(v.policies.Keys)[i] in Ordering.Sorted(v.policies.Keys);
      var w := LastWrite(es, |es|, todo[i].name);
    }
  }

  lemma LookupMade(es: seq<Event>, l: Listed)
    requires ListedOk(es, |es|, l) && l.name in Run(es).policies
    ensures var k := Lookup(l, Run(es).policies[l.name].counter, |es|);
            LookupOk(es, k) && Followed(es, |es|, l, |es|, l)
  {
    assert es[..|es|] == es;
  }

  lemma CompiledMade(es: seq<Event>, k: Lookup, l: Listed)
    requires LookupOk(es, k) && ListedOk(es, |es|, l) && l.name in Run(es).policies
    requires Followed(es, k.at, k.listed, |es|, l)
    ensures var input := CompileInput(l.policy, OfMode(Run(es).policies[l.name].exceptions, l.policy.mode));
            var entry := Entry(k, l, |es|, input);
            EntryOk(es, entry) && AnswerOk(es, Answer(k, l, |es|, entry))
  {
    assert es[..|es|] == es;
  }

  lemma AnswerAdded(es: seq<Event>, answers: seq<Answer>, a: Answer)
    requires AnswersOk(es, answers) && AnswerOk(es, a)
    ensures AnswersOk(es, answers + [a])
  {
  }

  lemma EntryAdded(es: seq<Event>, entries: map<string, Entry>, x: Entry)
    requires EntriesOk(es, entries) && EntryOk(es, x)
    ensures EntriesOk(es, entries[KeyText(x.lookup) := x])
  {
  }

  lemma TodoTail(es: seq<Event>, todo: seq<Listed>)
    requires TodoOk(es, todo) && todo != []
    ensures TodoOk(es, todo[1..])
  {
  }

  lemma KeyKeeps(s: State)
    requires Inv(s) && s.phase.Keying? && s.phase.todo != []
    ensures Inv(LookedUp(s, Run(s.events), s.phase.todo))
  {
    var es, l, v := s.events, s.phase.todo[0], Run(s.events);
    assert ListedOk(es, |es|, l);
    TodoTail(es, s.phase.todo);
    if l.name in v.policies {
      LookupMade(es, l);
      var k := Lookup(l, v.policies[l.name].counter, |es|);
      if KeyText(k) in s.entries {
        AnswerAdded(es, s.answers, Answer(k, l, |es|, s.entries[KeyText(k)]));
      }
    }
  }

  lemma CompileKeeps(s: State, succeeds: bool)
    requires Inv(s) && s.phase.Compiling?
    ensures Inv(CompiledNext(s, Run(s.events), s.phase.lookup, s.phase.todo, succeeds))
  {
    var es, k, l, v := s.events, s.phase.lookup, s.phase.todo[0], Run(s.events);
    assert ListedOk(es, |es|, l);
    TodoTail(es, s.phase.todo);
    if l.name in v.policies {
      CompiledMade(es, k, l);
      var x := Entry(k, l, |es|, CompileInput(l.policy, OfMode(v.policies[l.name].exceptions, l.policy.mode)));
      EntryAdded(es, s.entries, x);
      AnswerAdded(es, s.answers, Answer(k, l, |es|, x));
    }
  }

  lemma StepKeeps(s: State, l: Label)
    requires Inv(s) && NamesMatch(Next(s, l).events)
    ensures Inv(Next(s, l))
  {
    if !s.locked {
      match l
      case Handle(e) => HandleKeeps(s, e);
      case List => if s.phase.Idle? { ListKeeps(s); }
      case Key => if s.phase.Keying? && s.phase.todo != [] { KeyKeeps(s); }
      case Compile(succeeds) => if s.phase.Compiling? { CompileKeeps(s, succeeds); }
      case GiveUp =>
    }
  }

  /** In every run the records stand for what happened. */
  lemma {:induction false} RunKeeps(ls: seq<Label>)
    requires NamesMatch(After(ls).events)
    ensures Inv(After(ls))
  {
    if ls == [] {
    } else {
      var s := After(ls[..|ls| - 1]);
      assert s.events <= After(ls).events;
      assert forall i :: 0 <= i < |s.events| ==> s.events[i] == After(ls).events[i];
      RunKeeps(ls[..|ls| - 1]);
      StepKeeps(s, ls[|ls| - 1]);
    }
  }

  // ----------------------------------------------------- answers are current

  /** A resource version belongs to one content and one stretch of time: between two
      writes of a policy with one version it is neither deleted nor written otherwise. */
  ghost predicate Steady(es: seq<Event>) {
    forall n: Name, i, j :: 0 <= i < j < |es| && Writes(es[i], n) && Writes(es[j], n) &&
                            es[i].policy.resourceVersion == es[j].policy.resourceVersion ==>
      es[i].policy == es[j].policy &&
      forall t :: i < t < j ==> !Deletes(es[t], n) && (Writes(es[t], n) ==> es[t].policy == es[i].policy)
  }

  lemma NotDeletedBetween(es: seq<Event>, n: Name, i: nat, j: nat)
    requires Steady(es) && i <= j && Held(es, i, n) && Held(es, j, n)
    requires Run(es[..i]).policies[n].policy.resourceVersion == Run(es[..j]).policies[n].policy.resourceVersion
    ensures forall t :: i <= t < j ==> !Deletes(es[t], n)
  {
    var w := LastWrite(es, i, n);
    var x := LastWrite(es, j, n);
    assert w <= x;
  }

  /** Seen with one version at `i` and at `j`, a policy had one content, and was never
      deleted, all the time in between. */
  lemma SameStretch(es: seq<Event>, n: Name, i: nat, j: nat, m: nat)
    requires Steady(es) && i <= m <= j && Held(es, i, n) && Held(es, j, n)
    requires Run(es[..i]).policies[n].policy.resourceVersion == Run(es[..j]).policies[n].policy.resourceVersion
    ensures Held(es, m, n) && Run(es[..m]).policies[n].policy == Run(es[..j]).policies[n].policy
    ensures forall t :: i <= t < j ==> !Deletes(es[t], n)
  {
    NotDeletedBetween(es, n, i, j);
    CounterVersionsExceptions(es, i, m, n);
    var w := LastWrite(es, i, n);
    var x := LastWrite(es, j, n);
    var y := LastWrite(es, m, n);
    assert w <= y <= x;
  }

  /** Equal keys come from equal names, versions and counters. */
  ghost predicate Separate(a: Lookup, b: Lookup) {
    KeyText(a) == KeyText(b) ==>
      && a.listed.policy.name == b.listed.policy.name
      && a.listed.policy.resourceVersion == b.listed.policy.resourceVersion
      && a.counter == b.counter
  }

  /** The answer is the compile input of what the store held at its moment. */
  ghost predicate Current(es: seq<Event>, a: Answer) {
    Held(es, a.at, a.listed.name) && a.entry.input == InputOf(Run(es[..a.at]).policies[a.listed.name])
  }

  /** What a policy was written with before a deletion never returns after it. */
  lemma DeletedVersionIsGone(es: seq<Event>, i: nat, j: nat, n: Name, policy: ValidatingPolicy)
    requires Steady(es) && i <= j && i <= |es| && WasDeleted(es, i, n, policy) && Held(es, j, n)
    ensures Run(es[..j]).policies[n].policy.resourceVersion != policy.resourceVersion
  {
    var w, d :| 0 <= w < d < i && Writes(es[w], n) && es[w].policy == policy && Deletes(es[d], n);
    var x := LastWrite(es, j, n);
    assert d < x;
  }

  lemma LiveAnswerIsCurrent(es: seq<Event>, a: Answer)
    requires Steady(es) && AnswerOk(es, a) && Separate(a.entry.lookup, a.lookup) && a.listed.live
    ensures Current(es, a)
  {
    var x, n := a.entry, a.listed.name;
    if x.lookup != a.lookup {
      if !x.lookup.listed.live {
        DeletedVersionIsGone(es, x.lookup.at, a.at, n, x.lookup.listed.policy);
      }
      SameStretch(es, n, x.lookup.at, a.at, x.at);
      CounterVersionsExceptions(es, x.lookup.at, x.at, n);
      CounterVersionsExceptions(es, x.at, a.at, n);
    }
  }

  lemma CurrentAnswerIsLive(es: seq<Event>, a: Answer)
    requires Steady(es) && AnswerOk(es, a) && Separate(a.entry.lookup, a.lookup) && Current(es, a)
    ensures a.listed.live
  {
    var x, n := a.entry, a.listed.name;
    if !x.listed.live {
      DeletedVersionIsGone(es, x.at, a.at, n, x.listed.policy);
    }
    if !a.listed.live {
      SameStretch(es, n, x.at, a.at, a.at);
      var w, d :| 0 <= w < d < a.at && Writes(es[w], n) && es[w].policy == a.listed.policy && Deletes(es[d], n);
      assert d < x.lookup.at;
      DeletedVersionIsGone(es, x.lookup.at, x.lookup.at, n, a.listed.policy);
    }
  }

  /** With steady versions and separating keys, a load that events interrupt answers for
      a policy what compiling it at that moment would give, exactly when the policy was
      not deleted between the listing and the answer. */
  lemma InterruptedLoadsExactly(ls: seq<Label>)
    requires var s := After(ls);
      && NamesMatch(s.events) && Steady(s.events)
      && forall i :: 0 <= i < |s.answers| ==> Separate(s.answers[i].entry.lookup, s.answers[i].lookup)
    ensures var s := After(ls);
      forall i :: 0 <= i < |s.answers| ==> (Current(s.events, s.answers[i]) <==> s.answers[i].listed.live)
  {
    var s := After(ls);
    RunKeeps(ls);
    forall i | 0 <= i < |s.answers| ensures Current(s.events, s.answers[i]) <==> s.answers[i].listed.live {
      if s.answers[i].listed.live {
        LiveAnswerIsCurrent(s.events, s.answers[i]);
      }
      if Current(s.events, s.answers[i]) {
        CurrentAnswerIsLive(s.events, s.answers[i]);
      }
    }
  }

  // ------------------------------------------------------- each policy is answered

  /** The listed policies that the load has still to answer for. */
  function Pending(p: Phase): seq<Listed> {
    match p
    case Idle => []
    case Keying(todo) => todo
    case Compiling(_, todo) => todo
  }

  function ListedNames(ls: seq<Listed>): (names: seq<Name>)
    ensures |names| == |ls| && forall i :: 0 <= i < |ls| ==> names[i] == ls[i].name
  {
    seq(|ls|, i requires 0 <= i < |ls| => ls[i].name)
  }

  function AnsweredNames(answers: seq<Answer>): (names: seq<Name>)
    ensures |names| == |answers| && forall i :: 0 <= i < |answers| ==> names[i] == answers[i].listed.name
  {
    seq(|answers|, i requires 0 <= i < |answers| => answers[i].listed.name)
  }

  /** The step looks up the first pending policy, or compiles it. */
  predicate Turns(s: State, l: Label) {
    (l.Key? && s.phase.Keying?) || (l.Compile? && s.phase.Compiling?)
  }

  /** The first pending policy is present, and its key has an entry. */
  ghost predicate Hits(s: State, listed: Listed) {
    var v := Run(s.events);
    listed.name in v.policies &&
    KeyText(Lookup(listed, v.policies[listed.name].counter, |s.events|)) in s.entries
  }

  /** The first pending policy is answered by this step: its lookup hits, or its
      compilation succeeds. */
  ghost predicate IsAnswered(s: State, l: Label, listed: Listed) {
    Turns(s, l) && listed.name in Run(s.events).policies && if l.Key? then Hits(s, listed) else l.succeeds
  }

  /** The first pending policy is dropped by this step: it is absent at its lookup or at its
      compilation, or the compilation fails, or the load gives up. */
  ghost predicate IsDropped(s: State, l: Label, listed: Listed) {
    || l.GiveUp?
    || (Turns(s, l) && (listed.name !in Run(s.events).policies || (l.Compile? && !l.succeeds)))
  }

  /** `t` follows from `s` by the step `l`: the first pending policy is answered exactly when
      `IsAnswered` says so, and then the answer is the only new one, for that policy; it is
      no longer pending without an answer exactly when `IsDropped` says so; a lookup that
      does neither goes on to compile. */
  ghost predicate StepTold(s: State, l: Label, t: State)
    requires Pending(s.phase) != []
  {
    var head := Pending(s.phase)[0];
    var before, after := ListedNames(Pending(s.phase)), ListedNames(Pending(t.phase));
    && (IsAnswered(s, l, head) <==> t.answers != s.answers)
    && (IsAnswered(s, l, head) ==>
          exists a :: t.answers == s.answers + [a] && a.listed == head && after == before[1..])
    && (IsDropped(s, l, head) <==> t.answers == s.answers && after != before)
    && (IsDropped(s, l, head) ==> after == if l.GiveUp? then [] else before[1..])
    && (l.Key? && s.phase.Keying? && !IsAnswered(s, l, head) && !IsDropped(s, l, head) ==> t.phase.Compiling?)
  }

  /** A step of a load with pending policies answers the first of them, drops it, gives all
      of them up, or leaves them all pending; which of these, is told from the step, from
      what is present and from what is cached. */
  lemma AnsweredOrDropped(ls: seq<Label>, l: Label)
    requires var s := After(ls); NamesMatch(s.events) && !s.locked && Pending(s.phase) != []
    ensures StepTold(After(ls), l, Next(After(ls), l))
  {
    RunKeeps(ls);
    PendingStep(After(ls), l);
  }

  lemma PendingStep(s: State, l: Label)
    requires PhaseOk(s.events, s.phase) && !s.locked && Pending(s.phase) != []
    ensures StepTold(s, l, Next(s, l))
  {
    var head, todo, t := Pending(s.phase)[0], Pending(s.phase), Next(s, l);
    assert ListedOk(s.events, |s.events|, head);
    assert ListedNames(todo[1..]) == ListedNames(todo)[1..];
    if l.Handle? {
      assert ListedNames(RefreshAll(todo, l.event)) == ListedNames(todo);
    }
  }

  /** An entry that is kept stays, and a hit answers with it. */
  lemma EntriesStay(ls: seq<Label>, l: Label)
    requires NamesMatch(After(ls).events)
    ensures var s := After(ls);
      && (forall k :: k in s.entries ==> k in Next(s, l).entries && Next(s, l).entries[k] == s.entries[k])
      && (l.Key? && |Next(s, l).answers| > |s.answers| ==>
            var a := Next(s, l).answers[|s.answers|];
            KeyText(a.lookup) in s.entries && a.entry == s.entries[KeyText(a.lookup)])
  {
    MissedIsMissing(ls);
  }

  /** Between a lookup that missed and its compilation nothing is cached. */
  lemma {:induction false} MissedIsMissing(ls: seq<Label>)
    ensures After(ls).phase.Compiling? ==> KeyText(After(ls).phase.lookup) !in After(ls).entries
  {
    if ls == [] {
    } else {
      MissedIsMissing(ls[..|ls| - 1]);
    }
  }

  /** The step neither gives up nor fails to compile, starts no other load, and deletes none
      of these policies. */
  predicate Undisturbed(l: Label, names: seq<Name>) {
    match l
    case Handle(e) => forall i :: 0 <= i < |names| ==> !Deletes(e, names[i])
    case List => false
    case Key => true
    case Compile(succeeds) => succeeds
    case GiveUp => false
  }

  /** The load has answered for the first of these names, in order, and the policies with
      the others are pending. */
  ghost predicate OnTheWay(s: State, answered: nat, names: seq<Name>) {
    && answered <= |s.answers| && !s.locked
    && AnsweredNames(s.answers[answered..]) + ListedNames(Pending(s.phase)) == names
    && forall i :: 0 <= i < |Pending(s.phase)| ==> Pending(s.phase)[i].live
  }

  lemma OneStepOn(s: State, l: Label, answered: nat, names: seq<Name>)
    requires PhaseOk(s.events, s.phase) && OnTheWay(s, answered, names) && Undisturbed(l, names)
    ensures OnTheWay(Next(s, l), answered, names)
  {
    var t, todo := Next(s, l), Pending(s.phase);
    if l.Handle? {
      assert t.answers == s.answers && Pending(t.phase) == if s.phase.Idle? then [] else RefreshAll(todo, l.event);
      forall i | 0 <= i < |todo| ensures Refresh(todo[i], l.event).live {
        NameAt(AnsweredNames(s.answers[answered..]), ListedNames(todo), names, i);
      }
      assert ListedNames(Pending(t.phase)) == ListedNames(todo);
    } else if todo != [] {
      assert ListedOk(s.events, |s.events|, todo[0]);
      assert s.events[..|s.events|] == s.events;
      PendingStep(s, l);
      MovesOver(s, t, answered);
    }
  }

  lemma NameAt(a: seq<Name>, b: seq<Name>, names: seq<Name>, i: nat)
    requires a + b == names && i < |b|
    ensures |a| + i < |names| && names[|a| + i] == b[i]
  {
  }

  /** Answering for the first pending policy moves its name over. */
  lemma MovesOver(s: State, t: State, answered: nat)
    requires answered <= |s.answers| && Pending(s.phase) != []
    ensures forall a :: t.answers == s.answers + [a] && a.listed == Pending(s.phase)[0] &&
                        ListedNames(Pending(t.phase)) == ListedNames(Pending(s.phase))[1..] ==>
      AnsweredNames(t.answers[answered..]) + ListedNames(Pending(t.phase)) ==
      AnsweredNames(s.answers[answered..]) + ListedNames(Pending(s.phase))
  {
    forall a | t.answers == s.answers + [a] && a.listed == Pending(s.phase)[0] &&
               ListedNames(Pending(t.phase)) == ListedNames(Pending(s.phase))[1..]
      ensures AnsweredNames(t.answers[answered..]) + ListedNames(Pending(t.phase)) ==
              AnsweredNames(s.answers[answered..]) + ListedNames(Pending(s.phase))
    {
      assert t.answers[answered..] == s.answers[answered..] + [a];
      assert AnsweredNames(t.answers[answered..]) == AnsweredNames(s.answers[answered..]) + [a.listed.name];
    }
  }

  /** The names of the policies that are present, in increasing order. */
  ghost function PresentNames(s: State): seq<Name> {
    Ordering.Sorted(Run(s.events).policies.Keys)
  }

  lemma ListedInOrder(v: StoreView)
    ensures ListedNames(ListedOf(v)) == Ordering.Sorted(v.policies.Keys)
    ensures forall i :: 0 <= i < |ListedOf(v)| ==> ListedOf(v)[i].live
  {
    Ordering.SortedLists(v.policies.Keys);
  }

  lemma NoneAnswered(answers: seq<Answer>, names: seq<Name>)
    ensures AnsweredNames(answers[|answers|..]) + names == names
  {
  }

  lemma LoadStarts(ls: seq<Label>)
    requires After(ls).phase.Idle? && !After(ls).locked
    ensures OnTheWay(After(ls + [List]), |After(ls).answers|, PresentNames(After(ls)))
    ensures After(ls + [List]).answers == After(ls).answers
  {
    OneMore(ls, List);
    ListedInOrder(Run(After(ls).events));
    NoneAnswered(After(ls).answers, PresentNames(After(ls)));
  }

  lemma LoadGoesOn(ls: seq<Label>, l: Label, answers: seq<Answer>, names: seq<Name>)
    requires OnTheWay(After(ls), |answers|, names) && answers <= After(ls).answers
    requires NamesMatch(After(ls).events) && Undisturbed(l, names)
    ensures OnTheWay(After(ls + [l]), |answers|, names) && answers <= After(ls + [l]).answers
  {
    OneMore(ls, l);
    RunKeeps(ls);
    OneStepOn(After(ls), l, |answers|, names);
    AnswersGrow(After(ls), l);
  }

  /** A load that starts from an idle state, with whatever events in between that delete
      none of the policies it listed, and with compilations that succeed, has at every
      moment answered once for each of the first of these policies, in increasing order of
      their names, and has the others pending; so when it ends it has answered for all. */
  lemma {:induction false} LoadAnswersEach(ls: seq<Label>, more: seq<Label>)
    requires After(ls).phase.Idle? && !After(ls).locked && NamesMatch(After(ls + [List] + more).events)
    requires forall i :: 0 <= i < |more| ==> Undisturbed(more[i], PresentNames(After(ls)))
    ensures var s, s' := After(ls), After(ls + [List] + more);
      && OnTheWay(s', |s.answers|, PresentNames(s)) && s.answers <= s'.answers
      && (s'.phase.Idle? ==> AnsweredNames(s'.answers[|s.answers|..]) == PresentNames(s))
  {
    if more == [] {
      assert ls + [List] + more == ls + [List];
      LoadStarts(ls);
    } else {
      var init, l := more[..|more| - 1], more[|more| - 1];
      assert ls + [List] + more == ls + [List] + init + [l];
      OneMore(ls + [List] + init, l);
      EventsGrow(After(ls + [List] + init), l);
      LoadAnswersEach(ls, init);
      LoadGoesOn(ls + [List] + init, l, After(ls).answers, PresentNames(After(ls)));
    }
    AllAnswered(After(ls + [List] + more), |After(ls).answers|, PresentNames(After(ls)));
  }

  lemma AllAnswered(s: State, answered: nat, names: seq<Name>)
    requires OnTheWay(s, answered, names)
    ensures s.phase.Idle? ==> AnsweredNames(s.answers[answered..]) == names
  {
    if s.phase.Idle? {
      assert ListedNames(Pending(s.phase)) == [];
    }
  }

  lemma EventsGrow(s: State, l: Label)
    ensures NamesMatch(Next(s, l).events) ==> NamesMatch(s.events)
  {
    assert s.events <= Next(s, l).events;
    assert forall i :: 0 <= i < |s.events| ==> s.events[i] == Next(s, l).events[i];
  }

  lemma AnswersGrow(s: State, l: Label)
    ensures s.answers <= Next(s, l).answers
  {
  }

  // --------------------------------------------------------- the lock that stays

  /** The policy was deleted after the first `i` events, and not written again. */
  ghost predicate GoneSince(es: seq<Event>, i: nat, n: Name) {
    exists d :: i <= d < |es| && Deletes(es[d], n) && forall t :: d < t < |es| ==> !Writes(es[t], n)
  }

  lemma GoneStep(es: seq<Event>, e: Event, i: nat, n: Name)
    requires i <= |es|
    ensures GoneSince(es + [e], i, n) <==> Deletes(e, n) || (GoneSince(es, i, n) && !Writes(e, n))
  {
    var es' := es + [e];
    assert forall t :: 0 <= t < |es| ==> es'[t] == es[t];
    assert es'[|es|] == e;
    if GoneSince(es, i, n) && !Writes(e, n) {
      var d :| i <= d < |es| && Deletes(es[d], n) && forall t :: d < t < |es| ==> !Writes(es[t], n);
      assert Deletes(es'[d], n);
    }
    if GoneSince(es', i, n) && !Deletes(e, n) {
      var d :| i <= d < |es'| && Deletes(es'[d], n) && forall t :: d < t < |es'| ==> !Writes(es'[t], n);
      assert Deletes(es[d], n) && forall t :: d < t < |es| ==> !Writes(es[t], n);
      assert !Writes(es'[|es|], n);
    }
  }

  lemma {:induction false} AbsentExactly(es: seq<Event>, i: nat, n: Name)
    requires Held(es, i, n)
    ensures n !in Run(es).policies <==> GoneSince(es, i, n)
    decreases |es|
  {
    if i == |es| {
      assert es[..i] == es;
    } else {
      var init, e := es[..|es| - 1], es[|es| - 1];
      assert init[..i] == es[..i] && init + [e] == es;
      AbsentExactly(init, i, n);
      GoneStep(init, e, i, n);
    }
  }

  /** A step keeps the lock taken exactly when it compiles a policy that was deleted
      after its key was computed and is not back. */
  lemma LockStaysExactly(ls: seq<Label>, l: Label)
    requires var s := After(ls); NamesMatch(s.events) && !s.locked
    ensures var s := After(ls);
      Next(s, l).locked <==>
        l.Compile? && s.phase.Compiling? && GoneSince(s.events, s.phase.lookup.at, s.phase.lookup.listed.name)
  {
    RunKeeps(ls);
    StepLocksExactly(After(ls), l);
  }

  lemma StepLocksExactly(s: State, l: Label)
    requires PhaseOk(s.events, s.phase) && !s.locked
    ensures Next(s, l).locked <==>
      l.Compile? && s.phase.Compiling? && GoneSince(s.events, s.phase.lookup.at, s.phase.lookup.listed.name)
  {
    if l.Compile? && s.phase.Compiling? {
      assert ListedOk(s.events, |s.events|, s.phase.todo[0]);
      AbsentExactly(s.events, s.phase.lookup.at, s.phase.lookup.listed.name);
    }
  }

  /** After that nothing happens any more: no event is handled and no load ends. */
  lemma {:induction false} LockedForever(ls: seq<Label>, more: seq<Label>)
    requires After(ls).locked
    ensures After(ls + more) == After(ls)
  {
    if more == [] {
      assert ls + more == ls;
    } else {
      LockedForever(ls, more[..|more| - 1]);
      assert (ls + more)[..|ls + more| - 1] == ls + more[..|more| - 1];
    }
  }

  lemma OneMore(ls: seq<Label>, l: Label)
    ensures After(ls + [l]) == Next(After(ls), l)
  {
    assert (ls + [l])[..|ls|] == ls;
  }

  lemma OnlyPolicy(e: Event)
    requires e.PolicyEvent? && Writes(e, e.policy.name)
    ensures Run([e]).policies == map[e.policy.name := PolicyView(e.policy, map[], 0)]
    ensures ListedOf(Run([e])) == [Listed(e.policy.name, e.policy, true)]
  {
    var nothing: seq<Event> := [];
    var n := e.policy.name;
    assert nothing + [e] == [e];
    Extend(nothing, e);
    assert Run([e]).policies == map[n := PolicyView(e.policy, Naming(map[], n), 0)];
    assert Naming(map[], n) == map[];
    assert Run([e]).policies.Keys == {n};
    Ordering.SortedLists({n});
    Ordering.ListsUnique([n], Ordering.Sorted({n}), {n});
  }

  /** One policy is created and listed, and its lookup misses. */
  lemma OneMissed(create: Event) returns (ls: seq<Label>)
    requires create.PolicyEvent? && Writes(create, create.policy.name)
    ensures var l := Listed(create.policy.name, create.policy, true);
      After(ls) == State([create], map[], Compiling(Lookup(l, 0, 1), [l]), false, [])
  {
    var l, none := Listed(create.policy.name, create.policy, true), [];
    OnlyPolicy(create);
    OneMore(none, Handle(create));
    OneMore(none + [Handle(create)], List);
    ls := none + [Handle(create)] + [List];
    assert After(ls) == State([create], map[], Keying([l]), false, []);
    OneMore(ls, Key);
    ls := ls + [Key];
  }

  /** A policy that is deleted between its lookup and its compilation. */
  lemma DeletedBeforeCompile(create: Event, delete: Event) returns (ls: seq<Label>)
    requires create.PolicyEvent? && Writes(create, create.policy.name) && Deletes(delete, create.policy.name)
    ensures After(ls).events == [create] + [delete] && NamesMatch(After(ls).events) && Steady(After(ls).events)
    ensures After(ls).locked
  {
    ls := OneMissed(create);
    OneMore(ls, Handle(delete));
    OneMore(ls + [Handle(delete)], Compile(true));
    OnlyPolicy(create);
    Extend([create], delete);
    ls := ls + [Handle(delete)] + [Compile(true)];
  }

  /** A policy that is replaced between its lookup and its compilation: the load answers
      with the compilation of the one that is gone. */
  lemma ReplacedBeforeCompile(create: Event, delete: Event, again: Event) returns (ls: seq<Label>)
    requires create.PolicyEvent? && Writes(create, create.policy.name) && Deletes(delete, create.policy.name)
    requires Writes(again, create.policy.name) && again.policy.name == create.policy.name
    requires again.policy.resourceVersion != create.policy.resourceVersion
    ensures var s := After(ls);
      && s.events == [create] + [delete] + [again] && NamesMatch(s.events) && Steady(s.events)
      && |s.answers| == 1 && s.answers[0].entry.lookup == s.answers[0].lookup && !Current(s.events, s.answers[0])
  {
    var n := create.policy.name;
    ls := OneMissed(create);
    OneMore(ls, Handle(delete));
    OneMore(ls + [Handle(delete)], Handle(again));
    OneMore(ls + [Handle(delete)] + [Handle(again)], Compile(true));
    OnlyPolicy(create);
    Extend([create], delete);
    Extend([create] + [delete], again);
    var es := [create] + [delete] + [again];
    assert es[..|es|] == es;
    assert Run(es).policies[n].policy == again.policy;
    ls := ls + [Handle(delete)] + [Handle(again)] + [Compile(true)];
    assert After(ls).answers[0].entry.input.policy == create.policy;
  }
}
