// The listener registry and the notification manager built on it.
//
// A registry keeps two lists: strong references, and weak references whose
// target the garbage collector may clear. Listeners are ids; an entry of
// either list is an Option, None standing for a null listener or for a weak
// reference that was cleared. Adding a listener that is not yet registered
// re-runs the last invocation strategy over every listener, so a new
// listener hears the last notification. The manager's strategy delivers the
// last notification type and body; deliveries are kept as an appended log.

module Notification {
  import opened Common

  type ListenerId = nat

  /** A list entry: a listener, or None for null (or a cleared weak reference). */
  type Entry = Option<ListenerId>

  type NotificationType = nat
  type Body = nat

  /** The strategy DefaultNotificationListenerManager supplies: sendNotificationInternal. */
  datatype Strategy = DeliverLastNotification

  /** One onNotification call; a None body is the one-argument form. */
  datatype Delivery = Delivery(listener: ListenerId, notificationType: NotificationType, body: Option<Body>)

  datatype Registry = Registry(
    weak: seq<Entry>,
    strong: seq<Entry>,
    firstInvocation: bool,
    lastStrategy: Option<Strategy>,
    initial: Option<Strategy>,
    lastType: NotificationType,
    lastBody: Option<Body>)

  /** The registry after an operation, and the deliveries the operation made. */
  datatype Step = Step(registry: Registry, delivered: seq<Delivery>)

  /** List.indexOf, and findInWeakReferenceList: the first index holding `e`, or -1. */
  function IndexOf(list: seq<Entry>, e: Entry): (i: int)
    ensures -1 <= i < |list|
    ensures i == -1 <==> e !in list
    ensures 0 <= i ==> list[i] == e && e !in list[..i]
  {
    if list == [] then -1
    else if list[0] == e then 0
    else
      var j := IndexOf(list[1..], e);
      if j == -1 then -1
      else
        assert list[..j + 1] == [list[0]] + list[1..][..j];
        j + 1
  }

  /** scrubStrategies: the entries that still hold a listener, in their order. */
  function Scrub(list: seq<Entry>): (live: seq<Entry>)
    ensures forall e :: e in live <==> e in list && e.Some?
    ensures |live| <= |list|
  {
    if list == [] then []
    else
      var init := list[..|list| - 1];
      assert list == init + [list[|list| - 1]];
      Scrub(init) + (if list[|list| - 1].Some? then [list[|list| - 1]] else [])
  }

  function RemoveAt(list: seq<Entry>, i: nat): (r: seq<Entry>)
    requires i < |list|
    ensures |r| == |list| - 1
    ensures forall j :: 0 <= j < i ==> r[j] == list[j]
    ensures forall j :: i <= j < |r| ==> r[j] == list[j + 1]
  {
    list[..i] + list[i + 1..]
  }

  /** The onNotification calls a strategy run makes over `targets`, null ones skipped. */
  function Deliveries(targets: seq<Entry>, t: NotificationType, b: Option<Body>): (ds: seq<Delivery>)
    ensures forall d :: d in ds <==> Some(d.listener) in targets && d.notificationType == t && d.body == b
    ensures |ds| <= |targets|
  {
    if targets == [] then []
    else
      var init := targets[..|targets| - 1];
      var last := targets[|targets| - 1];
      assert targets == init + [last];
      Deliveries(init, t, b) + (if last.Some? then [Delivery(last.value, t, b)] else [])
  }

  predicate NoDuplicates(list: seq<Entry>)
  {
    forall i, j :: 0 <= i < j < |list| ==> list[i] != list[j]
  }

  /** No listener is held by two weak entries; cleared entries may repeat. */
  predicate LiveDistinct(list: seq<Entry>)
  {
    forall i, j :: 0 <= i < j < |list| && list[i].Some? ==> list[i] != list[j]
  }

  predicate Valid(r: Registry)
  {
    NoDuplicates(r.strong) && LiveDistinct(r.weak)
  }

  /** What the manager keeps: its strategy is set, and once used it stays the last one. */
  predicate ManagerValid(r: Registry)
  {
    Valid(r) && r.initial == Some(DeliverLastNotification)
    && (if r.firstInvocation then r.lastStrategy.None? else r.lastStrategy == r.initial)
  }

  /** The manager as constructed: the first notification stored, no listener, not yet invoked. */
  function Initial(t: NotificationType, b: Option<Body>): (r: Registry)
    ensures ManagerValid(r) && r.lastType == t && r.lastBody == b
  {
    Registry([], [], true, None, Some(DeliverLastNotification), t, b)
  }

  /**
   * invokeListeners(strategy): the first invocation without a strategy falls
   * back to the initial one; the strategy used becomes the last one, and it
   * delivers the last notification to exactly the registered listeners
   * (nobody hears anything when there is no strategy). The lists and the
   * stored notification are left as they were.
   */
  function InvokeWith(r: Registry, strategy: Option<Strategy>): (s: Step)
    ensures !s.registry.firstInvocation
    ensures s.registry.lastStrategy == (if r.firstInvocation && strategy.None? then r.initial else strategy)
    ensures s.registry.(firstInvocation := r.firstInvocation, lastStrategy := r.lastStrategy) == r
    ensures s.registry.lastStrategy.None? ==> s.delivered == []
    ensures s.registry.lastStrategy.Some? ==> forall d :: d in s.delivered <==>
      (Some(d.listener) in r.weak || Some(d.listener) in r.strong) && d.notificationType == r.lastType && d.body == r.lastBody
  {
    var use := if r.firstInvocation && strategy.None? then r.initial else strategy;
    var next := r.(firstInvocation := false, lastStrategy := use);
    Step(next, if use.Some? then Deliveries(r.weak, r.lastType, r.lastBody) + Deliveries(r.strong, r.lastType, r.lastBody) else [])
  }

  /**
   * invokeListeners(): the last strategy again. Once the manager has been
   * invoked its strategy stays the last one.
   */
  function Invoke(r: Registry): (s: Step)
    ensures !s.registry.firstInvocation
    ensures !r.firstInvocation ==> s.registry.lastStrategy == r.lastStrategy
    ensures s.registry.weak == r.weak && s.registry.strong == r.strong
    ensures s.registry.lastType == r.lastType && s.registry.lastBody == r.lastBody
    ensures s.registry.lastStrategy.None? ==> s.delivered == []
    ensures s.registry.lastStrategy.Some? ==> forall d :: d in s.delivered <==>
      (Some(d.listener) in r.weak || Some(d.listener) in r.strong) && d.notificationType == r.lastType && d.body == r.lastBody
  {
    InvokeWith(r, r.lastStrategy)
  }

  /**
   * addListener: a listener already held is not added again and nobody is
   * notified; a new one joins the end of the strong list and the listeners
   * are invoked again.
   */
  function WithListener(r: Registry, l: Entry): (s: Step)
    ensures l in s.registry.strong && s.registry.weak == r.weak
    ensures l in r.strong ==> s == Step(r, [])
    ensures l !in r.strong ==> s.registry.strong == r.strong + [l] && s == Invoke(r.(strong := r.strong + [l]))
  {
    if IndexOf(r.strong, l) == -1 then Invoke(r.(strong := r.strong + [l])) else Step(r, [])
  }

  /**
   * removeListener: takes out one occurrence of the listener, if held, and
   * no other entry; the weak list is untouched.
   */
  function WithoutListener(r: Registry, l: Entry): (q: Registry)
    ensures q.weak == r.weak
    ensures l !in r.strong ==> q == r
    ensures l in r.strong ==> |q.strong| == |r.strong| - 1
    ensures forall e :: e in q.strong ==> e in r.strong
    ensures forall e :: e != l && e in r.strong ==> e in q.strong
  {
    var i := IndexOf(r.strong, l);
    if i > -1 then r.(strong := RemoveAt(r.strong, i)) else r
  }

  /**
   * addWeakReferenceListener: cleared references are scrubbed first; the
   * listener is then held weakly, added at the end (and the listeners
   * invoked) only if it was not already there.
   */
  function WithWeakListener(r: Registry, l: Entry): (s: Step)
    ensures s.registry.strong == r.strong
    ensures forall e :: e in s.registry.weak <==> (e in r.weak && e.Some?) || e == l
    ensures l in r.weak && l.Some? ==> s.delivered == []
  {
    var live := Scrub(r.weak);
    if IndexOf(live, l) == -1 then Invoke(r.(weak := live + [l])) else Step(r.(weak := live), [])
  }

  /**
   * removeWeakReferenceListener: cleared references are scrubbed and one
   * weak reference to the listener, if any, is taken out; no other live
   * listener is dropped and the strong list is untouched.
   */
  function WithoutWeakListener(r: Registry, l: Entry): (q: Registry)
    ensures q.strong == r.strong
    ensures forall e :: e in q.weak ==> e in r.weak && e.Some?
    ensures forall e :: e != l && e in r.weak && e.Some? ==> e in q.weak
  {
    var live := Scrub(r.weak);
    var i := IndexOf(live, l);
    if i > -1 then r.(weak := RemoveAt(live, i)) else r.(weak := live)
  }

  /**
   * sendNotification: the notification becomes the last one and the
   * listeners are invoked; whatever is delivered is that notification.
   */
  function Notified(r: Registry, t: NotificationType, b: Option<Body>): (s: Step)
    ensures s.registry.lastType == t && s.registry.lastBody == b
    ensures s.registry.weak == r.weak && s.registry.strong == r.strong
    ensures forall d :: d in s.delivered ==> d.notificationType == t && d.body == b
  {
    Invoke(r.(lastType := t, lastBody := b))
  }

  /**
   * The garbage collector clears every weak reference to `l`: the list keeps
   * its length, no reference to `l` is left, and every other listener is held
   * as before.
   */
  function Collected(r: Registry, l: ListenerId): (q: Registry)
    ensures |q.weak| == |r.weak| && q.strong == r.strong
    ensures Some(l) !in q.weak
    ensures forall k :: k != l ==> (Some(k) in q.weak <==> Some(k) in r.weak)
  {
    ClearedKeepsOthers(r.weak, l);
    r.(weak := Cleared(r.weak, l))
  }

  /** The list with every reference to `l` cleared. */
  function Cleared(list: seq<Entry>, l: ListenerId): (c: seq<Entry>)
    ensures |c| == |list|
    ensures forall i :: 0 <= i < |list| ==> c[i] == if list[i] == Some(l) then None else list[i]
  {
    seq(|list|, i requires 0 <= i < |list| => if list[i] == Some(l) then None else list[i])
  }

  lemma ClearedKeepsOthers(list: seq<Entry>, l: ListenerId)
    ensures forall k :: k != l ==> (Some(k) in Cleared(list, l) <==> Some(k) in list)
  {
    var cleared := Cleared(list, l);
    forall k | k != l
      ensures Some(k) in cleared <==> Some(k) in list
    {
      if Some(k) in list {
        var i :| 0 <= i < |list| && list[i] == Some(k);
        assert cleared[i] == Some(k);
      }
      if Some(k) in cleared {
        var i :| 0 <= i < |cleared| && cleared[i] == Some(k);
        assert list[i] == Some(k);
      }
    }
  }

  // ---- properties ----

  /** Scrubbing works entry by entry, so it keeps the live entries' order. */
  lemma {:induction false} ScrubAppend(a: seq<Entry>, b: seq<Entry>)
    ensures Scrub(a + b) == Scrub(a) + Scrub(b)
    decreases |b|
  {
    if b == [] {
      assert a + b == a;
    } else {
      var init := b[..|b| - 1];
      assert (a + b)[..|a + b| - 1] == a + init;
      assert (a + b)[|a + b| - 1] == b[|b| - 1];
      ScrubAppend(a, init);
    }
  }

  /** A scrubbed list holds the live entries in order, so distinct live entries stay distinct. */
  lemma {:induction false} ScrubKeepsDistinct(list: seq<Entry>)
    requires LiveDistinct(list)
    ensures NoDuplicates(Scrub(list))
    decreases |list|
  {
    if list != [] {
      var init := list[..|list| - 1];
      var last := list[|list| - 1];
      assert list == init + [last];
      assert LiveDistinct(init) by {
        forall i, j | 0 <= i < j < |init| && init[i].Some? ensures init[i] != init[j] {
          assert list[i] == init[i] && list[j] == init[j];
        }
      }
      ScrubKeepsDistinct(init);
      if last.Some? {
        assert last !in init;
      }
    }
  }

  lemma AppendAbsentKeepsDistinct(list: seq<Entry>, e: Entry)
    requires NoDuplicates(list) && e !in list
    ensures NoDuplicates(list + [e])
  {
  }

  lemma RemoveAtKeepsDistinct(list: seq<Entry>, i: nat)
    requires i < |list| && NoDuplicates(list)
    ensures NoDuplicates(RemoveAt(list, i))
    ensures list[i] !in RemoveAt(list, i)
  {
    var r := RemoveAt(list, i);
    forall a, b | 0 <= a < b < |r| ensures r[a] != r[b] {
      var a' := if a < i then a else a + 1;
      var b' := if b < i then b else b + 1;
      assert r[a] == list[a'] && r[b] == list[b'];
    }
  }

  lemma NoDuplicatesLiveDistinct(list: seq<Entry>)
    requires NoDuplicates(list)
    ensures LiveDistinct(list)
  {
  }

  /** Every registry operation, and the collector, keep both lists free of duplicate listeners. */
  lemma AddListenerKeepsValid(r: Registry, l: Entry)
    requires Valid(r)
    ensures Valid(WithListener(r, l).registry)
  {
    if IndexOf(r.strong, l) == -1 {
      AppendAbsentKeepsDistinct(r.strong, l);
    }
  }

  lemma RemoveListenerKeepsValid(r: Registry, l: Entry)
    requires Valid(r)
    ensures Valid(WithoutListener(r, l))
    ensures l !in WithoutListener(r, l).strong
  {
    var i := IndexOf(r.strong, l);
    if i > -1 {
      RemoveAtKeepsDistinct(r.strong, i);
    }
  }

  lemma AddWeakReferenceListenerKeepsValid(r: Registry, l: Entry)
    requires Valid(r)
    ensures Valid(WithWeakListener(r, l).registry)
  {
    var live := Scrub(r.weak);
    ScrubKeepsDistinct(r.weak);
    if IndexOf(live, l) == -1 {
      AppendAbsentKeepsDistinct(live, l);
      NoDuplicatesLiveDistinct(live + [l]);
    } else {
      NoDuplicatesLiveDistinct(live);
    }
  }

  lemma RemoveWeakReferenceListenerKeepsValid(r: Registry, l: Entry)
    requires Valid(r)
    ensures Valid(WithoutWeakListener(r, l))
    ensures l !in WithoutWeakListener(r, l).weak
  {
    var live := Scrub(r.weak);
    ScrubKeepsDistinct(r.weak);
    var i := IndexOf(live, l);
    if i > -1 {
      RemoveAtKeepsDistinct(live, i);
      NoDuplicatesLiveDistinct(RemoveAt(live, i));
    } else {
      NoDuplicatesLiveDistinct(live);
    }
  }

  lemma CollectKeepsValid(r: Registry, l: ListenerId)
    requires Valid(r)
    ensures Valid(Collected(r, l))
    ensures Some(l) !in Collected(r, l).weak
  {
  }

  /** After the first invocation the manager's strategy is the last one for good. */
  lemma InvokeKeepsStrategy(r: Registry)
    requires ManagerValid(r)
    ensures var s := Invoke(r);
      (ManagerValid(s.registry) && !s.registry.firstInvocation
       && s.delivered == Deliveries(r.weak, r.lastType, r.lastBody) + Deliveries(r.strong, r.lastType, r.lastBody))
  {
  }

  /**
   * A listener added to the manager hears the last notification, and so
   * does every listener already registered.
   */
  lemma AddedListenerHearsLastNotification(r: Registry, l: ListenerId)
    requires ManagerValid(r) && Some(l) !in r.strong
    ensures Delivery(l, r.lastType, r.lastBody) in WithListener(r, Some(l)).delivered
    ensures forall k :: Some(k) in r.strong || Some(k) in r.weak ==>
      Delivery(k, r.lastType, r.lastBody) in WithListener(r, Some(l)).delivered
  {
    var ds := Deliveries(r.strong + [Some(l)], r.lastType, r.lastBody);
    assert Delivery(l, r.lastType, r.lastBody) in ds;
  }

  lemma AddedWeakListenerHearsLastNotification(r: Registry, l: ListenerId)
    requires ManagerValid(r) && Some(l) !in r.weak
    ensures Delivery(l, r.lastType, r.lastBody) in WithWeakListener(r, Some(l)).delivered
  {
    var live := Scrub(r.weak);
    var ds := Deliveries(live + [Some(l)], r.lastType, r.lastBody);
    assert Delivery(l, r.lastType, r.lastBody) in ds;
  }

  /**
   * sendNotification stores the notification and delivers it to exactly the
   * listeners that are registered and not null or collected, weak ones first.
   */
  lemma SendReachesEveryListener(r: Registry, t: NotificationType, b: Option<Body>)
    requires ManagerValid(r)
    ensures var s := Notified(r, t, b);
      (s.registry.lastType == t && s.registry.lastBody == b && ManagerValid(s.registry)
       && s.delivered == Deliveries(r.weak, t, b) + Deliveries(r.strong, t, b)
       && forall d :: d in s.delivered <==>
            (Some(d.listener) in r.weak || Some(d.listener) in r.strong) && d.notificationType == t && d.body == b)
  {
    InvokeKeepsStrategy(r.(lastType := t, lastBody := b));
  }

  /** The strong and the weak registrations are independent of each other. */
  lemma RegistrationsIndependent(r: Registry, l: Entry)
    ensures WithoutListener(r, l).weak == r.weak
    ensures WithoutWeakListener(r, l).strong == r.strong
    ensures WithListener(r, l).registry.weak == r.weak
    ensures WithWeakListener(r, l).registry.strong == r.strong
  {
  }

  // ---- sessions of calls ----

  datatype Call =
    | AddCall(listener: Entry)
    | RemoveCall(listener: Entry)
    | AddWeakCall(listener: Entry)
    | RemoveWeakCall(listener: Entry)
    | SendCall(notificationType: NotificationType, body: Option<Body>)
    | CollectCall(collected: ListenerId)

  function Apply(r: Registry, c: Call): Step
  {
    match c
    case AddCall(l) => WithListener(r, l)
    case RemoveCall(l) => Step(WithoutListener(r, l), [])
    case AddWeakCall(l) => WithWeakListener(r, l)
    case RemoveWeakCall(l) => Step(WithoutWeakListener(r, l), [])
    case SendCall(t, b) => Notified(r, t, b)
    case CollectCall(l) => Step(Collected(r, l), [])
  }

  function Run(r: Registry, calls: seq<Call>): Registry
    decreases |calls|
  {
    if calls == [] then r else Run(Apply(r, calls[0]).registry, calls[1..])
  }

  lemma ApplyKeepsManagerValid(r: Registry, c: Call)
    requires ManagerValid(r)
    ensures ManagerValid(Apply(r, c).registry)
  {
    match c
    case AddCall(l) =>
      AddListenerKeepsValid(r, l);
    case RemoveCall(l) =>
      RemoveListenerKeepsValid(r, l);
    case AddWeakCall(l) =>
      AddWeakReferenceListenerKeepsValid(r, l);
    case RemoveWeakCall(l) =>
      RemoveWeakReferenceListenerKeepsValid(r, l);
    case SendCall(t, b) =>
    case CollectCall(l) =>
      CollectKeepsValid(r, l);
  }

  /** Whatever calls a manager receives, no listener is ever registered twice in one list. */
  lemma {:induction false} RunKeepsManagerValid(r: Registry, calls: seq<Call>)
    requires ManagerValid(r)
    ensures ManagerValid(Run(r, calls))
    decreases |calls|
  {
    if calls != [] {
      ApplyKeepsManagerValid(r, calls[0]);
      RunKeepsManagerValid(Apply(r, calls[0]).registry, calls[1..]);
    }
  }

  // ---- the manager object ----

  class DefaultNotificationListenerManager {
    var weak: seq<Entry>
    var strong: seq<Entry>
    var firstInvocation: bool
    var lastStrategy: Option<Strategy>
    const initial: Option<Strategy>
    var lastType: NotificationType
    var lastBody: Option<Body>
    /** Every onNotification call made so far. */
    var deliveries: seq<Delivery>

    function Model(): Registry
      reads this
    {
      Registry(weak, strong, firstInvocation, lastStrategy, initial, lastType, lastBody)
    }

    constructor (firstType: NotificationType, firstBody: Option<Body>)
      ensures Model() == Initial(firstType, firstBody) && deliveries == []
    {
      weak := [];
      strong := [];
      firstInvocation := true;
      lastStrategy := None;
      initial := Some(DeliverLastNotification);
      lastType := firstType;
      lastBody := firstBody;
      deliveries := [];
    }

    /** findInWeakReferenceList. */
    method FindInWeakReferenceList(l: Entry) returns (index: int)
      ensures index == IndexOf(weak, l)
    {
      index := 0;
      while index < |weak|
        invariant 0 <= index <= |weak|
        invariant l !in weak[..index]
      {
        if weak[index] == l {
          return;
        }
        assert weak[..index + 1] == weak[..index] + [weak[index]];
        index := index + 1;
      }
      assert weak[..index] == weak;
      index := -1;
    }

    /** scrubStrategies: drops the cleared weak references as it iterates. */
    method ScrubStrategies()
      modifies this
      ensures Model() == old(Model()).(weak := Scrub(old(weak)))
      ensures deliveries == old(deliveries)
    {
      var kept: seq<Entry> := [];
      var i := 0;
      while i < |weak|
        invariant 0 <= i <= |weak|
        invariant kept == Scrub(weak[..i])
      {
        assert weak[..i + 1][..i] == weak[..i];
        if weak[i].Some? {
          kept := kept + [weak[i]];
        }
        i := i + 1;
      }
      assert weak[..i] == weak;
      weak := kept;
    }

    /** sendNotificationInternal: a null listener is skipped. */
    method SendNotificationInternal(listener: Entry)
      modifies this
      ensures Model() == old(Model())
      ensures deliveries == old(deliveries) + Deliveries([listener], lastType, lastBody)
    {
      assert [listener][..0] == [];
      if listener.Some? {
        deliveries := deliveries + [Delivery(listener.value, lastType, lastBody)];
      }
    }

    /** Runs the strategy over `targets` in order. */
    method InvokeEach(targets: seq<Entry>)
      modifies this
      ensures Model() == old(Model())
      ensures deliveries == old(deliveries) + Deliveries(targets, lastType, lastBody)
    {
      var i := 0;
      while i < |targets|
        invariant 0 <= i <= |targets|
        invariant Model() == old(Model())
        invariant deliveries == old(deliveries) + Deliveries(targets[..i], lastType, lastBody)
      {
        assert targets[..i + 1][..i] == targets[..i];
        SendNotificationInternal(targets[i]);
        i := i + 1;
      }
      assert targets[..i] == targets;
    }

    /** invokeListeners(strategy). */
    method InvokeListenersWith(strategy: Option<Strategy>)
      modifies this
      ensures Model() == InvokeWith(old(Model()), strategy).registry
      ensures deliveries == old(deliveries) + InvokeWith(old(Model()), strategy).delivered
    {
      ghost var before := Model();
      var use := strategy;
      if firstInvocation {
        if use.None? {
          use := initial;
        }
        firstInvocation := false;
      }
      lastStrategy := use;
      assert Model() == InvokeWith(before, strategy).registry;
      if lastStrategy.Some? {
        InvokeEach(weak);
        InvokeEach(strong);
      }
    }

    method InvokeListeners()
      modifies this
      ensures Model() == Invoke(old(Model())).registry
      ensures deliveries == old(deliveries) + Invoke(old(Model())).delivered
    {
      InvokeListenersWith(lastStrategy);
    }

    method AddListener(l: Entry)
      modifies this
      ensures Model() == WithListener(old(Model()), l).registry
      ensures deliveries == old(deliveries) + WithListener(old(Model()), l).delivered
    {
      var index := IndexOf(strong, l);
      if index == -1 {
        strong := strong + [l];
        InvokeListeners();
      }
    }

    method RemoveListener(l: Entry)
      modifies this
      ensures Model() == WithoutListener(old(Model()), l)
      ensures deliveries == old(deliveries)
    {
      var index := IndexOf(strong, l);
      if index > -1 {
        strong := strong[..index] + strong[index + 1..];
      }
    }

    method AddWeakReferenceListener(l: Entry)
      modifies this
      ensures Model() == WithWeakListener(old(Model()), l).registry
      ensures deliveries == old(deliveries) + WithWeakListener(old(Model()), l).delivered
    {
      ghost var r := Model();
      ghost var live := Scrub(r.weak);
      ScrubStrategies();
      var index := FindInWeakReferenceList(l);
      if index == -1 {
        weak := weak + [l];
        assert Model() == r.(weak := live + [l]);
        InvokeListeners();
        assert WithWeakListener(r, l) == Invoke(r.(weak := live + [l]));
      } else {
        assert WithWeakListener(r, l) == Step(r.(weak := live), []);
      }
    }

    method RemoveWeakReferenceListener(l: Entry)
      modifies this
      ensures Model() == WithoutWeakListener(old(Model()), l)
      ensures deliveries == old(deliveries)
    {
      ScrubStrategies();
      var index := FindInWeakReferenceList(l);
      if index > -1 {
        weak := weak[..index] + weak[index + 1..];
      }
    }

    /** sendNotification(type, body). */
    method SendNotification(t: NotificationType, b: Option<Body>)
      modifies this
      ensures Model() == Notified(old(Model()), t, b).registry
      ensures deliveries == old(deliveries) + Notified(old(Model()), t, b).delivered
    {
      lastType := t;
      lastBody := b;
      InvokeListeners();
    }

    /** sendNotification(type): the same with a null body. */
    method SendNotificationType(t: NotificationType)
      modifies this
      ensures Model() == Notified(old(Model()), t, None).registry
      ensures deliveries == old(deliveries) + Notified(old(Model()), t, None).delivered
    {
      SendNotification(t, None);
    }

    /** The garbage collector reclaims listener `l`: its weak references read null from now on. */
    method Collect(l: ListenerId)
      modifies this
      ensures Model() == Collected(old(Model()), l)
      ensures deliveries == old(deliveries)
    {
      weak := Cleared(weak, l);
    }
  }
}
