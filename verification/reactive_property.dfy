/** `ReactiveProperty<T>` (ReactiveProperty.cs): a value and an ordered list
    of subscribed actions, all notified synchronously on every `Set`.
    Actions are compared by delegate equality in the source (same target
    and method, which is what `List.Remove` uses); here an action is any
    value of a type `A` with equality, and a `null` action is `None`. */
module Reactive {
  import opened Wrappers
  import opened Seqs

  /** The property value and the subscriber list `_actions`. */
  datatype Property<T, A> = Property(value: T, actions: seq<Option<A>>)

  /** One invocation `action(value)`. */
  datatype Call<T, A> = Call(action: A, arg: T)

  /** `Set`'s effect: the updated property and the invocations, in order. */
  datatype Notified<T, A> = Notified(property: Property<T, A>, calls: seq<Call<T, A>>)

  /** A fresh property: the type's default value and no subscribers. */
  function Create<T, A>(default: T): (p: Property<T, A>)
    ensures p.value == default && p.actions == []
  {
    Property(default, [])
  }

  /** `Subscribe`: `_actions.Add(action)`. */
  function Subscribe<T, A>(p: Property<T, A>, action: Option<A>): (r: Property<T, A>)
    ensures r.value == p.value
    ensures |r.actions| == |p.actions| + 1 && r.actions[..|p.actions|] == p.actions
    ensures r.actions[|p.actions|] == action
  {
    Property(p.value, p.actions + [action])
  }

  /** `Dispose`: `_actions.Remove(action)`, which drops the first occurrence
      only and does nothing when `action` is not subscribed. */
  function Dispose<T, A(==)>(p: Property<T, A>, action: Option<A>): (r: Property<T, A>)
    ensures r.value == p.value
    ensures action !in p.actions ==> r == p
    ensures action in p.actions ==> |r.actions| == |p.actions| - 1
    ensures action in p.actions ==>
      exists i :: 0 <= i < |p.actions| && p.actions[i] == action && action !in p.actions[..i]
                && r.actions == p.actions[..i] + p.actions[i + 1..]
  {
    Property(p.value, RemoveFirst(p.actions, action))
  }

  /** `NotifySubscribers`: `foreach (action in _actions) action?.Invoke(value)`;
      a `null` entry is skipped. */
  function Notify<T, A>(actions: seq<Option<A>>, value: T): (calls: seq<Call<T, A>>)
    ensures |calls| <= |actions|
    ensures forall c :: c in calls ==> c.arg == value && Some(c.action) in actions
    ensures forall i :: 0 <= i < |actions| && actions[i].Some? ==>
              Count(calls, Call(actions[i].value, value)) == Count(actions, actions[i])
    decreases |actions|
  {
    if actions == [] then []
    else
      var rest := Notify(actions[1..], value);
      assert forall c :: c in rest ==> Some(c.action) in actions by {
        assert forall x :: x in actions[1..] ==> x in actions;
      }
      match actions[0]
      case None => rest
      case Some(b) =>
        assert ([Call(b, value)] + rest)[1..] == rest;
        [Call(b, value)] + rest
  }

  /** `Set`: store the value, then notify. There is no comparison with the
      previous value. */
  function Set<T, A>(p: Property<T, A>, value: T): (r: Notified<T, A>)
    ensures r.property.value == value && r.property.actions == p.actions
  {
    Notified(Property(value, p.actions), Notify(p.actions, value))
  }

  /** Reading the property after `Set(v)` gives `v`, whatever was there before. */
  lemma {:induction false} GetAfterSet<T, A>(p: Property<T, A>, v: T, w: T)
    ensures Set(p, v).property.value == v
    ensures Set(Set(p, w).property, v).property == Set(p, v).property
  {
  }

  /** Every non-null subscriber is called with the new value exactly as many
      times as it occurs in the list. */
  lemma {:induction false} NotifyCounts<T, A>(actions: seq<Option<A>>, value: T, a: A)
    ensures Count(Notify(actions, value), Call(a, value)) == Count(actions, Some(a))
  {
  }

  /** The calls are made in subscription order: the i-th call is made by the
      i-th non-null subscriber. */
  lemma {:induction false} NotifyInOrder<T, A>(actions: seq<Option<A>>, value: T)
    ensures Notify(actions, value) == Called(NonNull(actions), value)
    decreases |actions|
  {
    if actions != [] {
      NotifyInOrder(actions[1..], value);
      match actions[0]
      case None =>
      case Some(a) =>
        assert ([a] + NonNull(actions[1..]))[1..] == NonNull(actions[1..]);
    }
  }

  /** The non-null subscribers, in list order. */
  function NonNull<A>(actions: seq<Option<A>>): seq<A>
    decreases |actions|
  {
    if actions == [] then []
    else (if actions[0].Some? then [actions[0].value] else []) + NonNull(actions[1..])
  }

  /** One call per element of `actions`, in order. */
  function Called<T, A>(actions: seq<A>, value: T): (calls: seq<Call<T, A>>)
    ensures |calls| == |actions|
    ensures forall i :: 0 <= i < |actions| ==> calls[i] == Call(actions[i], value)
  {
    seq(|actions|, i requires 0 <= i < |actions| => Call(actions[i], value))
  }

  /** Setting the value a property already holds still notifies everyone. */
  lemma {:induction false} SetSameValueNotifies<T, A>(p: Property<T, A>, a: A)
    requires Some(a) in p.actions
    ensures Set(p, p.value).property == p
    ensures Call(a, p.value) in Set(p, p.value).calls
  {
    NotifyCounts(p.actions, p.value, a);
  }

  /** Subscribing the same action twice makes it be called twice per `Set`. */
  lemma {:induction false} SubscribeTwice<T, A>(p: Property<T, A>, a: A, v: T)
    requires Some(a) !in p.actions
    ensures Count(Set(Subscribe(Subscribe(p, Some(a)), Some(a)), v).calls, Call(a, v)) == 2
  {
    var actions := p.actions + [Some(a)] + [Some(a)];
    NotifyCounts(actions, v, a);
    CountAppend(p.actions + [Some(a)], [Some(a)], Some(a));
    CountAppend(p.actions, [Some(a)], Some(a));
    assert Count([Some(a)], Some(a)) == 1 by {
      assert [Some(a)][1..] == [];
    }
  }

  /** `Dispose` takes out the first occurrence of the action and keeps every
      other subscription, in order. */
  lemma {:induction false} DisposeOne<T, A>(p: Property<T, A>, action: Option<A>, other: Option<A>)
    requires action in p.actions
    ensures Count(Dispose(p, action).actions, action) == Count(p.actions, action) - 1
    ensures other != action ==> Count(Dispose(p, action).actions, other) == Count(p.actions, other)
    ensures Dispose(p, action).actions == p.actions[..IndexOf(p.actions, action)] + p.actions[IndexOf(p.actions, action) + 1..]
  {
    var i := IndexOf(p.actions, action);
    assert p.actions == p.actions[..i] + [action] + p.actions[i + 1..];
    CountAppend(p.actions[..i] + [action], p.actions[i + 1..], action);
    CountAppend(p.actions[..i], [action], action);
    CountAppend(p.actions[..i], p.actions[i + 1..], action);
    CountAppend(p.actions[..i] + [action], p.actions[i + 1..], other);
    CountAppend(p.actions[..i], [action], other);
    CountAppend(p.actions[..i], p.actions[i + 1..], other);
    assert [action][1..] == [];
  }

  /** Subscribing a new action and disposing it restores the property. */
  lemma {:induction false} SubscribeDisposeRoundTrip<T, A>(p: Property<T, A>, action: Option<A>)
    requires action !in p.actions
    ensures Dispose(Subscribe(p, action), action) == p
  {
    var s := p.actions + [action];
    assert s[..|p.actions|] == p.actions;
    assert s[|p.actions| + 1..] == [];
  }
}
