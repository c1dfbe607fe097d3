/**
 * The key registry as values: what one `new StaticString(...)` does to the
 * shared `seen` table (domain -> key -> stored entry) and to the log of
 * deferred `register(domain, key)` jobs handed to the scheduler.
 */
module Interning {
  import opened Js

  /** The four fields of a StaticString, after argument normalisation. */
  datatype Entry = Entry(domain: Value, key: Value, placeholders: Value, defaults: Value) {
    /** The property keys the entry is filed under in `seen`. */
    function Slot(): (string, string) { SlotOf(domain, key) }
  }

  /** One deferred `register(domain, key)` call. */
  datatype Registration = Registration(domain: Value, key: Value) {
    function Slot(): (string, string) { SlotOf(domain, key) }
  }

  /** The registry: the `seen` table and the registrations scheduled so far, in order. */
  datatype State = State(seen: map<string, map<string, Entry>>, scheduled: seq<Registration>)

  const INIT := State(map[], [])

  /** `seen[domain][key]` is addressed with the property keys of the domain and the key. */
  function SlotOf(domain: Value, key: Value): (string, string) {
    (ToStr(domain), ToStr(key))
  }

  /**
   * Argument normalisation: when `key` is not a string, every argument moves
   * one place to the right and the domain becomes "default".
   */
  function Normalize(domain: Value, key: Value, placeholders: Value, defaults: Value): Entry {
    if key.Str? then Entry(domain, key, placeholders, defaults)
    else Entry(Str("default"), domain, key, placeholders)
  }

  predicate Has<V>(seen: map<string, map<string, V>>, d: string, k: string) {
    d in seen && k in seen[d]
  }

  /** `seen[d]` is created when missing, then `seen[d][k]` is set. */
  function Intern<V>(seen: map<string, map<string, V>>, d: string, k: string, v: V): (r: map<string, map<string, V>>)
    ensures Has(r, d, k) && r[d][k] == v
    ensures r.Keys == seen.Keys + {d}
    ensures forall d', k' :: (d', k') != (d, k) ==> (Has(r, d', k') <==> Has(seen, d', k'))
    ensures forall d', k' :: (d', k') != (d, k) && Has(seen, d', k') ==> Has(r, d', k') && r[d'][k'] == seen[d'][k']
  {
    seen[d := (if d in seen then seen[d] else map[])[k := v]]
  }

  /** The number of scheduled registrations for the slot (d, k). */
  function Count(scheduled: seq<Registration>, d: string, k: string): nat {
    if scheduled == [] then 0
    else Count(scheduled[..|scheduled| - 1], d, k) + (if scheduled[|scheduled| - 1].Slot() == (d, k) then 1 else 0)
  }

  /** Every slot in `seen` has exactly one registration scheduled, every other slot none. */
  ghost predicate ScheduledOnce<V>(seen: map<string, map<string, V>>, scheduled: seq<Registration>) {
    forall d, k :: Count(scheduled, d, k) == if Has(seen, d, k) then 1 else 0
  }

  /** The registry's invariant: entries are filed under their own slot, and scheduled once. */
  ghost predicate Inv(s: State) {
    && (forall d, k :: Has(s.seen, d, k) ==> s.seen[d][k].Slot() == (d, k))
    && ScheduledOnce(s.seen, s.scheduled)
  }

  /**
   * Interning and scheduling: a new slot stores `c` and schedules one
   * registration; a slot already there is left as it is.
   */
  function Enter(s: State, c: Entry): (r: State)
    ensures Has(r.seen, c.Slot().0, c.Slot().1)
  {
    var (d, k) := c.Slot();
    if Has(s.seen, d, k) then s
    else State(Intern(s.seen, d, k, c), s.scheduled + [Registration(c.domain, c.key)])
  }

  /** The defaults merge: the stored entry takes `defaults` when those are truthy and it has none. */
  function MergeDefaults(s: State, d: string, k: string, defaults: Value): State
    requires Has(s.seen, d, k)
  {
    var stored := s.seen[d][k];
    if Truthy(defaults) && !Truthy(stored.defaults)
    then s.(seen := Intern(s.seen, d, k, stored.(defaults := defaults)))
    else s
  }

  /** One construction `new StaticString(...)` with normalised arguments `c`. */
  function Step(s: State, c: Entry): State {
    MergeDefaults(Enter(s, c), c.Slot().0, c.Slot().1, c.defaults)
  }

  /** A sequence of constructions, in order. */
  function Run(s: State, calls: seq<Entry>): State
    decreases |calls|
  {
    if calls == [] then s else Step(Run(s, calls[..|calls| - 1]), calls[|calls| - 1])
  }

  /** The entry's identity: everything except the mergeable defaults. */
  function Identity(e: Entry): (Value, Value, Value) {
    (e.domain, e.key, e.placeholders)
  }

  /** Some call in `calls` is filed under (d, k). */
  predicate Requested(calls: seq<Entry>, d: string, k: string) {
    exists i :: 0 <= i < |calls| && calls[i].Slot() == (d, k)
  }

  // ----- Argument normalisation -----

  /** The result is always in the domain given, or in "default" with the first argument as key. */
  lemma NormalizeShape(domain: Value, key: Value, placeholders: Value, defaults: Value)
    ensures var e := Normalize(domain, key, placeholders, defaults);
      (key.Str? ==> e == Entry(domain, key, placeholders, defaults)) &&
      (!key.Str? ==> e.domain == Str("default") && e.key == domain && e.placeholders == key && e.defaults == placeholders)
  {
  }

  /**
   * The domain-omitted call shape `(key, placeholders)` means the same as the
   * explicit `("default", key, placeholders)`.
   */
  lemma DefaultDomainShape(key: string, placeholders: Value, extra: Value)
    requires !placeholders.Str?
    ensures Normalize(Str(key), placeholders, extra, Undefined) == Normalize(Str("default"), Str(key), placeholders, extra)
  {
  }

  /**
   * `__def(key, defaults)` with the domain left out hands the defaults to
   * the constructor in the key position, so they become the placeholders and
   * the defaults are the `null` that `__def` passes.
   */
  lemma DefWithoutDomain(key: string, defaults: Value)
    requires !defaults.Str?
    ensures Normalize(Str(key), defaults, Null, Undefined) == Entry(Str("default"), Str(key), defaults, Null)
  {
  }

  // ----- One construction -----

  lemma CountSnoc(scheduled: seq<Registration>, r: Registration, d: string, k: string)
    ensures Count(scheduled + [r], d, k) == Count(scheduled, d, k) + (if r.Slot() == (d, k) then 1 else 0)
  {
  }

  /** Nested maps with the same rows and the same slots holding the same values are equal. */
  lemma NestedExt<V>(a: map<string, map<string, V>>, b: map<string, map<string, V>>)
    requires a.Keys == b.Keys
    requires forall d, k :: Has(a, d, k) <==> Has(b, d, k)
    requires forall d, k :: Has(a, d, k) && Has(b, d, k) ==> a[d][k] == b[d][k]
    ensures a == b
  {
    forall d | d in a ensures a[d] == b[d] {
      forall k ensures k in a[d] <==> k in b[d] {
        assert Has(a, d, k) <==> Has(b, d, k);
      }
      assert a[d].Keys == b[d].Keys;
    }
  }

  /** Filing a new slot and scheduling one registration for it keeps every count right. */
  lemma ScheduleNew<V>(seen: map<string, map<string, V>>, scheduled: seq<Registration>, d: string, k: string, v: V, r: Registration)
    requires ScheduledOnce(seen, scheduled)
    requires !Has(seen, d, k) && r.Slot() == (d, k)
    ensures ScheduledOnce(Intern(seen, d, k, v), scheduled + [r])
  {
  }

  /** A construction defines its own slot and no other. */
  lemma StepSlots(s: State, c: Entry, d: string, k: string)
    ensures Has(Step(s, c).seen, d, k) <==> Has(s.seen, d, k) || c.Slot() == (d, k)
  {
  }

  /**
   * What one construction does: the slot is then defined; a registration is
   * scheduled exactly when the slot was new; a slot already there keeps its
   * domain, key and placeholders and takes the incoming defaults only when
   * they are truthy and it has none; every other slot is unchanged.
   */
  lemma StepEffect(s: State, c: Entry)
    ensures var t := Step(s, c); var (d, k) := c.Slot();
      && Has(t.seen, d, k)
      && t.scheduled == (if Has(s.seen, d, k) then s.scheduled else s.scheduled + [Registration(c.domain, c.key)])
      && Identity(t.seen[d][k]) == (if Has(s.seen, d, k) then Identity(s.seen[d][k]) else Identity(c))
      && (Has(s.seen, d, k) ==>
            t.seen[d][k].defaults ==
              if Truthy(c.defaults) && !Truthy(s.seen[d][k].defaults) then c.defaults else s.seen[d][k].defaults)
      && (!Has(s.seen, d, k) ==> t.seen[d][k] == c)
      && (forall d', k' :: (d', k') != (d, k) ==> (Has(t.seen, d', k') <==> Has(s.seen, d', k')))
      && (forall d', k' :: (d', k') != (d, k) && Has(s.seen, d', k') ==> t.seen[d'][k'] == s.seen[d'][k'])
  {
  }

  /** A construction keeps the invariant. */
  lemma StepInv(s: State, c: Entry)
    requires Inv(s)
    ensures Inv(Step(s, c))
  {
    var t := Step(s, c);
    var (d, k) := c.Slot();
    StepEffect(s, c);
    if !Has(s.seen, d, k) {
      ScheduleNew(s.seen, s.scheduled, d, k, c, Registration(c.domain, c.key));
    }
  }

  /** Constructing the same thing twice in a row is the same as constructing it once. */
  lemma StepIdempotent(s: State, c: Entry)
    ensures Step(Step(s, c), c) == Step(s, c)
  {
  }

  // ----- Sequences of constructions -----

  lemma RunSnoc(s: State, calls: seq<Entry>, c: Entry)
    ensures Run(s, calls + [c]) == Step(Run(s, calls), c)
  {
  }

  lemma RunAppend(s: State, calls: seq<Entry>, more: seq<Entry>)
    ensures Run(s, calls + more) == Run(Run(s, calls), more)
    decreases |more|
  {
    if more == [] {
      assert calls + more == calls;
    } else {
      assert (calls + more)[..|calls + more| - 1] == calls + more[..|more| - 1];
      RunAppend(s, calls, more[..|more| - 1]);
    }
  }

  lemma RunSplit(s: State, calls: seq<Entry>, n: nat)
    requires n <= |calls|
    ensures Run(s, calls) == Run(Run(s, calls[..n]), calls[n..])
  {
    assert calls[..n] + calls[n..] == calls;
    RunAppend(s, calls[..n], calls[n..]);
  }

  /** The invariant holds after any sequence of constructions. */
  lemma {:induction false} RunInv(s: State, calls: seq<Entry>)
    requires Inv(s)
    ensures Inv(Run(s, calls))
    decreases |calls|
  {
    if calls != [] {
      RunInv(s, calls[..|calls| - 1]);
      StepInv(Run(s, calls[..|calls| - 1]), calls[|calls| - 1]);
    }
  }

  /** Starting from an empty registry, exactly the requested slots are defined. */
  lemma {:induction false} RunSlots(calls: seq<Entry>, d: string, k: string)
    ensures Has(Run(INIT, calls).seen, d, k) <==> Requested(calls, d, k)
    decreases |calls|
  {
    if calls != [] {
      var front := calls[..|calls| - 1];
      var last := calls[|calls| - 1];
      RunSlots(front, d, k);
      StepSlots(Run(INIT, front), last, d, k);
      if Requested(front, d, k) {
        var i :| 0 <= i < |front| && front[i].Slot() == (d, k);
        assert calls[i] == front[i];
      }
    }
  }

  /**
   * Starting from an empty registry, every requested (domain, key) pair has
   * exactly one deferred registration scheduled, however often it was
   * requested, and no other pair has any.
   */
  lemma ScheduledExactlyOnce(calls: seq<Entry>, d: string, k: string)
    ensures Count(Run(INIT, calls).scheduled, d, k) == if Requested(calls, d, k) then 1 else 0
  {
    RunInv(INIT, calls);
    RunSlots(calls, d, k);
  }

  /** A stored entry keeps its domain, key and placeholders through any later constructions. */
  lemma {:induction false} RunKeepsIdentity(s: State, calls: seq<Entry>, d: string, k: string)
    requires Has(s.seen, d, k)
    ensures Has(Run(s, calls).seen, d, k)
    ensures Identity(Run(s, calls).seen[d][k]) == Identity(s.seen[d][k])
    decreases |calls|
  {
    if calls != [] {
      RunKeepsIdentity(s, calls[..|calls| - 1], d, k);
      StepEffect(Run(s, calls[..|calls| - 1]), calls[|calls| - 1]);
    }
  }

  /** Right after the first construction asking for its slot, that slot holds it. */
  lemma FirstRequestStored(calls: seq<Entry>, i: nat, d: string, k: string)
    requires i < |calls| && calls[i].Slot() == (d, k)
    requires forall j :: 0 <= j < i ==> calls[j].Slot() != (d, k)
    ensures Has(Run(INIT, calls[..i + 1]).seen, d, k) && Run(INIT, calls[..i + 1]).seen[d][k] == calls[i]
  {
    var before := calls[..i];
    assert calls[..i + 1] == before + [calls[i]];
    assert !Requested(before, d, k) by {
      forall j | 0 <= j < |before| ensures before[j].Slot() != (d, k) {
        assert before[j] == calls[j];
      }
    }
    RunSlots(before, d, k);
    RunSnoc(INIT, before, calls[i]);
    StepEffect(Run(INIT, before), calls[i]);
  }

  /**
   * Interning: the entry stored for a pair is the first construction that
   * asked for it; later constructions never replace it.
   */
  lemma FirstConstructionWins(calls: seq<Entry>, i: nat, d: string, k: string)
    requires i < |calls| && calls[i].Slot() == (d, k)
    requires forall j :: 0 <= j < i ==> calls[j].Slot() != (d, k)
    ensures Has(Run(INIT, calls).seen, d, k) && Identity(Run(INIT, calls).seen[d][k]) == Identity(calls[i])
  {
    FirstRequestStored(calls, i, d, k);
    RunKeepsIdentity(Run(INIT, calls[..i + 1]), calls[i + 1..], d, k);
    RunSplit(INIT, calls, i + 1);
  }

  /**
   * First write wins: once a stored entry has truthy defaults, no later
   * construction changes anything about it.
   */
  lemma {:induction false} DefaultsNeverOverwritten(s: State, calls: seq<Entry>, d: string, k: string)
    requires Has(s.seen, d, k) && Truthy(s.seen[d][k].defaults)
    ensures Has(Run(s, calls).seen, d, k) && Run(s, calls).seen[d][k] == s.seen[d][k]
    decreases |calls|
  {
    if calls != [] {
      DefaultsNeverOverwritten(s, calls[..|calls| - 1], d, k);
      StepEffect(Run(s, calls[..|calls| - 1]), calls[|calls| - 1]);
    }
  }
}
