/**
 * The StaticString constructor and the process-wide `seen` registry it
 * updates in place, with the `__` and `__def` wrappers.
 */
module StaticStrings {
  import opened Js
  import opened Interning

  /** One handle, built fresh by every construction. */
  class StaticString {
    const domain: Value
    const key: Value
    const placeholders: Value
    var defaults: Value

    function Slot(): (string, string) { SlotOf(domain, key) }

    ghost function View(): Entry
      reads this
    {
      Entry(domain, key, placeholders, defaults)
    }

    /**
     * `new StaticString(domain, key, placeholders, defaults)`: normalise the
     * arguments, intern the first handle built for the pair (scheduling its
     * registration), and merge the defaults into the stored handle.
     */
    constructor (reg: Registry, domain: Value, key: Value, placeholders: Value, defaults: Value)
      requires reg.Valid()
      modifies reg, reg.Handles()
      ensures reg.Valid()
      ensures reg.Handles() <= old(reg.Handles()) + {this}
      ensures View() == Normalize(domain, key, placeholders, defaults)
      ensures reg.Abstract() == Step(old(reg.Abstract()), View())
      ensures var (d, k) := Slot();
        reg.seen == if Has(old(reg.seen), d, k) then old(reg.seen) else Intern(old(reg.seen), d, k, this)
    {
      var d, k, p, df := domain, key, placeholders, defaults;
      if !key.Str? {
        df := placeholders;
        p := key;
        k := domain;
        d := Str("default");
      }
      this.domain := d;
      this.key := k;
      this.placeholders := p;
      this.defaults := df;
      new;
      ghost var before := reg.Abstract();
      assert before == old(reg.Abstract()) by {
        assert unchanged(reg.Handles());
      }
      var (sd, sk) := SlotOf(d, k);
      if !Has(reg.seen, sd, sk) {
        // Interned before anything is deferred, so a repeat sees this handle.
        reg.Store(this);
      } else {
        assert reg.seen[sd][sk] in old(reg.Handles());
      }
      ghost var view := View();
      ghost var mid := reg.Abstract();
      ghost var stored := reg.seen[sd][sk];
      assert mid == Enter(before, view);
      assert reg.Handles() <= old(reg.Handles()) + {this};
      reg.Merge(sd, sk, df);
      assert View() == view by {
        if stored == this {
          assert this.defaults == df;
        }
      }
      assert reg.Abstract() == Step(before, view);
    }
  }

  /** Every handle in `m` is filed under its own slot. */
  ghost predicate Filed(m: map<string, map<string, StaticString>>) {
    forall d, k :: Has(m, d, k) ==> m[d][k].Slot() == (d, k)
  }

  lemma FiledIntern(m: map<string, map<string, StaticString>>, h: StaticString)
    requires Filed(m)
    ensures Filed(Intern(m, h.Slot().0, h.Slot().1, h))
  {
  }

  /** The handles filed in a `seen` table. */
  ghost function HandlesOf(m: map<string, map<string, StaticString>>): set<StaticString> {
    set d, k | d in m && k in m[d] :: m[d][k]
  }

  /** A `seen` table as values: each stored handle's current fields. */
  ghost function Views(m: map<string, map<string, StaticString>>): map<string, map<string, Entry>>
    reads HandlesOf(m)
  {
    map d | d in m :: map k | k in m[d] :: m[d][k].View()
  }

  lemma ViewsAt(m: map<string, map<string, StaticString>>)
    ensures Views(m).Keys == m.Keys
    ensures forall d, k :: Has(Views(m), d, k) <==> Has(m, d, k)
    ensures forall d, k :: Has(m, d, k) ==> Views(m)[d][k] == m[d][k].View()
  {
  }

  /** Creating the row when it is missing, then setting the slot, is `Intern`. */
  lemma RowThenSlot<V>(m: map<string, map<string, V>>, d: string, k: string, v: V)
    ensures var m1 := if d in m then m else m[d := map[]]; m1[d := m1[d][k := v]] == Intern(m, d, k, v)
  {
  }

  /** The views depend on the stored handles' fields only. */
  twostate lemma ViewsFramed(m: map<string, map<string, StaticString>>)
    requires unchanged(HandlesOf(m))
    ensures Views(m) == old(Views(m))
  {
  }

  lemma HandlesIntern(m: map<string, map<string, StaticString>>, d: string, k: string, h: StaticString)
    requires !Has(m, d, k)
    ensures HandlesOf(Intern(m, d, k, h)) == HandlesOf(m) + {h}
  {
  }

  lemma ViewsIntern(m: map<string, map<string, StaticString>>, d: string, k: string, h: StaticString)
    ensures Views(Intern(m, d, k, h)) == Intern(Views(m), d, k, h.View())
  {
    var m1 := Intern(m, d, k, h);
    var now, want := Views(m1), Intern(Views(m), d, k, h.View());
    ViewsAt(m);
    ViewsAt(m1);
    forall d', k' | Has(now, d', k') && Has(want, d', k') ensures now[d'][k'] == want[d'][k'] {
      if (d', k') != (d, k) {
        assert m1[d'][k'] == m[d'][k'];
      }
    }
    NestedExt(now, want);
  }

  /** When only the handle in slot (d, k) may differ from `snap`, the views are `snap` with that slot renewed. */
  lemma ViewsOneChanged(m: map<string, map<string, StaticString>>, snap: map<string, map<string, Entry>>, d: string, k: string)
    requires Has(m, d, k)
    requires snap.Keys == m.Keys
    requires forall d', k' :: Has(snap, d', k') <==> Has(m, d', k')
    requires forall d', k' :: Has(m, d', k') && (d', k') != (d, k) ==> Has(snap, d', k') && snap[d'][k'] == m[d'][k'].View()
    ensures Views(m) == Intern(snap, d, k, m[d][k].View())
  {
    ViewsAt(m);
    NestedExt(Views(m), Intern(snap, d, k, m[d][k].View()));
  }

  /**
   * The shared `seen` table, domain -> key -> the first handle built for that
   * pair, with the deferred `register(domain, key)` jobs scheduled so far in
   * the order they were handed to the scheduler.
   */
  class Registry {
    var seen: map<string, map<string, StaticString>>
    var scheduled: seq<Registration>

    ghost predicate Valid()
      reads this
    {
      && Filed(seen)
      && ScheduledOnce(seen, scheduled)
    }

    ghost function Handles(): set<StaticString>
      reads this
    {
      HandlesOf(seen)
    }

    /** The registry as values: each stored handle's fields. */
    ghost function Abstract(): State
      reads this, Handles()
    {
      State(Views(seen), scheduled)
    }

    constructor ()
      ensures Valid() && Abstract() == INIT
    {
      seen := map[];
      scheduled := [];
    }

    /**
     * Files a handle under its still free slot, creating the domain's row when
     * it is missing, and hands its `register(domain, key)` job to the scheduler.
     */
    method Store(h: StaticString)
      requires Valid()
      requires !Has(seen, h.Slot().0, h.Slot().1)
      modifies this
      ensures Valid()
      ensures Handles() == old(Handles()) + {h}
      ensures seen == Intern(old(seen), h.Slot().0, h.Slot().1, h)
      ensures scheduled == old(scheduled) + [Registration(h.domain, h.key)]
      ensures Abstract() == Enter(old(Abstract()), h.View())
    {
      var (d, k) := h.Slot();
      ghost var seen0 := seen;
      ViewsIntern(seen0, d, k, h);
      HandlesIntern(seen0, d, k, h);
      ScheduleNew(seen0, scheduled, d, k, h, Registration(h.domain, h.key));
      FiledIntern(seen0, h);
      RowThenSlot(seen0, d, k, h);
      if d !in seen {
        seen := seen[d := map[]];
      }
      seen := seen[d := seen[d][k := h]];
      scheduled := scheduled + [Registration(h.domain, h.key)];
      ViewsFramed(seen);
    }

    /** The defaults merge onto the stored handle of slot (d, k). */
    method Merge(d: string, k: string, defaults: Value)
      requires Valid() && Has(seen, d, k)
      modifies seen[d][k]
      ensures Valid() && seen == old(seen) && scheduled == old(scheduled)
      ensures seen[d][k].defaults
        == if Truthy(defaults) && !Truthy(old(seen[d][k].defaults)) then defaults else old(seen[d][k].defaults)
      ensures Abstract() == MergeDefaults(old(Abstract()), d, k, defaults)
    {
      var stored := seen[d][k];
      ghost var before := Abstract();
      ViewsAt(seen);
      if Truthy(defaults) && !Truthy(stored.defaults) {
        stored.defaults := defaults;
        ViewsOneChanged(seen, before.seen, d, k);
      }
    }

    /** The abstract view keeps the registry's invariant. */
    lemma AbstractInv()
      requires Valid()
      ensures Inv(Abstract())
    {
    }
  }

  /** `__(domain, key, params)`: a handle with the given placeholders and no defaults. */
  method Translate(reg: Registry, domain: Value, key: Value, params: Value) returns (h: StaticString)
    requires reg.Valid()
    modifies reg, reg.Handles()
    ensures reg.Valid() && fresh(h) && reg.Handles() <= old(reg.Handles()) + {h}
    ensures h.View() == Normalize(domain, key, params, Undefined)
    ensures reg.Abstract() == Step(old(reg.Abstract()), h.View())
    ensures var (d, k) := h.Slot();
      reg.seen == if Has(old(reg.seen), d, k) then old(reg.seen) else Intern(old(reg.seen), d, k, h)
  {
    h := new StaticString(reg, domain, key, params, Undefined);
  }

  /** `__def(domain, key, defaults)`: a handle with null placeholders and the given defaults. */
  method TranslateDef(reg: Registry, domain: Value, key: Value, defaults: Value) returns (h: StaticString)
    requires reg.Valid()
    modifies reg, reg.Handles()
    ensures reg.Valid() && fresh(h) && reg.Handles() <= old(reg.Handles()) + {h}
    ensures h.View() == Normalize(domain, key, Null, defaults)
    ensures reg.Abstract() == Step(old(reg.Abstract()), h.View())
    ensures var (d, k) := h.Slot();
      reg.seen == if Has(old(reg.seen), d, k) then old(reg.seen) else Intern(old(reg.seen), d, k, h)
  {
    h := new StaticString(reg, domain, key, Null, defaults);
  }
}
