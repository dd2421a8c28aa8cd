/** The schema registry: the name -> ArgConfig map that add_argument builds,
    and the slot numbering it gives positional arguments. */
module Registry {
  import opened ArgTypes
  import opened StringOrder

  type Specs = map<string, ArgConfig>

  /** Every name of order is registered. */
  predicate Covers(specs: Specs, order: seq<string>)
  {
    forall i :: 0 <= i < |order| ==> order[i] in specs
  }

  /** How many of the first k registered names are positional. */
  function PositionalAmong(specs: Specs, order: seq<string>, k: nat): nat
    requires k <= |order| && Covers(specs, order)
  {
    if k == 0 then 0
    else PositionalAmong(specs, order, k - 1)
         + (if specs[order[k - 1]].importance == Positional then 1 else 0)
  }

  /** The i-th registration carries its own name, and slot 1 + (the positional
      registrations before it) if positional, -1 if optional. */
  predicate SlotFollowsOrder(specs: Specs, order: seq<string>, i: nat)
    requires i < |order| && Covers(specs, order)
  {
    var c := specs[order[i]];
    && c.name == order[i]
    && (if c.importance == Positional then c.pos == PositionalAmong(specs, order, i) + 1
        else c.pos == -1)
  }

  /** What a sequence of successful add_argument calls, in the order `order`,
      leaves in the registry and its two counters. */
  ghost predicate Registered(specs: Specs, order: seq<string>, positionalCount: nat, optionalCount: nat)
  {
    && Distinct(order)
    && (forall n :: n in specs <==> n in order)
    && Covers(specs, order)
    && positionalCount == PositionalAmong(specs, order, |order|)
    && positionalCount + optionalCount == |order|
    && (forall i :: 0 <= i < |order| ==> SlotFollowsOrder(specs, order, i))
  }

  /** The slot a new registration receives. */
  function NextSlot(importance: ArgImportance, positionalCount: nat): int
  {
    if importance == Positional then positionalCount + 1 else -1
  }

  /** The registry after a successful add_argument call. */
  function Register(specs: Specs, positionalCount: nat, name: string, help: string,
                    argType: ArgType, importance: ArgImportance,
                    behavior: ArgSpecialBehavior): (r: Specs)
    ensures r.Keys == specs.Keys + {name}
    ensures forall n :: n in specs && n != name ==> r[n] == specs[n]
  {
    specs[name := NewArgConfig(name, help, argType, importance, behavior,
                               NextSlot(importance, positionalCount))]
  }

  lemma {:induction false} PositionalAmongFrame(specs: Specs, order: seq<string>, specs': Specs,
                                                order': seq<string>, k: nat)
    requires Covers(specs, order) && Covers(specs', order')
    requires k <= |order| && k <= |order'| && order[..k] == order'[..k]
    requires forall i :: 0 <= i < k ==> specs[order[i]].importance == specs'[order[i]].importance
    ensures PositionalAmong(specs, order, k) == PositionalAmong(specs', order', k)
  {
    if k > 0 {
      assert order[..k - 1] == order[..k][..k - 1] && order'[..k - 1] == order'[..k][..k - 1];
      assert order[k - 1] == order[..k][k - 1] && order'[k - 1] == order'[..k][k - 1];
      PositionalAmongFrame(specs, order, specs', order', k - 1);
    }
  }

  /** A successful registration keeps the slot numbering: the new name goes
      last in registration order, and a positional one takes the next slot. */
  lemma RegisterKeepsSlots(specs: Specs, order: seq<string>, pc: nat, oc: nat, name: string,
                           help: string, argType: ArgType, importance: ArgImportance,
                           behavior: ArgSpecialBehavior)
    requires Registered(specs, order, pc, oc) && name !in specs
    ensures Registered(Register(specs, pc, name, help, argType, importance, behavior),
                       order + [name],
                       if importance == Positional then pc + 1 else pc,
                       if importance == Optional then oc + 1 else oc)
  {
    var specs' := Register(specs, pc, name, help, argType, importance, behavior);
    var order' := order + [name];
    assert Covers(specs', order');
    RegisterKeepsAmong(specs, order, pc, oc, name, help, argType, importance, behavior);
    RegisterKeepsSlotOrder(specs, order, pc, oc, name, help, argType, importance, behavior);
    assert forall n :: n in specs' <==> n in order';
    assert PositionalAmong(specs', order', |order'|)
        == PositionalAmong(specs', order', |order|) + (if importance == Positional then 1 else 0);
  }

  /** Every registration, the new one included, carries its name and slot. */
  lemma RegisterKeepsSlotOrder(specs: Specs, order: seq<string>, pc: nat, oc: nat, name: string,
                               help: string, argType: ArgType, importance: ArgImportance,
                               behavior: ArgSpecialBehavior)
    requires Registered(specs, order, pc, oc) && name !in specs
    ensures Covers(Register(specs, pc, name, help, argType, importance, behavior), order + [name])
    ensures forall i | 0 <= i < |order| + 1 ::
              SlotFollowsOrder(Register(specs, pc, name, help, argType, importance, behavior), order + [name], i)
  {
    var specs' := Register(specs, pc, name, help, argType, importance, behavior);
    var order' := order + [name];
    RegisterKeepsAmong(specs, order, pc, oc, name, help, argType, importance, behavior);
    forall i | 0 <= i < |order'| ensures SlotFollowsOrder(specs', order', i) {
      if i < |order| {
        assert order'[i] == order[i];
        assert SlotFollowsOrder(specs, order, i);
      }
    }
  }

  /** The earlier registrations count the same positional predecessors
      after a new name is appended. */
  lemma RegisterKeepsAmong(specs: Specs, order: seq<string>, pc: nat, oc: nat, name: string,
                           help: string, argType: ArgType, importance: ArgImportance,
                           behavior: ArgSpecialBehavior)
    requires Registered(specs, order, pc, oc) && name !in specs
    ensures Covers(Register(specs, pc, name, help, argType, importance, behavior), order + [name])
    ensures forall k | 0 <= k <= |order| ::
              PositionalAmong(specs, order, k)
              == PositionalAmong(Register(specs, pc, name, help, argType, importance, behavior), order + [name], k)
  {
    var specs' := Register(specs, pc, name, help, argType, importance, behavior);
    var order' := order + [name];
    assert Covers(specs', order');
    forall k | 0 <= k <= |order| ensures PositionalAmong(specs, order, k) == PositionalAmong(specs', order', k) {
      assert order[..k] == order'[..k];
      PositionalAmongFrame(specs, order, specs', order', k);
    }
  }

  /** Later registrations never see fewer positional predecessors. */
  lemma {:induction false} PositionalAmongGrows(specs: Specs, order: seq<string>, i: nat, j: nat)
    requires Covers(specs, order) && i < j <= |order|
    ensures PositionalAmong(specs, order, i) + (if specs[order[i]].importance == Positional then 1 else 0)
            <= PositionalAmong(specs, order, j)
    decreases j - i
  {
    if i + 1 < j {
      PositionalAmongGrows(specs, order, i + 1, j);
    }
  }

  /** Every count up to PositionalAmong(k) is reached just before a positional
      registration among the first k. */
  lemma {:induction false} PositionalAmongReaches(specs: Specs, order: seq<string>, k: nat, p: nat)
    requires Covers(specs, order) && k <= |order| && p < PositionalAmong(specs, order, k)
    ensures exists i :: 0 <= i < k && specs[order[i]].importance == Positional
                        && PositionalAmong(specs, order, i) == p
  {
    if p < PositionalAmong(specs, order, k - 1) {
      PositionalAmongReaches(specs, order, k - 1, p);
    } else {
      assert specs[order[k - 1]].importance == Positional;
    }
  }

  /** Some positional argument holds slot p. */
  ghost predicate SlotTaken(specs: Specs, p: int)
  {
    exists n :: n in specs && specs[n].importance == Positional && specs[n].pos == p
  }

  /** Every positional slot lies in 1..positionalCount. */
  lemma SlotsWithinCount(specs: Specs, order: seq<string>, pc: nat, oc: nat)
    requires Registered(specs, order, pc, oc)
    ensures forall n :: n in specs && specs[n].importance == Positional ==> 1 <= specs[n].pos <= pc
  {
    forall n | n in specs && specs[n].importance == Positional ensures 1 <= specs[n].pos <= pc {
      var i :| 0 <= i < |order| && order[i] == n;
      assert SlotFollowsOrder(specs, order, i);
      PositionalAmongGrows(specs, order, i, |order|);
    }
  }

  /** Optional arguments carry no slot. */
  lemma OptionalSlotsUnset(specs: Specs, order: seq<string>, pc: nat, oc: nat)
    requires Registered(specs, order, pc, oc)
    ensures forall n :: n in specs && specs[n].importance == Optional ==> specs[n].pos == -1
  {
    forall n | n in specs && specs[n].importance == Optional ensures specs[n].pos == -1 {
      var i :| 0 <= i < |order| && order[i] == n;
      assert SlotFollowsOrder(specs, order, i);
    }
  }

  /** Slots increase in registration order. */
  lemma SlotsIncreaseInOrder(specs: Specs, order: seq<string>, pc: nat, oc: nat)
    requires Registered(specs, order, pc, oc)
    ensures forall i, j ::
              (0 <= i < j < |order| && specs[order[i]].importance == Positional
               && specs[order[j]].importance == Positional)
              ==> specs[order[i]].pos < specs[order[j]].pos
  {
    forall i, j | 0 <= i < j < |order| && specs[order[i]].importance == Positional
      && specs[order[j]].importance == Positional
      ensures specs[order[i]].pos < specs[order[j]].pos
    {
      assert SlotFollowsOrder(specs, order, i) && SlotFollowsOrder(specs, order, j);
      PositionalAmongGrows(specs, order, i, j);
    }
  }

  /** No two positional arguments share a slot. */
  lemma SlotsDistinct(specs: Specs, order: seq<string>, pc: nat, oc: nat)
    requires Registered(specs, order, pc, oc)
    ensures forall n1, n2 ::
              (n1 in specs && n2 in specs && n1 != n2
               && specs[n1].importance == Positional && specs[n2].importance == Positional)
              ==> specs[n1].pos != specs[n2].pos
  {
    forall n1, n2 | n1 in specs && n2 in specs && n1 != n2
      && specs[n1].importance == Positional && specs[n2].importance == Positional
      ensures specs[n1].pos != specs[n2].pos
    {
      var i :| 0 <= i < |order| && order[i] == n1;
      var j :| 0 <= j < |order| && order[j] == n2;
      assert SlotFollowsOrder(specs, order, i) && SlotFollowsOrder(specs, order, j);
      if i < j { PositionalAmongGrows(specs, order, i, j); }
      else { PositionalAmongGrows(specs, order, j, i); }
    }
  }

  /** Every slot in 1..positionalCount is held by some positional argument. */
  lemma SlotsCovered(specs: Specs, order: seq<string>, pc: nat, oc: nat)
    requires Registered(specs, order, pc, oc)
    ensures forall p :: 1 <= p <= pc ==> SlotTaken(specs, p)
  {
    forall p | 1 <= p <= pc ensures SlotTaken(specs, p) {
      PositionalAmongReaches(specs, order, |order|, p - 1);
      var i :| 0 <= i < |order| && specs[order[i]].importance == Positional
               && PositionalAmong(specs, order, i) == p - 1;
      assert SlotFollowsOrder(specs, order, i);
    }
  }

  /** The record with what the binding passes write cleared. */
  function Unbound(c: ArgConfig): ArgConfig
  {
    c.(isSet := false, strValue := "")
  }

  /** b holds the same registrations as a; only bindings may differ. */
  predicate SameSchema(a: Specs, b: Specs)
  {
    a.Keys == b.Keys && forall n {:trigger Unbound(b[n])} :: n in a ==> Unbound(a[n]) == Unbound(b[n])
  }

  lemma SameSchemaTransitive(a: Specs, b: Specs, c: Specs)
    requires SameSchema(a, b) && SameSchema(b, c)
    ensures SameSchema(a, c)
  {
  }

  /** Binding values leaves the slot numbering as it was. */
  lemma SchemaKeepsSlots(a: Specs, b: Specs, order: seq<string>, pc: nat, oc: nat)
    requires Registered(a, order, pc, oc) && SameSchema(a, b)
    ensures Registered(b, order, pc, oc)
  {
    assert forall n :: n in a ==> a[n].importance == Unbound(a[n]).importance;
    assert forall n :: n in b ==> b[n].importance == Unbound(b[n]).importance;
    PositionalAmongFrame(a, order, b, order, |order|);
    forall i | 0 <= i < |order| ensures SlotFollowsOrder(b, order, i) {
      assert SlotFollowsOrder(a, order, i);
      PositionalAmongFrame(a, order, b, order, i);
      assert Unbound(a[order[i]]) == Unbound(b[order[i]]);
    }
  }

  /** n is among the first k walked names. */
  predicate Walked(names: seq<string>, k: nat, n: string)
    requires k <= |names|
  {
    k > 0 && (names[k - 1] == n || Walked(names, k - 1, n))
  }

  lemma {:induction false} WalkedIsMember(names: seq<string>, k: nat, n: string)
    requires k <= |names|
    ensures Walked(names, k, n) <==> n in names[..k]
  {
    if k > 0 {
      WalkedIsMember(names, k - 1, n);
      assert names[..k] == names[..k - 1] + [names[k - 1]];
    }
  }
}
