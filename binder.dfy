/** The two binding passes over the canonical tokens: the optional pass binds
    arguments named by dash tokens, the positional pass binds arguments by slot.
    Each pass is a step function folded over its walk, so a thrown error leaves
    behind exactly what the steps before it wrote. */
module Binder {
  import opened ArgTypes
  import opened Lexical
  import opened Registry

  /** The part of the parser state the optional pass writes. */
  datatype Bindings = Bindings(specs: Specs, drop: bool)

  // ---------------------------------------------------------------------------
  // Optional pass

  /** Token t names the argument n: it starts with '-' and erasing all its
      leading dashes leaves n. */
  predicate Mentions(t: string, n: string)
  {
    StartsWithDash(t) && StripDashes(t) == n
  }

  /** The optional pass looking at toks[i]. */
  function OptionalStep(b: Bindings, toks: seq<string>, i: nat): (r: Outcome<Bindings>)
    requires i < |toks|
    ensures r.state.specs.Keys == b.specs.Keys
    ensures r.Aborted? ==> i + 1 == |toks| && r.error.code == OptionalProvidedWithNoValue
  {
    var t := toks[i];
    if !StartsWithDash(t) then Done(b)
    else
      var n := StripDashes(t);
      if n !in b.specs then Done(b)
      else
        var c := b.specs[n];
        var drop := b.drop || c.behavior == DropPositionalCheck;
        if c.argType == TStoreTrue then
          Done(Bindings(b.specs[n := c.(strValue := StoreTrueMark, isSet := true)], drop))
        else if c.argType == TStoreFalse then
          Done(Bindings(b.specs[n := c.(strValue := StoreFalseMark, isSet := true)], drop))
        else if i + 1 < |toks| then
          Done(Bindings(b.specs[n := c.(isSet := true, strValue := toks[i + 1])], drop))
        else
          Aborted(Bindings(b.specs, drop), Error(OptionalProvidedWithNoValue, n))
  }

  /** The optional pass over the first k tokens, stopping at the first throw. */
  function OptionalScan(b: Bindings, toks: seq<string>, k: nat): (r: Outcome<Bindings>)
    requires k <= |toks|
    ensures r.state.specs.Keys == b.specs.Keys
    decreases k
  {
    if k == 0 then Done(b)
    else
      match OptionalScan(b, toks, k - 1)
      case Aborted(s, e) => Aborted(s, e)
      case Done(s) => OptionalStep(s, toks, k - 1)
  }

  /** Scanning one more token after a scan that did not throw is one step. */
  lemma OptionalScanNext(b: Bindings, toks: seq<string>, k: nat, s: Bindings)
    requires k < |toks| && OptionalScan(b, toks, k) == Done(s)
    ensures OptionalScan(b, toks, k + 1) == OptionalStep(s, toks, k)
  {
  }

  /** The optional step binds values and changes no registration. */
  lemma OptionalStepSchema(b: Bindings, toks: seq<string>, i: nat)
    requires i < |toks|
    ensures SameSchema(b.specs, OptionalStep(b, toks, i).state.specs)
  {
  }

  lemma OptionalStepKeepsSchema(a: Specs, b: Bindings, toks: seq<string>, i: nat)
    requires i < |toks| && SameSchema(a, b.specs)
    ensures SameSchema(a, OptionalStep(b, toks, i).state.specs)
  {
    OptionalStepSchema(b, toks, i);
    SameSchemaTransitive(a, b.specs, OptionalStep(b, toks, i).state.specs);
  }

  lemma {:induction false} OptionalScanSchema(b: Bindings, toks: seq<string>, k: nat)
    requires k <= |toks|
    ensures SameSchema(b.specs, OptionalScan(b, toks, k).state.specs)
  {
    if k > 0 {
      OptionalScanSchema(b, toks, k - 1);
      var prev := OptionalScan(b, toks, k - 1);
      if prev.Done? {
        OptionalScanNext(b, toks, k - 1, prev.state);
        OptionalStepKeepsSchema(b.specs, prev.state, toks, k - 1);
      } else {
        assert OptionalScan(b, toks, k).state.specs == prev.state.specs;
      }
    }
  }

  /** _parse_optional: nothing happens when no optional argument is registered. */
  function OptionalPass(b: Bindings, toks: seq<string>, optionalCount: nat): (r: Outcome<Bindings>)
    ensures optionalCount == 0 ==> r == Done(b)
    ensures r.Aborted? ==> |toks| > 0 && r.error.code == OptionalProvidedWithNoValue
  {
    if optionalCount == 0 then Done(b)
    else
      OptionalScanAborts(b, toks, |toks|);
      OptionalScan(b, toks, |toks|)
  }

  /** toks[i] names a registered argument that takes a value. */
  predicate TakesValueAt(specs: Specs, toks: seq<string>, i: nat)
    requires i < |toks|
  {
    var n := StripDashes(toks[i]);
    StartsWithDash(toks[i]) && n in specs && !IsFlag(specs[n].argType)
  }

  /** The optional pass throws exactly when its last token names an argument
      that takes a value: every earlier token has a successor to consume. */
  lemma {:induction false} OptionalScanAborts(b: Bindings, toks: seq<string>, k: nat)
    requires k <= |toks|
    ensures OptionalScan(b, toks, k).Aborted?
            <==> (k == |toks| && k > 0 && TakesValueAt(b.specs, toks, k - 1))
    ensures OptionalScan(b, toks, k).Aborted? ==>
              OptionalScan(b, toks, k).error == Error(OptionalProvidedWithNoValue, StripDashes(toks[k - 1]))
  {
    if k > 0 {
      OptionalScanAborts(b, toks, k - 1);
      OptionalScanSchema(b, toks, k - 1);
      var s := OptionalScan(b, toks, k - 1).state;
      var n := StripDashes(toks[k - 1]);
      if n in b.specs {
        assert Unbound(b.specs[n]) == Unbound(s.specs[n]);
      }
    }
  }

  /** The last of the first k tokens that names n, or -1 if none does. */
  function LastMention(toks: seq<string>, k: nat, n: string): (j: int)
    requires k <= |toks|
    ensures -1 <= j < k
    ensures 0 <= j ==> Mentions(toks[j], n)
    ensures forall i :: j < i < k ==> !Mentions(toks[i], n)
  {
    if k == 0 then -1
    else if Mentions(toks[k - 1], n) then k - 1
    else LastMention(toks, k - 1, n)
  }

  /** Among the first k tokens, one names a registered DropPositionalCheck
      argument. */
  predicate DropNamed(specs: Specs, toks: seq<string>, k: nat)
    requires k <= |toks|
  {
    k > 0 && (DropNamed(specs, toks, k - 1) || DropAt(specs, toks, k - 1))
  }

  /** toks[i] names a registered DropPositionalCheck argument. */
  predicate DropAt(specs: Specs, toks: seq<string>, i: nat)
    requires i < |toks|
  {
    var n := StripDashes(toks[i]);
    StartsWithDash(toks[i]) && n in specs && specs[n].behavior == DropPositionalCheck
  }

  /** The record c after an optional pass whose last token naming it is
      toks[j] (j < 0: no token names it). */
  function BoundByLastMention(c: ArgConfig, toks: seq<string>, j: int): ArgConfig
    requires j < |toks|
  {
    if j < 0 then c
    else if c.argType == TStoreTrue then c.(isSet := true, strValue := StoreTrueMark)
    else if c.argType == TStoreFalse then c.(isSet := true, strValue := StoreFalseMark)
    else if j + 1 < |toks| then c.(isSet := true, strValue := toks[j + 1])
    else c
  }

  /** What the optional pass over the first k tokens did to the bindings. */
  ghost predicate OptionalEffect(before: Bindings, after: Bindings, toks: seq<string>, k: nat)
    requires k <= |toks|
  {
    && after.specs.Keys == before.specs.Keys
    && (forall n :: n in before.specs ==>
          after.specs[n] == BoundByLastMention(before.specs[n], toks, LastMention(toks, k, n)))
    && (forall n :: n in before.specs && 0 <= LastMention(toks, k, n) && !IsFlag(before.specs[n].argType)
          ==> LastMention(toks, k, n) + 1 < |toks|)
    && (after.drop <==> before.drop || DropNamed(before.specs, toks, k))
  }

  /** One more token keeps the binding of n. */
  lemma OptionalStepBinds(b: Bindings, s: Bindings, toks: seq<string>, k: nat, n: string)
    requires 0 < k <= |toks| && SameSchema(b.specs, s.specs) && n in b.specs
    requires s.specs[n] == BoundByLastMention(b.specs[n], toks, LastMention(toks, k - 1, n))
    requires OptionalStep(s, toks, k - 1).Done?
    ensures OptionalStep(s, toks, k - 1).state.specs[n]
            == BoundByLastMention(b.specs[n], toks, LastMention(toks, k, n))
  {
    assert Unbound(b.specs[n]) == Unbound(s.specs[n]);
  }

  lemma {:induction false} OptionalScanBindsAt(b: Bindings, toks: seq<string>, k: nat, n: string)
    requires k <= |toks| && OptionalScan(b, toks, k).Done? && n in b.specs
    ensures OptionalScan(b, toks, k).state.specs[n]
            == BoundByLastMention(b.specs[n], toks, LastMention(toks, k, n))
  {
    if k > 0 {
      var prev := OptionalScan(b, toks, k - 1);
      assert prev.Done?;
      OptionalScanBindsAt(b, toks, k - 1, n);
      OptionalScanSchema(b, toks, k - 1);
      OptionalStepBinds(b, prev.state, toks, k, n);
    }
  }

  /** One more token sets the drop flag iff it names a DropPositionalCheck
      argument. */
  lemma OptionalStepDrops(b: Bindings, s: Bindings, toks: seq<string>, i: nat)
    requires i < |toks| && SameSchema(b.specs, s.specs)
    ensures OptionalStep(s, toks, i).state.drop <==> s.drop || DropAt(b.specs, toks, i)
  {
    var n := StripDashes(toks[i]);
    if n in b.specs {
      assert Unbound(b.specs[n]) == Unbound(s.specs[n]);
    }
  }

  lemma {:induction false} OptionalScanDrops(b: Bindings, toks: seq<string>, k: nat)
    requires k <= |toks| && OptionalScan(b, toks, k).Done?
    ensures OptionalScan(b, toks, k).state.drop <==> b.drop || DropNamed(b.specs, toks, k)
  {
    if k > 0 {
      var prev := OptionalScan(b, toks, k - 1);
      assert prev.Done?;
      OptionalScanDrops(b, toks, k - 1);
      OptionalScanSchema(b, toks, k - 1);
      OptionalStepDrops(b, prev.state, toks, k - 1);
    }
  }

  /** A successful optional pass binds every argument named by a dash token:
      a flag to its sentinel, any other argument to the token after the last
      token that names it (a value token is looked at again as a name); an
      argument no token names keeps its record, and the drop flag is set iff a
      DropPositionalCheck argument was named. */
  lemma OptionalScanBinds(b: Bindings, toks: seq<string>, k: nat)
    requires k <= |toks| && OptionalScan(b, toks, k).Done?
    ensures OptionalEffect(b, OptionalScan(b, toks, k).state, toks, k)
  {
    var r := OptionalScan(b, toks, k).state;
    forall n | n in b.specs
      ensures r.specs[n] == BoundByLastMention(b.specs[n], toks, LastMention(toks, k, n))
    {
      OptionalScanBindsAt(b, toks, k, n);
    }
    forall n | n in b.specs && 0 <= LastMention(toks, k, n) && !IsFlag(b.specs[n].argType)
      ensures LastMention(toks, k, n) + 1 < |toks|
    {
      if LastMention(toks, k, n) == k - 1 {
        OptionalScanAborts(b, toks, k);
      }
    }
    OptionalScanDrops(b, toks, k);
  }

  // ---------------------------------------------------------------------------
  // Positional pass

  /** The positional pass looking at the argument n (the loop body over the
      registry: optional arguments are skipped, a slot outside the token
      sequence is skipped, a token starting with '-' throws). */
  function PositionalStep(specs: Specs, toks: seq<string>, n: string): (r: Outcome<Specs>)
    requires n in specs
    ensures r.state.Keys == specs.Keys
  {
    var c := specs[n];
    if c.importance != Positional then Done(specs)
    else
      var p := c.pos - 1;
      if p > |toks| - 1 || p < 0 then Done(specs)
      else if StartsWithDash(toks[p]) then Aborted(specs, Error(PositionalError, n))
      else Done(specs[n := c.(strValue := toks[p], isSet := true)])
  }

  /** The positional pass over the first k names of the registry walk. */
  function PositionalScan(specs: Specs, toks: seq<string>, names: seq<string>, k: nat): (r: Outcome<Specs>)
    requires k <= |names| && Covers(specs, names)
    ensures r.state.Keys == specs.Keys
    decreases k
  {
    if k == 0 then Done(specs)
    else
      match PositionalScan(specs, toks, names, k - 1)
      case Aborted(s, e) => Aborted(s, e)
      case Done(s) => PositionalStep(s, toks, names[k - 1])
  }

  /** Walking one more name after a walk that did not throw is one step. */
  lemma PositionalScanNext(specs: Specs, toks: seq<string>, names: seq<string>, k: nat, s: Specs)
    requires k < |names| && Covers(specs, names)
    requires PositionalScan(specs, toks, names, k) == Done(s)
    ensures names[k] in s
    ensures PositionalScan(specs, toks, names, k + 1) == PositionalStep(s, toks, names[k])
  {
  }

  /** The positional step binds a value and changes no registration. */
  lemma PositionalStepSchema(specs: Specs, toks: seq<string>, n: string)
    requires n in specs
    ensures SameSchema(specs, PositionalStep(specs, toks, n).state)
  {
  }

  lemma {:induction false} PositionalScanSchema(specs: Specs, toks: seq<string>, names: seq<string>, k: nat)
    requires k <= |names| && Covers(specs, names)
    ensures SameSchema(specs, PositionalScan(specs, toks, names, k).state)
  {
    if k > 0 {
      PositionalScanSchema(specs, toks, names, k - 1);
      var prev := PositionalScan(specs, toks, names, k - 1);
      if prev.Done? {
        PositionalStepSchema(prev.state, toks, names[k - 1]);
        SameSchemaTransitive(specs, prev.state, PositionalScan(specs, toks, names, k).state);
      }
    }
  }

  /** _parse_positional, walking the registry in the order names. */
  function PositionalPass(specs: Specs, toks: seq<string>, positionalCount: nat,
                          names: seq<string>): (r: Outcome<Specs>)
    requires Covers(specs, names)
    ensures positionalCount == 0 ==> r == Done(specs)
    ensures 0 < positionalCount && |toks| < positionalCount ==> r == Aborted(specs, Error(PositionalError, ""))
    ensures r.Aborted? ==> r.error.code == PositionalError
  {
    if positionalCount == 0 then Done(specs)
    else if positionalCount > |toks| then Aborted(specs, Error(PositionalError, ""))
    else
      PositionalScanAborts(specs, toks, names, |names|);
      PositionalScan(specs, toks, names, |names|)
  }

  /** n is positional and the token in its slot starts with '-'. */
  predicate DashInSlot(specs: Specs, toks: seq<string>, n: string)
    requires n in specs
  {
    var p := specs[n].pos - 1;
    specs[n].importance == Positional && 0 <= p < |toks| && StartsWithDash(toks[p])
  }

  /** The index of the first of the first k walked names whose slot holds a
      dash token, or k if there is none. */
  function FirstDashIndex(specs: Specs, toks: seq<string>, names: seq<string>, k: nat): (i: nat)
    requires k <= |names| && Covers(specs, names)
    ensures i <= k
    ensures i < k ==> DashInSlot(specs, toks, names[i])
    ensures forall j :: 0 <= j < i ==> !DashInSlot(specs, toks, names[j])
  {
    if k == 0 then 0
    else
      var i := FirstDashIndex(specs, toks, names, k - 1);
      if i < k - 1 || DashInSlot(specs, toks, names[k - 1]) then i else k
  }

  /** The positional walk throws iff one of the walked positional arguments
      finds a dash token in its slot, and the error names the first such one
      in walk order. */
  lemma {:induction false} PositionalScanAborts(specs: Specs, toks: seq<string>, names: seq<string>, k: nat)
    requires k <= |names| && Covers(specs, names)
    ensures var r := PositionalScan(specs, toks, names, k);
            var i := FirstDashIndex(specs, toks, names, k);
            && (r.Aborted? <==> i < k)
            && (r.Aborted? ==> r.error == Error(PositionalError, names[i]))
  {
    if k > 0 {
      PositionalScanAborts(specs, toks, names, k - 1);
      PositionalScanSchema(specs, toks, names, k - 1);
      var prev := PositionalScan(specs, toks, names, k - 1);
      var r := PositionalScan(specs, toks, names, k);
      var i := FirstDashIndex(specs, toks, names, k - 1);
      if prev.Done? {
        PositionalStepAborts(specs, prev.state, toks, names[k - 1]);
        assert i == k - 1;
        assert r == PositionalStep(prev.state, toks, names[k - 1]);
      } else {
        assert i < k - 1;
        assert r == prev;
        assert FirstDashIndex(specs, toks, names, k) == i;
      }
    }
  }

  /** The step throws iff the record's slot holds a dash token, naming it. */
  lemma PositionalStepAborts(specs: Specs, s: Specs, toks: seq<string>, n: string)
    requires SameSchema(specs, s) && n in specs
    ensures PositionalStep(s, toks, n).Aborted? <==> DashInSlot(specs, toks, n)
    ensures PositionalStep(s, toks, n).Aborted? ==>
              PositionalStep(s, toks, n).error == Error(PositionalError, n)
  {
    assert Unbound(specs[n]) == Unbound(s[n]);
  }

  /** A positional argument whose slot lies inside the token sequence. */
  predicate Fillable(specs: Specs, toks: seq<string>, n: string)
    requires n in specs
  {
    specs[n].importance == Positional && 0 <= specs[n].pos - 1 < |toks|
  }

  /** The record n after a successful walk over the first k names. */
  function BoundBySlot(specs: Specs, toks: seq<string>, names: seq<string>, k: nat, n: string): ArgConfig
    requires k <= |names| && n in specs
  {
    if Walked(names, k, n) && Fillable(specs, toks, n)
    then specs[n].(strValue := toks[specs[n].pos - 1], isSet := true)
    else specs[n]
  }

  /** One more walked name keeps the binding of n. */
  lemma PositionalStepBinds(specs: Specs, s: Specs, toks: seq<string>, names: seq<string>,
                            k: nat, n: string)
    requires 0 < k <= |names| && Covers(specs, names) && SameSchema(specs, s) && n in specs
    requires s[n] == BoundBySlot(specs, toks, names, k - 1, n)
    requires PositionalStep(s, toks, names[k - 1]).Done?
    ensures PositionalStep(s, toks, names[k - 1]).state[n] == BoundBySlot(specs, toks, names, k, n)
  {
    var m := names[k - 1];
    assert Unbound(specs[m]) == Unbound(s[m]);
  }

  /** A successful positional walk binds each walked positional argument to
      the token in its slot and leaves every other record as it was. */
  lemma {:induction false} PositionalScanBinds(specs: Specs, toks: seq<string>, names: seq<string>,
                                               k: nat, n: string)
    requires k <= |names| && Covers(specs, names) && n in specs
    requires PositionalScan(specs, toks, names, k).Done?
    ensures PositionalScan(specs, toks, names, k).state[n] == BoundBySlot(specs, toks, names, k, n)
  {
    if k > 0 {
      var prev := PositionalScan(specs, toks, names, k - 1);
      assert prev.Done?;
      PositionalScanBinds(specs, toks, names, k - 1, n);
      PositionalScanSchema(specs, toks, names, k - 1);
      PositionalStepBinds(specs, prev.state, toks, names, k, n);
    }
  }

  /** Once the positional walk has thrown, walking further changes nothing. */
  lemma {:induction false} PositionalScanAbortPersists(specs: Specs, toks: seq<string>, names: seq<string>,
                                                       k: nat, m: nat)
    requires k <= m <= |names| && Covers(specs, names)
    requires PositionalScan(specs, toks, names, k).Aborted?
    ensures PositionalScan(specs, toks, names, m) == PositionalScan(specs, toks, names, k)
    decreases m - k
  {
    if k < m {
      PositionalScanAbortPersists(specs, toks, names, k, m - 1);
      var o := PositionalScan(specs, toks, names, m - 1);
      assert PositionalScan(specs, toks, names, m) == Aborted(o.state, o.error);
    }
  }
}
