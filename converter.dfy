/** The conversion pass: every bound value is checked against the pattern of
    its type and copied into the result map of that type; flags always get an
    entry. */
module Converter {
  import opened ArgTypes
  import opened Lexical
  import opened Registry

  /** The five result maps. Float and double values are kept as the text that
      passed the float pattern; the floating-point number itself is not
      modelled. */
  datatype Store = Store(
    strings: map<string, string>,
    ints: map<string, int>,
    floats: map<string, string>,
    doubles: map<string, string>,
    bools: map<string, bool>)

  const EmptyStore: Store := Store(map[], map[], map[], map[], map[])

  /** A bound numeric value that fails the pattern of its type. */
  predicate Malformed(c: ArgConfig)
  {
    && c.isSet
    && ((c.argType == TInt && !IsIntLexeme(c.strValue))
        || ((c.argType == TFloat || c.argType == TDouble) && !IsFloatLexeme(c.strValue)))
  }

  /** The conversion loop body for the argument n with record c. */
  function ConvertStep(st: Store, n: string, c: ArgConfig): (r: Outcome<Store>)
    ensures r.Aborted? <==> Malformed(c)
    ensures r.Aborted? ==> r.error == Error(ConvertArgError, n)
  {
    if c.isSet then
      match c.argType
      case TString => Done(st.(strings := st.strings[n := c.strValue]))
      case TInt =>
        if IsIntLexeme(c.strValue) then Done(st.(ints := st.ints[n := IntValue(c.strValue)]))
        else Aborted(st, Error(ConvertArgError, n))
      case TFloat =>
        if IsFloatLexeme(c.strValue) then Done(st.(floats := st.floats[n := c.strValue]))
        else Aborted(st, Error(ConvertArgError, n))
      case TDouble =>
        if IsFloatLexeme(c.strValue) then Done(st.(doubles := st.doubles[n := c.strValue]))
        else Aborted(st, Error(ConvertArgError, n))
      case TStoreTrue => Done(st.(bools := st.bools[n := true]))
      case TStoreFalse => Done(st.(bools := st.bools[n := false]))
    else if c.argType == TStoreTrue then Done(st.(bools := st.bools[n := false]))
    else if c.argType == TStoreFalse then Done(st.(bools := st.bools[n := true]))
    else Done(st)
  }

  /** The conversion loop over the first k names of the registry walk. */
  function ConvertScan(st: Store, specs: Specs, names: seq<string>, k: nat): (r: Outcome<Store>)
    requires k <= |names| && Covers(specs, names)
    ensures r.Aborted? ==> r.error.code == ConvertArgError && r.error.subject in names[..k]
    decreases k
  {
    if k == 0 then Done(st)
    else
      match ConvertScan(st, specs, names, k - 1)
      case Aborted(s, e) => Aborted(s, e)
      case Done(s) => ConvertStep(s, names[k - 1], specs[names[k - 1]])
  }

  /** Converting one more name after a walk that did not throw is one step. */
  lemma ConvertScanNext(st: Store, specs: Specs, names: seq<string>, k: nat, s: Store)
    requires k < |names| && Covers(specs, names)
    requires ConvertScan(st, specs, names, k) == Done(s)
    ensures ConvertScan(st, specs, names, k + 1) == ConvertStep(s, names[k], specs[names[k]])
  {
  }

  /** The index of the first of the first k walked names whose value is
      malformed, or k if there is none. */
  function FirstMalformed(specs: Specs, names: seq<string>, k: nat): (i: nat)
    requires k <= |names| && Covers(specs, names)
    ensures i <= k
    ensures i < k ==> Malformed(specs[names[i]])
    ensures forall j :: 0 <= j < i ==> !Malformed(specs[names[j]])
  {
    if k == 0 then 0
    else
      var i := FirstMalformed(specs, names, k - 1);
      if i < k - 1 || Malformed(specs[names[k - 1]]) then i else k
  }

  /** Conversion throws iff some walked value is malformed, and the error
      names the first malformed one in walk order. */
  lemma {:induction false} ConvertScanAborts(st: Store, specs: Specs, names: seq<string>, k: nat)
    requires k <= |names| && Covers(specs, names)
    ensures var r := ConvertScan(st, specs, names, k);
            var i := FirstMalformed(specs, names, k);
            && (r.Aborted? <==> i < k)
            && (r.Aborted? ==> r.error == Error(ConvertArgError, names[i]))
  {
    if k > 0 {
      ConvertScanAborts(st, specs, names, k - 1);
    }
  }

  /** The entries for n agree in a and b. */
  predicate SameEntry<V(==)>(a: map<string, V>, b: map<string, V>, n: string)
  {
    (n in a <==> n in b) && (n in a ==> a[n] == b[n])
  }

  /** The store after converting the argument n with record c from before:
      the entry of n in the map of its type is the converted value (a bound
      value, or the default of an unbound flag), and every other entry of n
      is as it was. */
  ghost predicate Converted(before: Store, after: Store, n: string, c: ArgConfig)
  {
    && (if c.isSet && c.argType == TString
        then n in after.strings && after.strings[n] == c.strValue
        else SameEntry(before.strings, after.strings, n))
    && (if c.isSet && c.argType == TInt
        then IsIntLexeme(c.strValue) && n in after.ints && after.ints[n] == IntValue(c.strValue)
        else SameEntry(before.ints, after.ints, n))
    && (if c.isSet && c.argType == TFloat
        then IsFloatLexeme(c.strValue) && n in after.floats && after.floats[n] == c.strValue
        else SameEntry(before.floats, after.floats, n))
    && (if c.isSet && c.argType == TDouble
        then IsFloatLexeme(c.strValue) && n in after.doubles && after.doubles[n] == c.strValue
        else SameEntry(before.doubles, after.doubles, n))
    && (if IsFlag(c.argType)
        then n in after.bools && after.bools[n] == (c.isSet == (c.argType == TStoreTrue))
        else SameEntry(before.bools, after.bools, n))
  }

  /** Every entry of n is as it was. */
  predicate Untouched(before: Store, after: Store, n: string)
  {
    && SameEntry(before.strings, after.strings, n) && SameEntry(before.ints, after.ints, n)
    && SameEntry(before.floats, after.floats, n) && SameEntry(before.doubles, after.doubles, n)
    && SameEntry(before.bools, after.bools, n)
  }

  /** One successful step converts its own argument as its record says. */
  lemma ConvertStepConverts(st: Store, n: string, c: ArgConfig)
    requires ConvertStep(st, n, c).Done?
    ensures Converted(st, ConvertStep(st, n, c).state, n, c)
  {
    if IsFlag(c.argType) {
      ConvertStepConvertsFlag(st, n, c);
    } else if !c.isSet {
      assert ConvertStep(st, n, c).state == st;
    } else if c.argType == TString {
      ConvertStepConvertsText(st, n, c);
    } else {
      ConvertStepConvertsNumber(st, n, c);
    }
  }

  lemma ConvertStepConvertsFlag(st: Store, n: string, c: ArgConfig)
    requires IsFlag(c.argType)
    ensures Converted(st, ConvertStep(st, n, c).state, n, c)
  {
  }

  lemma ConvertStepConvertsText(st: Store, n: string, c: ArgConfig)
    requires c.isSet && c.argType == TString
    ensures Converted(st, ConvertStep(st, n, c).state, n, c)
  {
  }

  lemma ConvertStepConvertsNumber(st: Store, n: string, c: ArgConfig)
    requires c.isSet && (c.argType == TInt || c.argType == TFloat || c.argType == TDouble)
    requires !Malformed(c)
    ensures Converted(st, ConvertStep(st, n, c).state, n, c)
  {
  }

  /** One step leaves the entries of every other name as they were. */
  lemma ConvertStepFrame(st: Store, n: string, c: ArgConfig, m: string)
    requires m != n
    ensures Untouched(st, ConvertStep(st, n, c).state, m)
  {
    var r := ConvertStep(st, n, c).state;
    if Malformed(c) {
      assert r == st;
    } else if c.isSet {
      match c.argType
      case TString => assert r == st.(strings := st.strings[n := c.strValue]);
      case TInt => assert r == st.(ints := st.ints[n := IntValue(c.strValue)]);
      case TFloat => assert r == st.(floats := st.floats[n := c.strValue]);
      case TDouble => assert r == st.(doubles := st.doubles[n := c.strValue]);
      case TStoreTrue => assert r == st.(bools := st.bools[n := true]);
      case TStoreFalse => assert r == st.(bools := st.bools[n := false]);
    } else if IsFlag(c.argType) {
      assert r == st.(bools := st.bools[n := c.argType == TStoreFalse]);
    } else {
      assert r == st;
    }
  }

  /** One step writes n only into the map of its own type. */
  lemma ConvertStepKeepsTyping(st: Store, specs: Specs, n: string)
    requires n in specs && StoreTyped(st, specs)
    ensures StoreTyped(ConvertStep(st, n, specs[n]).state, specs)
  {
    var c := specs[n];
    var r := ConvertStep(st, n, c).state;
    forall m ensures TypedAt(r, specs, m) {
      assert TypedAt(st, specs, m);
      if m != n {
        ConvertStepFrame(st, n, c, m);
      } else if Malformed(c) {
        assert r == st;
      } else {
        ConvertStepConverts(st, n, c);
      }
    }
  }

  /** A successful conversion walk converts every walked argument as its
      record says, and touches no entry of a name it did not walk. */
  lemma {:induction false} ConvertScanEffect(st: Store, specs: Specs, names: seq<string>, k: nat, n: string)
    requires k <= |names| && Covers(specs, names)
    requires ConvertScan(st, specs, names, k).Done?
    ensures n in specs && Walked(names, k, n) ==>
              Converted(st, ConvertScan(st, specs, names, k).state, n, specs[n])
    ensures !Walked(names, k, n) ==> Untouched(st, ConvertScan(st, specs, names, k).state, n)
  {
    if k > 0 {
      var prev := ConvertScan(st, specs, names, k - 1);
      assert prev.Done?;
      ConvertScanEffect(st, specs, names, k - 1, n);
      var m := names[k - 1];
      if m == n {
        ConvertStepConverts(prev.state, m, specs[m]);
      } else {
        ConvertStepFrame(prev.state, m, specs[m], n);
      }
    }
  }

  /** An entry for n sits only in the map of n's registered type. */
  predicate TypedAt(st: Store, specs: Specs, n: string)
  {
    && (n in st.strings ==> n in specs && specs[n].argType == TString)
    && (n in st.ints ==> n in specs && specs[n].argType == TInt)
    && (n in st.floats ==> n in specs && specs[n].argType == TFloat)
    && (n in st.doubles ==> n in specs && specs[n].argType == TDouble)
    && (n in st.bools ==> n in specs && IsFlag(specs[n].argType))
  }

  /** Every key of a result map is a registered name of that map's type. */
  ghost predicate StoreTyped(st: Store, specs: Specs)
  {
    forall n :: TypedAt(st, specs, n)
  }

  /** Conversion writes each name only into the map of its own type. */
  lemma {:induction false} ConvertScanKeepsTyping(st: Store, specs: Specs, names: seq<string>, k: nat)
    requires k <= |names| && Covers(specs, names) && StoreTyped(st, specs)
    ensures StoreTyped(ConvertScan(st, specs, names, k).state, specs)
  {
    if k > 0 {
      ConvertScanKeepsTyping(st, specs, names, k - 1);
      var prev := ConvertScan(st, specs, names, k - 1);
      if prev.Done? {
        ConvertStepKeepsTyping(prev.state, specs, names[k - 1]);
      }
    }
  }

  /** How many of the five result maps hold n. */
  function EntryCount(st: Store, n: string): nat
  {
    (if n in st.strings then 1 else 0) + (if n in st.ints then 1 else 0)
    + (if n in st.floats then 1 else 0) + (if n in st.doubles then 1 else 0)
    + (if n in st.bools then 1 else 0)
  }

  /** In a typed store each name lands in at most one result map. */
  lemma TypedStoreIsDisjoint(st: Store, specs: Specs, n: string)
    requires StoreTyped(st, specs)
    ensures EntryCount(st, n) <= 1
  {
    assert TypedAt(st, specs, n);
  }

  /** Binding values does not change which map a name belongs to. */
  lemma TypingFollowsSchema(st: Store, a: Specs, b: Specs)
    requires StoreTyped(st, a) && SameSchema(a, b)
    ensures StoreTyped(st, b)
  {
    forall n ensures TypedAt(st, b, n) {
      assert TypedAt(st, a, n);
      if n in a {
        assert Unbound(a[n]) == Unbound(b[n]);
      }
    }
  }

  /** Once conversion has thrown, walking further changes nothing. */
  lemma {:induction false} ConvertScanAbortPersists(st: Store, specs: Specs, names: seq<string>, k: nat, m: nat)
    requires k <= m <= |names| && Covers(specs, names)
    requires ConvertScan(st, specs, names, k).Aborted?
    ensures ConvertScan(st, specs, names, m) == ConvertScan(st, specs, names, k)
    decreases m - k
  {
    if k < m {
      ConvertScanAbortPersists(st, specs, names, k, m - 1);
    }
  }
}
