/**
 * The two-map registry of StringWithMacrosTypeCoercer: macro name to macro
 * class, and macro class to the coercer producing that class. A `Builder`
 * collects registrations; `Build` freezes them into a `Registry`.
 */
module MacroRegistry {
  import opened Wrappers
  import opened Macros

  /** Why freezing a builder fails (each is an IllegalArgumentException). */
  datatype BuildError =
    | DuplicateMacroName       // ImmutableMap.Builder.build on a repeated name
    | DuplicateCoercerClass    // Maps.uniqueIndex on a repeated output class
    | CoercerClassNotRegistered // the constructor's checkArgument

  /** The frozen coercer: its two maps. */
  datatype Registry = Registry(
    macros: map<string, ClassTag>,
    coercers: map<ClassTag, MacroTypeCoercer>)

  /** What `Build` guarantees of a registry. */
  predicate Valid(reg: Registry)
  {
    && reg.coercers.Keys <= reg.macros.Values
    && forall c | c in reg.coercers :: reg.coercers[c].outputClass == c
  }

  /** Every macro class has a coercer: the registry invariant parsing relies on. */
  predicate Complete(reg: Registry)
  {
    reg.macros.Values <= reg.coercers.Keys
  }

  /** No key occurs twice in `pairs`. */
  predicate DistinctKeys<K(==), V>(pairs: seq<(K, V)>)
  {
    forall i, j | 0 <= i < j < |pairs| :: pairs[i].0 != pairs[j].0
  }

  /** The keys of `pairs`. */
  function KeysOf<K(==), V>(pairs: seq<(K, V)>): set<K>
  {
    set i | 0 <= i < |pairs| :: pairs[i].0
  }

  /**
   * The map of `pairs`, or None when a key repeats: what both
   * `ImmutableMap.Builder.build` and `Maps.uniqueIndex` compute.
   */
  function UniqueMap<K(==), V>(pairs: seq<(K, V)>): (r: Option<map<K, V>>)
    ensures r.Some? <==> DistinctKeys(pairs)
    ensures r.Some? ==> r.value.Keys == KeysOf(pairs)
    ensures r.Some? ==>
      forall i | 0 <= i < |pairs| :: pairs[i].0 in r.value && r.value[pairs[i].0] == pairs[i].1
  {
    if pairs == [] then Some(map[])
    else
      var init := pairs[..|pairs| - 1];
      var last := pairs[|pairs| - 1];
      SnocKeys(pairs);
      match UniqueMap(init)
      case None => None
      case Some(m) =>
        if last.0 in m then None
        else
          assert forall i | 0 <= i < |init| :: init[i] == pairs[i];
          Some(m[last.0 := last.1])
  }

  /** How the keys and their distinctness change when one pair is appended. */
  lemma SnocKeys<K, V>(pairs: seq<(K, V)>)
    requires pairs != []
    ensures var init := pairs[..|pairs| - 1];
      && KeysOf(pairs) == KeysOf(init) + {pairs[|pairs| - 1].0}
      && (DistinctKeys(pairs) <==> DistinctKeys(init) && pairs[|pairs| - 1].0 !in KeysOf(init))
  {
    var init := pairs[..|pairs| - 1];
    var last := pairs[|pairs| - 1];
    forall k | k in KeysOf(pairs) ensures k in KeysOf(init) + {last.0} {
      var i :| 0 <= i < |pairs| && pairs[i].0 == k;
      if i < |pairs| - 1 { assert init[i] == pairs[i]; }
    }
    forall k | k in KeysOf(init) ensures k in KeysOf(pairs) {
      var i :| 0 <= i < |init| && init[i].0 == k;
      assert pairs[i] == init[i];
    }
    assert pairs[|pairs| - 1].0 in KeysOf(pairs);
    if DistinctKeys(init) && last.0 !in KeysOf(init) {
      forall i, j | 0 <= i < j < |pairs| ensures pairs[i].0 != pairs[j].0 {
        assert init[i] == pairs[i];
        if j < |pairs| - 1 {
          assert init[j] == pairs[j];
        } else {
          assert init[i].0 in KeysOf(init);
        }
      }
    }
    if DistinctKeys(pairs) {
      forall i, j | 0 <= i < j < |init| ensures init[i].0 != init[j].0 {
        assert init[i] == pairs[i] && init[j] == pairs[j];
      }
      forall i | 0 <= i < |init| ensures init[i].0 != last.0 {
        assert init[i] == pairs[i];
      }
    }
  }

  /** The coercers keyed by their output class, in registration order. */
  function ByOutputClass(cs: seq<MacroTypeCoercer>): (r: seq<(ClassTag, MacroTypeCoercer)>)
    ensures |r| == |cs|
    ensures forall i | 0 <= i < |cs| :: r[i] == (cs[i].outputClass, cs[i])
  {
    seq(|cs|, i requires 0 <= i < |cs| => (cs[i].outputClass, cs[i]))
  }

  /** The private constructor: coercer classes must be registered macro classes. */
  function Create(macros: map<string, ClassTag>, coercers: map<ClassTag, MacroTypeCoercer>):
    (r: Result<Registry, BuildError>)
    ensures r.Success? <==> coercers.Keys <= macros.Values
    ensures r.Success? ==> r.value.macros == macros && r.value.coercers == coercers
    ensures r.Failure? ==> r.error == CoercerClassNotRegistered
  {
    if coercers.Keys <= macros.Values then Success(Registry(macros, coercers))
    else Failure(CoercerClassNotRegistered)
  }

  /** `StringWithMacrosTypeCoercer.Builder`: registrations in order. */
  class Builder {
    var macros: seq<(string, ClassTag)>
    var macroCoercers: seq<MacroTypeCoercer>

    /** Each `Put` adds one name and one coercer, so the two lists stay the same length. */
    ghost predicate Balanced()
      reads this
    {
      |macros| == |macroCoercers|
    }

    constructor ()
      ensures macros == [] && macroCoercers == []
      ensures Balanced()
    {
      macros := [];
      macroCoercers := [];
    }

    /** Registers `name` for `macroClass`, handled by `coercer`; returns this builder. */
    method Put(name: string, macroClass: ClassTag, coercer: MacroTypeCoercer) returns (self: Builder)
      requires Balanced()
      modifies this
      ensures Balanced()
      ensures self == this
      ensures macros == old(macros) + [(name, macroClass)]
      ensures macroCoercers == old(macroCoercers) + [coercer]
    {
      macros := macros + [(name, macroClass)];
      macroCoercers := macroCoercers + [coercer];
      self := this;
    }

    /** Freezes the registrations into a registry, or reports the first check that fails. */
    function Build(): (r: Result<Registry, BuildError>)
      reads this
      ensures r.Success? <==>
        && DistinctKeys(macros)
        && DistinctKeys(ByOutputClass(macroCoercers))
        && ClassesRegistered(macros, macroCoercers)
      ensures r == Failure(DuplicateMacroName) <==> !DistinctKeys(macros)
      ensures r == Failure(DuplicateCoercerClass) <==>
        DistinctKeys(macros) && !DistinctKeys(ByOutputClass(macroCoercers))
      ensures r.Success? ==> Valid(r.value)
      ensures r.Success? ==> r.value.macros.Keys == KeysOf(macros)
      ensures r.Success? ==>
        forall i | 0 <= i < |macros| :: r.value.macros[macros[i].0] == macros[i].1
      ensures r.Success? ==> r.value.coercers.Keys == KeysOf(ByOutputClass(macroCoercers))
      ensures r.Success? ==>
        forall i | 0 <= i < |macroCoercers| ::
          r.value.coercers[macroCoercers[i].outputClass] == macroCoercers[i]
    {
      var indexed := ByOutputClass(macroCoercers);
      match UniqueMap(macros)
      case None => Failure(DuplicateMacroName)
      case Some(names) =>
        match UniqueMap(indexed)
        case None => Failure(DuplicateCoercerClass)
        case Some(classes) =>
          IndexedByOwnClass(macroCoercers, classes);
          RegisteredIffSubset(macros, names, macroCoercers, classes);
          Create(names, classes)
    }
  }

  /** Every coercer's output class is the class of some registered name. */
  predicate ClassesRegistered(macros: seq<(string, ClassTag)>, cs: seq<MacroTypeCoercer>)
  {
    forall i | 0 <= i < |cs| :: cs[i].outputClass in ValuesOf(macros)
  }

  /** The values of `pairs`. */
  function ValuesOf<K, V(==)>(pairs: seq<(K, V)>): set<V>
  {
    set i | 0 <= i < |pairs| :: pairs[i].1
  }

  lemma UniqueMapValues<K, V>(pairs: seq<(K, V)>, m: map<K, V>)
    requires UniqueMap(pairs) == Some(m)
    ensures m.Values == ValuesOf(pairs)
  {
    forall v | v in m.Values ensures v in ValuesOf(pairs) {
      var k :| k in m && m[k] == v;
      var i :| 0 <= i < |pairs| && pairs[i].0 == k;
      assert pairs[i].1 == v;
    }
    forall v | v in ValuesOf(pairs) ensures v in m.Values {
      var i :| 0 <= i < |pairs| && pairs[i].1 == v;
      assert m[pairs[i].0] == v;
    }
  }

  lemma IndexedByOwnClass(cs: seq<MacroTypeCoercer>, classes: map<ClassTag, MacroTypeCoercer>)
    requires UniqueMap(ByOutputClass(cs)) == Some(classes)
    ensures forall c | c in classes :: classes[c].outputClass == c
  {
    var indexed := ByOutputClass(cs);
    forall c | c in classes ensures classes[c].outputClass == c {
      var i :| 0 <= i < |indexed| && indexed[i].0 == c;
      assert classes[indexed[i].0] == indexed[i].1;
    }
  }

  lemma RegisteredIffSubset(
    macros: seq<(string, ClassTag)>, names: map<string, ClassTag>,
    cs: seq<MacroTypeCoercer>, classes: map<ClassTag, MacroTypeCoercer>)
    requires UniqueMap(macros) == Some(names)
    requires UniqueMap(ByOutputClass(cs)) == Some(classes)
    ensures classes.Keys <= names.Values <==> ClassesRegistered(macros, cs)
  {
    UniqueMapValues(macros, names);
    var indexed := ByOutputClass(cs);
    assert classes.Keys == set i | 0 <= i < |cs| :: cs[i].outputClass by {
      forall c | c in classes.Keys ensures c in set i | 0 <= i < |cs| :: cs[i].outputClass {
        var i :| 0 <= i < |indexed| && indexed[i].0 == c;
      }
      forall i | 0 <= i < |cs| ensures cs[i].outputClass in classes.Keys {
        assert indexed[i].0 in classes;
      }
    }
  }

  /**
   * A builder's registry is complete: with as many coercers as names,
   * distinct names and distinct output classes, all among the names'
   * classes, every registered class has exactly one coercer.
   */
  lemma BuildComplete(b: Builder)
    requires b.Balanced()
    ensures b.Build().Success? ==> Complete(b.Build().value)
    ensures b.Build().Success? ==> b.Build().value.macros.Values == b.Build().value.coercers.Keys
  {
    if b.Build().Success? {
      var names := UniqueMap(b.macros).value;
      var indexed := ByOutputClass(b.macroCoercers);
      var classes := UniqueMap(indexed).value;
      assert b.Build().value == Registry(names, classes);
      DistinctKeysCount(b.macros);
      DistinctKeysCount(indexed);
      UniqueMapValues(b.macros, names);
      ValuesCount(b.macros);
      SubsetBySize(classes.Keys, names.Values);
    }
  }

  lemma {:induction false} DistinctKeysCount<K, V>(pairs: seq<(K, V)>)
    requires DistinctKeys(pairs)
    ensures |KeysOf(pairs)| == |pairs|
  {
    if pairs != [] {
      var init := pairs[..|pairs| - 1];
      SnocKeys(pairs);
      DistinctKeysCount(init);
    }
  }

  lemma {:induction false} ValuesCount<K, V>(pairs: seq<(K, V)>)
    ensures |ValuesOf(pairs)| <= |pairs|
  {
    if pairs != [] {
      var init := pairs[..|pairs| - 1];
      assert ValuesOf(pairs) == ValuesOf(init) + {pairs[|pairs| - 1].1} by {
        forall v | v in ValuesOf(pairs) ensures v in ValuesOf(init) + {pairs[|pairs| - 1].1} {
          var i :| 0 <= i < |pairs| && pairs[i].1 == v;
          if i < |pairs| - 1 { assert init[i] == pairs[i]; }
        }
        forall v | v in ValuesOf(init) ensures v in ValuesOf(pairs) {
          var i :| 0 <= i < |init| && init[i].1 == v;
          assert pairs[i] == init[i];
        }
      }
      ValuesCount(init);
    }
  }

  /** A subset at least as large as its superset is the superset. */
  lemma SubsetBySize<T>(a: set<T>, b: set<T>)
    requires a <= b && |b| <= |a|
    ensures a == b
  {
    if a != b {
      var x :| x in b && x !in a;
      SubsetSize(a, b - {x});
      assert false;
    }
  }

  lemma {:induction false} SubsetSize<T>(a: set<T>, c: set<T>)
    requires a <= c
    ensures |a| <= |c|
    decreases |c|
  {
    if c != {} {
      var y :| y in c;
      SubsetSize(a - {y}, c - {y});
    }
  }
}
