/**
 * `traverse` and `hasElementClass`: the visits a value's macros hand to a
 * traversal, and whether any registered coercer holds a given element class.
 */
module MacroTraversal {
  import opened Wrappers
  import opened Macros
  import opened MacroRegistry
  import opened MacroParsing
  import opened ParsingProperties
  import opened MacroConcat

  /** Why `traverse` stops: no coercer registered for the class, or the class cast fails. */
  datatype TraverseFailure =
    | CoercerNotFound(macroClass: ClassTag)
    | BadCast(macroClass: ClassTag, outputClass: ClassTag)

  /** The visitor handed to `traverse`; it records every object it is shown. */
  class Traversal {
    var visited: seq<string>

    constructor ()
      ensures visited == []
    {
      visited := [];
    }

    method Visit(o: string)
      modifies this
      ensures visited == old(visited) + [o]
    {
      visited := visited + [o];
    }
  }

  /**
   * The objects visited for the macros `cs`, in order, and the failure that
   * stopped the traversal, if any; visits made before a failure stay made.
   */
  function Visits(reg: Registry, cellRoots: string, cs: seq<MacroContainer>):
    (r: (seq<string>, Option<TraverseFailure>))
  {
    if cs == [] then ([], None)
    else
      var m := cs[0].macro;
      if m.macroClass !in reg.coercers then ([], Some(CoercerNotFound(m.macroClass)))
      else
        var coercer := reg.coercers[m.macroClass];
        if coercer.outputClass != m.macroClass then ([], Some(BadCast(m.macroClass, coercer.outputClass)))
        else
          var rest := Visits(reg, cellRoots, cs[1..]);
          (coercer.traverse(cellRoots, m) + rest.0, rest.1)
  }

  /** The visits of a value: those of its macro containers. */
  function VisitsOf(reg: Registry, cellRoots: string, value: StringWithMacros): (seq<string>, Option<TraverseFailure>)
  {
    Visits(reg, cellRoots, MacroContainers(value.parts))
  }

  /** Running traversal `x`, then, if it did not fail, traversal `y`. */
  function Then(x: (seq<string>, Option<TraverseFailure>), y: (seq<string>, Option<TraverseFailure>)):
    (r: (seq<string>, Option<TraverseFailure>))
    ensures x.1.Some? ==> r == x
    ensures x.1.None? ==> r.0 == x.0 + y.0 && r.1 == y.1
  {
    if x.1.Some? then x else (x.0 + y.0, y.1)
  }

  /** A macro the traversal gets past: its class has a coercer whose output class it is. */
  predicate Traversable(reg: Registry, c: MacroContainer)
  {
    c.macro.macroClass in reg.coercers && reg.coercers[c.macro.macroClass].outputClass == c.macro.macroClass
  }

  /**
   * `traverse`: for each macro of `value`, in order, look up the coercer of
   * its class (a null-pointer failure when there is none), cast the macro
   * to that coercer's output class, and let the coercer show its objects to
   * `traversal`.
   */
  method Traverse(reg: Registry, cellRoots: string, value: StringWithMacros, traversal: Traversal)
    returns (failure: Option<TraverseFailure>)
    modifies traversal
    ensures traversal.visited == old(traversal.visited) + VisitsOf(reg, cellRoots, value).0
    ensures failure == VisitsOf(reg, cellRoots, value).1
  {
    var cs := MacroContainers(value.parts);
    var i := 0;
    assert cs[0..] == cs;
    while i < |cs|
      invariant 0 <= i <= |cs|
      invariant forall k | 0 <= k < i :: Traversable(reg, cs[k])
      invariant old(traversal.visited) + Visits(reg, cellRoots, cs).0 ==
        traversal.visited + Visits(reg, cellRoots, cs[i..]).0
      invariant Visits(reg, cellRoots, cs).1 == Visits(reg, cellRoots, cs[i..]).1
    {
      var macro := cs[i].macro;
      assert cs[i..][0] == cs[i] && cs[i..][1..] == cs[i + 1..];
      if macro.macroClass !in reg.coercers {
        return Some(CoercerNotFound(macro.macroClass));
      }
      var coercer := reg.coercers[macro.macroClass];
      if coercer.outputClass != macro.macroClass {
        return Some(BadCast(macro.macroClass, coercer.outputClass));
      }
      var objects := coercer.traverse(cellRoots, macro);
      ghost var before := traversal.visited;
      var j := 0;
      while j < |objects|
        invariant 0 <= j <= |objects|
        invariant traversal.visited == before + objects[..j]
      {
        traversal.Visit(objects[j]);
        assert objects[..j + 1] == objects[..j] + [objects[j]];
        j := j + 1;
      }
      assert objects[..j] == objects;
      i := i + 1;
    }
    return None;
  }

  lemma {:induction false} VisitsFailure(reg: Registry, cellRoots: string, cs: seq<MacroContainer>)
    ensures Visits(reg, cellRoots, cs).1 == None <==> forall k | 0 <= k < |cs| :: Traversable(reg, cs[k])
    ensures Valid(reg) && Visits(reg, cellRoots, cs).1.Some? ==>
      Visits(reg, cellRoots, cs).1.value.CoercerNotFound?
  {
    if cs != [] {
      VisitsFailure(reg, cellRoots, cs[1..]);
      assert forall k | 1 <= k < |cs| :: cs[k] == cs[1..][k - 1];
    }
  }

  /** The traversal of two macro lists one after the other. */
  lemma {:induction false} VisitsAppend(reg: Registry, cellRoots: string, a: seq<MacroContainer>, b: seq<MacroContainer>)
    ensures Visits(reg, cellRoots, a + b) == Then(Visits(reg, cellRoots, a), Visits(reg, cellRoots, b))
  {
    if a == [] {
      assert a + b == b;
      assert [] + Visits(reg, cellRoots, b).0 == Visits(reg, cellRoots, b).0;
    } else {
      assert (a + b)[0] == a[0] && (a + b)[1..] == a[1..] + b;
      VisitsAppend(reg, cellRoots, a[1..], b);
      if Traversable(reg, a[0]) {
        var m := a[0].macro;
        var shown := reg.coercers[m.macroClass].traverse(cellRoots, m);
        var x, y := Visits(reg, cellRoots, a[1..]), Visits(reg, cellRoots, b);
        assert shown + (x.0 + y.0) == (shown + x.0) + y.0;
      }
    }
  }

  /** Traversing `concat([a, b])` traverses `a`, then, unless that failed, `b`. */
  lemma TraverseConcat(reg: Registry, cellRoots: string, a: StringWithMacros, b: StringWithMacros)
    ensures VisitsOf(reg, cellRoots, Concatenated([a, b])) ==
      Then(VisitsOf(reg, cellRoots, a), VisitsOf(reg, cellRoots, b))
  {
    MergeKeepsContent(Flatten([a, b]));
    assert Flatten([a, b]) == a.parts + b.parts by {
      assert [a, b][1..] == [b];
      assert Flatten([b]) == b.parts + Flatten([]);
    }
    MacroContainersAppend(a.parts, b.parts);
    VisitsAppend(reg, cellRoots, MacroContainers(a.parts), MacroContainers(b.parts));
  }

  /** Every per-macro coercer produces values of its own output class. */
  ghost predicate WellTyped(reg: Registry)
  {
    forall c, ctx, args | c in reg.coercers && reg.coercers[c].coerce(ctx, args).Success? ::
      reg.coercers[c].coerce(ctx, args).value.macroClass == reg.coercers[c].outputClass
  }

  /** Every macro a parse returns can be traversed, when the coercers are well typed. */
  lemma ParsedValuesTraverse(reg: Registry, ctx: Context, blob: string, scan: Scan, cellRoots: string)
    requires WellFormed(blob, scan.matches) && Valid(reg) && WellTyped(reg)
    requires ParseResult(reg, ctx, blob, scan).Success?
    ensures VisitsOf(reg, cellRoots, ParseResult(reg, ctx, blob, scan).value).1 == None
  {
    var cs := MacroContainers(ParseResult(reg, ctx, blob, scan).value.parts);
    if TryParseFast(blob).None? {
      MacroPartsFollowMatches(reg, ctx, blob, scan);
      var ns := NonEscaped(scan.matches, 0);
      forall k | 0 <= k < |cs|
        ensures Traversable(reg, cs[k])
      {
        var m := ns[k];
        var name := SplitMacroType(m.macroType).0;
        assert ExpandMacro(reg, ctx, blob, m).Success?;
        var result := reg.coercers[reg.macros[name]].coerce(ctx, m.args);
        assert result.Success? && cs[k].macro == result.value;
      }
    }
    VisitsFailure(reg, cellRoots, cs);
  }

  /** `hasElementClass`: true when some registered coercer says so for `types`. */
  method HasElementClass(reg: Registry, types: seq<TypeTag>) returns (b: bool)
    ensures b <==> exists c | c in reg.coercers :: reg.coercers[c].hasElementClass(types)
  {
    var remaining := reg.coercers.Keys;
    while remaining != {}
      invariant remaining <= reg.coercers.Keys
      invariant forall c | c in reg.coercers.Keys - remaining :: !reg.coercers[c].hasElementClass(types)
      decreases remaining
    {
      var c :| c in remaining;
      if reg.coercers[c].hasElementClass(types) {
        return true;
      }
      remaining := remaining - {c};
    }
    return false;
  }
}
