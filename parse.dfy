/**
 * Parsing a raw attribute string into a string-with-macros: the fast path,
 * the cursor loop over the scanner's matches, the `@` prefix, the name
 * lookup and the per-macro coercer call, with their error cases.
 */
module MacroParsing {
  import opened Wrappers
  import opened Macros
  import opened MacroRegistry

  /**
   * One match of the macro scanner over the raw string: the span
   * `[start, end)`, whether it is an escape (`$$`), the macro type as
   * written (with an optional `@` prefix) and the raw argument strings.
   */
  datatype MacroMatch = MacroMatch(
    start: nat, end: nat, escaped: bool, macroType: string, args: seq<string>)

  /**
   * What the scanner yields for one string: its matches in order, then
   * optionally the failure it raises for malformed macro syntax once the
   * listed matches have been consumed.
   */
  datatype Scan = Scan(matches: seq<MacroMatch>, failure: Option<string>)

  /** The attribute value handed to `coerce`: a string, or anything else. */
  datatype RawValue = RawString(s: string) | RawOther(description: string)

  /** The `CoerceFailedException`s (and the null-pointer failure) of coercion. */
  datatype CoerceFailure =
    | UnknownMacro(macroType: string, macroString: string)
    | MissingCoercer(macroClass: ClassTag)
    | ExpansionFailed(macroString: string, cause: CoerceError)
    | MalformedMacro(reason: string)
    | NotAString(value: RawValue)

  /** The scanner's guarantee: spans inside the string, in order, not overlapping. */
  predicate WellFormed(blob: string, ms: seq<MacroMatch>)
  {
    && (forall i | 0 <= i < |ms| :: ms[i].start < ms[i].end <= |blob|)
    && (forall i, j | 0 <= i < j < |ms| :: ms[i].end <= ms[j].start)
  }

  /**
   * An assumption about the scanner, which is not part of this model: each
   * match, macro or escape, begins at a `$`.
   */
  predicate StartsAtDollar(blob: string, ms: seq<MacroMatch>)
    requires WellFormed(blob, ms)
  {
    forall i | 0 <= i < |ms| :: blob[ms[i].start] == '$'
  }

  /** `tryParseFast`: a string without `$` is one constant string. */
  function TryParseFast(blob: string): (r: Option<StringWithMacros>)
    ensures r.Some? <==> '$' !in blob
    ensures r.Some? ==> r.value.parts == [Literal(blob)]
  {
    if '$' in blob then None else Some(OfConstantString(blob))
  }

  /** The macro name looked up and the output-to-file flag, from the macro type. */
  function SplitMacroType(macroType: string): (r: (string, bool))
    ensures r.1 <==> |macroType| > 0 && macroType[0] == '@'
    ensures macroType == if r.1 then "@" + r.0 else r.0
  {
    if |macroType| > 0 && macroType[0] == '@' then (macroType[1..], true)
    else (macroType, false)
  }

  /** The container a non-escaped match expands to, or the failure it raises. */
  function ExpandMacro(reg: Registry, ctx: Context, blob: string, m: MacroMatch):
    (r: Result<MacroContainer, CoerceFailure>)
    requires m.start <= m.end <= |blob|
    ensures var name := SplitMacroType(m.macroType).0;
      name !in reg.macros <==> r == Failure(UnknownMacro(m.macroType, blob[m.start..m.end]))
    ensures var name := SplitMacroType(m.macroType).0;
      name in reg.macros ==>
        (reg.macros[name] !in reg.coercers <==> r == Failure(MissingCoercer(reg.macros[name])))
    ensures var name := SplitMacroType(m.macroType).0;
      name in reg.macros && reg.macros[name] in reg.coercers ==>
        match reg.coercers[reg.macros[name]].coerce(ctx, m.args)
        case Failure(e) => r == Failure(ExpansionFailed(blob[m.start..m.end], e))
        case Success(macro) =>
          r == Success(MacroContainer(macro, SplitMacroType(m.macroType).1))
  {
    var (name, outputToFile) := SplitMacroType(m.macroType);
    var macroString := blob[m.start..m.end];
    if name !in reg.macros then Failure(UnknownMacro(m.macroType, macroString))
    else if reg.macros[name] !in reg.coercers then Failure(MissingCoercer(reg.macros[name]))
    else
      match reg.coercers[reg.macros[name]].coerce(ctx, m.args)
      case Failure(e) => Failure(ExpansionFailed(macroString, e))
      case Success(macro) => Success(MacroContainer(macro, outputToFile))
  }

  /** The literal `blob[from..to)`, emitted only when it is not empty. */
  function Gap(blob: string, from: nat, to: nat): (r: seq<Part>)
    requires from <= to <= |blob|
    ensures AllLiterals(r) && LiteralText(r) == blob[from..to]
    ensures MacroContainers(r) == []
    ensures Canonical(r)
  {
    if from < to then [Literal(blob[from..to])] else []
  }

  /** `parts` put in front of the parts of a successful result. */
  function Prefixed(parts: seq<Part>, r: Result<seq<Part>, CoerceFailure>): Result<seq<Part>, CoerceFailure>
  {
    match r
    case Success(rest) => Success(parts + rest)
    case Failure(e) => Failure(e)
  }

  /** The scanner's guarantee, as needed from match `i` on with the cursor at `lastEnd`. */
  predicate CursorOk(blob: string, ms: seq<MacroMatch>, i: nat, lastEnd: nat)
  {
    && WellFormed(blob, ms)
    && i <= |ms|
    && lastEnd <= |blob|
    && (i < |ms| ==> lastEnd <= ms[i].start)
  }

  /**
   * The parts the general path emits from match `i` on, the cursor at
   * `lastEnd`: the gap before each match, the match's own part, and the
   * trailing text; or the first failure on the way.
   */
  function PartsFrom(reg: Registry, ctx: Context, blob: string, scan: Scan, i: nat, lastEnd: nat):
    Result<seq<Part>, CoerceFailure>
    requires CursorOk(blob, scan.matches, i, lastEnd)
    decreases |scan.matches| - i
  {
    var ms := scan.matches;
    if i == |ms| then
      if scan.failure.Some? then Failure(MalformedMacro(scan.failure.value))
      else Success(Gap(blob, lastEnd, |blob|))
    else
      var m := ms[i];
      var gap := Gap(blob, lastEnd, m.start);
      if m.escaped then
        Prefixed(gap + [Literal(blob[m.start + 1..m.end])], PartsFrom(reg, ctx, blob, scan, i + 1, m.end))
      else
        match ExpandMacro(reg, ctx, blob, m)
        case Failure(e) => Failure(e)
        case Success(c) => Prefixed(gap + [MacroRef(c)], PartsFrom(reg, ctx, blob, scan, i + 1, m.end))
  }

  /** What `parse` returns for `blob` and the scanner's output for it. */
  function ParseResult(reg: Registry, ctx: Context, blob: string, scan: Scan):
    Result<StringWithMacros, CoerceFailure>
    requires WellFormed(blob, scan.matches)
  {
    match TryParseFast(blob)
    case Some(fast) => Success(fast)
    case None =>
      match PartsFrom(reg, ctx, blob, scan, 0, 0)
      case Success(parts) => Success(StringWithMacros(parts))
      case Failure(e) => Failure(e)
  }

  /** `parse`: the fast path, else the loop over the scanner's matches. */
  method Parse(reg: Registry, ctx: Context, blob: string, scan: Scan)
    returns (r: Result<StringWithMacros, CoerceFailure>)
    requires WellFormed(blob, scan.matches)
    ensures '$' !in blob ==> r == Success(OfConstantString(blob))
    ensures r == ParseResult(reg, ctx, blob, scan)
  {
    var fast := TryParseFast(blob);
    if fast.Some? {
      return Success(fast.value);
    }

    var ms := scan.matches;
    var parts: seq<Part> := [];
    var lastEnd: nat := 0;
    var i := 0;
    PrefixedAssoc([], [], PartsFrom(reg, ctx, blob, scan, 0, 0));
    while i < |ms|
      invariant CursorOk(blob, ms, i, lastEnd)
      invariant PartsFrom(reg, ctx, blob, scan, 0, 0) == Prefixed(parts, PartsFrom(reg, ctx, blob, scan, i, lastEnd))
      decreases |ms| - i
    {
      var m := ms[i];
      ghost var before := parts;
      ghost var gap := Gap(blob, lastEnd, m.start);
      if lastEnd < m.start {
        parts := parts + [Literal(blob[lastEnd..m.start])];
      }
      assert parts == before + gap;
      ghost var part: Part;
      if m.escaped {
        part := Literal(blob[m.start + 1..m.end]);
        parts := parts + [Literal(blob[m.start + 1..m.end])];
      } else {
        var expanded := ExpandMatch(reg, ctx, blob, m);
        if expanded.Failure? {
          ExpansionFailureStops(reg, ctx, blob, scan, i, lastEnd, before);
          return Failure(expanded.error);
        }
        part := MacroRef(expanded.value);
        parts := parts + [MacroRef(expanded.value)];
      }
      assert parts == before + gap + [part];
      StepAdvances(reg, ctx, blob, scan, i, lastEnd, before, part);
      lastEnd := m.end;
      i := i + 1;
    }
    if scan.failure.Some? {
      return Failure(MalformedMacro(scan.failure.value));
    }
    ghost var before := parts;
    if lastEnd < |blob| {
      parts := parts + [Literal(blob[lastEnd..])];
      assert blob[lastEnd..] == blob[lastEnd..|blob|];
    }
    assert parts == before + Gap(blob, lastEnd, |blob|);
    r := Success(StringWithMacros(parts));
  }

  /**
   * The expansion of one non-escaped match, in the statement-by-statement,
   * early-exit form the loop body of `parse` has: strip the `@` prefix,
   * look up the macro class and its coercer, and call the coercer on the
   * arguments. `ExpandMacro` is its specification.
   */
  method ExpandMatch(reg: Registry, ctx: Context, blob: string, m: MacroMatch)
    returns (r: Result<MacroContainer, CoerceFailure>)
    requires m.start <= m.end <= |blob|
    ensures r == ExpandMacro(reg, ctx, blob, m)
  {
    var macroString := blob[m.start..m.end];
    var name := m.macroType;
    var outputToFile: bool;
    if |name| > 0 && name[0] == '@' {
      outputToFile := true;
      name := name[1..];
    } else {
      outputToFile := false;
    }
    if name !in reg.macros {
      return Failure(UnknownMacro(m.macroType, macroString));
    }
    var clazz := reg.macros[name];
    if clazz !in reg.coercers {
      return Failure(MissingCoercer(clazz));
    }
    var coercer := reg.coercers[clazz];
    var macro := coercer.coerce(ctx, m.args);
    if macro.Failure? {
      return Failure(ExpansionFailed(macroString, macro.error));
    }
    r := Success(MacroContainer(macro.value, outputToFile));
  }

  /** One unfolding of `PartsFrom` at a match. */
  lemma UnfoldMatch(reg: Registry, ctx: Context, blob: string, scan: Scan, i: nat, lastEnd: nat)
    requires CursorOk(blob, scan.matches, i, lastEnd) && i < |scan.matches|
    ensures var m := scan.matches[i];
      var gap := Gap(blob, lastEnd, m.start);
      var rest := PartsFrom(reg, ctx, blob, scan, i + 1, m.end);
      PartsFrom(reg, ctx, blob, scan, i, lastEnd) ==
        if m.escaped then Prefixed(gap + [Literal(blob[m.start + 1..m.end])], rest)
        else match ExpandMacro(reg, ctx, blob, m)
          case Failure(e) => Failure(e)
          case Success(c) => Prefixed(gap + [MacroRef(c)], rest)
  {
  }

  /** A match that expands (or is escaped) moves the loop's invariant one match on. */
  lemma StepAdvances(reg: Registry, ctx: Context, blob: string, scan: Scan, i: nat, lastEnd: nat,
                     before: seq<Part>, part: Part)
    requires CursorOk(blob, scan.matches, i, lastEnd) && i < |scan.matches|
    requires PartsFrom(reg, ctx, blob, scan, 0, 0) == Prefixed(before, PartsFrom(reg, ctx, blob, scan, i, lastEnd))
    requires var m := scan.matches[i];
      if m.escaped then part == Literal(blob[m.start + 1..m.end])
      else part.MacroRef? && ExpandMacro(reg, ctx, blob, m) == Success(part.container)
    ensures var m := scan.matches[i];
      PartsFrom(reg, ctx, blob, scan, 0, 0) ==
        Prefixed(before + Gap(blob, lastEnd, m.start) + [part], PartsFrom(reg, ctx, blob, scan, i + 1, m.end))
  {
    var m := scan.matches[i];
    var rest := PartsFrom(reg, ctx, blob, scan, i + 1, m.end);
    UnfoldMatch(reg, ctx, blob, scan, i, lastEnd);
    assert PartsFrom(reg, ctx, blob, scan, i, lastEnd) == Prefixed(Gap(blob, lastEnd, m.start) + [part], rest) by {
      if !m.escaped {
        assert part == MacroRef(part.container);
      }
    }
    PrefixedAssoc(before, Gap(blob, lastEnd, m.start) + [part], rest);
    assert before + (Gap(blob, lastEnd, m.start) + [part]) == before + Gap(blob, lastEnd, m.start) + [part];
  }

  /** A match whose expansion fails makes the whole parse fail with that failure. */
  lemma ExpansionFailureStops(reg: Registry, ctx: Context, blob: string, scan: Scan, i: nat, lastEnd: nat,
                              before: seq<Part>)
    requires CursorOk(blob, scan.matches, i, lastEnd) && i < |scan.matches|
    requires PartsFrom(reg, ctx, blob, scan, 0, 0) == Prefixed(before, PartsFrom(reg, ctx, blob, scan, i, lastEnd))
    requires !scan.matches[i].escaped
    requires ExpandMacro(reg, ctx, blob, scan.matches[i]).Failure?
    ensures PartsFrom(reg, ctx, blob, scan, 0, 0) == Failure(ExpandMacro(reg, ctx, blob, scan.matches[i]).error)
  {
    UnfoldMatch(reg, ctx, blob, scan, i, lastEnd);
  }

  /** `PartsFrom` at an escaped match. */
  lemma UnfoldEscaped(reg: Registry, ctx: Context, blob: string, scan: Scan, i: nat, lastEnd: nat)
    requires CursorOk(blob, scan.matches, i, lastEnd) && i < |scan.matches| && scan.matches[i].escaped
    ensures var m := scan.matches[i];
      PartsFrom(reg, ctx, blob, scan, i, lastEnd) ==
        Prefixed(Gap(blob, lastEnd, m.start) + [Literal(blob[m.start + 1..m.end])],
                 PartsFrom(reg, ctx, blob, scan, i + 1, m.end))
  {
  }

  /** `PartsFrom` at a match that expands to `c`. */
  lemma UnfoldExpanded(reg: Registry, ctx: Context, blob: string, scan: Scan, i: nat, lastEnd: nat,
                       c: MacroContainer)
    requires CursorOk(blob, scan.matches, i, lastEnd) && i < |scan.matches| && !scan.matches[i].escaped
    requires ExpandMacro(reg, ctx, blob, scan.matches[i]) == Success(c)
    ensures var m := scan.matches[i];
      PartsFrom(reg, ctx, blob, scan, i, lastEnd) ==
        Prefixed(Gap(blob, lastEnd, m.start) + [MacroRef(c)], PartsFrom(reg, ctx, blob, scan, i + 1, m.end))
  {
  }

  /** `PartsFrom` at a match whose expansion fails. */
  lemma UnfoldFailed(reg: Registry, ctx: Context, blob: string, scan: Scan, i: nat, lastEnd: nat)
    requires CursorOk(blob, scan.matches, i, lastEnd) && i < |scan.matches| && !scan.matches[i].escaped
    requires ExpandMacro(reg, ctx, blob, scan.matches[i]).Failure?
    ensures PartsFrom(reg, ctx, blob, scan, i, lastEnd) ==
      Failure(ExpandMacro(reg, ctx, blob, scan.matches[i]).error)
  {
  }

  lemma PrefixedAssoc(a: seq<Part>, b: seq<Part>, r: Result<seq<Part>, CoerceFailure>)
    ensures Prefixed(a, Prefixed(b, r)) == Prefixed(a + b, r)
    ensures Prefixed([], r) == r
  {
    if r.Success? {
      assert a + (b + r.value) == (a + b) + r.value;
      assert [] + r.value == r.value;
    }
  }

  /** `coerce`: only a string is parsed; anything else is a type mismatch. */
  method Coerce(reg: Registry, ctx: Context, value: RawValue, scan: Scan)
    returns (r: Result<StringWithMacros, CoerceFailure>)
    requires value.RawString? ==> WellFormed(value.s, scan.matches)
    ensures value.RawOther? ==> r == Failure(NotAString(value))
    ensures value.RawString? ==> r == ParseResult(reg, ctx, value.s, scan)
  {
    if !value.RawString? {
      return Failure(NotAString(value));
    }
    r := Parse(reg, ctx, value.s, scan);
  }
}
