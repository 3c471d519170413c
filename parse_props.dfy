/**
 * Properties of the general parsing path: the fast path agrees with it,
 * escapes drop exactly one character each, macro parts follow the
 * non-escaped matches in order, and the first failing match decides the
 * failure.
 */
module ParsingProperties {
  import opened Wrappers
  import opened Macros
  import opened MacroRegistry
  import opened MacroParsing

  // ---------------------------------------------------------------------
  // Fast path

  /** A scanner that starts its matches at a `$` finds none in a string without one. */
  lemma MatchNeedsDollar(blob: string, ms: seq<MacroMatch>)
    requires WellFormed(blob, ms) && StartsAtDollar(blob, ms)
    ensures ms != [] ==> '$' in blob
  {
    if ms != [] {
      assert blob[ms[0].start] == '$';
    }
  }

  /**
   * On a string without `$` the scanner finds nothing, and the general path
   * yields the whole string as one literal (no part at all for the empty
   * string), which is what the fast path returns.
   */
  lemma FastPathAgreesWithGeneralPath(reg: Registry, ctx: Context, blob: string, scan: Scan)
    requires WellFormed(blob, scan.matches) && StartsAtDollar(blob, scan.matches)
    requires scan.failure.None?
    requires '$' !in blob
    ensures scan.matches == []
    ensures PartsFrom(reg, ctx, blob, scan, 0, 0) ==
      Success(if blob == "" then [] else TryParseFast(blob).value.parts)
  {
    MatchNeedsDollar(blob, scan.matches);
    assert blob[0..|blob|] == blob;
  }

  // ---------------------------------------------------------------------
  // Escapes

  /** The characters of `s[lo..hi)` whose positions are not in `drops`. */
  function Kept(s: string, drops: set<int>, lo: nat, hi: nat): string
    requires lo <= hi <= |s|
    decreases hi - lo
  {
    if lo == hi then ""
    else (if lo in drops then "" else [s[lo]]) + Kept(s, drops, lo + 1, hi)
  }

  /** The start positions of the matches. */
  function Starts(ms: seq<MacroMatch>): set<int>
  {
    set i | 0 <= i < |ms| :: ms[i].start as int
  }

  lemma {:induction false} KeptSplit(s: string, drops: set<int>, lo: nat, mid: nat, hi: nat)
    requires lo <= mid <= hi <= |s|
    ensures Kept(s, drops, lo, hi) == Kept(s, drops, lo, mid) + Kept(s, drops, mid, hi)
    decreases mid - lo
  {
    if lo < mid {
      KeptSplit(s, drops, lo + 1, mid, hi);
    }
  }

  lemma {:induction false} KeptUntouched(s: string, drops: set<int>, lo: nat, hi: nat)
    requires lo <= hi <= |s|
    requires forall k | lo <= k < hi :: k !in drops
    ensures Kept(s, drops, lo, hi) == s[lo..hi]
    decreases hi - lo
  {
    if lo < hi {
      KeptUntouched(s, drops, lo + 1, hi);
      assert s[lo..hi] == [s[lo]] + s[lo + 1..hi];
    }
  }

  /** The text of an escaped match, from the cursor on, is the input with its start dropped. */
  lemma EscapedStep(blob: string, ms: seq<MacroMatch>, i: nat, lastEnd: nat)
    requires CursorOk(blob, ms, i, lastEnd) && i < |ms|
    requires forall j | 0 <= j < i :: ms[j].start < lastEnd
    ensures var m := ms[i];
      blob[lastEnd..m.start] + blob[m.start + 1..m.end] == Kept(blob, Starts(ms), lastEnd, m.end)
  {
    var m := ms[i];
    var drops := Starts(ms);
    assert m.start in drops;
    forall k | lastEnd <= k < m.start || m.start < k < m.end ensures k !in drops {
      forall j | 0 <= j < |ms| ensures ms[j].start != k {
        if j > i {
          assert ms[i].end <= ms[j].start;
        }
      }
    }
    KeptSplit(blob, drops, lastEnd, m.start, m.end);
    KeptUntouched(blob, drops, lastEnd, m.start);
    KeptUntouched(blob, drops, m.start + 1, m.end);
  }

  lemma PrefixedLiterals(step: seq<Part>, rest: seq<Part>)
    requires AllLiterals(step) && AllLiterals(rest)
    ensures AllLiterals(step + rest)
    ensures LiteralText(step + rest) == LiteralText(step) + LiteralText(rest)
  {
    AllLiteralsAppend(step, rest);
    LiteralTextAppend(step, rest);
  }

  lemma EscapedStepParts(blob: string, lastEnd: nat, m: MacroMatch)
    requires lastEnd <= m.start < m.end <= |blob|
    ensures var step := Gap(blob, lastEnd, m.start) + [Literal(blob[m.start + 1..m.end])];
      AllLiterals(step) && LiteralText(step) == blob[lastEnd..m.start] + blob[m.start + 1..m.end]
  {
    var lit := [Literal(blob[m.start + 1..m.end])];
    assert LiteralText(lit) == blob[m.start + 1..m.end];
    PrefixedLiterals(Gap(blob, lastEnd, m.start), lit);
  }

  lemma CursorPassesStart(blob: string, ms: seq<MacroMatch>, i: nat, lastEnd: nat)
    requires CursorOk(blob, ms, i, lastEnd) && i < |ms|
    requires forall j | 0 <= j < i :: ms[j].start < lastEnd
    ensures forall j | 0 <= j < i + 1 :: ms[j].start < ms[i].end
    ensures CursorOk(blob, ms, i + 1, ms[i].end)
  {
  }

  lemma EscapedText(blob: string, drops: set<int>, lastEnd: nat, m: MacroMatch, rest: seq<Part>)
    requires lastEnd <= m.start < m.end <= |blob|
    requires blob[lastEnd..m.start] + blob[m.start + 1..m.end] == Kept(blob, drops, lastEnd, m.end)
    requires AllLiterals(rest) && LiteralText(rest) == Kept(blob, drops, m.end, |blob|)
    ensures var step := Gap(blob, lastEnd, m.start) + [Literal(blob[m.start + 1..m.end])];
      AllLiterals(step + rest) && LiteralText(step + rest) == Kept(blob, drops, lastEnd, |blob|)
  {
    var step := Gap(blob, lastEnd, m.start) + [Literal(blob[m.start + 1..m.end])];
    EscapedStepParts(blob, lastEnd, m);
    PrefixedLiterals(step, rest);
    KeptSplit(blob, drops, lastEnd, m.end, |blob|);
  }

  /** Positions from `bound` on start no match when every match starts before `bound`. */
  lemma StartsBelow(ms: seq<MacroMatch>, bound: nat)
    requires forall j | 0 <= j < |ms| :: ms[j].start < bound
    ensures forall k: int | k >= bound :: k !in Starts(ms)
  {
  }

  lemma {:induction false} AllEscapedFrom(reg: Registry, ctx: Context, blob: string, scan: Scan, i: nat, lastEnd: nat)
    requires CursorOk(blob, scan.matches, i, lastEnd)
    requires forall j | 0 <= j < |scan.matches| :: scan.matches[j].escaped
    requires scan.failure.None?
    requires forall j | 0 <= j < i :: scan.matches[j].start < lastEnd
    ensures PartsFrom(reg, ctx, blob, scan, i, lastEnd).Success?
    ensures AllLiterals(PartsFrom(reg, ctx, blob, scan, i, lastEnd).value)
    ensures LiteralText(PartsFrom(reg, ctx, blob, scan, i, lastEnd).value) ==
      Kept(blob, Starts(scan.matches), lastEnd, |blob|)
    decreases |scan.matches| - i
  {
    var ms := scan.matches;
    if i == |ms| {
      StartsBelow(ms, lastEnd);
      KeptUntouched(blob, Starts(ms), lastEnd, |blob|);
    } else {
      CursorPassesStart(blob, ms, i, lastEnd);
      AllEscapedFrom(reg, ctx, blob, scan, i + 1, ms[i].end);
      AllEscapedStep(reg, ctx, blob, scan, i, lastEnd);
    }
  }

  /** One escape of `AllEscapedFrom`: from what holds after match `i` to what holds before it. */
  lemma AllEscapedStep(reg: Registry, ctx: Context, blob: string, scan: Scan, i: nat, lastEnd: nat)
    requires CursorOk(blob, scan.matches, i, lastEnd) && i < |scan.matches| && scan.matches[i].escaped
    requires forall j | 0 <= j < i :: scan.matches[j].start < lastEnd
    requires CursorOk(blob, scan.matches, i + 1, scan.matches[i].end)
    requires var after := PartsFrom(reg, ctx, blob, scan, i + 1, scan.matches[i].end);
      after.Success? && AllLiterals(after.value) &&
      LiteralText(after.value) == Kept(blob, Starts(scan.matches), scan.matches[i].end, |blob|)
    ensures var here := PartsFrom(reg, ctx, blob, scan, i, lastEnd);
      here.Success? && AllLiterals(here.value) &&
      LiteralText(here.value) == Kept(blob, Starts(scan.matches), lastEnd, |blob|)
  {
    var ms := scan.matches;
    var m := ms[i];
    UnfoldEscaped(reg, ctx, blob, scan, i, lastEnd);
    var rest := PartsFrom(reg, ctx, blob, scan, i + 1, m.end).value;
    EscapedStep(blob, ms, i, lastEnd);
    EscapedText(blob, Starts(ms), lastEnd, m, rest);
  }

  /**
   * When every match is an escape, the parse succeeds with literal parts
   * only, and their text is the input with the character at each match
   * start removed.
   */
  lemma AllEscapedParse(reg: Registry, ctx: Context, blob: string, scan: Scan)
    requires WellFormed(blob, scan.matches)
    requires forall j | 0 <= j < |scan.matches| :: scan.matches[j].escaped
    requires scan.failure.None?
    ensures PartsFrom(reg, ctx, blob, scan, 0, 0).Success?
    ensures AllLiterals(PartsFrom(reg, ctx, blob, scan, 0, 0).value)
    ensures LiteralText(PartsFrom(reg, ctx, blob, scan, 0, 0).value) ==
      Kept(blob, Starts(scan.matches), 0, |blob|)
  {
    AllEscapedFrom(reg, ctx, blob, scan, 0, 0);
  }

  // ---------------------------------------------------------------------
  // Macro parts

  /** The non-escaped matches from index `i` on, in order. */
  function NonEscaped(ms: seq<MacroMatch>, i: nat): (r: seq<MacroMatch>)
    requires i <= |ms|
    ensures forall m | m in r :: m in ms && !m.escaped
    decreases |ms| - i
  {
    if i == |ms| then []
    else (if ms[i].escaped then [] else [ms[i]]) + NonEscaped(ms, i + 1)
  }

  /** The expansions of `ns` in order, or the failure of the first one that fails. */
  function ExpandEach(reg: Registry, ctx: Context, blob: string, ns: seq<MacroMatch>):
    (r: Result<seq<MacroContainer>, CoerceFailure>)
    requires forall m | m in ns :: m.start <= m.end <= |blob|
    ensures r.Success? <==> forall k | 0 <= k < |ns| :: ExpandMacro(reg, ctx, blob, ns[k]).Success?
    ensures r.Success? ==> |r.value| == |ns|
    ensures r.Success? ==>
      forall k | 0 <= k < |ns| :: r.value[k] == ExpandMacro(reg, ctx, blob, ns[k]).value
  {
    if ns == [] then Success([])
    else
      ExpandEachSplit(reg, ctx, blob, ns);
      match ExpandMacro(reg, ctx, blob, ns[0])
      case Failure(e) => Failure(e)
      case Success(c) =>
        match ExpandEach(reg, ctx, blob, ns[1..])
        case Failure(e) => Failure(e)
        case Success(cs) => Success([c] + cs)
  }

  /** The matches of `ns` are its first one and those of its tail. */
  lemma ExpandEachSplit(reg: Registry, ctx: Context, blob: string, ns: seq<MacroMatch>)
    requires ns != [] && forall m | m in ns :: m.start <= m.end <= |blob|
    ensures forall m | m in ns[1..] :: m.start <= m.end <= |blob|
    ensures (forall k | 0 <= k < |ns| :: ExpandMacro(reg, ctx, blob, ns[k]).Success?) <==>
      ExpandMacro(reg, ctx, blob, ns[0]).Success? &&
      forall k | 0 <= k < |ns[1..]| :: ExpandMacro(reg, ctx, blob, ns[1..][k]).Success?
    ensures forall k | 1 <= k < |ns| :: ns[k] == ns[1..][k - 1]
  {
    assert forall k | 1 <= k < |ns| :: ns[k] == ns[1..][k - 1];
  }

  /** The macro containers of a successful parse; a failure unchanged. */
  function MacrosOf(r: Result<seq<Part>, CoerceFailure>): Result<seq<MacroContainer>, CoerceFailure>
  {
    match r
    case Success(ps) => Success(MacroContainers(ps))
    case Failure(e) => Failure(e)
  }

  /** A result of the matches, followed by the scanner's own failure if it has one. */
  function ThenScanFailure(r: Result<seq<MacroContainer>, CoerceFailure>, scan: Scan):
    Result<seq<MacroContainer>, CoerceFailure>
  {
    match r
    case Failure(e) => Failure(e)
    case Success(cs) =>
      if scan.failure.Some? then Failure(MalformedMacro(scan.failure.value)) else Success(cs)
  }

  lemma MacrosOfPrefixed(p: seq<Part>, r: Result<seq<Part>, CoerceFailure>)
    ensures MacrosOf(Prefixed(p, r)) ==
      match MacrosOf(r)
      case Success(cs) => Success(MacroContainers(p) + cs)
      case Failure(e) => Failure(e)
  {
    if r.Success? {
      MacroContainersAppend(p, r.value);
    }
  }

  lemma MacroPartsEscapedStep(reg: Registry, ctx: Context, blob: string, scan: Scan, i: nat, lastEnd: nat)
    requires CursorOk(blob, scan.matches, i, lastEnd) && i < |scan.matches| && scan.matches[i].escaped
    ensures MacrosOf(PartsFrom(reg, ctx, blob, scan, i, lastEnd)) ==
      MacrosOf(PartsFrom(reg, ctx, blob, scan, i + 1, scan.matches[i].end))
  {
    var m := scan.matches[i];
    UnfoldEscaped(reg, ctx, blob, scan, i, lastEnd);
    var step := Gap(blob, lastEnd, m.start) + [Literal(blob[m.start + 1..m.end])];
    var rest := PartsFrom(reg, ctx, blob, scan, i + 1, m.end);
    MacroContainersAppend(Gap(blob, lastEnd, m.start), [Literal(blob[m.start + 1..m.end])]);
    MacrosOfPrefixed(step, rest);
    if MacrosOf(rest).Success? {
      assert MacroContainers(step) + MacrosOf(rest).value == MacrosOf(rest).value;
    }
  }

  lemma MacroPartsExpandedStep(reg: Registry, ctx: Context, blob: string, scan: Scan, i: nat, lastEnd: nat,
                               c: MacroContainer)
    requires CursorOk(blob, scan.matches, i, lastEnd) && i < |scan.matches| && !scan.matches[i].escaped
    requires ExpandMacro(reg, ctx, blob, scan.matches[i]) == Success(c)
    ensures MacrosOf(PartsFrom(reg, ctx, blob, scan, i, lastEnd)) ==
      match MacrosOf(PartsFrom(reg, ctx, blob, scan, i + 1, scan.matches[i].end))
      case Success(cs) => Success([c] + cs)
      case Failure(e) => Failure(e)
  {
    var m := scan.matches[i];
    UnfoldExpanded(reg, ctx, blob, scan, i, lastEnd, c);
    var gap := Gap(blob, lastEnd, m.start);
    MacroContainersAppend(gap, [MacroRef(c)]);
    assert MacroContainers([MacroRef(c)]) == [c] by {
      assert [MacroRef(c)][1..] == [];
    }
    MacrosOfPrefixed(gap + [MacroRef(c)], PartsFrom(reg, ctx, blob, scan, i + 1, m.end));
  }

  lemma ExpandEachCons(reg: Registry, ctx: Context, blob: string, m: MacroMatch, tail: seq<MacroMatch>,
                       c: MacroContainer, scan: Scan)
    requires m.start <= m.end <= |blob| && forall n | n in tail :: n.start <= n.end <= |blob|
    requires ExpandMacro(reg, ctx, blob, m) == Success(c)
    ensures ThenScanFailure(ExpandEach(reg, ctx, blob, [m] + tail), scan) ==
      match ThenScanFailure(ExpandEach(reg, ctx, blob, tail), scan)
      case Success(cs) => Success([c] + cs)
      case Failure(e) => Failure(e)
  {
    assert ([m] + tail)[0] == m && ([m] + tail)[1..] == tail;
  }

  lemma {:induction false} MacroPartsFrom(reg: Registry, ctx: Context, blob: string, scan: Scan, i: nat, lastEnd: nat)
    requires CursorOk(blob, scan.matches, i, lastEnd)
    ensures forall m | m in NonEscaped(scan.matches, i) :: m.start <= m.end <= |blob|
    ensures MacrosOf(PartsFrom(reg, ctx, blob, scan, i, lastEnd)) ==
      ThenScanFailure(ExpandEach(reg, ctx, blob, NonEscaped(scan.matches, i)), scan)
    decreases |scan.matches| - i
  {
    var ms := scan.matches;
    if i < |ms| {
      var m := ms[i];
      MacroPartsFrom(reg, ctx, blob, scan, i + 1, m.end);
      if m.escaped {
        assert NonEscaped(ms, i) == [] + NonEscaped(ms, i + 1) == NonEscaped(ms, i + 1);
        MacroPartsEscapedStep(reg, ctx, blob, scan, i, lastEnd);
      } else {
        var tail := NonEscaped(ms, i + 1);
        assert NonEscaped(ms, i) == [m] + tail;
        match ExpandMacro(reg, ctx, blob, m)
        case Failure(e) =>
          UnfoldFailed(reg, ctx, blob, scan, i, lastEnd);
          assert ([m] + tail)[0] == m;
        case Success(c) =>
          MacroPartsExpandedStep(reg, ctx, blob, scan, i, lastEnd, c);
          ExpandEachCons(reg, ctx, blob, m, tail, c, scan);
      }
    }
  }

  /**
   * The macro parts of a parse are the expansions of the non-escaped
   * matches, as many and in the same order; and the parse fails exactly
   * when one of those expansions fails (with the first such failure) or the
   * scanner fails.
   */
  lemma MacroPartsFollowMatches(reg: Registry, ctx: Context, blob: string, scan: Scan)
    requires WellFormed(blob, scan.matches)
    ensures forall m | m in NonEscaped(scan.matches, 0) :: m.start <= m.end <= |blob|
    ensures MacrosOf(PartsFrom(reg, ctx, blob, scan, 0, 0)) ==
      ThenScanFailure(ExpandEach(reg, ctx, blob, NonEscaped(scan.matches, 0)), scan)
  {
    MacroPartsFrom(reg, ctx, blob, scan, 0, 0);
  }

  // ---------------------------------------------------------------------
  // Failures

  lemma {:induction false} FailureFrom(reg: Registry, ctx: Context, blob: string, scan: Scan,
                                       i: nat, lastEnd: nat, k: nat)
    requires CursorOk(blob, scan.matches, i, lastEnd)
    requires i <= k < |scan.matches| && !scan.matches[k].escaped
    requires ExpandMacro(reg, ctx, blob, scan.matches[k]).Failure?
    requires forall j | i <= j < k && !scan.matches[j].escaped ::
      ExpandMacro(reg, ctx, blob, scan.matches[j]).Success?
    ensures PartsFrom(reg, ctx, blob, scan, i, lastEnd) ==
      Failure(ExpandMacro(reg, ctx, blob, scan.matches[k]).error)
    decreases |scan.matches| - i
  {
    if i == k {
      UnfoldFailed(reg, ctx, blob, scan, i, lastEnd);
    }
    if i < k {
      var m := scan.matches[i];
      if m.escaped {
        UnfoldEscaped(reg, ctx, blob, scan, i, lastEnd);
      } else {
        UnfoldExpanded(reg, ctx, blob, scan, i, lastEnd, ExpandMacro(reg, ctx, blob, m).value);
      }
      FailureFrom(reg, ctx, blob, scan, i + 1, scan.matches[i].end, k);
    }
  }

  /**
   * The first non-escaped match whose expansion fails decides the parse's
   * failure: an unknown name, a class without coercer, or the coercer's own
   * failure wrapped with the match's text.
   */
  lemma FirstFailingMatchDecides(reg: Registry, ctx: Context, blob: string, scan: Scan, k: nat)
    requires WellFormed(blob, scan.matches) && '$' in blob
    requires k < |scan.matches| && !scan.matches[k].escaped
    requires ExpandMacro(reg, ctx, blob, scan.matches[k]).Failure?
    requires forall j | 0 <= j < k && !scan.matches[j].escaped ::
      ExpandMacro(reg, ctx, blob, scan.matches[j]).Success?
    ensures ParseResult(reg, ctx, blob, scan) ==
      Failure(ExpandMacro(reg, ctx, blob, scan.matches[k]).error)
  {
    FailureFrom(reg, ctx, blob, scan, 0, 0, k);
  }

  lemma {:induction false} NoMissingCoercerFrom(reg: Registry, ctx: Context, blob: string, scan: Scan,
                                                i: nat, lastEnd: nat)
    requires CursorOk(blob, scan.matches, i, lastEnd)
    requires Complete(reg)
    ensures var r := PartsFrom(reg, ctx, blob, scan, i, lastEnd);
      !(r.Failure? && r.error.MissingCoercer?)
    decreases |scan.matches| - i
  {
    if i < |scan.matches| {
      var m := scan.matches[i];
      UnfoldMatch(reg, ctx, blob, scan, i, lastEnd);
      NoMissingCoercerFrom(reg, ctx, blob, scan, i + 1, m.end);
      if !m.escaped {
        var name := SplitMacroType(m.macroType).0;
        if name in reg.macros {
          assert reg.macros[name] in reg.macros.Values;
        }
      }
    }
  }

  /**
   * With a coercer for every macro class, parsing never hits the
   * null-pointer failure of the coercer lookup; the constructor's check
   * (coercer classes within macro classes) does not ensure this by itself.
   */
  lemma CompleteRegistryFindsCoercers(reg: Registry, ctx: Context, blob: string, scan: Scan)
    requires WellFormed(blob, scan.matches)
    requires Complete(reg)
    ensures var r := ParseResult(reg, ctx, blob, scan);
      !(r.Failure? && r.error.MissingCoercer?)
  {
    NoMissingCoercerFrom(reg, ctx, blob, scan, 0, 0);
  }

  /**
   * Parsing against any registry a builder builds never hits the
   * null-pointer failure of the coercer lookup.
   */
  lemma BuiltRegistryFindsCoercers(b: Builder, ctx: Context, blob: string, scan: Scan)
    requires b.Balanced() && b.Build().Success?
    requires WellFormed(blob, scan.matches)
    ensures var r := ParseResult(b.Build().value, ctx, blob, scan);
      !(r.Failure? && r.error.MissingCoercer?)
  {
    BuildComplete(b);
    CompleteRegistryFindsCoercers(b.Build().value, ctx, blob, scan);
  }

  /**
   * The constructor's check alone is one-sided: it accepts this registry,
   * which lacks a coercer for a registered class. No builder builds it
   * (`BuildComplete`); only a direct call of the constructor could.
   */
  lemma ConstructorCheckIsOneSided(ctx: Context, c: MacroTypeCoercer)
    requires c.outputClass != "Other"
    ensures var reg := Registry(map["x" := "Other", "y" := c.outputClass], map[c.outputClass := c]);
      && Create(reg.macros, reg.coercers) == Success(reg)
      && Valid(reg)
      && ParseResult(reg, ctx, "$(x)", Scan([MacroMatch(0, 4, false, "x", [])], None)) ==
           Failure(MissingCoercer("Other"))
  {
    var reg := Registry(map["x" := "Other", "y" := c.outputClass], map[c.outputClass := c]);
    assert c.outputClass in reg.macros.Values by {
      assert reg.macros["y"] == c.outputClass;
    }
    assert "$(x)"[0] == '$';
    var scan := Scan([MacroMatch(0, 4, false, "x", [])], None);
    UnfoldMatch(reg, ctx, "$(x)", scan, 0, 0);
  }
}
