/**
 * Worked inputs for `parse`, and the escape round trip once the parts are
 * merged.
 */
module MacroExamples {
  import opened Wrappers
  import opened Macros
  import opened MacroRegistry
  import opened MacroParsing
  import opened ParsingProperties
  import opened MacroConcat

  /** `$(nosuchmacro arg)` against a registry without that name fails, naming it and its span. */
  lemma UnknownMacroExample(reg: Registry, ctx: Context)
    requires "nosuchmacro" !in reg.macros
    ensures var blob := "$(nosuchmacro arg)";
      var scan := Scan([MacroMatch(0, 18, false, "nosuchmacro", ["arg"])], None);
      WellFormed(blob, scan.matches) &&
      ParseResult(reg, ctx, blob, scan) == Failure(UnknownMacro("nosuchmacro", "$(nosuchmacro arg)"))
  {
    var blob := "$(nosuchmacro arg)";
    var m := MacroMatch(0, 18, false, "nosuchmacro", ["arg"]);
    var scan := Scan([m], None);
    assert blob[0] == '$';
    assert blob[0..18] == blob;
    UnfoldFailed(reg, ctx, blob, scan, 0, 0);
  }

  /** `$$(env FOO)` under any registry is the one literal `$(env FOO)`. */
  lemma EscapedInvocationExample(reg: Registry, ctx: Context)
    ensures var blob := "$$(env FOO)";
      var scan := Scan([MacroMatch(0, 11, true, "env", ["FOO"])], None);
      WellFormed(blob, scan.matches) &&
      ParseResult(reg, ctx, blob, scan) == Success(StringWithMacros([Literal("$(env FOO)")]))
  {
    var blob := "$$(env FOO)";
    var scan := Scan([MacroMatch(0, 11, true, "env", ["FOO"])], None);
    assert blob[0] == '$';
    assert blob[1..11] == "$(env FOO)";
    UnfoldEscaped(reg, ctx, blob, scan, 0, 0);
    assert Gap(blob, 11, 11) == [];
    assert PartsFrom(reg, ctx, blob, scan, 1, 11) == Success([]);
    assert Gap(blob, 0, 0) == [];
    var lit := [Literal("$(env FOO)")];
    assert Gap(blob, 0, 0) + lit == lit && lit + [] == lit;
    assert PartsFrom(reg, ctx, blob, scan, 0, 0) == Success(lit);
    assert TryParseFast(blob).None?;
  }

  /**
   * `$(@location //:target)` with `location` registered is one macro part
   * marked output-to-file, holding the coercer's value for `//:target`.
   */
  lemma OutputToFileExample(reg: Registry, ctx: Context)
    requires "location" in reg.macros && reg.macros["location"] in reg.coercers
    requires reg.coercers[reg.macros["location"]].coerce(ctx, ["//:target"]).Success?
    ensures var blob := "$(@location //:target)";
      var scan := Scan([MacroMatch(0, 22, false, "@location", ["//:target"])], None);
      var macro := reg.coercers[reg.macros["location"]].coerce(ctx, ["//:target"]).value;
      WellFormed(blob, scan.matches) &&
      ParseResult(reg, ctx, blob, scan) ==
        Success(StringWithMacros([MacroRef(MacroContainer(macro, true))]))
  {
    var blob := "$(@location //:target)";
    var m := MacroMatch(0, 22, false, "@location", ["//:target"]);
    var scan := Scan([m], None);
    var macro := reg.coercers[reg.macros["location"]].coerce(ctx, ["//:target"]).value;
    assert blob[0] == '$';
    assert SplitMacroType("@location") == ("location", true) by {
      assert "@location" == "@" + "location";
    }
    assert ExpandMacro(reg, ctx, blob, m) == Success(MacroContainer(macro, true));
    UnfoldExpanded(reg, ctx, blob, scan, 0, 0, MacroContainer(macro, true));
    assert Gap(blob, 22, 22) == [];
    assert PartsFrom(reg, ctx, blob, scan, 1, 22) == Success([]);
    assert Gap(blob, 0, 0) == [];
    var part := [MacroRef(MacroContainer(macro, true))];
    assert Gap(blob, 0, 0) + part == part && part + [] == part;
    assert PartsFrom(reg, ctx, blob, scan, 0, 0) == Success(part);
    assert TryParseFast(blob).None?;
  }

  /**
   * `a$$(x)` parses into two adjacent literals, `a` and `$(x)`: the parse
   * is not canonical.
   */
  lemma AdjacentLiteralsExample(reg: Registry, ctx: Context)
    ensures var blob := "a$$(x)";
      var scan := Scan([MacroMatch(1, 6, true, "x", [])], None);
      WellFormed(blob, scan.matches) &&
      ParseResult(reg, ctx, blob, scan) == Success(StringWithMacros([Literal("a"), Literal("$(x)")])) &&
      !Canonical([Literal("a"), Literal("$(x)")])
  {
    var blob := "a$$(x)";
    var scan := Scan([MacroMatch(1, 6, true, "x", [])], None);
    assert blob[1] == '$';
    assert blob[0..1] == "a" && blob[2..6] == "$(x)";
    UnfoldEscaped(reg, ctx, blob, scan, 0, 0);
    assert Gap(blob, 6, 6) == [];
    assert PartsFrom(reg, ctx, blob, scan, 1, 6) == Success([]);
    assert Gap(blob, 0, 1) == [Literal("a")];
    assert PartsFrom(reg, ctx, blob, scan, 0, 0) == Success([Literal("a"), Literal("$(x)")]) by {
      assert [Literal("a")] + [Literal("$(x)")] + [] == [Literal("a"), Literal("$(x)")];
    }
    assert TryParseFast(blob).None?;
    var ps := [Literal("a"), Literal("$(x)")];
    assert ps[0].Literal? && 0 + 1 < |ps| && ps[1].Literal?;
  }

  /** Merging joins those two literals into `a$(x)`. */
  lemma AdjacentLiteralsMerged()
    ensures Merge([Literal("a"), Literal("$(x)")]) == [Literal("a$(x)")]
  {
    var ps := [Literal("a"), Literal("$(x)")];
    assert ps[1..] == [Literal("$(x)")] && ps[1..][1..] == [];
    assert "" + "a" == "a" && "a" + "$(x)" == "a$(x)";
    assert MergeFrom(ps, "") == MergeFrom(ps[1..], "a");
    assert MergeFrom(ps[1..], "a") == MergeFrom([], "a$(x)");
  }

  /**
   * When every match is an escape, merging the parsed parts gives one
   * literal: the input with the first character of every escape removed
   * (or nothing, when that text is empty).
   */
  lemma EscapedRoundTrip(reg: Registry, ctx: Context, blob: string, scan: Scan)
    requires WellFormed(blob, scan.matches) && StartsAtDollar(blob, scan.matches)
    requires forall j | 0 <= j < |scan.matches| :: scan.matches[j].escaped
    requires scan.failure.None?
    ensures ParseResult(reg, ctx, blob, scan).Success?
    ensures Merge(ParseResult(reg, ctx, blob, scan).value.parts) ==
      Flush(Kept(blob, Starts(scan.matches), 0, |blob|))
  {
    if '$' !in blob {
      FastPathRoundTrip(blob, scan.matches);
    } else {
      GeneralPathRoundTrip(reg, ctx, blob, scan);
    }
  }

  /** The general path of `EscapedRoundTrip`. */
  lemma GeneralPathRoundTrip(reg: Registry, ctx: Context, blob: string, scan: Scan)
    requires WellFormed(blob, scan.matches)
    requires forall j | 0 <= j < |scan.matches| :: scan.matches[j].escaped
    requires scan.failure.None?
    ensures PartsFrom(reg, ctx, blob, scan, 0, 0).Success?
    ensures Merge(PartsFrom(reg, ctx, blob, scan, 0, 0).value) ==
      Flush(Kept(blob, Starts(scan.matches), 0, |blob|))
  {
    AllEscapedParse(reg, ctx, blob, scan);
    MergeAllLiterals(PartsFrom(reg, ctx, blob, scan, 0, 0).value);
  }

  /** The fast path of `EscapedRoundTrip`: no `$`, so no match, and the text is kept whole. */
  lemma FastPathRoundTrip(blob: string, ms: seq<MacroMatch>)
    requires WellFormed(blob, ms) && StartsAtDollar(blob, ms)
    requires '$' !in blob
    ensures ms == []
    ensures Merge(TryParseFast(blob).value.parts) == Flush(Kept(blob, Starts(ms), 0, |blob|))
  {
    MatchNeedsDollar(blob, ms);
    KeptUntouched(blob, Starts(ms), 0, |blob|);
    assert blob[0..|blob|] == blob;
    assert LiteralText([Literal(blob)]) == blob + "";
    MergeAllLiterals([Literal(blob)]);
  }
}
