/**
 * The value model: macro values, macro containers, the parts of a
 * string-with-macros, and the contract of a per-macro coercer.
 */
module Macros {
  import opened Wrappers

  /** The class of a macro value, carried as an explicit tag. */
  type ClassTag = string

  /** A class passed to `hasElementClass`. */
  type TypeTag = string

  /** A typed macro value as a per-macro coercer builds it; `payload` is opaque here. */
  datatype Macro = Macro(macroClass: ClassTag, payload: seq<string>)

  /** A macro value together with its output-to-file flag (the `@` prefix). */
  datatype MacroContainer = MacroContainer(macro: Macro, outputToFile: bool)

  /** One part of a string-with-macros: `Either.ofLeft` or `Either.ofRight`. */
  datatype Part = Literal(text: string) | MacroRef(container: MacroContainer)

  /** The parsed attribute: an ordered list of parts, wrapped as given. */
  datatype StringWithMacros = StringWithMacros(parts: seq<Part>)

  /** The coercion context: cell roots, filesystem, path, target and host configuration. */
  datatype Context = Context(
    cellRoots: string,
    filesystemRoot: string,
    pathRelativeToProjectRoot: string,
    targetConfiguration: string,
    hostConfiguration: string)

  /** The failure a per-macro coercer reports. */
  datatype CoerceError = CoerceError(message: string)

  /**
   * A per-macro coercer: the class of the values it produces, its argument
   * coercion, the objects its traversal hands to the visitor (given the
   * cell roots), and its answer to `hasElementClass`.
   */
  datatype MacroTypeCoercer = MacroTypeCoercer(
    outputClass: ClassTag,
    coerce: (Context, seq<string>) -> Result<Macro, CoerceError>,
    traverse: (string, Macro) -> seq<string>,
    hasElementClass: seq<TypeTag> -> bool)

  /** A value holding one literal part. */
  function OfConstantString(s: string): (r: StringWithMacros)
    ensures r.parts == [Literal(s)]
  {
    StringWithMacros([Literal(s)])
  }

  /** The macro containers of `ps`, in part order (`getMacros`). */
  function MacroContainers(ps: seq<Part>): (r: seq<MacroContainer>)
    ensures |r| <= |ps|
  {
    if ps == [] then []
    else if ps[0].Literal? then MacroContainers(ps[1..])
    else [ps[0].container] + MacroContainers(ps[1..])
  }

  /** The literal text of `ps`, macros left out. */
  function LiteralText(ps: seq<Part>): string
  {
    if ps == [] then ""
    else if ps[0].Literal? then ps[0].text + LiteralText(ps[1..])
    else LiteralText(ps[1..])
  }

  /** True when every part of `ps` is a literal. */
  predicate AllLiterals(ps: seq<Part>)
  {
    forall i | 0 <= i < |ps| :: ps[i].Literal?
  }

  /**
   * The literal text before the first macro, between each two successive
   * macros, and after the last macro.
   */
  function Segments(ps: seq<Part>): (r: seq<string>)
    ensures |r| == |MacroContainers(ps)| + 1
  {
    if ps == [] then [""]
    else
      var rest := Segments(ps[1..]);
      if ps[0].Literal? then [ps[0].text + rest[0]] + rest[1..]
      else [""] + rest
  }

  /** Canonical form: no empty literal and no literal directly followed by a literal. */
  predicate Canonical(ps: seq<Part>)
  {
    forall i | 0 <= i < |ps| && ps[i].Literal? ::
      ps[i].text != "" && (i + 1 < |ps| ==> ps[i + 1].MacroRef?)
  }

  lemma {:induction false} MacroContainersAppend(a: seq<Part>, b: seq<Part>)
    ensures MacroContainers(a + b) == MacroContainers(a) + MacroContainers(b)
  {
    if a != [] {
      assert (a + b)[1..] == a[1..] + b;
      MacroContainersAppend(a[1..], b);
    } else {
      assert a + b == b;
    }
  }

  lemma {:induction false} LiteralTextAppend(a: seq<Part>, b: seq<Part>)
    ensures LiteralText(a + b) == LiteralText(a) + LiteralText(b)
  {
    if a != [] {
      assert (a + b)[1..] == a[1..] + b;
      LiteralTextAppend(a[1..], b);
    } else {
      assert a + b == b;
    }
  }

  lemma {:induction false} AllLiteralsAppend(a: seq<Part>, b: seq<Part>)
    ensures AllLiterals(a + b) <==> AllLiterals(a) && AllLiterals(b)
  {
    if !AllLiterals(a) {
      var i :| 0 <= i < |a| && !a[i].Literal?;
      assert (a + b)[i] == a[i];
    }
    if !AllLiterals(b) {
      var i :| 0 <= i < |b| && !b[i].Literal?;
      assert (a + b)[|a| + i] == b[i];
    }
  }
}
