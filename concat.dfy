/**
 * `concat` and `mergeStringParts`: flatten the parts of several values in
 * order, then merge each run of adjacent literals into one literal and
 * drop empty literals.
 */
module MacroConcat {
  import opened Macros

  /** What `addStringToParts` adds for the pending text `acc`. */
  function Flush(acc: string): (r: seq<Part>)
    ensures AllLiterals(r) && LiteralText(r) == acc && Canonical(r)
    ensures MacroContainers(r) == []
  {
    if |acc| > 0 then [Literal(acc)] else []
  }

  /**
   * The merge of `ps` with the text `acc` still pending: literal text
   * accumulates; a macro first flushes the pending text, then is kept.
   */
  function MergeFrom(ps: seq<Part>, acc: string): seq<Part>
  {
    if ps == [] then Flush(acc)
    else if ps[0].Literal? then MergeFrom(ps[1..], acc + ps[0].text)
    else Flush(acc) + [ps[0]] + MergeFrom(ps[1..], "")
  }

  /** The merged form of `ps`. */
  function Merge(ps: seq<Part>): seq<Part>
  {
    MergeFrom(ps, "")
  }

  /** The parts of all `values`, in order. */
  function Flatten(values: seq<StringWithMacros>): seq<Part>
  {
    if values == [] then [] else values[0].parts + Flatten(values[1..])
  }

  /** What `concat` returns. */
  function Concatenated(values: seq<StringWithMacros>): StringWithMacros
  {
    StringWithMacros(Merge(Flatten(values)))
  }

  /** `addStringToParts`: a non-empty pending text becomes a literal part and is cleared. */
  method AddStringToParts(parts: seq<Part>, current: string) returns (parts': seq<Part>, current': string)
    ensures parts' == parts + Flush(current)
    ensures current' == ""
  {
    parts', current' := parts, current;
    if |current'| > 0 {
      parts' := parts' + [Literal(current')];
      current' := "";
    }
  }

  /** `mergeStringParts`: one pass over the parts with a pending-text buffer. */
  method MergeStringParts(parts: seq<Part>) returns (merged: seq<Part>)
    ensures merged == Merge(parts)
    ensures Canonical(merged)
    ensures MacroContainers(merged) == MacroContainers(parts)
    ensures Segments(merged) == Segments(parts)
  {
    merged := [];
    var current := "";
    var i := 0;
    assert parts[0..] == parts;
    while i < |parts|
      invariant 0 <= i <= |parts|
      invariant Merge(parts) == merged + MergeFrom(parts[i..], current)
    {
      var part := parts[i];
      assert parts[i..][1..] == parts[i + 1..];
      if part.Literal? {
        current := current + part.text;
      } else {
        ghost var before, pending := merged, current;
        merged, current := AddStringToParts(merged, current);
        merged := merged + [part];
        assert before + (Flush(pending) + [part] + MergeFrom(parts[i + 1..], "")) ==
          merged + MergeFrom(parts[i + 1..], "");
      }
      i := i + 1;
    }
    merged, current := AddStringToParts(merged, current);
    MergeCanonical(parts);
    MergeKeepsContent(parts);
  }

  /** `concat`: the merged parts of all values, in order. */
  method Concat(values: seq<StringWithMacros>) returns (r: StringWithMacros)
    ensures r == Concatenated(values)
    ensures Canonical(r.parts)
    ensures MacroContainers(r.parts) == MacroContainers(Flatten(values))
    ensures Segments(r.parts) == Segments(Flatten(values))
  {
    var parts := Flatten(values);
    var merged := MergeStringParts(parts);
    r := StringWithMacros(merged);
  }

  // ---------------------------------------------------------------------
  // Canonical form and content

  /** Two canonical lists whose junction is not literal against literal join canonically. */
  lemma CanonicalJoin(a: seq<Part>, b: seq<Part>)
    requires Canonical(a) && Canonical(b)
    requires a == [] || b == [] || a[|a| - 1].MacroRef? || b[0].MacroRef?
    ensures Canonical(a + b)
  {
    forall i | 0 <= i < |a + b| && (a + b)[i].Literal?
      ensures (a + b)[i].text != "" && (i + 1 < |a + b| ==> (a + b)[i + 1].MacroRef?)
    {
      if i < |a| {
        assert (a + b)[i] == a[i];
        if i + 1 < |a| {
          assert (a + b)[i + 1] == a[i + 1];
        } else if i + 1 < |a + b| {
          assert (a + b)[i + 1] == b[0];
        }
      } else {
        assert (a + b)[i] == b[i - |a|];
        if i + 1 < |a + b| {
          assert (a + b)[i + 1] == b[i + 1 - |a|];
        }
      }
    }
  }

  lemma {:induction false} MergeFromCanonical(ps: seq<Part>, acc: string)
    ensures Canonical(MergeFrom(ps, acc))
  {
    if ps != [] {
      if ps[0].Literal? {
        MergeFromCanonical(ps[1..], acc + ps[0].text);
      } else {
        MergeFromCanonical(ps[1..], "");
        CanonicalJoin(Flush(acc), [ps[0]]);
        CanonicalJoin(Flush(acc) + [ps[0]], MergeFrom(ps[1..], ""));
      }
    }
  }

  /** The merged form is canonical: no empty literal, no two adjacent literals. */
  lemma MergeCanonical(ps: seq<Part>)
    ensures Canonical(Merge(ps))
  {
    MergeFromCanonical(ps, "");
  }

  lemma {:induction false} MergeFromKeepsMacros(ps: seq<Part>, acc: string)
    ensures MacroContainers(MergeFrom(ps, acc)) == MacroContainers(ps)
  {
    if ps != [] {
      if ps[0].Literal? {
        MergeFromKeepsMacros(ps[1..], acc + ps[0].text);
      } else {
        MergeFromKeepsMacros(ps[1..], "");
        var m := [ps[0]];
        MacroContainersAppend(Flush(acc), m);
        MacroContainersAppend(Flush(acc) + m, MergeFrom(ps[1..], ""));
        assert MacroContainers(m) == [ps[0].container] by {
          assert m[1..] == [];
        }
      }
    }
  }

  /** The segment list `s` with `text` put in front of its first segment. */
  function PrependText(text: string, s: seq<string>): (r: seq<string>)
    requires |s| > 0
    ensures |r| == |s|
  {
    [text + s[0]] + s[1..]
  }

  /** The segments of `[p] + rest`, one step at a time. */
  lemma SegmentsCons(p: Part, rest: seq<Part>)
    ensures p.Literal? ==> Segments([p] + rest) == PrependText(p.text, Segments(rest))
    ensures p.MacroRef? ==> Segments([p] + rest) == [""] + Segments(rest)
  {
    assert ([p] + rest)[0] == p && ([p] + rest)[1..] == rest;
  }

  lemma PrependTextTwice(a: string, b: string, s: seq<string>)
    requires |s| > 0
    ensures PrependText(a, PrependText(b, s)) == PrependText(a + b, s)
  {
    assert a + (b + s[0]) == (a + b) + s[0];
  }

  /** Flushing pending text in front of `rest` adds that text to its leading segment. */
  lemma SegmentsFlush(acc: string, rest: seq<Part>)
    ensures Segments(Flush(acc) + rest) == PrependText(acc, Segments(rest))
  {
    var s := Segments(rest);
    if |acc| > 0 {
      SegmentsCons(Literal(acc), rest);
    } else {
      assert Flush(acc) + rest == rest;
      assert acc + s[0] == s[0];
    }
  }

  lemma {:induction false} MergeFromKeepsSegments(ps: seq<Part>, acc: string)
    ensures Segments(MergeFrom(ps, acc)) == PrependText(acc, Segments(ps))
  {
    if ps == [] {
      SegmentsFlush(acc, []);
      assert Flush(acc) + [] == Flush(acc);
    } else {
      var p, ps1 := ps[0], ps[1..];
      SegmentsCons(p, ps1);
      assert ps == [p] + ps1;
      if p.Literal? {
        MergeFromKeepsSegments(ps1, acc + p.text);
        PrependTextTwice(acc, p.text, Segments(ps1));
      } else {
        MergeFromKeepsSegments(ps1, "");
        var rest := MergeFrom(ps1, "");
        var s1 := Segments(ps1);
        assert "" + s1[0] == s1[0];
        assert Segments(rest) == s1;
        SegmentsCons(p, rest);
        SegmentsFlush(acc, [p] + rest);
        assert Flush(acc) + [p] + rest == Flush(acc) + ([p] + rest);
      }
    }
  }

  /** Merging keeps the macros, in order, and the literal text between each two of them. */
  lemma MergeKeepsContent(ps: seq<Part>)
    ensures MacroContainers(Merge(ps)) == MacroContainers(ps)
    ensures Segments(Merge(ps)) == Segments(ps)
  {
    MergeFromKeepsMacros(ps, "");
    MergeFromKeepsSegments(ps, "");
    assert "" + Segments(ps)[0] == Segments(ps)[0];
    assert PrependText("", Segments(ps)) == Segments(ps);
  }

  /** A list that is empty or starts with a macro has no leading text. */
  lemma LeadingSegmentEmpty(ps: seq<Part>)
    requires ps == [] || ps[0].MacroRef?
    ensures Segments(ps)[0] == ""
  {
  }

  lemma CanonicalTail(ps: seq<Part>)
    requires Canonical(ps) && ps != []
    ensures Canonical(ps[1..])
    ensures ps[0].Literal? ==> ps[0].text != "" && (ps[1..] == [] || ps[1..][0].MacroRef?)
  {
    forall i | 0 <= i < |ps[1..]| && ps[1..][i].Literal?
      ensures ps[1..][i].text != "" && (i + 1 < |ps[1..]| ==> ps[1..][i + 1].MacroRef?)
    {
      assert ps[1..][i] == ps[i + 1];
      if i + 1 < |ps[1..]| {
        assert ps[1..][i + 1] == ps[i + 2];
      }
    }
  }

  /** A non-empty canonical list holds a macro or some leading text. */
  lemma CanonicalNonEmpty(r: seq<Part>)
    requires Canonical(r) && r != []
    ensures MacroContainers(r) != [] || Segments(r)[0] != ""
  {
    CanonicalTail(r);
    if r[0].Literal? {
      if r[1..] == [] {
        assert Segments(r)[0] == r[0].text + "";
      } else {
        assert MacroContainers(r[1..]) != [];
      }
    }
  }

  /** A canonical list is determined by its macros and the text between them. */
  lemma {:induction false} CanonicalUnique(p: seq<Part>, q: seq<Part>)
    requires Canonical(p) && Canonical(q)
    requires MacroContainers(p) == MacroContainers(q)
    requires Segments(p) == Segments(q)
    ensures p == q
    decreases |p| + |q|
  {
    if p == [] && q == [] {
    } else if p == [] {
      CanonicalNonEmpty(q);
    } else if q == [] {
      CanonicalNonEmpty(p);
    } else {
      CanonicalTail(p);
      CanonicalTail(q);
      assert p[0].Literal? <==> q[0].Literal? by {
        if p[0].Literal? {
          LeadingSegmentEmpty(p[1..]);
          assert Segments(p)[0] == p[0].text + "";
        }
        if q[0].Literal? {
          LeadingSegmentEmpty(q[1..]);
          assert Segments(q)[0] == q[0].text + "";
        }
      }
      if p[0].Literal? {
        LeadingSegmentEmpty(p[1..]);
        LeadingSegmentEmpty(q[1..]);
        assert p[0].text + "" == Segments(p)[0] == Segments(q)[0] == q[0].text + "";
        assert p[0].text == p[0].text + "" && q[0].text == q[0].text + "";
        assert Segments(p[1..]) == [""] + Segments(p)[1..];
        assert Segments(q[1..]) == [""] + Segments(q)[1..];
        assert MacroContainers(p[1..]) == MacroContainers(q[1..]);
        assert p[0] == q[0];
      } else {
        assert MacroContainers(p) == [p[0].container] + MacroContainers(p[1..]);
        assert MacroContainers(q) == [q[0].container] + MacroContainers(q[1..]);
        assert MacroContainers(p[1..]) == MacroContainers(p)[1..];
        assert MacroContainers(q[1..]) == MacroContainers(q)[1..];
        assert Segments(p[1..]) == Segments(p)[1..];
        assert Segments(q[1..]) == Segments(q)[1..];
        assert p[0] == MacroRef(p[0].container);
        assert q[0] == MacroRef(q[0].container);
      }
      CanonicalUnique(p[1..], q[1..]);
      assert p == [p[0]] + p[1..] && q == [q[0]] + q[1..];
    }
  }

  /**
   * The merged form of `ps` is exactly the canonical list with the macros
   * of `ps` and the literal text of `ps` between them.
   */
  lemma MergeCharacterised(ps: seq<Part>, q: seq<Part>)
    ensures q == Merge(ps) <==>
      && Canonical(q)
      && MacroContainers(q) == MacroContainers(ps)
      && Segments(q) == Segments(ps)
  {
    MergeCanonical(ps);
    MergeKeepsContent(ps);
    if Canonical(q) && MacroContainers(q) == MacroContainers(ps) && Segments(q) == Segments(ps) {
      CanonicalUnique(q, Merge(ps));
    }
  }

  /** Merging a canonical list changes nothing; so merging twice is merging once. */
  lemma MergeIdempotent(ps: seq<Part>)
    ensures Canonical(ps) ==> Merge(ps) == ps
    ensures Merge(Merge(ps)) == Merge(ps)
  {
    MergeCharacterised(ps, ps);
    MergeCanonical(ps);
    MergeKeepsContent(ps);
    MergeCharacterised(Merge(ps), Merge(ps));
  }

  // ---------------------------------------------------------------------
  // Concatenation

  /** Segment lists `sx` then `sy`, the last of `sx` joined with the first of `sy`. */
  function Joined(sx: seq<string>, sy: seq<string>): (r: seq<string>)
    requires |sx| > 0 && |sy| > 0
    ensures |r| == |sx| + |sy| - 1
  {
    sx[..|sx| - 1] + [sx[|sx| - 1] + sy[0]] + sy[1..]
  }

  lemma JoinedEmpty(sy: seq<string>)
    requires |sy| > 0
    ensures Joined([""], sy) == sy
  {
    assert "" + sy[0] == sy[0];
  }

  /** The segments of a concatenation: the texts on both sides of the junction join. */
  lemma {:induction false} SegmentsAppend(x: seq<Part>, y: seq<Part>)
    ensures Segments(x + y) == Joined(Segments(x), Segments(y))
  {
    if x == [] {
      JoinedEmpty(Segments(y));
      assert x + y == y;
    } else {
      var p, x1 := x[0], x[1..];
      SegmentsAppend(x1, y);
      assert x + y == [p] + (x1 + y) && x == [p] + x1;
      SegmentsCons(p, x1 + y);
      SegmentsCons(p, x1);
      SegmentsAppendStep(p, Segments(x1), Segments(y), Segments(x1 + y));
    }
  }

  /** The inductive step of `SegmentsAppend`, on the segment lists alone. */
  lemma SegmentsAppendStep(p: Part, s1: seq<string>, sy: seq<string>, t: seq<string>)
    requires |s1| > 0 && |sy| > 0
    requires t == Joined(s1, sy)
    ensures p.Literal? ==> PrependText(p.text, t) == Joined(PrependText(p.text, s1), sy)
    ensures p.MacroRef? ==> [""] + t == Joined([""] + s1, sy)
  {
    var n := |s1|;
    if p.Literal? {
      if n == 1 {
        assert t == [s1[0] + sy[0]] + sy[1..];
        assert p.text + (s1[0] + sy[0]) == (p.text + s1[0]) + sy[0];
      } else {
        assert t[0] == s1[0];
        assert t[1..] == s1[1..n - 1] + [s1[n - 1] + sy[0]] + sy[1..];
        var sx := PrependText(p.text, s1);
        assert sx[..|sx| - 1] == [p.text + s1[0]] + s1[1..n - 1];
      }
    } else {
      var sx := [""] + s1;
      assert sx[..|sx| - 1] == [""] + s1[..n - 1];
    }
  }

  lemma {:induction false} FlattenAppend(xs: seq<StringWithMacros>, ys: seq<StringWithMacros>)
    ensures Flatten(xs + ys) == Flatten(xs) + Flatten(ys)
  {
    if xs == [] {
      assert xs + ys == ys;
    } else {
      assert (xs + ys)[1..] == xs[1..] + ys;
      FlattenAppend(xs[1..], ys);
    }
  }

  /** Lists with the same macros and segments merge alike inside any context. */
  lemma MergeCongruent(x: seq<Part>, x2: seq<Part>, y: seq<Part>, z: seq<Part>)
    requires MacroContainers(x) == MacroContainers(x2) && Segments(x) == Segments(x2)
    ensures Merge(y + x + z) == Merge(y + x2 + z)
  {
    MacroContainersAppend(y, x);
    MacroContainersAppend(y, x2);
    MacroContainersAppend(y + x, z);
    MacroContainersAppend(y + x2, z);
    SegmentsAppend(y, x);
    SegmentsAppend(y, x2);
    SegmentsAppend(y + x, z);
    SegmentsAppend(y + x2, z);
    MergeCharacterised(y + x + z, Merge(y + x2 + z));
    MergeCanonical(y + x2 + z);
    MergeKeepsContent(y + x2 + z);
  }

  /**
   * A concatenation nested anywhere inside another one may be flattened
   * into it: concat is associative.
   */
  lemma ConcatNested(xs: seq<StringWithMacros>, ys: seq<StringWithMacros>, zs: seq<StringWithMacros>)
    ensures Concatenated(xs + [Concatenated(ys)] + zs) == Concatenated(xs + ys + zs)
  {
    var inner := Concatenated(ys);
    FlattenAppend(xs + [inner], zs);
    FlattenAppend(xs, [inner]);
    FlattenAppend(xs + ys, zs);
    FlattenAppend(xs, ys);
    assert Flatten([inner]) == inner.parts + Flatten([]);
    assert inner.parts + [] == inner.parts;
    MergeKeepsContent(Flatten(ys));
    MergeCongruent(inner.parts, Flatten(ys), Flatten(xs), Flatten(zs));
  }

  /** `concat([concat([a, b]), c]) == concat([a, b, c])`. */
  lemma ConcatAssociative(a: StringWithMacros, b: StringWithMacros, c: StringWithMacros)
    ensures Concatenated([Concatenated([a, b]), c]) == Concatenated([a, b, c])
  {
    ConcatNested([], [a, b], [c]);
    assert [] + [Concatenated([a, b])] + [c] == [Concatenated([a, b]), c];
    assert [] + [a, b] + [c] == [a, b, c];
  }

  lemma {:induction false} AllLiteralsContent(ps: seq<Part>)
    requires AllLiterals(ps)
    ensures MacroContainers(ps) == [] && Segments(ps) == [LiteralText(ps)]
  {
    if ps != [] {
      assert forall i | 0 <= i < |ps[1..]| :: ps[1..][i] == ps[i + 1];
      AllLiteralsContent(ps[1..]);
    }
  }

  /** A list of literals only merges into one literal holding all its text, or into nothing. */
  lemma MergeAllLiterals(ps: seq<Part>)
    requires AllLiterals(ps)
    ensures Merge(ps) == Flush(LiteralText(ps))
  {
    AllLiteralsContent(ps);
    if |LiteralText(ps)| > 0 {
      assert Segments(Flush(LiteralText(ps))) == [LiteralText(ps) + ""];
    }
    MergeCharacterised(ps, Flush(LiteralText(ps)));
  }
}
