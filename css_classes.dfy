/**
 * Selecting the CSS classes `css_classes!` defines constants for, and
 * naming those constants. A class is kept when it matches the include
 * prefixes (if any were given) and no exclude prefix; with a `prefix`,
 * only classes starting with it are kept and the constant is named after
 * the rest. A constant name is the identifier upper-cased with every
 * non-alphanumeric character turned into `_`; an identifier that does not
 * start with a letter is an error.
 */
module CssClasses {
  import opened Wrappers
  import opened CssInput

  /** True iff some prefix in `prefixes` starts `x`. */
  function AnyPrefixMatches(x: string, prefixes: seq<string>): (r: bool)
    ensures r <==> exists i :: 0 <= i < |prefixes| && prefixes[i] <= x
  {
    if prefixes == [] then false
    else if prefixes[0] <= x then true
    else
      var r := AnyPrefixMatches(x, prefixes[1..]);
      assert r <==> exists i :: 0 <= i < |prefixes| && prefixes[i] <= x by {
        if r {
          var i :| 0 <= i < |prefixes[1..]| && prefixes[1..][i] <= x;
          assert prefixes[i + 1] == prefixes[1..][i];
        }
        if exists i :: 0 <= i < |prefixes| && prefixes[i] <= x {
          var i :| 0 <= i < |prefixes| && prefixes[i] <= x;
          assert i > 0 && prefixes[1..][i - 1] == prefixes[i];
        }
      }
      r
  }

  /** The filter: included (or no include list was given) and not excluded; exclusion wins. */
  function Keep(className: string, includePrefixes: Option<seq<string>>, excludePrefixes: seq<string>): (r: bool)
    ensures r <==>
      && (includePrefixes.None? || exists i :: 0 <= i < |includePrefixes.value| && includePrefixes.value[i] <= className)
      && !(exists i :: 0 <= i < |excludePrefixes| && excludePrefixes[i] <= className)
  {
    var included := if includePrefixes.Some? then AnyPrefixMatches(className, includePrefixes.value) else true;
    var excluded := AnyPrefixMatches(className, excludePrefixes);
    included && !excluded
  }

  /** `r` is `s` with some elements left out, the rest in their order. */
  predicate Subsequence<T(==)>(r: seq<T>, s: seq<T>)
    decreases |s|
  {
    r == [] || (s != [] && ((r[0] == s[0] && Subsequence(r[1..], s[1..])) || Subsequence(r, s[1..])))
  }

  /** The classes the filter keeps, in their order. */
  function Filter(classes: seq<string>, includePrefixes: Option<seq<string>>, excludePrefixes: seq<string>): (r: seq<string>)
    ensures |r| <= |classes|
    ensures Subsequence(r, classes)
    ensures forall c :: c in r <==> c in classes && Keep(c, includePrefixes, excludePrefixes)
  {
    if classes == [] then []
    else
      var rest := Filter(classes[1..], includePrefixes, excludePrefixes);
      assert forall c :: c in classes <==> c == classes[0] || c in classes[1..];
      if Keep(classes[0], includePrefixes, excludePrefixes) then [classes[0]] + rest else rest
  }

  /** The rest of `className` after `prefix`, if it starts with it. */
  function StripPrefix(className: string, prefix: string): (r: Option<string>)
    ensures r.Some? <==> prefix <= className
    ensures r.Some? ==> prefix + r.value == className
  {
    if prefix <= className then
      assert prefix + className[|prefix|..] == className;
      Some(className[|prefix|..])
    else None
  }

  /**
   * Pair each kept class with the identifier its constant is named after:
   * with a prefix, the class without it (classes lacking it are dropped);
   * without one, the class itself.
   */
  function NamePairs(classes: seq<string>, prefix: Option<string>): (r: seq<(string, string)>)
    ensures |r| <= |classes|
    ensures forall i :: 0 <= i < |r| ==> r[i].1 in classes
    ensures prefix.None? ==> |r| == |classes| && forall i :: 0 <= i < |r| ==> r[i] == (classes[i], classes[i])
    ensures prefix.Some? ==> forall i :: 0 <= i < |r| ==> prefix.value + r[i].0 == r[i].1
    ensures prefix.Some? ==> forall c :: c in classes && prefix.value <= c ==> (c[|prefix.value|..], c) in r
  {
    if classes == [] then []
    else
      var rest := NamePairs(classes[1..], prefix);
      var c := classes[0];
      assert forall i :: 0 <= i < |rest| ==> rest[i].1 in classes[1..];
      if prefix.None? then [(c, c)] + rest
      else match StripPrefix(c, prefix.value)
        case None => rest
        case Some(ident) => [(ident, c)] + rest
  }

  // Identifiers, over ASCII.

  predicate IsAlphabetic(c: char) {
    'a' <= c <= 'z' || 'A' <= c <= 'Z'
  }

  predicate IsAlphanumeric(c: char) {
    IsAlphabetic(c) || '0' <= c <= '9'
  }

  function ToUpper(c: char): (u: char)
    ensures IsAlphanumeric(c) <==> IsAlphanumeric(u)
    ensures IsAlphabetic(c) <==> IsAlphabetic(u)
    ensures !('a' <= u <= 'z')
    ensures !('a' <= c <= 'z') ==> u == c
    ensures 'a' <= c <= 'z' ==> u as int - 'A' as int == c as int - 'a' as int
  {
    if 'a' <= c <= 'z' then (c as int - 'a' as int + 'A' as int) as char else c
  }

  /** A character of a constant name: an upper-case letter, a digit or `_`. */
  predicate IsConstantChar(c: char) {
    'A' <= c <= 'Z' || '0' <= c <= '9' || c == '_'
  }

  /** Every non-alphanumeric character becomes `_`, and letters are upper-cased. */
  function Mangle(ident: string): (r: string)
    ensures |r| == |ident|
    ensures forall i :: 0 <= i < |r| ==> IsConstantChar(r[i])
    ensures forall i :: 0 <= i < |r| ==> (r[i] == '_' <==> !IsAlphanumeric(ident[i]))
    ensures forall i :: 0 <= i < |r| && IsAlphanumeric(ident[i]) ==> r[i] == ToUpper(ident[i])
  {
    if ident == [] then []
    else
      var c := if IsAlphanumeric(ident[0]) then ToUpper(ident[0]) else '_';
      var rest := Mangle(ident[1..]);
      assert forall i :: 1 <= i < |ident| ==> ident[i] == ident[1..][i - 1];
      [c] + rest
  }

  /** The name of a class constant, or the identifier itself as an error when it does not start with a letter. */
  function ConstantName(ident: string): (r: Result<string, string>)
    ensures r.Ok? <==> ident != [] && IsAlphabetic(ident[0])
    ensures r.Err? ==> r.error == ident
    ensures r.Ok? ==> |r.value| == |ident| && 'A' <= r.value[0] <= 'Z'
    ensures r.Ok? ==> forall i :: 0 <= i < |r.value| ==> IsConstantChar(r.value[i])
    ensures r.Ok? ==> r.value == Mangle(ident)
  {
    if ident != [] && IsAlphabetic(ident[0]) then Ok(Mangle(ident)) else Err(ident)
  }

  /** A `const NAME: &str = "class";` definition. */
  datatype Constant = Constant(visibility: Option<Visibility>, name: string, className: string)

  /** One constant per pair, in order; the first identifier that does not start with a letter aborts. */
  function CodeGen(visibility: Option<Visibility>, pairs: seq<(string, string)>): (r: Result<seq<Constant>, string>)
    ensures r.Ok? <==> forall i :: 0 <= i < |pairs| ==> ConstantName(pairs[i].0).Ok?
    ensures r.Ok? ==> |r.value| == |pairs|
    ensures r.Ok? ==> forall i :: 0 <= i < |pairs| ==> r.value[i] == Constant(visibility, Mangle(pairs[i].0), pairs[i].1)
    ensures r.Err? ==>
              exists i :: 0 <= i < |pairs| && ConstantName(pairs[i].0) == Err(r.error) &&
                (forall j :: 0 <= j < i ==> ConstantName(pairs[j].0).Ok?)
  {
    if pairs == [] then Ok([])
    else match ConstantName(pairs[0].0)
      case Err(e) =>
        assert ConstantName(pairs[0].0) == Err(e);
        Err(e)
      case Ok(name) =>
        match CodeGen(visibility, pairs[1..])
        case Err(e) =>
          var i :| 0 <= i < |pairs[1..]| && ConstantName(pairs[1..][i].0) == Err(e) &&
            forall j :: 0 <= j < i ==> ConstantName(pairs[1..][j].0).Ok?;
          FirstErrorShift(pairs, i, e);
          Err(e)
        case Ok(cs) =>
          assert forall i :: 1 <= i < |pairs| ==> pairs[i] == pairs[1..][i - 1];
          Ok([Constant(visibility, name, pairs[0].1)] + cs)
  }

  /** The first failing identifier after the head is the first failing one overall when the head succeeds. */
  lemma FirstErrorShift(pairs: seq<(string, string)>, i: nat, e: string)
    requires 0 <= i < |pairs| - 1 && ConstantName(pairs[0].0).Ok?
    requires ConstantName(pairs[1..][i].0) == Err(e)
    requires forall j :: 0 <= j < i ==> ConstantName(pairs[1..][j].0).Ok?
    ensures ConstantName(pairs[i + 1].0) == Err(e)
    ensures forall j :: 0 <= j < i + 1 ==> ConstantName(pairs[j].0).Ok?
  {
    assert pairs[i + 1] == pairs[1..][i];
    forall j | 1 <= j < i + 1 ensures ConstantName(pairs[j].0).Ok? {
      assert pairs[j] == pairs[1..][j - 1];
    }
  }

  /** The whole selection for the parsed arguments, over the class names the style sheet defines. */
  function CssClassConstants(input: Input, classes: seq<string>): Result<seq<Constant>, string> {
    var kept := Filter(classes, input.includePrefixes, input.excludePrefixes);
    CodeGen(input.visibility, NamePairs(kept, input.prefix))
  }

  /** Every constant defined names a class of the sheet that the filter keeps. */
  lemma ConstantsAreKeptClasses(input: Input, classes: seq<string>)
    ensures var r := CssClassConstants(input, classes);
      r.Ok? ==> forall k :: 0 <= k < |r.value| ==>
        r.value[k].className in classes && Keep(r.value[k].className, input.includePrefixes, input.excludePrefixes)
  {
    var kept := Filter(classes, input.includePrefixes, input.excludePrefixes);
    var pairs := NamePairs(kept, input.prefix);
    var r := CssClassConstants(input, classes);
    if r.Ok? {
      forall k | 0 <= k < |r.value|
        ensures r.value[k].className in classes && Keep(r.value[k].className, input.includePrefixes, input.excludePrefixes)
      {
        assert r.value[k].className == pairs[k].1;
        assert pairs[k].1 in kept;
      }
    }
  }

  /** An excluded class gets no constant, whatever the include list says. */
  lemma ExcludedGetsNoConstant(input: Input, classes: seq<string>, className: string)
    requires AnyPrefixMatches(className, input.excludePrefixes)
    ensures var r := CssClassConstants(input, classes);
      r.Ok? ==> forall k :: 0 <= k < |r.value| ==> r.value[k].className != className
  {
    ConstantsAreKeptClasses(input, classes);
  }

  /** `Mangle` is determined character by character. */
  lemma MangleIs(ident: string, expected: string)
    requires |expected| == |ident|
    requires forall i :: 0 <= i < |ident| ==> expected[i] == if IsAlphanumeric(ident[i]) then ToUpper(ident[i]) else '_'
    ensures Mangle(ident) == expected
  {
  }

  lemma MangleExamples()
    ensures Mangle("small") == "SMALL"
    ensures Mangle("border-small") == "BORDER_SMALL"
  {
    MangleIs("small", "SMALL");
    MangleIs("border-small", "BORDER_SMALL");
  }

  /** The tokens of the border example read as the arguments they spell. */
  lemma BorderInputExample()
    ensures var ps := [VisibilityParam(Public(None)), PathParam("my-sass-file.scss"), PrefixParam("border-"),
                       ExcludePrefixesParam(["border-excluded-"])];
      ParseMacroInput(RenderParams(ps, false))
      == Ok(Input("my-sass-file.scss", Some(Public(None)), Some("border-"), None, ["border-excluded-"]))
  {
    var ps := [VisibilityParam(Public(None)), PathParam("my-sass-file.scss"), PrefixParam("border-"),
               ExcludePrefixesParam(["border-excluded-"])];
    var tokens := RenderParams(ps, false);
    ParseRendered(ps, false);
    assert tokens[0] == Ident("visibility");
    var f1 := Assign(NoFields, ps[0]);
    var f2 := Assign(f1, ps[1]);
    var f3 := Assign(f2, ps[2]);
    var f4 := Assign(f3, ps[3]);
    assert Collect(ps[3..], f3) == Ok(f4);
    assert Collect(ps[2..], f2) == Ok(f4);
    assert Collect(ps[1..], f1) == Ok(f4);
    assert Collect(ps, NoFields) == Ok(f4);
  }

  /** The filter of the border example: only `border-excluded-huge` is dropped. */
  lemma BorderFilterExample()
    ensures Filter(["border-small", "border-excluded-huge", "my-class"], None, ["border-excluded-"])
            == ["border-small", "my-class"]
  {
    var classes := ["border-small", "border-excluded-huge", "my-class"];
    var ex := ["border-excluded-"];
    assert "border-excluded-" <= "border-excluded-huge";
    assert "border-small"[7] != "border-excluded-"[7];
    assert "my-class"[0] != "border-excluded-"[0];
    assert Keep(classes[0], None, ex) && !Keep(classes[1], None, ex) && Keep(classes[2], None, ex);
    assert Filter(classes[2..], None, ex) == ["my-class"];
    assert Filter(classes[1..], None, ex) == ["my-class"];
  }

  /** With the prefix `border-`, `border-small` is named `small` and `my-class` is dropped. */
  lemma BorderPairsExample()
    ensures NamePairs(["border-small", "my-class"], Some("border-")) == [("small", "border-small")]
  {
    var kept := ["border-small", "my-class"];
    assert "border-" <= "border-small";
    assert "my-class"[0] != "border-"[0];
    assert NamePairs(kept[1..], Some("border-")) == [];
    assert "border-small"[7..] == "small";
  }

  /** A single pair whose identifier starts with a letter gives a single constant. */
  lemma CodeGenSingle(visibility: Option<Visibility>, ident: string, className: string)
    requires ident != [] && IsAlphabetic(ident[0])
    ensures CodeGen(visibility, [(ident, className)]) == Ok([Constant(visibility, Mangle(ident), className)])
  {
    var r := CodeGen(visibility, [(ident, className)]);
    assert r.Ok? && |r.value| == 1;
    assert r.value == [r.value[0]];
  }

  /**
   * `visibility: pub, path: "my-sass-file.scss", prefix: "border-",
   * exclude_prefixes: ["border-excluded-"]` over the classes `border-small`,
   * `border-excluded-huge` and `my-class` defines only `SMALL`, for
   * `border-small`.
   */
  lemma BorderExample()
    ensures var input := Input("my-sass-file.scss", Some(Public(None)), Some("border-"), None, ["border-excluded-"]);
      CssClassConstants(input, ["border-small", "border-excluded-huge", "my-class"])
      == Ok([Constant(Some(Public(None)), "SMALL", "border-small")])
  {
    BorderFilterExample();
    BorderPairsExample();
    MangleExamples();
    CodeGenSingle(Some(Public(None)), "small", "border-small");
  }

  /** With both lists, the exclude list wins: `border-excluded-huge` is dropped though it matches `border-`. */
  lemma ExcludeWinsFilterExample()
    ensures Filter(["border-small", "border-excluded-huge"], Some(["border-"]), ["border-excluded-"]) == ["border-small"]
  {
    var classes := ["border-small", "border-excluded-huge"];
    var inc := Some(["border-"]);
    var ex := ["border-excluded-"];
    assert "border-excluded-" <= "border-excluded-huge";
    assert "border-small"[7] != "border-excluded-"[7];
    assert "border-" <= "border-small";
    assert Keep(classes[0], inc, ex) && !Keep(classes[1], inc, ex);
    assert Filter(classes[1..], inc, ex) == [];
  }

  /** `include_prefixes: ["border-"], exclude_prefixes: ["border-excluded-"]` defines `BORDER_SMALL` and no constant for `border-excluded-huge`. */
  lemma ExcludeWinsExample()
    ensures var input := Input("my-sass-file.scss", None, None, Some(["border-"]), ["border-excluded-"]);
      CssClassConstants(input, ["border-small", "border-excluded-huge"])
      == Ok([Constant(None, "BORDER_SMALL", "border-small")])
  {
    ExcludeWinsFilterExample();
    assert NamePairs(["border-small"], None) == [("border-small", "border-small")];
    MangleExamples();
    CodeGenSingle(None, "border-small", "border-small");
  }

  /**
   * The `compile_fail` example as written, with no comma between its
   * `include_prefixes` and `exclude_prefixes` parameters: the parser already
   * rejects it for the missing comma, before any class is filtered.
   */
  lemma CompileFailExampleAsWritten()
    ensures ParseMacroInput(
              RenderParam(PathParam("my-sass-file.scss")) + [Comma] +
              RenderParam(IncludePrefixesParam(["border-"])) + RenderParam(ExcludePrefixesParam(["border-excluded-"])))
            == Err(ExpectedComma)
  {
    var inc := RenderParam(IncludePrefixesParam(["border-"]));
    var exc := RenderParam(ExcludePrefixesParam(["border-excluded-"]));
    var ts := RenderParam(PathParam("my-sass-file.scss")) + [Comma] + inc + exc;
    assert ts == RenderParam(PathParam("my-sass-file.scss")) + [Comma] + (inc + exc);
    ParamThenComma(PathParam("my-sass-file.scss"), NoFields, inc + exc);
    MissingCommaAfter(IncludePrefixesParam(["border-"]), ExcludePrefixesParam(["border-excluded-"]),
                      Assign(NoFields, PathParam("my-sass-file.scss")));
    assert ts[0] == Ident("path");
  }

  /** The same example with the comma: it parses, and the exclusion is what drops `border-excluded-huge`. */
  lemma CompileFailExampleWithComma()
    ensures ParseMacroInput(RenderParams([PathParam("my-sass-file.scss"), IncludePrefixesParam(["border-"]),
                                          ExcludePrefixesParam(["border-excluded-"])], false))
            == Ok(Input("my-sass-file.scss", None, None, Some(["border-"]), ["border-excluded-"]))
  {
    var ps := [PathParam("my-sass-file.scss"), IncludePrefixesParam(["border-"]), ExcludePrefixesParam(["border-excluded-"])];
    var tokens := RenderParams(ps, false);
    ParseRendered(ps, false);
    assert tokens[0] == Ident("path");
    var f1 := Assign(NoFields, ps[0]);
    var f2 := Assign(f1, ps[1]);
    var f3 := Assign(f2, ps[2]);
    assert Collect(ps[2..], f2) == Ok(f3);
    assert Collect(ps[1..], f1) == Ok(f3);
    assert Collect(ps, NoFields) == Ok(f3);
  }
}
