/**
 * The arguments of the `css_classes!` macro, parsed from a token list.
 * The input is either a single string literal, the path, or a
 * comma-separated list of `keyword: value` parameters in any order. Each
 * parameter may be given once, except that an empty `exclude_prefixes`
 * list does not count as given; `path` is mandatory.
 */
module CssInput {
  import opened Wrappers

  /** A visibility modifier; `Inherited` is the empty one, which takes no tokens. */
  datatype Visibility = Inherited | Public(restriction: Option<string>)

  /** The tokens the parser distinguishes; `Bracket` is a `[...]` group. */
  datatype Token =
    | Ident(name: string)
    | Colon
    | Comma
    | LitStr(value: string)
    | Pub(restriction: Option<string>)
    | Bracket(inner: seq<Token>)
    | Other

  /** The parsed arguments. */
  datatype Input = Input(
    path: string,
    visibility: Option<Visibility>,
    prefix: Option<string>,
    includePrefixes: Option<seq<string>>,
    excludePrefixes: seq<string>)

  datatype ParseError =
    | DuplicateParameter(keyword: string)
    | ExpectedComma
    | MissingPath
    | UnexpectedToken

  datatype Keyword = PathKw | VisibilityKw | PrefixKw | IncludePrefixesKw | ExcludePrefixesKw

  function KeywordName(k: Keyword): string {
    match k
    case PathKw => "path"
    case VisibilityKw => "visibility"
    case PrefixKw => "prefix"
    case IncludePrefixesKw => "include_prefixes"
    case ExcludePrefixesKw => "exclude_prefixes"
  }

  /** The keyword an identifier spells, if any. */
  function KeywordOf(name: string): (r: Option<Keyword>)
    ensures r.Some? ==> KeywordName(r.value) == name
    ensures r.None? ==> forall k :: KeywordName(k) != name
  {
    if name == "path" then Some(PathKw)
    else if name == "visibility" then Some(VisibilityKw)
    else if name == "prefix" then Some(PrefixKw)
    else if name == "include_prefixes" then Some(IncludePrefixesKw)
    else if name == "exclude_prefixes" then Some(ExcludePrefixesKw)
    else None
  }

  /** One parameter with its value. */
  datatype Param =
    | PathParam(path: string)
    | VisibilityParam(visibility: Visibility)
    | PrefixParam(prefix: string)
    | IncludePrefixesParam(includes: seq<string>)
    | ExcludePrefixesParam(excludes: seq<string>)
  {
    function Keyword(): Keyword {
      match this
      case PathParam(_) => PathKw
      case VisibilityParam(_) => VisibilityKw
      case PrefixParam(_) => PrefixKw
      case IncludePrefixesParam(_) => IncludePrefixesKw
      case ExcludePrefixesParam(_) => ExcludePrefixesKw
    }
  }

  /** The parameters collected so far. */
  datatype Fields = Fields(
    path: Option<string>,
    visibility: Option<Visibility>,
    prefix: Option<string>,
    includePrefixes: Option<seq<string>>,
    excludePrefixes: seq<string>)

  const NoFields := Fields(None, None, None, None, [])

  /** Whether `k` counts as given already; an empty exclude list does not. */
  predicate Given(f: Fields, k: Keyword) {
    match k
    case PathKw => f.path.Some?
    case VisibilityKw => f.visibility.Some?
    case PrefixKw => f.prefix.Some?
    case IncludePrefixesKw => f.includePrefixes.Some?
    case ExcludePrefixesKw => f.excludePrefixes != []
  }

  /** The field of `p`'s keyword in `g` holds `p`'s value. */
  predicate Holds(g: Fields, p: Param) {
    match p
    case PathParam(s) => g.path == Some(s)
    case VisibilityParam(v) => g.visibility == Some(v)
    case PrefixParam(s) => g.prefix == Some(s)
    case IncludePrefixesParam(xs) => g.includePrefixes == Some(xs)
    case ExcludePrefixesParam(xs) => g.excludePrefixes == xs
  }

  /** `g` and `f` agree on the field of keyword `k`. */
  predicate SameField(g: Fields, f: Fields, k: Keyword) {
    match k
    case PathKw => g.path == f.path
    case VisibilityKw => g.visibility == f.visibility
    case PrefixKw => g.prefix == f.prefix
    case IncludePrefixesKw => g.includePrefixes == f.includePrefixes
    case ExcludePrefixesKw => g.excludePrefixes == f.excludePrefixes
  }

  /** Record a parameter; only its own field changes. */
  function Assign(f: Fields, p: Param): (g: Fields)
    ensures p.ExcludePrefixesParam? && p.excludes == [] ==> !Given(g, p.Keyword())
    ensures !(p.ExcludePrefixesParam? && p.excludes == []) ==> Given(g, p.Keyword())
    ensures forall k :: k != p.Keyword() ==> (Given(g, k) <==> Given(f, k))
    ensures g.path == if p.PathParam? then Some(p.path) else f.path
    ensures g.visibility == if p.VisibilityParam? then Some(p.visibility) else f.visibility
    ensures g.prefix == if p.PrefixParam? then Some(p.prefix) else f.prefix
    ensures g.includePrefixes == if p.IncludePrefixesParam? then Some(p.includes) else f.includePrefixes
    ensures g.excludePrefixes == if p.ExcludePrefixesParam? then p.excludes else f.excludePrefixes
  {
    match p
    case PathParam(s) => f.(path := Some(s))
    case VisibilityParam(v) => f.(visibility := Some(v))
    case PrefixParam(s) => f.(prefix := Some(s))
    case IncludePrefixesParam(xs) => f.(includePrefixes := Some(xs))
    case ExcludePrefixesParam(xs) => f.(excludePrefixes := xs)
  }

  /** A bracketed list of string literals separated by commas, a trailing comma allowed; all of `ts` must be used. */
  function ParsePrefixList(ts: seq<Token>): (r: Result<seq<string>, ParseError>)
    ensures r.Ok? ==> |r.value| <= |ts|
  {
    if ts == [] then Ok([])
    else if !ts[0].LitStr? then Err(UnexpectedToken)
    else if |ts| == 1 then Ok([ts[0].value])
    else if ts[1] != Comma then Err(UnexpectedToken)
    else match ParsePrefixList(ts[2..])
      case Err(e) => Err(e)
      case Ok(xs) => Ok([ts[0].value] + xs)
  }

  /** The value after `k:`, with the tokens left after it. */
  function ParseValue(k: Keyword, ts: seq<Token>): (r: Result<(Param, seq<Token>), ParseError>)
    ensures r.Ok? ==> r.value.0.Keyword() == k && |r.value.1| <= |ts|
  {
    match k
    case PathKw =>
      if ts != [] && ts[0].LitStr? then Ok((PathParam(ts[0].value), ts[1..])) else Err(UnexpectedToken)
    case VisibilityKw =>
      if ts != [] && ts[0].Pub? then Ok((VisibilityParam(Public(ts[0].restriction)), ts[1..]))
      else Ok((VisibilityParam(Inherited), ts))
    case PrefixKw =>
      if ts != [] && ts[0].LitStr? then Ok((PrefixParam(ts[0].value), ts[1..])) else Err(UnexpectedToken)
    case IncludePrefixesKw =>
      if ts != [] && ts[0].Bracket? then
        match ParsePrefixList(ts[0].inner)
        case Err(e) => Err(e)
        case Ok(xs) => Ok((IncludePrefixesParam(xs), ts[1..]))
      else Err(UnexpectedToken)
    case ExcludePrefixesKw =>
      if ts != [] && ts[0].Bracket? then
        match ParsePrefixList(ts[0].inner)
        case Err(e) => Err(e)
        case Ok(xs) => Ok((ExcludePrefixesParam(xs), ts[1..]))
      else Err(UnexpectedToken)
  }

  /**
   * One parameter: a keyword, rejected when already given (before its colon
   * is looked at), then a colon and the value.
   */
  function ParseParameter(ts: seq<Token>, f: Fields): (r: Result<(Param, seq<Token>), ParseError>)
    ensures r.Ok? ==> |r.value.1| < |ts|
    ensures r.Ok? ==> !Given(f, r.value.0.Keyword())
    ensures ts != [] && ts[0].Ident? && KeywordOf(ts[0].name).Some? && Given(f, KeywordOf(ts[0].name).value) ==>
              r == Err(DuplicateParameter(ts[0].name))
  {
    if ts == [] || !ts[0].Ident? || KeywordOf(ts[0].name).None? then Err(UnexpectedToken)
    else
      var k := KeywordOf(ts[0].name).value;
      if Given(f, k) then Err(DuplicateParameter(KeywordName(k)))
      else if |ts| < 2 || ts[1] != Colon then Err(UnexpectedToken)
      else ParseValue(k, ts[2..])
  }

  /**
   * The parameter loop from the point where `ts` is left: a parameter must
   * follow a comma (or start the list), and a comma may follow each one.
   */
  function ParseParams(ts: seq<Token>, f: Fields, trailingComma: bool): Result<Fields, ParseError>
    decreases |ts|
  {
    if ts == [] then Ok(f)
    else if !trailingComma then Err(ExpectedComma)
    else match ParseParameter(ts, f)
      case Err(e) => Err(e)
      case Ok((p, rest)) =>
        if rest != [] && rest[0] == Comma then ParseParams(rest[1..], Assign(f, p), true)
        else ParseParams(rest, Assign(f, p), false)
  }

  /** The parsed arguments, or the missing-path error. */
  function Finish(f: Fields): (r: Result<Input, ParseError>)
    ensures r.Ok? <==> f.path.Some?
    ensures r.Err? ==> r.error == MissingPath
    ensures r.Ok? ==> r.value == Input(f.path.value, f.visibility, f.prefix, f.includePrefixes, f.excludePrefixes)
  {
    if f.path.Some? then Ok(Input(f.path.value, f.visibility, f.prefix, f.includePrefixes, f.excludePrefixes))
    else Err(MissingPath)
  }

  /** The input as the parser reads it: a leading string literal is the path with every option defaulted. */
  function ParseSpec(ts: seq<Token>): Result<Input, ParseError> {
    if ts != [] && ts[0].LitStr? then Ok(Input(ts[0].value, None, None, None, []))
    else match ParseParams(ts, NoFields, true)
      case Err(e) => Err(e)
      case Ok(f) => Finish(f)
  }

  /** The macro rejects tokens left over after the input. */
  function ParseMacroInput(ts: seq<Token>): (r: Result<Input, ParseError>)
    ensures ts != [] && ts[0].LitStr? ==>
              r == if |ts| == 1 then Ok(Input(ts[0].value, None, None, None, [])) else Err(UnexpectedToken)
  {
    if ts != [] && ts[0].LitStr? && |ts| > 1 then Err(UnexpectedToken) else ParseSpec(ts)
  }

  /** The parser loop, over the tokens still to be read. */
  method Parse(tokens: seq<Token>) returns (r: Result<Input, ParseError>)
    ensures r == ParseSpec(tokens)
  {
    if tokens != [] && tokens[0].LitStr? {
      return Ok(Input(tokens[0].value, None, None, None, []));
    }
    var path: Option<string> := None;
    var visibility: Option<Visibility> := None;
    var prefix: Option<string> := None;
    var includePrefixes: Option<seq<string>> := None;
    var excludePrefixes: seq<string> := [];
    var trailingComma := true;
    var input := tokens;
    while input != []
      invariant ParseParams(input, Fields(path, visibility, prefix, includePrefixes, excludePrefixes), trailingComma)
                == ParseParams(tokens, NoFields, true)
      decreases |input|
    {
      if !trailingComma {
        return Err(ExpectedComma);
      }
      var fields := Fields(path, visibility, prefix, includePrefixes, excludePrefixes);
      var step := ParseParameter(input, fields);
      if step.Err? {
        return Err(step.error);
      }
      var (param, rest) := step.value;
      ParamsStep(input, fields);
      match param {
        case PathParam(s) => path := Some(s);
        case VisibilityParam(v) => visibility := Some(v);
        case PrefixParam(s) => prefix := Some(s);
        case IncludePrefixesParam(xs) => includePrefixes := Some(xs);
        case ExcludePrefixesParam(xs) => excludePrefixes := xs;
      }
      assert Fields(path, visibility, prefix, includePrefixes, excludePrefixes) == Assign(fields, param);
      trailingComma := rest != [] && rest[0] == Comma;
      input := if trailingComma then rest[1..] else rest;
    }
    if path.None? {
      return Err(MissingPath);
    }
    return Ok(Input(path.value, visibility, prefix, includePrefixes, excludePrefixes));
  }

  /** One turn of the loop: a parameter is read and recorded, then a comma, if present, is consumed. */
  lemma ParamsStep(ts: seq<Token>, f: Fields)
    requires ParseParameter(ts, f).Ok?
    ensures var (p, rest) := ParseParameter(ts, f).value;
      && |rest| < |ts|
      && ParseParams(ts, f, true) ==
           if rest != [] && rest[0] == Comma then ParseParams(rest[1..], Assign(f, p), true)
           else ParseParams(rest, Assign(f, p), false)
  {
  }

  // The parameters as declared, independent of tokens.

  /** Take the parameters in order; one already given is an error. */
  function Collect(ps: seq<Param>, f: Fields): Result<Fields, ParseError> {
    if ps == [] then Ok(f)
    else if Given(f, ps[0].Keyword()) then Err(DuplicateParameter(KeywordName(ps[0].Keyword())))
    else Collect(ps[1..], Assign(f, ps[0]))
  }

  /** What a parameter list means. */
  function Interpret(ps: seq<Param>): Result<Input, ParseError> {
    match Collect(ps, NoFields)
    case Err(e) => Err(e)
    case Ok(f) => Finish(f)
  }

  // Rendering parameters as tokens.

  function RenderPrefixList(xs: seq<string>): seq<Token> {
    if xs == [] then []
    else if |xs| == 1 then [LitStr(xs[0])]
    else [LitStr(xs[0]), Comma] + RenderPrefixList(xs[1..])
  }

  function RenderValue(p: Param): seq<Token> {
    match p
    case PathParam(s) => [LitStr(s)]
    case VisibilityParam(v) => if v.Public? then [Pub(v.restriction)] else []
    case PrefixParam(s) => [LitStr(s)]
    case IncludePrefixesParam(xs) => [Bracket(RenderPrefixList(xs))]
    case ExcludePrefixesParam(xs) => [Bracket(RenderPrefixList(xs))]
  }

  function RenderParam(p: Param): seq<Token> {
    [Ident(KeywordName(p.Keyword())), Colon] + RenderValue(p)
  }

  /** Parameters separated by commas, with a comma after the last one when `trailingComma`. */
  function RenderParams(ps: seq<Param>, trailingComma: bool): seq<Token> {
    if ps == [] then []
    else if |ps| == 1 then RenderParam(ps[0]) + (if trailingComma then [Comma] else [])
    else RenderParam(ps[0]) + [Comma] + RenderParams(ps[1..], trailingComma)
  }

  // The parser reads back what was rendered.

  lemma {:induction false} PrefixListRoundTrip(xs: seq<string>)
    ensures ParsePrefixList(RenderPrefixList(xs)) == Ok(xs)
    ensures xs != [] ==> ParsePrefixList(RenderPrefixList(xs) + [Comma]) == Ok(xs)
  {
    if |xs| > 1 {
      PrefixListRoundTrip(xs[1..]);
      var ts := RenderPrefixList(xs) + [Comma];
      assert ts[2..] == RenderPrefixList(xs[1..]) + [Comma];
      assert [xs[0]] + xs[1..] == xs;
    } else if |xs| == 1 {
      assert xs == [xs[0]];
      assert RenderPrefixList(xs) + [Comma] == [LitStr(xs[0]), Comma];
      assert [LitStr(xs[0]), Comma][2..] == [];
      assert ParsePrefixList([]) == Ok([]);
      assert [xs[0]] + [] == xs;
    }
  }

  /** A rendered value reads back, leaving what follows it, unless a visibility token follows an empty visibility. */
  lemma ValueRoundTrip(p: Param, rest: seq<Token>)
    requires rest == [] || !rest[0].Pub?
    ensures ParseValue(p.Keyword(), RenderValue(p) + rest) == Ok((p, rest))
  {
    var ts := RenderValue(p) + rest;
    match p
    case PathParam(s) =>
      assert ts[1..] == rest;
    case VisibilityParam(v) =>
      if v.Public? {
        assert ts[1..] == rest;
      } else {
        assert v == Inherited && ts == rest;
      }
    case PrefixParam(s) =>
      assert ts[1..] == rest;
    case IncludePrefixesParam(xs) =>
      PrefixListRoundTrip(xs);
      assert ts[1..] == rest;
    case ExcludePrefixesParam(xs) =>
      PrefixListRoundTrip(xs);
      assert ts[1..] == rest;
  }

  lemma ParameterRoundTrip(p: Param, f: Fields, rest: seq<Token>)
    requires rest == [] || !rest[0].Pub?
    ensures ParseParameter(RenderParam(p) + rest, f) ==
              if Given(f, p.Keyword()) then Err(DuplicateParameter(KeywordName(p.Keyword()))) else Ok((p, rest))
  {
    var ts := RenderParam(p) + rest;
    assert ts[0] == Ident(KeywordName(p.Keyword())) && ts[1] == Colon;
    assert ts[2..] == RenderValue(p) + rest;
    ValueRoundTrip(p, rest);
    match p.Keyword()
    case PathKw =>
    case VisibilityKw =>
    case PrefixKw =>
    case IncludePrefixesKw =>
    case ExcludePrefixesKw =>
  }

  /** A parameter followed by a comma and more tokens: the loop goes on with the parameter recorded. */
  lemma ParamThenComma(p: Param, f: Fields, more: seq<Token>)
    ensures ParseParams(RenderParam(p) + [Comma] + more, f, true) ==
              if Given(f, p.Keyword()) then Err(DuplicateParameter(KeywordName(p.Keyword())))
              else ParseParams(more, Assign(f, p), true)
  {
    var rest := [Comma] + more;
    ParameterRoundTrip(p, f, rest);
    assert RenderParam(p) + [Comma] + more == RenderParam(p) + rest;
    assert rest[1..] == more;
  }

  /** The last parameter, with or without a trailing comma: the loop ends with it recorded. */
  lemma LastParam(p: Param, f: Fields, trailingComma: bool)
    ensures ParseParams(RenderParam(p) + (if trailingComma then [Comma] else []), f, true) ==
              if Given(f, p.Keyword()) then Err(DuplicateParameter(KeywordName(p.Keyword())))
              else Ok(Assign(f, p))
  {
    var rest: seq<Token> := if trailingComma then [Comma] else [];
    ParameterRoundTrip(p, f, rest);
    if trailingComma {
      assert rest[1..] == [];
    }
  }

  /** Parsing rendered parameters takes them in order exactly as `Collect` does, whatever was collected before. */
  lemma {:induction false} ParamsRoundTrip(ps: seq<Param>, f: Fields, trailingComma: bool)
    ensures ParseParams(RenderParams(ps, trailingComma), f, true) == Collect(ps, f)
    decreases |ps|
  {
    if ps == [] {
    } else if |ps| == 1 {
      LastParam(ps[0], f, trailingComma);
      assert Collect(ps[1..], Assign(f, ps[0])) == Ok(Assign(f, ps[0]));
    } else {
      ParamThenComma(ps[0], f, RenderParams(ps[1..], trailingComma));
      if !Given(f, ps[0].Keyword()) {
        ParamsRoundTrip(ps[1..], Assign(f, ps[0]), trailingComma);
      }
    }
  }

  /** The parser reads any rendered parameter list as what the list means. */
  lemma ParseRendered(ps: seq<Param>, trailingComma: bool)
    ensures ParseSpec(RenderParams(ps, trailingComma)) == Interpret(ps)
  {
    ParamsRoundTrip(ps, NoFields, trailingComma);
    if ps != [] {
      assert RenderParams(ps, trailingComma)[0] == Ident(KeywordName(ps[0].Keyword()));
    }
  }

  // What the parameter rules accept and reject.

  /** Once a keyword counts as given, meeting it again is an error. */
  lemma {:induction false} GivenStaysRejected(ps: seq<Param>, f: Fields, j: nat)
    requires j < |ps| && Given(f, ps[j].Keyword())
    ensures Collect(ps, f).Err?
    decreases j
  {
    if !Given(f, ps[0].Keyword()) {
      assert ps[0].Keyword() != ps[j].Keyword();
      GivenStaysRejected(ps[1..], Assign(f, ps[0]), j - 1);
    }
  }

  /** A parameter given twice is rejected; an empty `exclude_prefixes` list does not count as given. */
  lemma {:induction false} RepeatRejected(ps: seq<Param>, f: Fields, i: nat, j: nat)
    requires i < j < |ps| && ps[i].Keyword() == ps[j].Keyword()
    requires !(ps[i].ExcludePrefixesParam? && ps[i].excludes == [])
    ensures Collect(ps, f).Err?
    decreases i
  {
    if Given(f, ps[0].Keyword()) {
    } else if i == 0 {
      GivenStaysRejected(ps[1..], Assign(f, ps[0]), j - 1);
    } else {
      RepeatRejected(ps[1..], Assign(f, ps[0]), i - 1, j - 1);
    }
  }

  /** Without a `path` parameter the input is rejected, with the missing-path error when nothing else is wrong. */
  lemma {:induction false} MissingPathRejected(ps: seq<Param>, f: Fields)
    requires f.path.None? && forall i :: 0 <= i < |ps| ==> !ps[i].PathParam?
    ensures Collect(ps, f).Ok? ==> Collect(ps, f).value.path.None?
    ensures f == NoFields ==> Interpret(ps).Err?
    ensures f == NoFields && Collect(ps, f).Ok? ==> Interpret(ps) == Err(MissingPath)
    decreases |ps|
  {
    if ps != [] && !Given(f, ps[0].Keyword()) {
      MissingPathRejected(ps[1..], Assign(f, ps[0]));
    }
  }

  /**
   * Parameters with different keywords are all accepted: every parameter's
   * value is recorded in its field, the path is the one given, and the
   * field of a keyword none of them names keeps its value.
   */
  lemma {:induction false} DistinctAccepted(ps: seq<Param>, f: Fields)
    requires forall i, j :: 0 <= i < j < |ps| ==> ps[i].Keyword() != ps[j].Keyword()
    requires forall i :: 0 <= i < |ps| ==> !Given(f, ps[i].Keyword())
    ensures Collect(ps, f).Ok?
    ensures forall i :: 0 <= i < |ps| ==> Holds(Collect(ps, f).value, ps[i])
    ensures forall k :: (forall i :: 0 <= i < |ps| ==> ps[i].Keyword() != k) ==> SameField(Collect(ps, f).value, f, k)
    ensures forall i :: 0 <= i < |ps| && ps[i].PathParam? ==> Collect(ps, f).value.path == Some(ps[i].path)
    ensures (forall i :: 0 <= i < |ps| ==> !ps[i].PathParam?) ==> Collect(ps, f).value.path == f.path
    decreases |ps|
  {
    if ps != [] {
      var g := Assign(f, ps[0]);
      forall i | 0 <= i < |ps[1..]| ensures !Given(g, ps[1..][i].Keyword()) {
        assert ps[1..][i] == ps[i + 1];
        assert ps[0].Keyword() != ps[i + 1].Keyword();
      }
      DistinctAccepted(ps[1..], g);
      var h := Collect(ps, f).value;
      assert h == Collect(ps[1..], g).value;
      forall i | 0 <= i < |ps| ensures Holds(h, ps[i]) {
        if i > 0 {
          assert ps[1..][i - 1] == ps[i];
        } else {
          forall j | 0 <= j < |ps[1..]| ensures ps[1..][j].Keyword() != ps[0].Keyword() {
            assert ps[1..][j] == ps[j + 1];
          }
          assert SameField(h, g, ps[0].Keyword());
        }
      }
      forall k | forall i :: 0 <= i < |ps| ==> ps[i].Keyword() != k
        ensures SameField(h, f, k)
      {
        forall j | 0 <= j < |ps[1..]| ensures ps[1..][j].Keyword() != k {
          assert ps[1..][j] == ps[j + 1];
        }
        assert SameField(h, g, k);
        assert ps[0].Keyword() != k;
      }
      forall i | 0 <= i < |ps| && ps[i].PathParam? ensures Collect(ps, f).value.path == Some(ps[i].path) {
        if i > 0 {
          assert ps[1..][i - 1] == ps[i];
        } else {
          forall k | 0 <= k < |ps[1..]| ensures !ps[1..][k].PathParam? {
            assert ps[1..][k] == ps[k + 1];
            assert ps[0].Keyword() != ps[k + 1].Keyword();
          }
        }
      }
      if forall i :: 0 <= i < |ps| ==> !ps[i].PathParam? {
        assert forall k :: 0 <= k < |ps[1..]| ==> ps[1..][k] == ps[k + 1];
      }
    }
  }

  /** A visibility other than `pub` reads as inherited, and the token after it is not a comma. */
  lemma CrateVisibilityRejected(path: string)
    ensures ParseSpec([Ident("path"), Colon, LitStr(path), Comma, Ident("visibility"), Colon, Ident("crate")])
            == Err(ExpectedComma)
  {
    var ts := [Ident("path"), Colon, LitStr(path), Comma, Ident("visibility"), Colon, Ident("crate")];
    var f := Assign(NoFields, PathParam(path));
    var g := Assign(f, VisibilityParam(Inherited));
    assert KeywordOf("path") == Some(PathKw);
    assert KeywordOf("visibility") == Some(VisibilityKw);
    assert ParseParameter(ts, NoFields) == Ok((PathParam(path), ts[3..]));
    ParamsStep(ts, NoFields);
    assert ts[3..][1..] == ts[4..] == [Ident("visibility"), Colon, Ident("crate")];
    assert ParseParameter(ts[4..], f) == Ok((VisibilityParam(Inherited), [Ident("crate")]));
    ParamsStep(ts[4..], f);
    assert ParseParams(ts[4..], f, true) == ParseParams([Ident("crate")], g, false);
  }

  /** The fields an input was built from. */
  function FieldsOf(input: Input): Fields {
    Fields(Some(input.path), input.visibility, input.prefix, input.includePrefixes, input.excludePrefixes)
  }

  /**
   * Parameters with different keywords, one of them `path`, are accepted as
   * an input that holds every parameter's value, and the default for each
   * keyword none of them names.
   */
  lemma DistinctInterpreted(ps: seq<Param>)
    requires forall i, j :: 0 <= i < j < |ps| ==> ps[i].Keyword() != ps[j].Keyword()
    requires exists i :: 0 <= i < |ps| && ps[i].PathParam?
    ensures Interpret(ps).Ok?
    ensures forall i :: 0 <= i < |ps| ==> Holds(FieldsOf(Interpret(ps).value), ps[i])
    ensures forall k :: (forall i :: 0 <= i < |ps| ==> ps[i].Keyword() != k) ==>
              SameField(FieldsOf(Interpret(ps).value), NoFields, k)
  {
    DistinctAccepted(ps, NoFields);
    var f := Collect(ps, NoFields).value;
    var i :| 0 <= i < |ps| && ps[i].PathParam?;
    assert f.path.Some?;
    assert FieldsOf(Interpret(ps).value) == f;
  }

  /** Two parameters with no comma between them are rejected. */
  lemma MissingCommaRejected(p: Param, q: Param)
    ensures ParseSpec(RenderParam(p) + RenderParam(q)) == Err(ExpectedComma)
  {
    MissingCommaAfter(p, q, NoFields);
    assert (RenderParam(p) + RenderParam(q))[0] == Ident(KeywordName(p.Keyword()));
  }

  /** Wherever the loop is, a parameter directly followed by another one is the expected-comma error. */
  lemma MissingCommaAfter(p: Param, q: Param, f: Fields)
    requires !Given(f, p.Keyword())
    ensures ParseParams(RenderParam(p) + RenderParam(q), f, true) == Err(ExpectedComma)
  {
    var rest := RenderParam(q);
    ParameterRoundTrip(p, f, rest);
    assert rest[0] == Ident(KeywordName(q.Keyword()));
    assert ParseParams(rest, Assign(f, p), false) == Err(ExpectedComma);
  }

  /** `exclude_prefixes: []` may be followed by another `exclude_prefixes`, whose list is kept. */
  lemma ExcludeAfterEmptyAccepted(path: string, xs: seq<string>)
    ensures Interpret([PathParam(path), ExcludePrefixesParam([]), ExcludePrefixesParam(xs)])
            == Ok(Input(path, None, None, None, xs))
  {
    var ps := [PathParam(path), ExcludePrefixesParam([]), ExcludePrefixesParam(xs)];
    var f1 := Assign(NoFields, PathParam(path));
    assert ps[1..] == [ExcludePrefixesParam([]), ExcludePrefixesParam(xs)];
    assert ps[1..][1..] == [ExcludePrefixesParam(xs)];
    assert Collect(ps[1..][1..], f1) == Collect([], f1.(excludePrefixes := xs));
    assert Collect(ps[1..], f1) == Collect(ps[1..][1..], f1);
    assert Collect(ps, NoFields) == Ok(f1.(excludePrefixes := xs));
  }
}
