/** The grapheme expression `Grapheme` and its two gates
    (`rulex-lib/src/grapheme.rs`). Options, features and errors keep only
    what these gates use. */
module Graphemes {
  import opened Wrappers
  import opened Spans

  datatype RegexFlavor = Pcre | Python | Java | JavaScript | DotNet | Ruby | Rust

  /** The language features an error can name as unsupported. */
  datatype Feature = Grapheme | OtherFeature

  datatype CompileErrorKind = Unsupported(feature: Feature, flavor: RegexFlavor) {
    function At(span: Span): CompileError {
      CompileError(this, span)
    }
  }

  datatype CompileError = CompileError(kind: CompileErrorKind, span: Span)

  /** The regex nodes; only the grapheme node matters here. */
  datatype Regex = GraphemeRegex | OtherRegex

  datatype CompileOptions = CompileOptions(flavor: RegexFlavor)

  /** The features a caller may allow (`RulexFeatures`), as a set of flags. */
  datatype FeatureFlag = GraphemeFlag | OtherFlag(bit: nat)

  datatype ParseOptions = ParseOptions(allowedFeatures: set<FeatureFlag>)

  datatype ValidationError = UnallowedFeature(flag: FeatureFlag, span: Span)

  datatype GraphemeExpr = GraphemeExpr(span: Span)

  /** `Grapheme::compile`: every flavor but JavaScript supports `\X`. */
  function Compile(g: GraphemeExpr, options: CompileOptions): (r: Result<Regex, CompileError>)
    ensures r.Err? <==> options.flavor == JavaScript
    ensures r.Err? ==> r.error == Unsupported(Grapheme, JavaScript).At(g.span)
    ensures r.Ok? ==> r.value == GraphemeRegex
  {
    if options.flavor == JavaScript then Err(Unsupported(Grapheme, options.flavor).At(g.span))
    else Ok(GraphemeRegex)
  }

  /** Apart from where an error is reported, the outcome of `compile`
      depends on the flavor alone. */
  lemma CompileDependsOnFlavor(g1: GraphemeExpr, g2: GraphemeExpr, o1: CompileOptions, o2: CompileOptions)
    requires o1.flavor == o2.flavor
    ensures Compile(g1, o1).Ok? == Compile(g2, o2).Ok?
    ensures Compile(g1, o1).Ok? ==> Compile(g1, o1) == Compile(g2, o2)
    ensures Compile(g1, o1).Err? ==> Compile(g1, o1).error.kind == Compile(g2, o2).error.kind
  {
  }

  /** `RulexFeatures::require`: the feature must be allowed. */
  function Require(allowed: set<FeatureFlag>, flag: FeatureFlag, span: Span): (r: Result<(), ValidationError>)
    ensures r.Ok? <==> flag in allowed
    ensures r.Err? ==> r.error == UnallowedFeature(flag, span)
  {
    if flag in allowed then Ok(()) else Err(UnallowedFeature(flag, span))
  }

  /** `Grapheme::validate`: allowed exactly when the grapheme feature is. */
  function Validate(g: GraphemeExpr, options: ParseOptions): (r: Result<(), ValidationError>)
    ensures r.Ok? <==> GraphemeFlag in options.allowedFeatures
    ensures r.Err? ==> r.error.span == g.span
  {
    Require(options.allowedFeatures, GraphemeFlag, g.span)
  }
}
