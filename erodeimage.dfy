/** The grayscale-erosion tool (`pxerodeimage`): its `main` as a decision from the
    parsed flags and the inspected header to either exit status 1 or the erosion
    instantiations it runs, and the parameters `ErodeImage` hands to the kernel. */
module ErodeImage {
  import opened ToolCommon

  /** The flags as the command-line parser delivers them, with the argument count. */
  datatype Args = Args(
    argc: int,
    input: Option<string>,          // -in
    output: Option<string>,         // -out
    boundary: Option<string>,       // -bc
    radius: Option<seq<u32>>,       // -r
    dim: Option<u32>,               // -dim
    pixelType: Option<string>)      // -pt

  /** The reasons `main` returns 1 before running anything. */
  datatype Error =
    | Usage              // too few or too many arguments: help is printed
    | MissingInput       // no -in
    | MissingRadius      // no -r
    | Unreadable         // the header inspector failed
    | VectorImage        // more than one component per pixel
    | RadiusCount        // neither 1 nor Dimension radii
    | NonPositiveRadius  // a zero radius at an index the loop checks

  /** Everything `main` has settled once the radius count has been checked. */
  datatype Request = Request(
    input: string,
    output: string,
    boundary: string,
    componentType: string,
    dimension: u32,
    radius: seq<u32>)

  datatype Prepared = Rejected(error: Error) | Accepted(request: Request)

  /** One call `ErodeImage<Image<pixel, dimension>>(input, output, radius, boundary)`. */
  datatype Call = Call(
    pixel: ComponentKind,
    dimension: u32,
    input: string,
    output: string,
    radius: seq<u32>,
    boundary: string)

  /** How `main` ends: status 1, the `run` lines that fired (none is exit 0 as well),
      or a read of `radius[0]` from an empty list, which C++ leaves undefined. */
  datatype Outcome =
    | Failed(error: Error)
    | Finished(runs: seq<Call>)
    | RadiusReadPastEnd

  /** The per-dimension radius after broadcasting and the positivity loop. */
  datatype Radius =
    | Radii(values: seq<u32>)
    | ZeroRadius
    | FirstRadiusMissing

  /** `<input without last extension>ERODED<last extension>`. */
  function DefaultOutput(env: Collaborators, input: string): string {
    env.stem(input) + "ERODED" + env.ext(input)
  }

  /** The header checks of `main`, before the radius is looked at. */
  ghost predicate PassesHeaderChecks(args: Args, env: Collaborators) {
    5 <= args.argc <= 13 && args.input.Some? && args.radius.Some? &&
    env.inspect(args.input.value).Some? &&
    env.inspect(args.input.value).value.numberOfComponents <= 1
  }

  /** The dimension after `-dim` has had its say. */
  function EffectiveDimension(args: Args, props: ImageProperties): u32 {
    args.dim.GetOr(props.dimension)
  }

  /** The component type after `-pt` has had its say, before underscores are replaced. */
  function EffectiveComponentType(args: Args, props: ImageProperties): string {
    args.pixelType.GetOr(props.componentType)
  }

  /** `main` up to and including the check on the number of radii. */
  function Prepare(args: Args, env: Collaborators): Prepared {
    if args.argc < 5 || args.argc > 13 then Rejected(Usage)
    else
      var input := args.input.GetOr("");
      var output := args.output.GetOr(DefaultOutput(env, input));
      var boundary := args.boundary.GetOr("");
      if args.input.None? then Rejected(MissingInput)
      else if args.radius.None? then Rejected(MissingRadius)
      else match env.inspect(input)
        case None => Rejected(Unreadable)
        case Some(props) =>
          var dimension := EffectiveDimension(args, props);
          var componentType := EffectiveComponentType(args, props);
          if props.numberOfComponents > 1 then Rejected(VectorImage)
          else
            var radius := args.radius.value;
            if |radius| != dimension && |radius| != 1 then Rejected(RadiusCount)
            else Accepted(Request(input, output, boundary,
                                  ReplaceUnderscoreWithSpace(componentType), dimension, radius))
  }

  /** Each check before the radius loop fails exactly on the inputs that reach it and
      break it, in the source's order; an input that passes them all is accepted. */
  lemma PrepareOutcome(args: Args, env: Collaborators)
    ensures Prepare(args, env) == Rejected(Usage) <==> args.argc < 5 || args.argc > 13
    ensures Prepare(args, env) == Rejected(MissingInput) <==> 5 <= args.argc <= 13 && args.input.None?
    ensures Prepare(args, env) == Rejected(MissingRadius) <==>
            5 <= args.argc <= 13 && args.input.Some? && args.radius.None?
    ensures Prepare(args, env) == Rejected(Unreadable) <==>
            5 <= args.argc <= 13 && args.input.Some? && args.radius.Some? &&
            env.inspect(args.input.value).None?
    ensures Prepare(args, env) == Rejected(VectorImage) <==>
            5 <= args.argc <= 13 && args.input.Some? && args.radius.Some? &&
            env.inspect(args.input.value).Some? &&
            env.inspect(args.input.value).value.numberOfComponents > 1
    ensures Prepare(args, env) == Rejected(RadiusCount) <==>
            PassesHeaderChecks(args, env) &&
            var dimension := EffectiveDimension(args, env.inspect(args.input.value).value);
            |args.radius.value| != dimension && |args.radius.value| != 1
    ensures Prepare(args, env).Rejected? ==> Prepare(args, env).error != NonPositiveRadius
    ensures Prepare(args, env).Accepted? <==>
            PassesHeaderChecks(args, env) &&
            var dimension := EffectiveDimension(args, env.inspect(args.input.value).value);
            |args.radius.value| == dimension || |args.radius.value| == 1
  {
  }

  /** The radius `main` derives from a list of 1 or Dimension entries: `Dimension`
      copies of the first entry, overwritten entry by entry from index 1 by a
      Dimension-long list, stopping at the first zero. Index 0 is never checked. */
  function EffectiveRadius(radius: seq<u32>, dimension: u32): Radius
    requires |radius| == 1 || |radius| == dimension
  {
    if radius == [] then FirstRadiusMissing
    else if |radius| == dimension && exists i :: 1 <= i < |radius| && radius[i] == 0 then ZeroRadius
    else if |radius| == dimension then Radii(radius)
    else Radii(seq(dimension, _ => radius[0]))
  }

  /** The radius derivation of `main` as the source runs it: allocate `Dimension`
      copies of `radius[0]`, then copy and check the entries from index 1 on. */
  method BuildRadius(radius: seq<u32>, dimension: u32) returns (ok: bool, r: array<u32>)
    requires |radius| >= 1
    requires |radius| == 1 || |radius| == dimension
    ensures r.Length == dimension
    ensures ok && |radius| == 1 ==> forall k :: 0 <= k < dimension ==> r[k] == radius[0]
    ensures ok && |radius| == dimension ==> r[..] == radius
    ensures !ok <==> |radius| == dimension && exists k :: 1 <= k < dimension && radius[k] == 0
    ensures ok ==> EffectiveRadius(radius, dimension) == Radii(r[..])
    ensures !ok ==> EffectiveRadius(radius, dimension) == ZeroRadius
  {
    r := new u32[dimension](_ => radius[0]);
    ok := true;
    if |radius| == dimension {
      var i := 1;
      while i < dimension
        invariant 1 <= i <= dimension
        invariant forall k :: 0 <= k < i ==> r[k] == radius[k]
        invariant forall k :: i <= k < dimension ==> r[k] == radius[0]
        invariant forall k :: 1 <= k < i ==> radius[k] != 0
      {
        r[i] := radius[i];
        if r[i] < 1 {
          ok := false;
          return;
        }
        i := i + 1;
      }
      assert r[..] == radius;
    } else {
      assert r[..] == seq(dimension, _ => radius[0]);
    }
  }

  /** The eight `run` lines of `main`, in order. */
  const Matrix: seq<(ComponentKind, u32)> := [
    (UnsignedChar, 2), (UnsignedChar, 3),
    (Char, 2), (Char, 3),
    (UnsignedShort, 2), (UnsignedShort, 3),
    (Short, 2), (Short, 3)]

  /** The (component type, dimension) pairs the tool has an instantiation for. */
  predicate Supported(componentType: string, dimension: u32) {
    componentType in {"unsigned char", "char", "unsigned short", "short"} && dimension in {2, 3}
  }

  lemma MatrixRows(e: (ComponentKind, u32))
    ensures e in Matrix <==> e.0.IsInteger() && e.1 in {2, 3}
  {
    if e.0.IsInteger() && e.1 in {2, 3} {
      var i := (match e.0 case UnsignedChar => 0 case Char => 2 case UnsignedShort => 4 case _ => 6)
               + (if e.1 == 2 then 0 else 1);
      assert Matrix[i] == e;
    }
  }

  /** The rows of `Matrix` whose `run` condition `ComponentType == #type && Dimension == dim` holds. */
  function Selected(componentType: string, dimension: u32): seq<(ComponentKind, u32)> {
    Select(Matrix, (e: (ComponentKind, u32)) => e.0.Name() == componentType && e.1 == dimension)
  }

  /** The conditions of the eight `run` lines exclude each other: at most one fires. */
  lemma SelectedAtMostOne(componentType: string, dimension: u32)
    ensures |Selected(componentType, dimension)| <= 1
  {
    var fires := (e: (ComponentKind, u32)) => e.0.Name() == componentType && e.1 == dimension;
    forall i, j | 0 <= i < j < |Matrix| && fires(Matrix[i])
      ensures !fires(Matrix[j])
    {
      NameDetermines(Matrix[i].0, Matrix[j].0);
    }
    ExclusiveSelectsAtMostOne(Matrix, fires);
  }

  /** Some `run` line fires exactly for the supported pairs, and the one that fires
      instantiates an integer pixel type. */
  lemma SelectedCoversSupported(componentType: string, dimension: u32)
    ensures |Selected(componentType, dimension)| >= 1 <==> Supported(componentType, dimension)
    ensures forall e :: e in Selected(componentType, dimension) ==>
              e.0.Name() == componentType && e.1 == dimension && e.0.IsInteger()
  {
    var selected := Selected(componentType, dimension);
    forall e | e in selected
      ensures e.0.IsInteger()
    {
      MatrixRows(e);
    }
    if Supported(componentType, dimension) {
      var kind := if componentType == "unsigned char" then UnsignedChar
                  else if componentType == "char" then Char
                  else if componentType == "unsigned short" then UnsignedShort
                  else Short;
      MatrixRows((kind, dimension));
      assert (kind, dimension) in selected;
    }
    if |selected| >= 1 {
      assert selected[0] in selected;
      MatrixRows(selected[0]);
    }
  }

  /** One call per `run` line that fires. */
  function Runs(request: Request, radius: seq<u32>): (runs: seq<Call>)
    ensures |runs| <= 1
    ensures |runs| == 1 <==> Supported(request.componentType, request.dimension)
    ensures |runs| == 1 ==> var c := runs[0];
      c.pixel.Name() == request.componentType && c.pixel.IsInteger() && c.dimension == request.dimension &&
      c.input == request.input && c.output == request.output &&
      c.radius == radius && c.boundary == request.boundary
  {
    var selected := Selected(request.componentType, request.dimension);
    SelectedAtMostOne(request.componentType, request.dimension);
    SelectedCoversSupported(request.componentType, request.dimension);
    if selected == [] then []
    else
      var (pixel, dimension) := selected[0];
      assert (pixel, dimension) in selected;
      assert pixel.Name() == request.componentType && pixel.IsInteger() && dimension == request.dimension;
      [Call(pixel, dimension, request.input, request.output, radius, request.boundary)]
  }

  /** `main` as a whole. */
  function Decide(args: Args, env: Collaborators): (o: Outcome)
    ensures o == Failed(Usage) <==> args.argc < 5 || args.argc > 13
    ensures o == Failed(MissingInput) <==> 5 <= args.argc <= 13 && args.input.None?
    ensures o == Failed(MissingRadius) <==> 5 <= args.argc <= 13 && args.input.Some? && args.radius.None?
    ensures o == Failed(Unreadable) <==>
            5 <= args.argc <= 13 && args.input.Some? && args.radius.Some? &&
            env.inspect(args.input.value).None?
    ensures o == Failed(VectorImage) <==>
            5 <= args.argc <= 13 && args.input.Some? && args.radius.Some? &&
            env.inspect(args.input.value).Some? &&
            env.inspect(args.input.value).value.numberOfComponents > 1
    ensures o == Failed(RadiusCount) <==>
            PassesHeaderChecks(args, env) &&
            var dimension := EffectiveDimension(args, env.inspect(args.input.value).value);
            |args.radius.value| != dimension && |args.radius.value| != 1
    ensures o.RadiusReadPastEnd? <==>
            PassesHeaderChecks(args, env) && args.radius.value == [] &&
            EffectiveDimension(args, env.inspect(args.input.value).value) == 0
    ensures o == Failed(NonPositiveRadius) <==>
            PassesHeaderChecks(args, env) &&
            var dimension := EffectiveDimension(args, env.inspect(args.input.value).value);
            |args.radius.value| == dimension && exists k :: 1 <= k < dimension && args.radius.value[k] == 0
    ensures o.Finished? <==>
            PassesHeaderChecks(args, env) &&
            var dimension := EffectiveDimension(args, env.inspect(args.input.value).value);
            var radius := args.radius.value;
            radius != [] && (|radius| == 1 || |radius| == dimension) &&
            !(|radius| == dimension && exists k :: 1 <= k < dimension && radius[k] == 0)
    ensures o.Finished? ==> |o.runs| <= 1
  {
    PrepareOutcome(args, env);
    match Prepare(args, env)
    case Rejected(e) => Failed(e)
    case Accepted(request) =>
      PreparedRequest(args, env);
      match EffectiveRadius(request.radius, request.dimension)
      case FirstRadiusMissing => RadiusReadPastEnd
      case ZeroRadius => Failed(NonPositiveRadius)
      case Radii(r) =>
        Finished(Runs(request, r))
  }

  /** A request that passes the checks carries the flags and the overridden header verbatim. */
  lemma PreparedRequest(args: Args, env: Collaborators)
    requires Prepare(args, env).Accepted?
    ensures PassesHeaderChecks(args, env)
    ensures var props := env.inspect(args.input.value).value;
            var request := Prepare(args, env).request;
            request.componentType == ReplaceUnderscoreWithSpace(EffectiveComponentType(args, props)) &&
            request.dimension == EffectiveDimension(args, props) &&
            request.input == args.input.value &&
            request.output == args.output.GetOr(DefaultOutput(env, args.input.value)) &&
            request.boundary == args.boundary.GetOr("") &&
            request.radius == args.radius.value &&
            (|request.radius| == 1 || |request.radius| == request.dimension)
  {
  }

  /** The derived radius has exactly Dimension entries; a single radius is broadcast,
      a Dimension-long list is taken verbatim, and its entries from index 1 on are positive. */
  lemma RadiusShape(radius: seq<u32>, dimension: u32)
    requires |radius| == 1 || |radius| == dimension
    requires EffectiveRadius(radius, dimension).Radii?
    ensures var r := EffectiveRadius(radius, dimension).values;
            |r| == dimension &&
            (|radius| == 1 ==> forall i :: 0 <= i < |r| ==> r[i] == radius[0]) &&
            (|radius| == dimension ==> r == radius && forall i :: 1 <= i < |r| ==> r[i] >= 1)
  {
  }

  /** What an erosion that runs is given: the pixel type and dimension after the
      overrides (with `_` read as a space), the file names, the boundary text, and a
      radius of exactly Dimension entries that broadcasts a single value or copies a
      Dimension-long list whose entries from index 1 on are positive. */
  lemma {:induction false} DispatchedErosion(args: Args, env: Collaborators)
    requires Decide(args, env).Finished? && Decide(args, env).runs != []
    ensures PassesHeaderChecks(args, env)
    ensures var props := env.inspect(args.input.value).value;
            var c := Decide(args, env).runs[0];
            c.pixel.Name() == ReplaceUnderscoreWithSpace(EffectiveComponentType(args, props)) &&
            c.pixel.IsInteger() &&
            c.dimension == EffectiveDimension(args, props) && c.dimension in {2, 3} &&
            c.input == args.input.value &&
            c.output == args.output.GetOr(DefaultOutput(env, args.input.value)) &&
            c.boundary == args.boundary.GetOr("")
    ensures var c := Decide(args, env).runs[0];
            var radius := args.radius.value;
            |c.radius| == c.dimension &&
            (|radius| == 1 ==> forall i :: 0 <= i < |c.radius| ==> c.radius[i] == radius[0]) &&
            (|radius| == c.dimension ==> c.radius == radius && forall i :: 1 <= i < |c.radius| ==> c.radius[i] >= 1)
  {
    var request := Prepare(args, env).request;
    PreparedRequest(args, env);
    var r := EffectiveRadius(request.radius, request.dimension);
    RadiusShape(request.radius, request.dimension);
    var runs := Runs(request, r.values);
    assert Decide(args, env).runs == runs;
  }

  /** The exit status: 1 for a failed check, and for a caught ITK exception thrown by
      the instantiation that ran; 0 otherwise, including when no instantiation ran. */
  function ExitCode(o: Outcome, routineThrows: bool): int
    requires !o.RadiusReadPastEnd?
  {
    match o
    case Failed(_) => 1
    case Finished(runs) => if runs != [] && routineThrows then 1 else 0
  }

  /** Once the checks pass, an instantiation runs iff the overridden component type,
      with `_` read as a space, and the overridden dimension form a supported pair;
      otherwise nothing runs and the exit status is still 0. */
  lemma {:induction false} DispatchMatrix(args: Args, env: Collaborators, routineThrows: bool)
    requires Decide(args, env).Finished?
    ensures PassesHeaderChecks(args, env)
    ensures var props := env.inspect(args.input.value).value;
            Decide(args, env).runs != [] <==>
              Supported(ReplaceUnderscoreWithSpace(EffectiveComponentType(args, props)),
                        EffectiveDimension(args, props))
    ensures Decide(args, env).runs == [] ==> ExitCode(Decide(args, env), routineThrows) == 0
  {
    var request := Prepare(args, env).request;
    PreparedRequest(args, env);
    var r := EffectiveRadius(request.radius, request.dimension);
    assert Decide(args, env).runs == Runs(request, r.values);
  }

  /** The values a pixel of an integer component type can hold
      (`char` is taken to be signed, as on x86 Linux). */
  predicate Representable(kind: ComponentKind, v: int)
    requires kind.IsInteger()
  {
    if kind == UnsignedChar then 0 <= v < 0x100
    else if kind == Char then -0x80 <= v < 0x80
    else if kind == UnsignedShort then 0 <= v < 0x1_0000
    else -0x8000 <= v < 0x8000
  }

  /** `itk::NumericTraits<PixelType>::max()`. */
  function MaxValue(kind: ComponentKind): (m: int)
    requires kind.IsInteger()
    ensures Representable(kind, m)
    ensures forall v :: Representable(kind, v) ==> v <= m
  {
    match kind
    case UnsignedChar => 0xFF
    case Char => 0x7F
    case UnsignedShort => 0xFFFF
    case Short => 0x7FFF
  }

  /** The value the erosion filter assumes outside the image. */
  datatype Boundary =
    | DefaultMax(value: int)    // the filter's default: max(PixelType)
    | Constant(text: string)    // overridden by `-bc`, converted with atoi

  /** The parameters `ErodeImage` derives before handing over to the kernel: the
      radius array (filled with 1, then overwritten entry by entry for every
      dimension) and the boundary value (max(PixelType) unless `-bc` is non-empty). */
  method KernelParameters(call: Call) returns (radiusArray: array<u32>, boundary: Boundary)
    requires call.pixel.IsInteger()
    requires |call.radius| == call.dimension
    ensures radiusArray.Length == call.dimension
    ensures forall i :: 0 <= i < call.dimension ==> radiusArray[i] == call.radius[i]
    ensures boundary.DefaultMax? <==> call.boundary == ""
    ensures boundary.DefaultMax? ==>
              Representable(call.pixel, boundary.value) &&
              forall v :: Representable(call.pixel, v) ==> v <= boundary.value
    ensures boundary.Constant? ==> boundary.text == call.boundary
  {
    radiusArray := new u32[call.dimension](_ => 1);
    var i := 0;
    while i < call.dimension
      invariant 0 <= i <= call.dimension
      invariant forall k :: 0 <= k < i ==> radiusArray[k] == call.radius[k]
    {
      radiusArray[i] := call.radius[i];
      i := i + 1;
    }
    boundary := DefaultMax(MaxValue(call.pixel));
    if call.boundary != "" {
      boundary := Constant(call.boundary);
    }
  }

  /** `main` accepts a zero radius at index 0: as a single radius it is broadcast,
      and at the head of a Dimension-long list it is copied unchecked. */
  lemma LeadingZeroRadiusAccepted()
    ensures EffectiveRadius([0], 3) == Radii([0, 0, 0])
    ensures EffectiveRadius([0, 3], 2) == Radii([0, 3])
  {
  }

  /** The radius derivation with every entry checked, index 0 included. */
  function CheckedRadius(radius: seq<u32>, dimension: u32): (r: Radius)
    requires |radius| == 1 || |radius| == dimension
    ensures r.Radii? ==> |r.values| == dimension && 0 !in r.values
    ensures r.ZeroRadius? <==> 0 in radius
    ensures radius != [] && radius[0] != 0 ==> r == EffectiveRadius(radius, dimension)
  {
    if radius == [] then FirstRadiusMissing
    else if radius[0] == 0 then ZeroRadius
    else EffectiveRadius(radius, dimension)
  }

  /** `main` with every radius entry checked. */
  function DecideIntended(args: Args, env: Collaborators): (o: Outcome)
    ensures o.Finished? && o.runs != [] ==> 0 !in o.runs[0].radius
  {
    match Prepare(args, env)
    case Rejected(e) => Failed(e)
    case Accepted(request) =>
      match CheckedRadius(request.radius, request.dimension)
      case FirstRadiusMissing => RadiusReadPastEnd
      case ZeroRadius => Failed(NonPositiveRadius)
      case Radii(r) =>
        Finished(Runs(request, r))
  }

  /** The corrected `main` differs from the source's exactly where the source finishes
      (running an erosion or nothing) with a zero leading radius: there it returns 1. */
  lemma IntendedDiffersOnlyOnLeadingZero(args: Args, env: Collaborators)
    ensures DecideIntended(args, env) != Decide(args, env) <==>
              Decide(args, env).Finished? && args.radius.Some? && args.radius.value != [] &&
              args.radius.value[0] == 0
    ensures DecideIntended(args, env) != Decide(args, env) ==>
              DecideIntended(args, env) == Failed(NonPositiveRadius)
  {
    match Prepare(args, env)
    case Rejected(_) =>
    case Accepted(request) =>
      PreparedRequest(args, env);
  }
}
