/** The slice-extraction tool (`pxextractslice`): its `main` as a decision from the
    parsed flags and the inspected header to either exit status 1 or the extraction
    it runs, and the extraction region `ExtractSlice` builds. */
module ExtractSlice {
  import opened ToolCommon

  /** The flags as the command-line parser delivers them, with the argument count. */
  datatype Args = Args(
    argc: int,
    input: Option<string>,          // -in
    output: Option<string>,         // -out
    pixelType: Option<string>,      // -pt
    slice: Option<Token>,           // -sn, as a number and as its raw text
    axis: Option<u32>)              // -d

  /** The reasons `main` returns 1 before running anything. */
  datatype Error =
    | Usage              // fewer than 5 arguments: help is printed
    | MissingInput       // no -in
    | Unreadable         // the header inspector failed
    | VectorImage        // more than one component per pixel
    | MissingSlice       // no -sn
    | SliceOutOfRange    // the slice number exceeds the extent along the axis
    | AxisOutOfRange     // the axis exceeds Dimension - 1

  /** Everything `main` has settled before its two sanity checks. */
  datatype Request = Request(
    input: string,
    output: Option<string>,
    componentType: string,
    dimension: u32,
    imageSize: seq<u32>,
    slice: Token,
    axis: u32)

  datatype Prepared = Rejected(error: Error) | Accepted(request: Request)

  /** The two sanity checks: pass, fail with status 1, or index `imagesize` past its
      end, which C++ leaves undefined. */
  datatype Verdict = Pass | Reject(error: Error) | ReadPastEnd

  /** One call `ExtractSlice<pixel>(input, output, slice, axis)`. */
  datatype Call = Call(
    pixel: ComponentKind,
    input: string,
    output: string,
    slice: u32,
    axis: u32)

  /** How `main` ends: status 1, the `run` lines that fired (none is exit 0 as well),
      or the undefined read of `imagesize[which_dimension]`. */
  datatype Outcome =
    | Failed(error: Error)
    | Finished(runs: seq<Call>)
    | ExtentReadPastEnd

  /** The checks of `main` before the sanity checks, with `-d` defaulting to 2. */
  function Prepare(args: Args, env: Collaborators): Prepared {
    if args.argc < 5 then Rejected(Usage)
    else if args.input.None? then Rejected(MissingInput)
    else match env.inspect(args.input.value)
      case None => Rejected(Unreadable)
      case Some(props) =>
        var componentType := args.pixelType.GetOr(props.componentType);
        if props.numberOfComponents > 1 then Rejected(VectorImage)
        else if args.slice.None? then Rejected(MissingSlice)
        else Accepted(Request(args.input.value, args.output, componentType, props.dimension,
                              props.imageSize, args.slice.value, args.axis.GetOr(2)))
  }

  /** The sanity checks as the source orders them: the slice bound first, which reads
      `imagesize[which_dimension]` before the axis has been checked, with `>` where
      the last valid slice is `imagesize[which_dimension] - 1`; then the axis bound,
      with `Dimension - 1` computed in unsigned arithmetic. */
  function SliceGuard(request: Request): Verdict {
    if request.axis >= |request.imageSize| then ReadPastEnd
    else if request.slice.value > request.imageSize[request.axis] then Reject(SliceOutOfRange)
    else if request.axis > Decrement(request.dimension) then Reject(AxisOutOfRange)
    else Pass
  }

  /** The letter naming the axis in the default output name. */
  function DirectionLetter(axis: u32): string {
    if axis == 0 then "x" else if axis == 1 then "y" else "z"
  }

  /** `<input without last extension>_slice_<letter>=<-sn as typed><last extension>`. */
  function DefaultOutput(env: Collaborators, request: Request): string {
    env.stem(request.input) + "_slice_" + DirectionLetter(request.axis) + "=" +
    request.slice.text + env.ext(request.input)
  }

  /** The five `run` lines of `main`, in order. */
  const Kinds: seq<ComponentKind> := [UnsignedChar, Char, UnsignedShort, Short, Float]

  /** The component types the tool has an instantiation for. */
  predicate Supported(componentType: string) {
    componentType in {"unsigned char", "char", "unsigned short", "short", "float"}
  }

  /** The rows of `Kinds` whose `run` condition `ComponentType == #type` holds. */
  function Selected(componentType: string): seq<ComponentKind> {
    Select(Kinds, (k: ComponentKind) => k.Name() == componentType)
  }

  /** The conditions of the five `run` lines exclude each other: at most one fires. */
  lemma SelectedAtMostOne(componentType: string)
    ensures |Selected(componentType)| <= 1
  {
    var fires := (k: ComponentKind) => k.Name() == componentType;
    forall i, j | 0 <= i < j < |Kinds| && fires(Kinds[i])
      ensures !fires(Kinds[j])
    {
      NameDetermines(Kinds[i], Kinds[j]);
    }
    ExclusiveSelectsAtMostOne(Kinds, fires);
  }

  /** Some `run` line fires exactly for the five supported spellings, and the line
      that fires has the spelling compared. */
  lemma SelectedCoversSupported(componentType: string)
    ensures |Selected(componentType)| >= 1 <==> Supported(componentType)
    ensures forall k :: k in Selected(componentType) ==> k.Name() == componentType
  {
    var selected := Selected(componentType);
    if Supported(componentType) {
      var kind := if componentType == "unsigned char" then UnsignedChar
                  else if componentType == "char" then Char
                  else if componentType == "unsigned short" then UnsignedShort
                  else if componentType == "short" then Short
                  else Float;
      assert kind in Kinds;
      assert kind in selected;
    }
    if |selected| >= 1 {
      assert selected[0] in selected;
    }
  }

  /** One call per `run` line that fires; `-out` replaces the default name. */
  function Runs(request: Request, env: Collaborators): (runs: seq<Call>)
    ensures |runs| <= 1
    ensures |runs| == 1 <==> Supported(request.componentType)
    ensures '_' in request.componentType ==> runs == []
    ensures |runs| == 1 ==> var c := runs[0];
      c.pixel.Name() == request.componentType &&
      c.input == request.input &&
      c.output == request.output.GetOr(DefaultOutput(env, request)) &&
      c.slice == request.slice.value && c.axis == request.axis
  {
    var selected := Selected(request.componentType);
    SelectedAtMostOne(request.componentType);
    SelectedCoversSupported(request.componentType);
    if selected == [] then []
    else
      var pixel := selected[0];
      assert pixel in selected;
      NameDetermines(pixel, pixel);
      [Call(pixel, request.input, request.output.GetOr(DefaultOutput(env, request)),
            request.slice.value, request.axis)]
  }

  /** `main` as a whole. */
  function Decide(args: Args, env: Collaborators): (o: Outcome)
    ensures o == Failed(Usage) <==> args.argc < 5
    ensures o == Failed(MissingInput) <==> args.argc >= 5 && args.input.None?
    ensures o == Failed(Unreadable) <==>
            args.argc >= 5 && args.input.Some? && env.inspect(args.input.value).None?
    ensures o == Failed(VectorImage) <==>
            args.argc >= 5 && args.input.Some? && env.inspect(args.input.value).Some? &&
            env.inspect(args.input.value).value.numberOfComponents > 1
    ensures o == Failed(MissingSlice) <==>
            args.argc >= 5 && args.input.Some? && env.inspect(args.input.value).Some? &&
            env.inspect(args.input.value).value.numberOfComponents <= 1 && args.slice.None?
    ensures o.Finished? <==> Prepare(args, env).Accepted? && SliceGuard(Prepare(args, env).request) == Pass
    ensures o == Failed(SliceOutOfRange) || o == Failed(AxisOutOfRange) || o.ExtentReadPastEnd? <==>
            Prepare(args, env).Accepted? && SliceGuard(Prepare(args, env).request) != Pass
    ensures Prepare(args, env).Accepted? ==>
              (o == ExtentReadPastEnd <==>
                 Prepare(args, env).request.axis >= |Prepare(args, env).request.imageSize|)
  {
    match Prepare(args, env)
    case Rejected(e) => Failed(e)
    case Accepted(request) =>
      match SliceGuard(request)
      case ReadPastEnd => ExtentReadPastEnd
      case Reject(e) => Failed(e)
      case Pass => Finished(Runs(request, env))
  }

  /** The exit status: 1 for a failed check, and for a caught ITK exception thrown by
      the instantiation that ran; 0 otherwise, including when no instantiation ran. */
  function ExitCode(o: Outcome, routineThrows: bool): int
    requires !o.ExtentReadPastEnd?
  {
    match o
    case Failed(_) => 1
    case Finished(runs) => if runs != [] && routineThrows then 1 else 0
  }

  /** Once the axis lies inside `imagesize` and the slice check has passed, the axis
      check rejects exactly the axes above `Dimension - 1` in unsigned arithmetic; this
      is reached when the header lists more extents than its dimension. */
  lemma AxisBound(args: Args, env: Collaborators)
    requires Prepare(args, env).Accepted?
    requires var request := Prepare(args, env).request;
             request.axis < |request.imageSize| &&
             request.slice.value <= request.imageSize[request.axis]
    ensures var request := Prepare(args, env).request;
            Decide(args, env) == Failed(AxisOutOfRange) <==> request.axis > Decrement(request.dimension)
    ensures var request := Prepare(args, env).request;
            Decide(args, env).Finished? <==> request.axis <= Decrement(request.dimension)
  {
    var request := Prepare(args, env).request;
    assert Decide(args, env) == Failed(AxisOutOfRange) <==> SliceGuard(request) == Reject(AxisOutOfRange);
  }

  /** With the axis inside `imagesize`, the slice check rejects exactly the slice
      numbers strictly above the extent: a slice equal to the extent passes. */
  lemma SliceBound(args: Args, env: Collaborators)
    requires Prepare(args, env).Accepted?
    requires var request := Prepare(args, env).request;
             request.axis < |request.imageSize|
    ensures var request := Prepare(args, env).request;
            request.axis == args.axis.GetOr(2) &&
            (Decide(args, env) == Failed(SliceOutOfRange) <==>
               request.slice.value > request.imageSize[request.axis])
  {
    var request := Prepare(args, env).request;
    assert Decide(args, env) == Failed(SliceOutOfRange) <==> SliceGuard(request) == Reject(SliceOutOfRange);
  }

  /** When `imagesize` has one entry per dimension, as the header describes it, the
      axis check never fires: an axis it would reject has already been used to index
      `imagesize` past its end by the slice check. */
  lemma AxisCheckUnreachable(request: Request)
    requires |request.imageSize| == request.dimension
    ensures SliceGuard(request) != Reject(AxisOutOfRange)
    ensures request.axis >= request.dimension ==> SliceGuard(request) == ReadPastEnd
  {
  }

  /** On a 0-dimensional header, `Dimension - 1` wraps to the largest `unsigned int`,
      so the axis check lets every axis through, whatever the extents. */
  lemma ZeroDimensionAxisUnchecked(request: Request)
    requires request.dimension == 0
    ensures SliceGuard(request) != Reject(AxisOutOfRange)
  {
    assert Decrement(request.dimension) == U32_MAX;
  }

  /** An input whose first failure shows both defects: on a 4x4x4 volume, slice 4 of
      axis 2 passes though the last slice is 3, and axis 3 reads `imagesize[3]`. */
  lemma SliceGuardCounterexamples()
    ensures SliceGuard(Request("scan.mha", None, "short", 3, [4, 4, 4], Token(4, "4"), 2)) == Pass
    ensures SliceGuard(Request("scan.mha", None, "short", 3, [4, 4, 4], Token(0, "0"), 3)) == ReadPastEnd
  {
  }

  /** The sanity checks as intended: the axis is checked against the dimension first,
      and only then is its extent read, with the last valid slice one below it. */
  function SliceGuardIntended(request: Request): (v: Verdict)
    ensures v == Reject(AxisOutOfRange) <==> request.axis >= request.dimension
    ensures |request.imageSize| == request.dimension ==> !v.ReadPastEnd?
    ensures |request.imageSize| == request.dimension ==>
              (v == Pass <==> request.axis < request.dimension &&
                              request.slice.value < request.imageSize[request.axis])
  {
    if request.axis >= request.dimension then Reject(AxisOutOfRange)
    else if request.axis >= |request.imageSize| then ReadPastEnd
    else if request.slice.value >= request.imageSize[request.axis] then Reject(SliceOutOfRange)
    else Pass
  }

  /** `main` with the intended sanity checks. */
  function DecideIntended(args: Args, env: Collaborators): (o: Outcome)
    ensures o.Finished? ==> args.input.Some? && env.inspect(args.input.value).Some?
    ensures o.Finished? && o.runs != [] ==>
              var props := env.inspect(args.input.value).value;
              o.runs[0].axis < props.dimension && o.runs[0].axis < |props.imageSize| &&
              o.runs[0].slice < props.imageSize[o.runs[0].axis]
  {
    match Prepare(args, env)
    case Rejected(e) => Failed(e)
    case Accepted(request) =>
      match SliceGuardIntended(request)
      case ReadPastEnd => ExtentReadPastEnd
      case Reject(e) => Failed(e)
      case Pass => Finished(Runs(request, env))
  }

  /** On a header with one extent per dimension, the corrected checks differ from the
      source's on exactly two kinds of input: an axis beyond the dimension, which the
      source indexes `imagesize` with, and a slice equal to the extent, which the
      source lets through. */
  lemma IntendedDiffers(args: Args, env: Collaborators)
    requires Prepare(args, env).Accepted?
    requires var request := Prepare(args, env).request;
             |request.imageSize| == request.dimension
    ensures var request := Prepare(args, env).request;
            DecideIntended(args, env) != Decide(args, env) <==>
              (request.axis >= request.dimension &&
               Decide(args, env) == ExtentReadPastEnd &&
               DecideIntended(args, env) == Failed(AxisOutOfRange)) ||
              (request.axis < request.dimension &&
               request.slice.value == request.imageSize[request.axis] &&
               Decide(args, env).Finished? &&
               DecideIntended(args, env) == Failed(SliceOutOfRange))
  {
    var request := Prepare(args, env).request;
    AxisCheckUnreachable(request);
  }

  /** A request that passes the first checks carries the flags and the header verbatim. */
  lemma PreparedRequest(args: Args, env: Collaborators)
    requires Prepare(args, env).Accepted?
    ensures args.argc >= 5 && args.input.Some? && args.slice.Some?
    ensures env.inspect(args.input.value).Some?
    ensures var props := env.inspect(args.input.value).value;
            var request := Prepare(args, env).request;
            props.numberOfComponents <= 1 &&
            request == Request(args.input.value, args.output,
                               args.pixelType.GetOr(props.componentType), props.dimension,
                               props.imageSize, args.slice.value, args.axis.GetOr(2))
  {
  }

  /** An extraction runs iff the component type (from `-pt`, else the header) is one
      of the five spellings, compared as is: no `_` is turned into a space, so
      `unsigned_char` runs nothing. When nothing runs the exit status is still 0. */
  lemma DispatchByType(args: Args, env: Collaborators, routineThrows: bool)
    requires Decide(args, env).Finished?
    ensures args.input.Some? && env.inspect(args.input.value).Some?
    ensures var componentType := args.pixelType.GetOr(env.inspect(args.input.value).value.componentType);
            (Decide(args, env).runs != [] <==> Supported(componentType)) &&
            ('_' in componentType ==> Decide(args, env).runs == [])
    ensures Decide(args, env).runs == [] ==> ExitCode(Decide(args, env), routineThrows) == 0
  {
    PreparedRequest(args, env);
    assert Decide(args, env).runs == Runs(Prepare(args, env).request, env);
  }

  /** What an extraction that runs is given: the slice number and axis (2 unless `-d`
      is given) that passed both sanity checks, and `-out` or else the default name
      built from the axis letter and the `-sn` text as typed. */
  lemma {:induction false} DispatchedExtraction(args: Args, env: Collaborators)
    requires Decide(args, env).Finished? && Decide(args, env).runs != []
    ensures args.input.Some? && args.slice.Some? && env.inspect(args.input.value).Some?
    ensures var props := env.inspect(args.input.value).value;
            var c := Decide(args, env).runs[0];
            var axis := args.axis.GetOr(2);
            c.pixel.Name() == args.pixelType.GetOr(props.componentType) &&
            c.input == args.input.value &&
            c.slice == args.slice.value.value && c.axis == axis &&
            axis < |props.imageSize| && c.slice <= props.imageSize[axis] &&
            axis <= Decrement(props.dimension) &&
            c.output == args.output.GetOr(
              env.stem(args.input.value) + "_slice_" +
              (if axis == 0 then "x" else if axis == 1 then "y" else "z") + "=" +
              args.slice.value.text + env.ext(args.input.value))
  {
    PreparedRequest(args, env);
    var request := Prepare(args, env).request;
    assert SliceGuard(request) == Pass;
    assert Decide(args, env).runs == Runs(request, env);
  }

  /** An ITK image region: a start index and a size per axis. */
  datatype Region = Region(index: seq<int>, size: seq<int>)

  /** A three-dimensional region that agrees with `largest` on every axis but `axis`,
      where it has size 0 and starts at `slice`. */
  ghost predicate CollapsesAxis(desired: Region, largest: Region, slice: u32, axis: u32) {
    |largest.index| == 3 && |largest.size| == 3 &&
    |desired.index| == 3 && |desired.size| == 3 && axis < 3 &&
    desired.size[axis] == 0 && desired.index[axis] == slice &&
    forall k :: 0 <= k < 3 && k != axis ==>
      desired.size[k] == largest.size[k] && desired.index[k] == largest.index[k]
  }

  /** The region `ExtractSlice` hands to the extraction filter: copies of the input's
      largest region size and index, with the entry for `axis` overwritten in each. */
  method DesiredRegion(largest: Region, slice: u32, axis: u32) returns (desired: Region)
    requires |largest.index| == 3 && |largest.size| == 3
    requires axis < 3
    ensures CollapsesAxis(desired, largest, slice, axis)
  {
    var size := new int[3](k requires 0 <= k < 3 => largest.size[k]);
    size[axis] := 0;
    var start := new int[3](k requires 0 <= k < 3 => largest.index[k]);
    start[axis] := slice;
    desired := Region(start[..], size[..]);
  }

  /** The extraction filter's reading of a region: an axis of size 0 is collapsed
      onto its start index, any other axis spans `size` indices from its start. */
  ghost predicate Selects(region: Region, p: seq<int>)
    requires |region.index| == |region.size|
  {
    |p| == |region.size| &&
    forall k :: 0 <= k < |p| ==>
      if region.size[k] == 0 then p[k] == region.index[k]
      else region.index[k] <= p[k] < region.index[k] + region.size[k]
  }

  /** The sizes of the axes a region keeps: the extent of the extracted image. */
  function KeptExtent(size: seq<int>): seq<int> {
    if size == [] then []
    else (if size[0] == 0 then [] else [size[0]]) + KeptExtent(size[1..])
  }

  /** Collapsing one axis of a sequence of non-zero sizes removes exactly that entry. */
  lemma {:induction false} KeptExtentDropsAxis(size: seq<int>, axis: nat)
    requires axis < |size|
    requires forall k :: 0 <= k < |size| ==> size[k] != 0
    ensures KeptExtent(size[axis := 0]) == size[..axis] + size[axis + 1..]
  {
    if axis == 0 {
      assert size[axis := 0][1..] == size[1..];
      KeptAll(size[1..]);
    } else {
      var tail := size[1..];
      KeptExtentDropsAxis(tail, axis - 1);
      assert size[axis := 0][1..] == tail[axis - 1 := 0];
      assert size[..axis] == [size[0]] + tail[..axis - 1];
      assert size[axis + 1..] == tail[axis..];
    }
  }

  /** A sequence of non-zero sizes keeps every axis. */
  lemma {:induction false} KeptAll(size: seq<int>)
    requires forall k :: 0 <= k < |size| ==> size[k] != 0
    ensures KeptExtent(size) == size
  {
    if size != [] {
      KeptAll(size[1..]);
    }
  }

  /** The extraction region is the plane `slice` across `axis` of a non-empty input:
      it selects an index iff its `axis` coordinate is `slice` and every other
      coordinate lies in the input, and the extracted image keeps the input's extent
      on the other two axes, in order. */
  lemma CollapsedRegionIsPlane(desired: Region, largest: Region, slice: u32, axis: u32)
    requires CollapsesAxis(desired, largest, slice, axis)
    requires forall k :: 0 <= k < 3 ==> largest.size[k] > 0
    ensures forall p :: Selects(desired, p) <==>
              |p| == 3 && p[axis] == slice &&
              forall k :: 0 <= k < 3 && k != axis ==>
                largest.index[k] <= p[k] < largest.index[k] + largest.size[k]
    ensures KeptExtent(desired.size) == largest.size[..axis] + largest.size[axis + 1..]
  {
    assert desired.size == largest.size[axis := 0];
    KeptExtentDropsAxis(largest.size, axis);
  }
}
