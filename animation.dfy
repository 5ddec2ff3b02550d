/** The animation objects both animated charts hand to the plotting
    library: frames, slider steps, and the outcome of the CSV callback. */
module Animation {

  /** A named snapshot of trace data: `{name, data}`. */
  datatype Frame<T> = Frame(name: string, data: seq<T>)

  /** One position of the year slider:
      `{method: 'animate', label, args: [[frame], {mode, transition, frame}]}`.
      `command` stands for the library call named by `method`, `caption` for
      the `label` shown on the slider. */
  datatype SliderStep = SliderStep(
    command: string,
    caption: string,
    targets: seq<string>,
    mode: string,
    transitionMs: nat,
    frameMs: nat,
    redraw: bool)

  /** What the CSV callback ends with: a chart handed to the plotting
      library, or an exception thrown out of the callback. */
  datatype Outcome<T> = Plotted(chart: T) | Threw(error: string)

  /** The step labelled `year` that moves, immediately, to the frame named `year`. */
  function StepTo(year: string, transitionMs: nat, frameMs: nat): SliderStep {
    SliderStep("animate", year, [year], "immediate", transitionMs, frameMs, false)
  }

  /** The slider-step loop: one step per year, in year order, each labelled
      with its year and animating to the frame of the same name. */
  method SliderSteps(years: seq<string>, transitionMs: nat, frameMs: nat) returns (steps: seq<SliderStep>)
    ensures |steps| == |years|
    ensures forall i :: 0 <= i < |years| ==>
      steps[i].caption == years[i] && steps[i].targets == [years[i]] && steps[i] == StepTo(years[i], transitionMs, frameMs)
  {
    steps := [];
    for i := 0 to |years|
      invariant |steps| == i
      invariant forall k :: 0 <= k < i ==> steps[k] == StepTo(years[k], transitionMs, frameMs)
    {
      steps := steps + [StepTo(years[i], transitionMs, frameMs)];
    }
  }

  /** The frames for `years[..i]` that show the containers of `e0` still
      show those of `e1` when `e1` keeps every container of `e0`; adding
      the frame of `years[i]`, whose data are containers of `e1`, gives
      the frames for `years[..i + 1]`. */
  lemma FramesExtend<T>(
    e0: map<(string, string), T>, e1: map<(string, string), T>,
    frames: seq<Frame<T>>, years: seq<string>, affs: seq<string>, i: nat, data: seq<T>)
    requires i < |years| && |frames| == i && |data| == |affs|
    requires forall l :: 0 <= l < i ==> frames[l].name == years[l] && |frames[l].data| == |affs|
    requires forall l, j :: 0 <= l < i && 0 <= j < |affs| ==>
      (years[l], affs[j]) in e0 && frames[l].data[j] == e0[(years[l], affs[j])]
    requires forall y, a :: (y, a) in e0 ==> (y, a) in e1 && e1[(y, a)] == e0[(y, a)]
    requires forall j :: 0 <= j < |affs| ==> (years[i], affs[j]) in e1 && data[j] == e1[(years[i], affs[j])]
    ensures var f := frames + [Frame(years[i], data)];
      && (forall l :: 0 <= l <= i ==> f[l].name == years[l] && |f[l].data| == |affs|)
      && forall l, j :: 0 <= l <= i && 0 <= j < |affs| ==>
           (years[l], affs[j]) in e1 && f[l].data[j] == e1[(years[l], affs[j])]
  {
    var f := frames + [Frame(years[i], data)];
    assert forall l :: 0 <= l < i ==> f[l] == frames[l];
    forall l, j | 0 <= l <= i && 0 <= j < |affs|
      ensures (years[l], affs[j]) in e1 && f[l].data[j] == e1[(years[l], affs[j])]
    {
      if l < i {
        assert (years[l], affs[j]) in e0;
      }
    }
  }
}
