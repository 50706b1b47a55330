/** The progress bar: a width clamped to [0, 100] percent and a colour
    gradient chosen by status. */
module ProgressBar {
  import opened Wrappers
  import opened Entries

  /** `Math.min(Math.max(progress, 0), 100)` */
  function Clamp(progress: int): (width: int)
    ensures 0 <= width <= 100
    ensures 0 <= progress <= 100 ==> width == progress
    ensures progress < 0 ==> width == 0
    ensures progress > 100 ==> width == 100
  {
    var atLeastZero := if progress < 0 then 0 else progress;
    if atLeastZero > 100 then 100 else atLeastZero
  }

  /** Clamping twice is clamping once, and clamping keeps order. */
  lemma ClampIdempotentMonotone(a: int, b: int)
    ensures Clamp(Clamp(a)) == Clamp(a)
    ensures a <= b ==> Clamp(a) <= Clamp(b)
  {
  }

  const Gray: string := "from-gray-400 to-gray-400/80"

  /** The bar's gradient: one per active status, gray for any other. */
  function ProgressColor(status: Status): (color: string)
    ensures status.Uploading? ==> color == "from-info to-info/80"
    ensures status.Success? ==> color == "from-success to-success/80"
    ensures status.Error? ==> color == "from-error to-error/80"
    ensures color == Gray <==> !(status.Uploading? || status.Success? || status.Error?)
  {
    match status
    case Uploading => "from-info to-info/80"
    case Success => "from-success to-success/80"
    case Error => "from-error to-error/80"
    case _ => Gray
  }

  /** Uploading, success and error bars are told apart by colour. */
  lemma ProgressColorsDistinct()
    ensures ProgressColor(Uploading) != ProgressColor(Success)
    ensures ProgressColor(Uploading) != ProgressColor(Error)
    ensures ProgressColor(Success) != ProgressColor(Error)
  {
    assert ProgressColor(Uploading)[5] == 'i';
    assert ProgressColor(Success)[5] == 's';
    assert ProgressColor(Error)[5] == 'e';
  }

  /** What is drawn: the filled width in percent, the gradient, and whether
      the bar pulses. */
  datatype Bar = Bar(width: int, color: string, pulse: bool)

  /** The component with its defaults: an omitted progress counts as 0, an
      omitted status as `pending`, an omitted `animated` as false. */
  function Render(progress: Option<int>, status: Option<Status>, animated: Option<bool>): (bar: Bar)
    ensures 0 <= bar.width <= 100
    ensures bar.width == Clamp(progress.GetOr(0))
    ensures progress.Some? && 0 <= progress.value <= 100 ==> bar.width == progress.value
    ensures progress.None? ==> bar.width == 0
    ensures status.None? ==> bar.color == Gray
    ensures status.Some? ==> bar.color == ProgressColor(status.value)
    ensures bar.pulse <==> animated == Some(true)
  {
    Bar(Clamp(progress.GetOr(0)), ProgressColor(status.GetOr(Pending)), animated.GetOr(false))
  }
}
