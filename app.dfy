/** The widget's global state (bars.c): the bar array, the number of bars
    loaded and the scroll offset, with the code that changes them in
    place — the scan loop of `LoadBarsFromJSON`, the drawing loop of
    `DrawBarChart` and the scroll handlers of the window procedure. */
module App {
  import opened CInt
  import opened CString
  import opened Records
  import opened Layout
  import opened Scroll

  /** Taking one more element of a sequence appends that element. */
  lemma TakeOneMore<T>(s: seq<T>, k: nat)
    requires k < |s|
    ensures s[..k + 1] == s[..k] + [s[k]]
  {
  }

  /** The body of the scan loop up to `bars[barCount++] = newBar`: the
      record whose `{` is at `b`, which is the `k`-th start of the walk. */
  method ReadRecord(text: string, b: nat, ghost room: nat, ghost k: nat) returns (bar: Bar)
    requires Load(text, room).Ok? && k < |RecordStarts(text, 0, room)| && RecordStarts(text, 0, room)[k] == b
    ensures bar == Load(text, room).value[k]
  {
    LoadAt(text, room, k);
    bar := ParseRecord(text, b).value;
  }

  class Dashboard {
    /** `bars[MAX_BARS]`. */
    const bars: array<Bar>
    /** `barCount`. */
    var barCount: int
    /** `scrollOffset`. */
    var scrollOffset: int

    ghost predicate Valid()
      reads this
    {
      bars.Length == MaxBars && 0 <= barCount <= MaxBars && InInt32(scrollOffset)
    }

    /** The bars loaded so far. */
    ghost function Contents(): seq<Bar>
      reads this, bars
      requires Valid()
    {
      bars[..barCount]
    }

    /** The state at program start: no bars, every slot zeroed, offset 0. */
    constructor ()
      ensures Valid() && Contents() == [] && scrollOffset == 0
      ensures forall k :: 0 <= k < bars.Length ==> bars[k] == DefaultBar
    {
      bars := new Bar[MaxBars](_ => DefaultBar);
      barCount := 0;
      scrollOffset := 0;
    }

    /** `LoadBarsFromJSON` once the file is open: the characters `fread`
        delivered become the NUL-terminated buffer, the scan loop appends
        its bars, and the "No bars loaded" error is reported exactly when
        no bar is loaded afterwards. The caller must not feed text on which
        the loop reaches undefined behaviour. */
    method LoadBarsFromText(delivered: string) returns (noBarsReported: bool)
      requires Valid()
      requires Load(BufferText(delivered), MaxBars - barCount).Ok?
      modifies this`barCount, bars
      ensures Valid()
      ensures Contents() == old(Contents()) + Load(BufferText(delivered), MaxBars - old(barCount)).value
      ensures noBarsReported <==> barCount == 0
    {
      var text := BufferText(delivered);
      ScanRecords(text);
      noBarsReported := barCount == 0;
    }

    /** The scan loop of `LoadBarsFromJSON` over the buffer: one bar per
        `{` visited is appended after the bars already loaded, never past
        the array's capacity. */
    method ScanRecords(text: string)
      requires Valid()
      requires Load(text, MaxBars - barCount).Ok?
      modifies this`barCount, bars
      ensures Valid()
      ensures Contents() == old(Contents()) + Load(text, MaxBars - old(barCount)).value
    {
      ghost var room0: nat := MaxBars - barCount;
      ghost var k: nat := 0;
      var start: nat := 0;
      while start < |text| && barCount < MaxBars
        invariant Valid() && start <= |text|
        invariant barCount == old(barCount) + k && k <= |RecordStarts(text, 0, room0)|
        invariant RecordStarts(text, 0, room0)[k..] == RecordStarts(text, start, MaxBars - barCount)
        invariant Contents() == old(Contents()) + Load(text, room0).value[..k]
        decreases |text| - start
      {
        // strstr with the one-character needles "{" and "}" (see FindSingle)
        var open := FindChar(text, start, '{');
        if open.None? {
          RecordStartsEnd(text, start, MaxBars - barCount);
          break;
        }
        var close := TakeRecord(text, start, open.value, room0, k);
        TakeOneMore(Load(text, room0).value, k);
        k := k + 1;
        if close.None? {
          break;
        }
        start := close.value + 1;
      }
      RecordStartsEnded(text, start, MaxBars - barCount);
      assert Load(text, room0).value[..k] == Load(text, room0).value;
    }

    /** One pass of the scan loop from the `{` at `b`, the `k`-th start of
        the walk: the record's bar is stored in the next slot and the `}`
        after `b` is looked up. */
    method TakeRecord(text: string, start: nat, b: nat, ghost room0: nat, ghost k: nat) returns (close: Option<nat>)
      requires Valid() && barCount < MaxBars && Load(text, room0).Ok?
      requires start < |text| && FindChar(text, start, '{') == Some(b)
      requires k <= |RecordStarts(text, 0, room0)|
      requires RecordStarts(text, 0, room0)[k..] == RecordStarts(text, start, MaxBars - barCount)
      modifies this`barCount, bars
      ensures Valid() && barCount == old(barCount) + 1 && k < |Load(text, room0).value|
      ensures Contents() == old(Contents()) + [Load(text, room0).value[k]]
      ensures bars[barCount..] == old(bars[..])[barCount..]
      ensures close.None? ==> |RecordStarts(text, 0, room0)| == k + 1
      ensures close.Some? ==>
                start < close.value + 1 <= |text| &&
                RecordStarts(text, 0, room0)[k + 1..] == RecordStarts(text, close.value + 1, MaxBars - barCount)
    {
      ScanStep(text, start, MaxBars - barCount, b, RecordStarts(text, 0, room0), k);
      var bar := ReadRecord(text, b, room0, k);
      Append(bar);
      close := FindChar(text, b, '}');
    }

    /** `bars[barCount++] = newBar`: the bar goes in the first free slot and
        no other slot changes. */
    method Append(bar: Bar)
      requires Valid() && barCount < MaxBars
      modifies this`barCount, bars
      ensures Valid() && barCount == old(barCount) + 1
      ensures Contents() == old(Contents()) + [bar]
      ensures bars[barCount..] == old(bars[..])[barCount..]
    {
      bars[barCount] := bar;
      barCount := barCount + 1;
    }

    /** `DrawBarChart`: with bars loaded, a negative offset is first reset
        to 0; then each visible bar is drawn. The result lists what is
        drawn, in order. */
    method DrawBarChart(clientWidth: int, clientHeight: int) returns (drawn: seq<BarDrawing>)
      requires Valid()
      requires barCount > 0 ==> InInt32(TrackWidth(clientWidth))
      requires DrawDefined(Contents(), Max(scrollOffset, 0), TrackWidth(clientWidth), clientHeight)
      modifies this`scrollOffset
      ensures Valid()
      ensures scrollOffset == if barCount > 0 then Max(old(scrollOffset), 0) else old(scrollOffset)
      ensures drawn == DrawFrom(Contents(), 0, scrollOffset, TrackWidth(clientWidth), clientHeight)
    {
      drawn := [];
      if barCount <= 0 {
        return;
      }
      var maxWidth := clientWidth - 2 * Margin;
      if scrollOffset < 0 {
        scrollOffset := 0;
      }
      drawn := DrawVisible(maxWidth, clientHeight);
    }

    /** The loop of `DrawBarChart` over the loaded bars, once the offset is
        not negative: each bar whose offset lies within the client area is
        drawn as its track, its filled part and its title. */
    method DrawVisible(maxWidth: int, clientHeight: int) returns (drawn: seq<BarDrawing>)
      requires Valid() && DrawDefined(Contents(), scrollOffset, maxWidth, clientHeight)
      ensures drawn == DrawFrom(Contents(), 0, scrollOffset, maxWidth, clientHeight)
    {
      ghost var shown := Contents();
      drawn := [];
      for i := 0 to barCount
        invariant drawn + DrawFrom(shown, i, scrollOffset, maxWidth, clientHeight) ==
                  DrawFrom(shown, 0, scrollOffset, maxWidth, clientHeight)
      {
        var yOffset := BarSpacing + i * (BarHeight + BarSpacing) - scrollOffset;
        assert yOffset == YOffset(i, scrollOffset);
        DrawFromStep(shown, i, scrollOffset, maxWidth, clientHeight);
        if yOffset < 0 || yOffset > clientHeight {
          continue;
        }
        var bar := bars[i];
        assert bar == shown[i];
        var barWidth := Div(bar.current * maxWidth, bar.total);
        assert barWidth == FilledWidth(bar, maxWidth);
        var unfilledWidth := maxWidth - barWidth;
        var d := BarDrawing(i,
                            Rect(Margin, yOffset, Margin + maxWidth, yOffset + BarHeight),
                            Rect(Margin, yOffset, Margin + barWidth, yOffset + BarHeight),
                            bar.title, Margin, yOffset - TitleRise);
        assert d == DrawBar(bar, i, yOffset, maxWidth);
        drawn := drawn + [d];
      }
    }

    /** `WM_SIZE`: the offset is bounded by `offsetMax` for the new window
        height. */
    method OnSize(windowHeight: int)
      requires Valid() && InInt32(ContentLimit(barCount, windowHeight))
      modifies this`scrollOffset
      ensures Valid()
      ensures scrollOffset == OffsetMax(barCount, windowHeight, old(scrollOffset))
    {
      scrollOffset := OffsetMax(barCount, windowHeight, scrollOffset);
    }

    /** `WM_VSCROLL`: the request's step, then `max(·, 0)`, then
        `offsetMax`. `thumb` is `HIWORD(wParam)`. */
    method OnVScroll(request: ScrollRequest, thumb: int, windowHeight: int)
      requires Valid() && 0 <= thumb <= 0xFFFF
      requires InInt32(Stepped(request, thumb, scrollOffset)) && InInt32(ContentLimit(barCount, windowHeight))
      modifies this`scrollOffset
      ensures Valid()
      ensures scrollOffset == VScrolled(barCount, windowHeight, request, thumb, old(scrollOffset))
    {
      match request {
        case LineUp =>
          scrollOffset := scrollOffset - (BarHeight + BarSpacing);
        case LineDown =>
          scrollOffset := scrollOffset + (BarHeight + BarSpacing);
        case ThumbPosition =>
          scrollOffset := thumb;
        case ThumbTrack =>
          scrollOffset := thumb;
        case OtherRequest =>
      }
      scrollOffset := Max(scrollOffset, 0);
      scrollOffset := OffsetMax(barCount, windowHeight, scrollOffset);
    }

    /** `WM_MOUSEWHEEL`: whole notches of the signed 16-bit `delta`, one
        row each, then `offsetMax`. */
    method OnMouseWheel(delta: int, windowHeight: int)
      requires Valid() && -0x8000 <= delta <= 0x7FFF
      requires InInt32(scrollOffset - Div(delta, WheelDelta) * RowHeight)
      requires InInt32(ContentLimit(barCount, windowHeight))
      modifies this`scrollOffset
      ensures Valid()
      ensures scrollOffset == WheelScrolled(barCount, windowHeight, delta, old(scrollOffset))
    {
      scrollOffset := scrollOffset - Div(delta, WheelDelta) * (BarHeight + BarSpacing);
      scrollOffset := OffsetMax(barCount, windowHeight, scrollOffset);
    }
  }
}
