/** How long each audio device played: counters kept by start, stop and device events, against
    the time that really passed. */
module BatteryAudio {
  const SPEAKER := 0
  const OTHER_AUDIO_DEVICE := 1
  const SPEAKER_AND_OTHER := 2
  const NUM_AUDIO_DEVICES := 3

  datatype Event = Start | Stop | Device(d: nat) | Pull

  type History = seq<(int, Event)>

  // ---------------------------------------------------------------- what really happened

  /** How many streams play, and on which device. */
  datatype World = World(playing: nat, device: nat)

  function WorldAfter(h: History): World {
    if h == [] then World(0, SPEAKER)
    else
      var w := WorldAfter(h[..|h| - 1]);
      match h[|h| - 1].1
      case Start => w.(playing := w.playing + 1)
      case Stop => w.(playing := if w.playing > 0 then w.playing - 1 else 0)
      case Device(d) => w.(device := d)
      case Pull => w
  }

  function LastTime(h: History): int {
    if h == [] then 0 else h[|h| - 1].0
  }

  /** Events come at positive, growing times and name existing devices. */
  ghost predicate Proper(h: History) {
    h == [] ||
    (Proper(h[..|h| - 1]) && h[|h| - 1].0 > LastTime(h[..|h| - 1]) &&
     (h[|h| - 1].1.Device? ==> h[|h| - 1].1.d < NUM_AUDIO_DEVICES))
  }

  predicate On(h: History, d: nat) {
    WorldAfter(h).playing > 0 && WorldAfter(h).device == d
  }

  /** Time up to now that d played since the last pull. */
  function OnTime(h: History, now: int, d: nat): int {
    if h == [] then 0
    else
      (if On(h, d) then now - LastTime(h) else 0) +
      (if h[|h| - 1].1 == Pull then 0 else OnTime(h[..|h| - 1], LastTime(h), d))
  }

  /** Time up to now that anything played since the last pull. */
  function PlayTime(h: History, now: int): int {
    if h == [] then 0
    else
      (if WorldAfter(h).playing > 0 then now - LastTime(h) else 0) +
      (if h[|h| - 1].1 == Pull then 0 else PlayTime(h[..|h| - 1], LastTime(h)))
  }

  /** The times of the devices sum to the total playing time. */
  lemma {:induction false} DevicesSumToPlayTime(h: History, now: int)
    requires Proper(h)
    ensures WorldAfter(h).device < NUM_AUDIO_DEVICES
    ensures OnTime(h, now, 0) + OnTime(h, now, 1) + OnTime(h, now, 2) == PlayTime(h, now)
  {
    if h != [] {
      DevicesSumToPlayTime(h[..|h| - 1], LastTime(h));
    }
  }

  // ---------------------------------------------------------------- tick by tick

  /** The events up to time t. */
  function Before(h: History, t: int): History {
    if h == [] || LastTime(h) <= t then h else Before(h[..|h| - 1], t)
  }

  /** How many ticks from the first time up to the second found d playing. */
  function Ticks(h: History, from: int, end: int, d: nat): int
    decreases end - from
  {
    if end <= from then 0
    else Ticks(h, from, end - 1, d) + if On(Before(h, end - 1), d) then 1 else 0
  }

  /** When the counting began. */
  function LastPull(h: History): int {
    if h == [] then 0 else if h[|h| - 1].1 == Pull then LastTime(h) else LastPull(h[..|h| - 1])
  }

  lemma {:induction false} TicksSplit(h: History, from: int, mid: int, end: int, d: nat)
    requires from <= mid <= end
    ensures Ticks(h, from, end, d) == Ticks(h, from, mid, d) + Ticks(h, mid, end, d)
    decreases end - mid
  {
    if mid < end {
      TicksSplit(h, from, mid, end - 1, d);
    }
  }

  lemma {:induction false} TicksAfter(h: History, from: int, end: int, d: nat)
    requires LastTime(h) <= from <= end
    ensures Ticks(h, from, end, d) == (if On(h, d) then end - from else 0)
    decreases end - from
  {
    if from < end {
      TicksAfter(h, from, end - 1, d);
    }
  }

  lemma {:induction false} TicksIgnoreLater(h: History, from: int, end: int, d: nat)
    requires h != [] && end <= LastTime(h)
    ensures Ticks(h, from, end, d) == Ticks(h[..|h| - 1], from, end, d)
    decreases end - from
  {
    if from < end {
      TicksIgnoreLater(h, from, end - 1, d);
    }
  }

  lemma {:induction false} PullIsPast(h: History)
    requires Proper(h)
    ensures 0 <= LastPull(h) <= LastTime(h)
  {
    if h != [] {
      PullIsPast(h[..|h| - 1]);
    }
  }

  /** A device's time is the number of ticks since the last pull at which something played on it. */
  lemma {:induction false} OnTimeIsTicks(h: History, now: int, d: nat)
    requires Proper(h) && LastTime(h) <= now
    ensures OnTime(h, now, d) == Ticks(h, LastPull(h), now, d)
    decreases |h|
  {
    PullIsPast(h);
    if h == [] {
      TicksAfter(h, 0, now, d);
    } else {
      TicksSplit(h, LastPull(h), LastTime(h), now, d);
      TicksAfter(h, LastTime(h), now, d);
      if h[|h| - 1].1 != Pull {
        TicksIgnoreLater(h, LastPull(h), LastTime(h), d);
        OnTimeIsTicks(h[..|h| - 1], LastTime(h), d);
      }
    }
  }

  /** At first nothing plays, and the speaker is on. */
  lemma WorldAtFirst()
    ensures WorldAfter([]) == World(0, 0)
  {
  }

  // ---------------------------------------------------------------- time reported twice

  /** When the device that plays now began to play. */
  function IntervalStart(h: History): int {
    if h == [] then 0
    else
      var front := h[..|h| - 1];
      match h[|h| - 1].1
      case Start => if WorldAfter(front).playing == 0 then LastTime(h) else IntervalStart(front)
      case Device(d) => if WorldAfter(front).device != d then LastTime(h) else IntervalStart(front)
      case _ => IntervalStart(front)
  }

  /** Time that the next pull counts once more: a pull does not move the start of an interval
      that is still open. */
  function Over(h: History, d: nat): int {
    if h == [] then 0
    else if h[|h| - 1].1 == Pull then (if On(h, d) then LastTime(h) - IntervalStart(h) else 0)
    else Over(h[..|h| - 1], d)
  }

  /** The last pull, if there was one, came while nothing played. */
  predicate LastPullQuiet(h: History) {
    h == [] ||
    (if h[|h| - 1].1 == Pull then WorldAfter(h).playing == 0 else LastPullQuiet(h[..|h| - 1]))
  }

  lemma {:induction false} IntervalIsOpen(h: History)
    requires Proper(h)
    ensures 0 <= IntervalStart(h) <= LastTime(h)
    ensures WorldAfter(h).playing > 0 ==> IntervalStart(h) > 0
    ensures WorldAfter(h).device < NUM_AUDIO_DEVICES
    ensures h != [] && h[|h| - 1].1 == Pull ==> IntervalStart(h) < LastTime(h)
  {
    if h != [] {
      IntervalIsOpen(h[..|h| - 1]);
    }
  }

  /** Nothing is counted twice exactly when the last pull came while nothing played. */
  lemma {:induction false} QuietPullsAreExact(h: History)
    requires Proper(h)
    ensures Over(h, 0) >= 0 && Over(h, 1) >= 0 && Over(h, 2) >= 0
    ensures Over(h, 0) == Over(h, 1) == Over(h, 2) == 0 <==> LastPullQuiet(h)
  {
    if h != [] {
      IntervalIsOpen(h);
      if h[|h| - 1].1 != Pull {
        QuietPullsAreExact(h[..|h| - 1]);
      }
    }
  }

  /** How one more event changes the picture. */
  lemma OneMoreEvent(h: History, time: int, e: Event)
    requires Proper(h) && time > LastTime(h) && (e.Device? ==> e.d < NUM_AUDIO_DEVICES)
    ensures var h' := h + [(time, e)];
            && Proper(h') && LastTime(h') == time
            && WorldAfter(h') == (match e
                                  case Start => WorldAfter(h).(playing := WorldAfter(h).playing + 1)
                                  case Stop => WorldAfter(h).(playing := if WorldAfter(h).playing > 0 then WorldAfter(h).playing - 1 else 0)
                                  case Device(d) => WorldAfter(h).(device := d)
                                  case Pull => WorldAfter(h))
            && IntervalStart(h') == (if e == Start && WorldAfter(h).playing == 0 then time
                                     else if e.Device? && WorldAfter(h).device != e.d then time
                                     else IntervalStart(h))
    ensures WorldAfter(h).device < NUM_AUDIO_DEVICES && 0 <= IntervalStart(h) <= LastTime(h)
    ensures WorldAfter(h).playing > 0 ==> IntervalStart(h) > 0
  {
    var h' := h + [(time, e)];
    assert h'[..|h|] == h;
    IntervalIsOpen(h);
  }

  /** How one more event changes one device's times. */
  lemma OneMoreEventFor(h: History, time: int, e: Event, d: nat)
    ensures var h' := h + [(time, e)];
            && OnTime(h', time, d) == (if e == Pull then 0 else OnTime(h, time, d))
            && Over(h', d) == (if e == Pull then (if On(h', d) then time - IntervalStart(h') else 0) else Over(h, d))
    ensures OnTime(h, time, d) == OnTime(h, LastTime(h), d) + (if On(h, d) then time - LastTime(h) else 0)
  {
    assert (h + [(time, e)])[..|h|] == h;
  }

  /** One device's counters agree with a history. */
  ghost predicate Agree(h: History, i: nat, on: int, last: int, total: int) {
    && on == (if WorldAfter(h).device == i then 1 else 0)
    && last == (if On(h, i) then -IntervalStart(h) else 0)
    && total + (if On(h, i) then LastTime(h) - IntervalStart(h) else 0) == OnTime(h, LastTime(h), i) + Over(h, i)
  }

  lemma AgreeAfterDevice(h: History, time: int, d: nat, i: nat, on: int, last: int, total: int)
    requires Proper(h) && time > LastTime(h) && d < NUM_AUDIO_DEVICES && Agree(h, i, on, last, total)
    ensures var on' := if d == i then 1 else 0;
            var change := on != on' && WorldAfter(h).playing > 0;
            Agree(h + [(time, Device(d))], i, on',
                  if !change then last else if on' == 0 then 0 else 0 - time,
                  if change && on' == 0 then total + (last + time) else total)
  {
    OneMoreEvent(h, time, Device(d));
    OneMoreEventFor(h, time, Device(d), i);
  }

  lemma AgreeAfterStart(h: History, time: int, i: nat, on: int, last: int, total: int)
    requires Proper(h) && time > LastTime(h) && Agree(h, i, on, last, total)
    ensures Agree(h + [(time, Start)], i, on, if WorldAfter(h).playing == 0 && on != 0 then last - time else last, total)
  {
    OneMoreEvent(h, time, Start);
    OneMoreEventFor(h, time, Start, i);
  }

  lemma AgreeAfterStop(h: History, time: int, i: nat, on: int, last: int, total: int)
    requires Proper(h) && time > LastTime(h) && Agree(h, i, on, last, total)
    ensures var closes := WorldAfter(h).playing == 1 && on != 0;
            Agree(h + [(time, Stop)], i, on, if closes then 0 else last, if closes then total + (last + time) else total)
  {
    OneMoreEvent(h, time, Stop);
    OneMoreEventFor(h, time, Stop, i);
  }

  lemma AgreeAfterPull(h: History, time: int, i: nat, on: int, last: int, total: int)
    requires Proper(h) && time > LastTime(h) && Agree(h, i, on, last, total)
    ensures Agree(h + [(time, Pull)], i, on, last, 0)
    ensures OnTime(h, time, i) + Over(h, i) == total + if on != 0 && last != 0 then last + time else 0
  {
    OneMoreEvent(h, time, Pull);
    OneMoreEventFor(h, time, Pull, i);
  }

  // ---------------------------------------------------------------- the counters

  class BatteryAudioUsage {
    var refCount: int
    const deviceOn: array<int>
    const lastTime: array<int>
    const totalTime: array<int>
    ghost var history: History

    constructor ()
      ensures Valid() && history == [] && fresh(deviceOn) && fresh(lastTime) && fresh(totalTime)
    {
      refCount := 0;
      deviceOn := new int[NUM_AUDIO_DEVICES](i => if i == SPEAKER then 1 else 0);
      lastTime := new int[NUM_AUDIO_DEVICES](_ => 0);
      totalTime := new int[NUM_AUDIO_DEVICES](_ => 0);
      history := [];
    }

    ghost predicate Shape() {
      && deviceOn.Length == lastTime.Length == totalTime.Length == NUM_AUDIO_DEVICES
      && deviceOn != lastTime && deviceOn != totalTime && lastTime != totalTime
    }

    ghost predicate AllAgree(h: History, from: nat, to: nat)
      requires Shape() && to <= NUM_AUDIO_DEVICES
      reads deviceOn, lastTime, totalTime
    {
      forall i :: from <= i < to ==> Agree(h, i, deviceOn[i], lastTime[i], totalTime[i])
    }

    ghost predicate Valid()
      reads this, deviceOn, lastTime, totalTime
    {
      && Shape() && Proper(history)
      && refCount == WorldAfter(history).playing
      && AllAgree(history, 0, NUM_AUDIO_DEVICES)
    }

    /** The device a notification turns on; it names at least one. */
    static function Chosen(speaker: bool, other: bool): nat {
      if speaker && other then SPEAKER_AND_OTHER else if speaker then SPEAKER else OTHER_AUDIO_DEVICE
    }

    /** One device goes on or off, as the change to device d asks. */
    method Switch(i: nat, on: int, time: int, ghost d: nat)
      requires Shape() && Proper(history) && time > LastTime(history) && refCount == WorldAfter(history).playing
      requires i < NUM_AUDIO_DEVICES && d < NUM_AUDIO_DEVICES && on == if d == i then 1 else 0
      requires Agree(history, i, deviceOn[i], lastTime[i], totalTime[i])
      modifies deviceOn, lastTime, totalTime
      ensures Agree(history + [(time, Device(d))], i, deviceOn[i], lastTime[i], totalTime[i])
      ensures forall j :: 0 <= j < NUM_AUDIO_DEVICES && j != i ==>
                deviceOn[j] == old(deviceOn[j]) && lastTime[j] == old(lastTime[j]) && totalTime[j] == old(totalTime[j])
    {
      AgreeAfterDevice(history, time, d, i, deviceOn[i], lastTime[i], totalTime[i]);
      if deviceOn[i] != on {
        if refCount > 0 {
          if on == 0 {
            lastTime[i] := lastTime[i] + time;
            totalTime[i] := totalTime[i] + lastTime[i];
            lastTime[i] := 0;
          } else {
            lastTime[i] := 0 - time;
          }
        }
        deviceOn[i] := on;
      }
    }

    /** The flags of the device that a notification names. */
    static method Wanted(speaker: bool, other: bool) returns (on: array<int>)
      requires speaker || other
      ensures fresh(on) && on.Length == NUM_AUDIO_DEVICES
      ensures forall j :: 0 <= j < NUM_AUDIO_DEVICES ==> on[j] == if Chosen(speaker, other) == j then 1 else 0
    {
      on := new int[NUM_AUDIO_DEVICES](_ => 0);
      if speaker && other {
        on[SPEAKER_AND_OTHER] := 1;
      } else if speaker {
        on[SPEAKER] := 1;
      } else {
        on[OTHER_AUDIO_DEVICE] := 1;
      }
    }

    /** A change of output devices. */
    method ChangeDevice(speaker: bool, other: bool, time: int)
      requires Valid() && time > LastTime(history) && (speaker || other)
      modifies this`history, deviceOn, lastTime, totalTime
      ensures Valid() && history == old(history) + [(time, Device(Chosen(speaker, other)))]
    {
      ghost var d := Chosen(speaker, other);
      ghost var next := history + [(time, Device(d))];
      OneMoreEvent(history, time, Device(d));
      var on := Wanted(speaker, other);
      for i := 0 to NUM_AUDIO_DEVICES
        modifies deviceOn, lastTime, totalTime
        invariant AllAgree(next, 0, i) && AllAgree(history, i, NUM_AUDIO_DEVICES)
      {
        Switch(i, on[i], time, d);
      }
      history := next;
    }

    /** A stream starts. */
    method StartStream(time: int)
      requires Valid() && time > LastTime(history)
      modifies this`history, this`refCount, lastTime
      ensures Valid() && history == old(history) + [(time, Start)]
    {
      ghost var next := history + [(time, Start)];
      OneMoreEvent(history, time, Start);
      forall i | 0 <= i < NUM_AUDIO_DEVICES && refCount > 0 ensures Agree(next, i, deviceOn[i], lastTime[i], totalTime[i]) {
        AgreeAfterStart(history, time, i, deviceOn[i], lastTime[i], totalTime[i]);
      }
      if refCount == 0 {
        for i := 0 to NUM_AUDIO_DEVICES
          modifies lastTime
          invariant AllAgree(next, 0, i) && AllAgree(history, i, NUM_AUDIO_DEVICES)
        {
          AgreeAfterStart(history, time, i, deviceOn[i], lastTime[i], totalTime[i]);
          if deviceOn[i] != 0 {
            lastTime[i] := lastTime[i] - time;
          }
        }
      }
      refCount := refCount + 1;
      history := next;
    }

    /** A stream stops; a stop without a stream is only logged. */
    method StopStream(time: int)
      requires Valid() && time > LastTime(history)
      modifies this`history, this`refCount, lastTime, totalTime
      ensures Valid() && history == old(history) + [(time, Stop)]
    {
      ghost var next := history + [(time, Stop)];
      OneMoreEvent(history, time, Stop);
      forall i | 0 <= i < NUM_AUDIO_DEVICES && refCount != 1 ensures Agree(next, i, deviceOn[i], lastTime[i], totalTime[i]) {
        AgreeAfterStop(history, time, i, deviceOn[i], lastTime[i], totalTime[i]);
      }
      if refCount <= 0 {
        history := next;
        return;
      }
      if refCount == 1 {
        for i := 0 to NUM_AUDIO_DEVICES
          modifies lastTime, totalTime
          invariant AllAgree(next, 0, i) && AllAgree(history, i, NUM_AUDIO_DEVICES)
        {
          AgreeAfterStop(history, time, i, deviceOn[i], lastTime[i], totalTime[i]);
          if deviceOn[i] != 0 {
            lastTime[i] := lastTime[i] + time;
            totalTime[i] := totalTime[i] + lastTime[i];
            lastTime[i] := 0;
          }
        }
      }
      refCount := refCount - 1;
      history := next;
    }

    /** addBatteryData, as far as it concerns audio devices: a device notification hides the
        other flags, and a start hides a stop. */
    method AddBatteryData(speaker: bool, other: bool, start: bool, stop: bool, time: int)
      requires Valid() && time > LastTime(history)
      modifies this`history, this`refCount, deviceOn, lastTime, totalTime
      ensures Valid()
      ensures speaker && !other ==> history == old(history) + [(time, Device(0))]
      ensures !speaker && other ==> history == old(history) + [(time, Device(1))]
      ensures speaker && other ==> history == old(history) + [(time, Device(2))]
      ensures !speaker && !other && start ==> history == old(history) + [(time, Start)]
      ensures !speaker && !other && !start && stop ==> history == old(history) + [(time, Stop)]
      ensures !speaker && !other && !start && !stop ==> history == old(history)
    {
      if speaker || other {
        ChangeDevice(speaker, other, time);
      } else if start {
        StartStream(time);
      } else if stop {
        StopStream(time);
      }
    }

    /** pullBatteryData, the device part: each device's real playing time since the last pull,
        and once more what the last pull had reported of an interval that was open then. */
    method PullBatteryData(time: int) returns (reply: seq<int>)
      requires Valid() && time > LastTime(history)
      modifies this`history, totalTime
      ensures Valid() && history == old(history) + [(time, Pull)]
      ensures |reply| == NUM_AUDIO_DEVICES
      ensures forall d :: 0 <= d < NUM_AUDIO_DEVICES ==>
                reply[d] == OnTime(old(history), time, d) + Over(old(history), d)
    {
      ghost var next := history + [(time, Pull)];
      OneMoreEvent(history, time, Pull);
      reply := [];
      for i := 0 to NUM_AUDIO_DEVICES
        modifies totalTime
        invariant |reply| == i
        invariant forall j :: 0 <= j < i ==> reply[j] == OnTime(history, time, j) + Over(history, j)
        invariant AllAgree(next, 0, i) && AllAgree(history, i, NUM_AUDIO_DEVICES)
      {
        AgreeAfterPull(history, time, i, deviceOn[i], lastTime[i], totalTime[i]);
        var total := totalTime[i];
        if deviceOn[i] != 0 && lastTime[i] != 0 {
          total := total + (lastTime[i] + time);
        }
        reply := reply + [total];
        totalTime[i] := 0;
      }
      history := next;
    }
  }

  /** A pull reports every device's real playing time, and together the total playing time,
      exactly when the pull before it came while nothing played. */
  lemma PullIsExact(h: History, now: int, reply: seq<int>)
    requires Proper(h) && |reply| == NUM_AUDIO_DEVICES
    requires forall d :: 0 <= d < NUM_AUDIO_DEVICES ==> reply[d] == OnTime(h, now, d) + Over(h, d)
    ensures (forall d :: 0 <= d < NUM_AUDIO_DEVICES ==> reply[d] == OnTime(h, now, d)) <==> LastPullQuiet(h)
    ensures reply[0] + reply[1] + reply[2] == PlayTime(h, now) <==> LastPullQuiet(h)
  {
    QuietPullsAreExact(h);
    DevicesSumToPlayTime(h, now);
  }

  /** A pull one tick after a start is followed by a pull that reports this tick again. */
  lemma OpenPullCountsTwice()
    ensures var h := [(1, Start), (2, Pull)];
            && Proper(h) && !LastPullQuiet(h)
            && Over(h, SPEAKER) == 1
            && forall now :: now > 2 ==> OnTime(h, now, SPEAKER) == now - 2
  {
    var start: History, h: History := [(1, Start)], [(1, Start), (2, Pull)];
    assert start[..0] == [] && h[..1] == start;
    assert WorldAfter(start) == World(1, SPEAKER) && IntervalStart(start) == 1;
  }
}
