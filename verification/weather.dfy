/** The weather station of 5/1/index.js: a subject whose observer list may hold
    the same display more than once. Each `update(data)` call is modelled as a
    notice appended to the result; what a display prints is left out. */
module Weather {
  import opened Seqs

  /** An attached entry: a phone or desktop display, or the logger. */
  class Display {
    const tag: string

    constructor (tag: string)
      ensures this.tag == tag
    {
      this.tag := tag;
    }
  }

  /** The `{ temperature, humidity }` object passed to `notify`. */
  datatype Reading = Reading(temperature: real, humidity: real)

  /** One `update(data)` call. */
  datatype Notice = Notice(to: Display, data: Reading)

  /** What `notify(data)` does: one update per entry, in list order. */
  function Notices(observers: seq<Display>, data: Reading): (r: seq<Notice>)
    ensures |r| == |observers|
    decreases |observers|
  {
    if |observers| == 0 then [] else [Notice(observers[0], data)] + Notices(observers[1..], data)
  }

  /** The k-th notice goes to the k-th entry, with the data as given. */
  lemma {:induction false} NoticesAt(observers: seq<Display>, data: Reading, k: nat)
    requires k < |observers|
    ensures Notices(observers, data)[k] == Notice(observers[k], data)
    decreases |observers|
  {
    if k > 0 {
      NoticesAt(observers[1..], data, k - 1);
    }
  }

  /** A display attached twice is notified twice. */
  lemma {:induction false} NoticesCount(observers: seq<Display>, data: Reading, d: Display)
    ensures multiset(Notices(observers, data))[Notice(d, data)] == multiset(observers)[d]
    decreases |observers|
  {
    if |observers| > 0 {
      NoticesCount(observers[1..], data, d);
      assert observers == [observers[0]] + observers[1..];
    }
  }

  class WeatherStation {
    var observers: seq<Display>
    var temperature: real
    var humidity: real

    constructor ()
      ensures observers == [] && temperature == 0.0 && humidity == 0.0
    {
      observers := [];
      temperature := 0.0;
      humidity := 0.0;
    }

    /** `attach(observer)`: always appended, even when already present. */
    method Attach(o: Display)
      modifies this
      ensures observers == old(observers) + [o]
      ensures temperature == old(temperature) && humidity == old(humidity)
    {
      observers := observers + [o];
    }

    /** `detach(observer)`: only the first occurrence goes. */
    method Detach(o: Display)
      modifies this
      ensures observers == RemoveFirst(old(observers), o)
      ensures temperature == old(temperature) && humidity == old(humidity)
    {
      var index := IndexOf(observers, o);
      if index.Some? {
        observers := observers[..index.value] + observers[index.value + 1..];
      }
    }

    /** `notify(data)`. */
    method Notify(data: Reading) returns (out: seq<Notice>)
      ensures out == Notices(observers, data)
      ensures forall k :: 0 <= k < |observers| ==> out[k] == Notice(observers[k], data)
    {
      out := [];
      var i := 0;
      while i < |observers|
        invariant 0 <= i <= |observers|
        invariant out + Notices(observers[i..], data) == Notices(observers, data)
      {
        assert observers[i..][1..] == observers[i + 1..];
        out := out + [Notice(observers[i], data)];
        i := i + 1;
      }
      forall k | 0 <= k < |observers|
        ensures out[k] == Notice(observers[k], data)
      {
        NoticesAt(observers, data, k);
      }
    }

    /** `setMeasurements(temperature, humidity)`: stores both values, then
        notifies every entry with exactly those values. */
    method SetMeasurements(t: real, h: real) returns (out: seq<Notice>)
      modifies this
      ensures temperature == t && humidity == h && observers == old(observers)
      ensures out == Notices(observers, Reading(t, h))
    {
      temperature := t;
      humidity := h;
      out := Notify(Reading(temperature, humidity));
    }
  }
}
