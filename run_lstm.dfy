/**
 * The sample buffer of `Run_LSTM.py`: a list that grows to
 * `max_buffer_size` samples and then becomes a ring overwritten at a
 * rotating pointer, the oldest-first view handed to the predictor, and the
 * trimmed store of daily predictions.
 */
module RunLstm {
  import opened Vectors

  /** `max_buffer_size`: one day of one-minute samples. */
  const MaxBufferSize: nat := 1440

  /** `seq_length`: the model's input length. */
  const SeqLength: nat := 24

  /** A prediction runs on every 30th sample. */
  const PredictEvery: nat := 30

  /** `seq_length + 30`: the samples a prediction reads, and the fewest it runs with. */
  const Window: nat := SeqLength + PredictEvery

  /** The store keeps one day of predictions. */
  const StoreSize: nat := 1440

  /** The last `n` items of `xs`, all of them when there are fewer: Python's `xs[-n:]` for `n > 0`. */
  function Last<T>(xs: seq<T>, n: nat): (r: seq<T>)
    ensures |r| == if |xs| <= n then |xs| else n
    ensures forall i :: 0 <= i < |r| ==> r[i] == xs[|xs| - |r| + i]
  {
    if |xs| <= n then xs else xs[|xs| - n..]
  }

  /** The ends of a longer suffix are the shorter suffix. */
  lemma LastOfLast<T>(xs: seq<T>, m: nat, n: nat)
    requires n <= m
    ensures Last(Last(xs, m), n) == Last(xs, n)
  {
  }

  // ---------------------------------------------------------------------
  // The buffer as a value

  /** `data_buffer` and `buffer_pointer`. */
  datatype Ring<T> = Ring(data: seq<T>, pointer: nat)

  /** The shape `on_message` keeps: at most a day of samples, `buffer_pointer` a slot index. */
  predicate Shaped<T>(r: Ring<T>)
  {
    |r.data| <= MaxBufferSize && r.pointer < MaxBufferSize
  }

  /** One sample in: append while there is room, otherwise overwrite the slot at `buffer_pointer` and advance it. */
  function Insert<T>(r: Ring<T>, v: T): (r': Ring<T>)
    requires Shaped(r)
    ensures Shaped(r')
    ensures |r'.data| == if |r.data| < MaxBufferSize then |r.data| + 1 else MaxBufferSize
  {
    if |r.data| < MaxBufferSize then Ring(r.data + [v], r.pointer)
    else Ring(r.data[r.pointer := v], (r.pointer + 1) % MaxBufferSize)
  }

  /** `data_buffer[buffer_pointer:] + data_buffer[:buffer_pointer]` when full, the buffer itself before. */
  function Ordered<T>(r: Ring<T>): (o: seq<T>)
    requires Shaped(r)
    ensures |o| == |r.data|
  {
    if |r.data| == MaxBufferSize then r.data[r.pointer..] + r.data[..r.pointer] else r.data
  }

  /** The rotation holds the same samples, and its first one is the slot at `buffer_pointer`. */
  lemma OrderedIsRotation<T>(r: Ring<T>)
    requires Shaped(r) && |r.data| == MaxBufferSize
    ensures multiset(Ordered(r)) == multiset(r.data)
    ensures Ordered(r)[0] == r.data[r.pointer]
    ensures forall i :: 0 <= i < MaxBufferSize ==> Ordered(r)[i] == r.data[(r.pointer + i) % MaxBufferSize]
  {
    var d := r.data;
    var p := r.pointer;
    assert d == d[..p] + d[p..];
  }

  /**
   * The buffer tracks the samples received so far: before it is full it is
   * all of them with `buffer_pointer` at 0; once full, its oldest-first view is
   * the last day of them.
   */
  ghost predicate Tracks<T>(r: Ring<T>, history: seq<T>)
  {
    && Shaped(r)
    && (|r.data| < MaxBufferSize ==> r.pointer == 0 && r.data == history)
    && (|r.data| == MaxBufferSize ==> |history| >= MaxBufferSize && Ordered(r) == Last(history, MaxBufferSize))
  }

  /** What tracking gives: the oldest-first view is always the last day of samples received. */
  lemma TracksOrdered<T>(r: Ring<T>, history: seq<T>)
    requires Tracks(r, history)
    ensures Ordered(r) == Last(history, MaxBufferSize)
    ensures |r.data| == |Last(history, MaxBufferSize)|
  {
  }

  /** Overwriting the oldest slot of a full ring drops the oldest sample of its view and adds the new one last. */
  lemma OverwriteOrdered<T>(r: Ring<T>, v: T)
    requires Shaped(r) && |r.data| == MaxBufferSize
    ensures Ordered(Insert(r, v)) == Ordered(r)[1..] + [v]
  {
    var d, p := r.data, r.pointer;
    if p + 1 < MaxBufferSize {
      assert Insert(r, v) == Ring(d[p := v], p + 1);
      RotateOverwrite(d, p, v);
    } else {
      assert Insert(r, v) == Ring(d[p := v], 0);
      RotateOverwriteLast(d, p, v);
    }
  }

  /** The rotation step for a pointer inside the ring. */
  lemma RotateOverwrite<T>(d: seq<T>, p: nat, v: T)
    requires p + 1 < |d|
    ensures var d' := d[p := v];
      d'[p + 1..] + d'[..p + 1] == (d[p..] + d[..p])[1..] + [v]
  {
    var d' := d[p := v];
    assert d'[p + 1..] == d[p + 1..];
    assert d'[..p + 1] == d[..p] + [v];
    assert (d[p..] + d[..p])[1..] == d[p + 1..] + d[..p];
  }

  /** The rotation step for a pointer at the last slot, which wraps to 0. */
  lemma RotateOverwriteLast<T>(d: seq<T>, p: nat, v: T)
    requires p + 1 == |d|
    ensures var d' := d[p := v];
      d'[0..] + d'[..0] == (d[p..] + d[..p])[1..] + [v]
  {
    var d' := d[p := v];
    assert d'[0..] + d'[..0] == d[..p] + [v];
    assert (d[p..] + d[..p])[1..] == d[..p];
  }

  /** Every insert keeps the buffer tracking the samples received. */
  lemma InsertTracks<T>(r: Ring<T>, history: seq<T>, v: T)
    requires Tracks(r, history)
    ensures Tracks(Insert(r, v), history + [v])
  {
    var h' := history + [v];
    if |r.data| == MaxBufferSize {
      OverwriteOrdered(r, v);
      assert Last(h', MaxBufferSize) == Last(history, MaxBufferSize)[1..] + [v];
    } else if |r.data| + 1 == MaxBufferSize {
      assert Insert(r, v).data == h';
      assert Ordered(Insert(r, v)) == h';
    }
  }

  /** Whether this message runs a prediction: enough samples, and a multiple of 30. */
  predicate ShouldPredict(length: int)
  {
    length >= Window && length % PredictEvery == 0
  }

  /** Once the buffer is full every message runs a prediction, since a day is a multiple of 30 samples. */
  lemma FullAlwaysPredicts(length: int)
    requires length == MaxBufferSize
    ensures ShouldPredict(length)
  {
  }

  /** Before the buffer is full a prediction runs on every 30th sample from the 60th on. */
  lemma PredictsBeforeFull(length: int)
    requires 0 <= length < MaxBufferSize
    ensures ShouldPredict(length) <==> length >= 60 && length % 30 == 0
  {
  }

  /** The window a prediction reads is the last `Window` samples received. */
  lemma RecentWindow<T>(r: Ring<T>, history: seq<T>)
    requires Tracks(r, history)
    ensures Last(Ordered(r), Window) == Last(history, Window)
  {
    LastOfLast(history, MaxBufferSize, Window);
  }

  // ---------------------------------------------------------------------
  // The buffer as the module's mutable state

  /** The module-level `data_buffer` and `buffer_pointer`, with the samples received so far. */
  class SampleBuffer<T> {
    var data: seq<T>
    var pointer: nat
    ghost var history: seq<T>

    ghost predicate Valid()
      reads this
    {
      Tracks(Ring(data, pointer), history)
    }

    /** An empty buffer with `buffer_pointer` at 0. */
    constructor ()
      ensures Valid()
      ensures data == [] && pointer == 0 && history == []
    {
      data := [];
      pointer := 0;
      history := [];
    }

    /**
     * `on_message` after decoding: insert the sample, and when a prediction
     * is due return the window handed to `predict_on_buffer`, the last
     * `seq_length + 30` samples of the oldest-first view.
     */
    method OnMessage(v: T) returns (recent: Option<seq<T>>)
      requires Valid()
      modifies this
      ensures Valid()
      ensures history == old(history) + [v]
      ensures Ring(data, pointer) == Insert(old(Ring(data, pointer)), v)
      ensures recent.Some? <==> ShouldPredict(|data|)
      ensures recent.Some? ==> recent.value == Last(history, Window)
    {
      ghost var r0 := Ring(data, pointer);
      ghost var r1 := Insert(r0, v);
      InsertTracks(r0, history, v);
      if |data| < MaxBufferSize {
        data := data + [v];
      } else {
        data := data[pointer := v];
        pointer := (pointer + 1) % MaxBufferSize;
      }
      assert Ring(data, pointer) == r1;
      history := history + [v];
      recent := None;
      if |data| >= Window && |data| % PredictEvery == 0 {
        var ordered := if |data| == MaxBufferSize then data[pointer..] + data[..pointer] else data;
        assert ordered == Ordered(r1);
        RecentWindow(r1, history);
        recent := Some(ordered[|ordered| - Window..]);
        assert recent.value == Last(ordered, Window);
      }
    }
  }

  // ---------------------------------------------------------------------
  // The prediction store

  /** `daily_prediction_store` after `extend(preds)` and the trim to its last day. */
  function Trimmed<T>(store: seq<T>, preds: seq<T>): (r: seq<T>)
  {
    var s := store + preds;
    if |s| > StoreSize then s[|s| - StoreSize..] else s
  }

  /**
   * The trimmed store holds at most a day of predictions, ends with the
   * new ones (or their last day), and loses nothing while it fits.
   */
  lemma TrimmedFacts<T>(store: seq<T>, preds: seq<T>)
    ensures var r := Trimmed(store, preds);
      && |r| <= StoreSize
      && r == Last(store + preds, StoreSize)
      && (|store| + |preds| <= StoreSize ==> r == store + preds)
      && (|preds| <= StoreSize ==> r[|r| - |preds|..] == preds)
      && (|preds| > StoreSize ==> r == Last(preds, StoreSize))
  {
    var s := store + preds;
    var r := Trimmed(store, preds);
    if |preds| <= StoreSize {
      assert r[|r| - |preds|..] == s[|s| - |preds|..];
      assert s[|s| - |preds|..] == preds;
    } else {
      assert r == preds[|preds| - StoreSize..];
    }
  }

  /** The module-level `daily_prediction_store`. */
  class PredictionStore<T> {
    var entries: seq<T>

    ghost predicate Valid()
      reads this
    {
      |entries| <= StoreSize
    }

    constructor ()
      ensures Valid() && entries == []
    {
      entries := [];
    }

    /** The store update at the end of `predict_on_buffer`. */
    method Extend(preds: seq<T>)
      requires Valid()
      modifies this
      ensures Valid()
      ensures entries == Trimmed(old(entries), preds)
    {
      entries := entries + preds;
      if |entries| > StoreSize {
        entries := entries[|entries| - StoreSize..];
      }
    }
  }
}
