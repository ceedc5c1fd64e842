/**
 The caller's window request and the readers that hold the whole capture as a
 flat sample array (`read_bin`, `read_wav`): the window is a Python slice, so it
 is cut short, not refused, when it runs past the end.
 */
module Window {
  import opened Common

  /**
   `nframes` frames of `lframes` samples each, starting at the 1-based frame
   `sframes`.
   */
  datatype Request = Request(nframes: nat, lframes: nat, sframes: nat)

  predicate Valid(req: Request)
  {
    req.sframes >= 1
  }

  /** Index of the first requested sample (`start_n_bytes`). */
  function StartSample(req: Request): nat
    requires Valid(req)
  {
    (req.sframes - 1) * req.lframes
  }

  /** Number of requested samples (`total_n_bytes`). */
  function WindowSize(req: Request): nat
  {
    req.nframes * req.lframes
  }

  /**
   `int(n / lframes)`: how many whole frames `n` samples make, or the
   exception raised for a zero frame length.
   */
  function FramesTotal(n: nat, lframes: nat): (r: Result<nat>)
    ensures r.Err? <==> lframes == 0
    ensures r.Err? ==> r.error == ZeroDivisionError
    ensures r.Ok? ==> r.value * lframes <= n < r.value * lframes + lframes
  {
    if lframes == 0 then Err(ZeroDivisionError) else Ok(n / lframes)
  }

  /**
   `all[start:start + size]`: the requested window, shortened at the end of the
   data and empty when it starts past the end.
   */
  function TakeWindow<T>(all: seq<T>, req: Request): (r: seq<T>)
    requires Valid(req)
    ensures StartSample(req) + WindowSize(req) <= |all| ==>
      r == all[StartSample(req)..StartSample(req) + WindowSize(req)]
    ensures |r| == if StartSample(req) < |all| then Min(WindowSize(req), |all| - StartSample(req)) else 0
    ensures forall k :: 0 <= k < |r| ==> r[k] == all[StartSample(req) + k]
  {
    Slice(all, StartSample(req), StartSample(req) + WindowSize(req))
  }

  /**
   Reading `a` frames and then the `b` frames after them gives the same
   samples as reading `a + b` frames at once.
   */
  lemma WindowSplit<T>(all: seq<T>, lframes: nat, sframes: nat, a: nat, b: nat)
    requires sframes >= 1
    ensures TakeWindow(all, Request(a + b, lframes, sframes)) ==
      TakeWindow(all, Request(a, lframes, sframes)) + TakeWindow(all, Request(b, lframes, sframes + a))
  {
    var whole := Request(a + b, lframes, sframes);
    var left := Request(a, lframes, sframes);
    var right := Request(b, lframes, sframes + a);
    assert StartSample(right) == StartSample(left) + WindowSize(left);
    assert WindowSize(whole) == WindowSize(left) + WindowSize(right);
    var w, x, y := TakeWindow(all, whole), TakeWindow(all, left), TakeWindow(all, right);
    assert |w| == |x| + |y|;
    forall k | 0 <= k < |w|
      ensures w[k] == (x + y)[k]
    {
      if k >= |x| {
        assert k - |x| < |y|;
      }
    }
  }

  /** What a windowed read of a flat sample file yields. */
  datatype Capture<T> = Capture(numberSamples: nat, nframesTot: nat, data: seq<T>)

  /**
   `read_bin`: the file's first complex value carries the sampling rate and the
   centre frequency; the samples follow it.
   */
  function ReadBin<T>(x: seq<T>, req: Request): (r: Result<(T, Capture<T>)>)
    requires Valid(req)
    ensures |x| == 0 ==> r == Err(IndexError)
    ensures |x| > 0 && req.lframes == 0 ==> r == Err(ZeroDivisionError)
    ensures r.Ok? <==> |x| > 0 && req.lframes > 0
    ensures r.Ok? ==> r.value.0 == x[0]
    ensures r.Ok? ==> r.value.1.numberSamples == |x| - 1
    ensures r.Ok? ==> FramesTotal(|x| - 1, req.lframes) == Ok(r.value.1.nframesTot)
    ensures r.Ok? ==> r.value.1.nframesTot * req.lframes <= |x| - 1 < (r.value.1.nframesTot + 1) * req.lframes
    ensures r.Ok? ==> r.value.1.data == TakeWindow(x[1..], req)
  {
    if |x| == 0 then Err(IndexError)
    else
      var all := x[1..];
      match FramesTotal(|all|, req.lframes)
      case Err(e) => Err(e)
      case Ok(tot) => Ok((x[0], Capture(|all|, tot, TakeWindow(all, req))))
  }

  /** `read_wav`: the two audio channels are the I and Q samples. */
  function ReadWav<T>(all: seq<T>, req: Request): (r: Result<Capture<T>>)
    requires Valid(req)
    ensures r.Err? <==> req.lframes == 0
    ensures r.Ok? ==> r.value.numberSamples == |all|
    ensures r.Ok? ==> r.value.nframesTot * req.lframes <= |all| < (r.value.nframesTot + 1) * req.lframes
    ensures r.Ok? && StartSample(req) + WindowSize(req) <= |all| ==> |r.value.data| == WindowSize(req)
    ensures r.Ok? ==> r.value.data == TakeWindow(all, req)
  {
    match FramesTotal(|all|, req.lframes)
    case Err(e) => Err(e)
    case Ok(tot) => Ok(Capture(|all|, tot, TakeWindow(all, req)))
  }
}
