/**
 * The rendering engine `AlgorithmChecker` and the passes of its
 * `CalculatorThread` workers, as one sequential class.
 *
 * Workers are named by their position 0..N-1 in the engine's thread list;
 * the column bounds each thread object stores are the `bounds` field.  What
 * the threads do concurrently (a pixel pass, a completion report) is a
 * method call here; listeners are ids, and invoking them is recorded in the
 * `delivered` log together with the image they receive.
 */
module Engine {

  import opened Kernel
  import opened Shading
  import opened Partition

  type Worker = nat
  type Listener = nat

  /** A point of the complex plane as the caller supplies it; no arithmetic on it is modelled. */
  datatype Complex = Complex(re: real, im: real)

  datatype Option<T> = None | Some(value: T)

  /** One invocation of a finished-image listener with the image it received. */
  datatype Notice = Notice(listener: Listener, image: array2<Rgb>)

  /** No worker appears twice. */
  predicate Distinct(s: seq<Worker>)
  {
    forall i, j :: 0 <= i < j < |s| ==> s[i] != s[j]
  }

  /** The thread list: workers 0..n-1 in creation order. */
  function Threads(n: nat): (r: seq<Worker>)
    ensures |r| == n && Distinct(r)
    ensures forall w: Worker :: w in r <==> w < n
  {
    var r := seq(n, (i: Worker) => i);
    assert forall w: Worker | w < n :: w in r by {
      forall w: Worker | w < n ensures w in r {
        assert r[w] == w;
      }
    }
    r
  }

  /** `ArrayList.remove(Object)`: drops the first occurrence of w, if any. */
  function Remove(s: seq<Worker>, w: Worker): (r: seq<Worker>)
    ensures w !in s ==> r == s
    ensures w in s ==> |r| == |s| - 1
  {
    if s == [] then []
    else
      assert s == [s[0]] + s[1..];
      if s[0] == w then s[1..]
      else [s[0]] + Remove(s[1..], w)
  }

  /** Exactly one occurrence of w goes, if there is one; every other entry stays. */
  lemma {:induction false} RemoveCount(s: seq<Worker>, w: Worker)
    ensures multiset(Remove(s, w)) == multiset(s) - multiset{w}
  {
    if s != [] {
      assert s == [s[0]] + s[1..];
      if s[0] != w {
        RemoveCount(s[1..], w);
        assert Remove(s, w) == [s[0]] + Remove(s[1..], w);
      }
    }
  }

  /** The tail of a duplicate-free list is duplicate-free and lacks its head. */
  lemma DistinctTail(s: seq<Worker>)
    requires Distinct(s) && s != []
    ensures Distinct(s[1..]) && s[0] !in s[1..]
  {
  }

  /** Removing a worker from a duplicate-free list removes it entirely and keeps the list duplicate-free. */
  lemma {:induction false} RemoveDistinct(s: seq<Worker>, w: Worker)
    requires Distinct(s)
    ensures Distinct(Remove(s, w))
    ensures forall x :: x in Remove(s, w) <==> x in s && x != w
  {
    if s != [] {
      DistinctTail(s);
      assert s == [s[0]] + s[1..];
      if s[0] != w {
        RemoveDistinct(s[1..], w);
        var t := Remove(s[1..], w);
        assert Remove(s, w) == [s[0]] + t;
        assert forall x :: x in [s[0]] + t <==> x == s[0] || x in t;
        forall i, j | 0 <= i < j < |t| + 1 ensures ([s[0]] + t)[i] != ([s[0]] + t)[j] {
          assert ([s[0]] + t)[j] == t[j - 1];
          if i > 0 {
            assert ([s[0]] + t)[i] == t[i - 1];
          }
        }
      }
    }
  }

  /** Removing one worker empties a non-empty list exactly when that worker was its only entry. */
  lemma RemoveToEmpty(s: seq<Worker>, w: Worker)
    requires s != []
    ensures Remove(s, w) == [] <==> s == [w]
  {
    if Remove(s, w) == [] {
      assert w in s;
      assert |s| == 1;
    }
  }

  /** The listeners invoked, in registration order, with one image. */
  function Notices(ls: seq<Listener>, img: array2<Rgb>): seq<Notice>
  {
    seq(|ls|, i requires 0 <= i < |ls| => Notice(ls[i], img))
  }

  /**
   * The escape test of one pixel's orbit: `escapes(x, y, i)` says whether the
   * kernel's test holds after the i-th update of the orbit started from pixel
   * (x, y) under the current viewport, mode and seed.
   */
  function PixelOrbit(escapes: (int, int, int) -> bool, x: int, y: int): Orbit
  {
    i => escapes(x, y, i)
  }

  class AlgorithmChecker {
    /** The number of worker threads, fixed at construction. */
    const workers: nat
    /** Whether pixels are rendered in Julia mode (fixed seed) or own-point mode. */
    const julia: bool

    var iterations: int
    var shadeRatio: int
    var width: int
    var height: int
    var threadWidth: int
    var axisXMin: real
    var axisYMin: real
    var axisYMax: real
    var seed: Option<Complex>
    var ready: bool
    var running: seq<Worker>
    var listeners: seq<Listener>
    var image: array2?<Rgb>
    var bounds: seq<Stripe>
    /** Every listener invocation so far, oldest first. */
    var delivered: seq<Notice>
    /** Render cycles dispatched by `Start` and completed by `FinishedDrawing`. */
    ghost var dispatched: nat
    ghost var completed: nat

    ghost predicate Valid()
      reads this
      ensures Valid() ==> completed <= dispatched
    {
      && workers >= 1
      && |bounds| == workers
      && iterations >= 1 && shadeRatio == ShadeRatio(iterations)
      && threadWidth == JavaDiv(width, workers)
      && (ready ==> threadWidth > 0 && height > 0 && bounds == Stripes(workers, threadWidth))
      && Distinct(running)
      && (forall w :: w in running ==> w < workers)
      && (|running| > 0 ==> ready && image != null && image.Length0 == width && image.Length1 == height)
      && dispatched == completed + (if |running| > 0 then 1 else 0)
    }

    constructor (n: nat, julia: bool)
      requires n >= 1
      ensures Valid()
      ensures workers == n && this.julia == julia
      ensures iterations == 100 && width == 0 && height == 0 && !ready
      ensures running == [] && listeners == [] && delivered == [] && image == null
      ensures dispatched == 0
    {
      workers := n;
      this.julia := julia;
      iterations := 100;
      shadeRatio := 7;
      width, height, threadWidth := 0, 0, 0;
      axisXMin, axisYMin, axisYMax := 0.0, 0.0, 0.0;
      seed := None;
      ready := false;
      running := [];
      listeners := [];
      image := null;
      bounds := seq(n, _ => Stripe(0, 0));
      delivered := [];
      dispatched, completed := 0, 0;
    }

    /** `running()`: some worker has not yet reported for the current cycle. */
    predicate Running()
      reads this
      requires Valid()
      ensures Running() <==> completed < dispatched
    {
      |running| > 0
    }

    /** The colour the pixel pass writes at (x, y) under the current configuration. */
    function PixelColor(escapes: (int, int, int) -> bool, x: int, y: int): (c: Rgb)
      reads this`iterations, this`shadeRatio
      requires iterations >= 1 && shadeRatio == ShadeRatio(iterations)
      ensures 0 <= c.red <= ChannelMax && 0 <= c.green <= ChannelMax && 0 <= c.blue <= ChannelMax
    {
      var count := EscapeCount(PixelOrbit(escapes, x, y), iterations);
      EscapeCountSpec(PixelOrbit(escapes, x, y), iterations);
      CountColorInRange(count, iterations);
      SetColor(ScaleShade(count, shadeRatio))
    }

    method AddFinishedListener(l: Listener)
      requires Valid()
      modifies this`listeners
      ensures Valid()
      ensures listeners == old(listeners) + [l]
    {
      listeners := listeners + [l];
    }

    /** `resize`: refused while rendering; otherwise stores the size and the stripe width. */
    method Resize(w: int, h: int)
      requires Valid()
      modifies this`ready, this`width, this`height, this`threadWidth
      ensures Valid()
      ensures old(Running()) ==>
        ready == old(ready) && width == old(width) && height == old(height) && threadWidth == old(threadWidth)
      ensures !old(Running()) ==> !ready && width == w && height == h && threadWidth == JavaDiv(w, workers)
    {
      if |running| > 0 {
        return;
      }
      ready := false;
      width, height := w, h;
      threadWidth := JavaDiv(w, workers);
    }

    /** `changeAxis`: refused while rendering; otherwise stores the viewport. */
    method ChangeAxis(xMin: real, xMax: real, yMin: real, yMax: real)
      requires Valid()
      modifies this`ready, this`axisXMin, this`axisYMin, this`axisYMax
      ensures Valid()
      ensures old(Running()) ==>
        ready == old(ready) && axisXMin == old(axisXMin) && axisYMin == old(axisYMin) && axisYMax == old(axisYMax)
      ensures !old(Running()) ==> !ready && axisXMin == xMin && axisYMin == yMin && axisYMax == yMax
    {
      if |running| > 0 {
        return;
      }
      ready := false;
      axisYMin, axisYMax, axisXMin := yMin, yMax, xMin;
    }

    /** `setIterations`: refused while rendering; otherwise stores the cap and its shade ratio. */
    method SetIterations(n: int)
      requires Valid() && (n >= 1 || Running())
      modifies this`iterations, this`shadeRatio
      ensures Valid()
      ensures old(Running()) ==> iterations == old(iterations) && shadeRatio == old(shadeRatio)
      ensures !old(Running()) ==> iterations == n && shadeRatio == ShadeRatio(n)
    {
      if |running| > 0 {
        return;
      }
      iterations := n;
      shadeRatio := ShadeMax / n;
    }

    /** `setC`: refused while rendering; otherwise stores the Julia seed. */
    method SetC(c: Complex)
      requires Valid()
      modifies this`seed
      ensures Valid()
      ensures seed == if old(Running()) then old(seed) else Some(c)
    {
      if |running| > 0 {
        return;
      }
      seed := Some(c);
    }

    /** `setBounds` of worker w's thread. */
    method SetBounds(w: Worker, xMin: int, xMax: int)
      requires w < |bounds|
      modifies this`bounds
      ensures bounds == old(bounds)[w := Stripe(xMin, xMax)]
    {
      bounds := bounds[w := Stripe(xMin, xMax)];
    }

    /**
     * `update`: defers when the stripe width or the height is not positive;
     * otherwise hands out the stripes and marks the engine ready.
     */
    method Update() returns (ok: bool)
      requires Valid() && !ready && !Running()
      modifies this`bounds, this`ready
      ensures Valid()
      ensures ok <==> threadWidth > 0 && height > 0
      ensures ok ==> ready && bounds == Stripes(workers, threadWidth)
      ensures !ok ==> !ready && bounds == old(bounds)
    {
      if threadWidth <= 0 || height <= 0 {
        return false;
      }
      var x := 0;
      var i := 0;
      while i < workers
        invariant 0 <= i <= workers && |bounds| == workers
        invariant x == i * threadWidth
        invariant forall j :: 0 <= j < i ==> bounds[j] == StripeOf(j, threadWidth)
      {
        SetBounds(i, x, x + threadWidth);
        x := x + threadWidth;
        i := i + 1;
      }
      ready := true;
      return true;
    }

    /**
     * `start`: a no-op while rendering; defers when `update` cannot get
     * ready; otherwise allocates a fresh all-black image and puts every
     * worker in the running list.
     */
    method Start()
      requires Valid()
      modifies this`ready, this`bounds, this`image, this`running, this`dispatched
      ensures Valid()
      ensures old(Running()) ==>
        ready == old(ready) && bounds == old(bounds) && image == old(image)
        && running == old(running) && dispatched == old(dispatched)
      ensures !old(Running()) && !old(ready) && !(threadWidth > 0 && height > 0) ==>
        !ready && bounds == old(bounds) && image == old(image)
        && running == old(running) && dispatched == old(dispatched)
      ensures !old(Running()) && (old(ready) || (threadWidth > 0 && height > 0)) ==>
        && ready && bounds == Stripes(workers, threadWidth)
        && fresh(image) && image.Length0 == width > 0 && image.Length1 == height > 0
        && (forall x, y :: 0 <= x < width && 0 <= y < height ==> image[x, y] == Black)
        && running == Threads(workers)
        && dispatched == old(dispatched) + 1
    {
      if |running| > 0 {
        return;
      }
      if !ready {
        var ok := Update();
        if !ok {
          return;
        }
      }
      StripeWidthPositive(width, workers);
      image := new Rgb[width, height]((x, y) => Black);
      var i := 0;
      while i < workers
        invariant 0 <= i <= workers
        invariant running == Threads(i)
        modifies this`running
      {
        running := running + [i];
        i := i + 1;
      }
      dispatched := dispatched + 1;
    }

    /**
     * `finishedDrawing`: ignored when nothing is running; otherwise removes
     * the reporting worker and, on the report that empties the running list,
     * invokes every listener once, in order, with the current image.
     */
    method FinishedDrawing(w: Worker)
      requires Valid()
      modifies this`running, this`delivered, this`completed
      ensures Valid()
      ensures running == if old(Running()) then Remove(old(running), w) else old(running)
      ensures (old(Running()) && !Running()) <==> old(running) == [w]
      ensures delivered == old(delivered) + (if old(running) == [w] then Notices(listeners, image) else [])
      ensures completed == old(completed) + (if old(running) == [w] then 1 else 0)
    {
      if |running| == 0 {
        return;
      }
      RemoveDistinct(running, w);
      RemoveToEmpty(running, w);
      running := Remove(running, w);
      if |running| == 0 {
        delivered := delivered + Notices(listeners, image);
        completed := completed + 1;
      }
    }

    /**
     * The report loop a worker enters after its pass: it calls
     * `finishedDrawing` again and again (every 500 ms) until it is woken for
     * the next cycle.  However many reports it makes, the listeners run at
     * most once.
     */
    method ReportUntilWoken(w: Worker, reports: nat)
      requires Valid()
      modifies this`running, this`delivered, this`completed
      ensures Valid()
      ensures running == if reports > 0 then Remove(old(running), w) else old(running)
      ensures delivered == old(delivered)
        + (if reports > 0 && old(running) == [w] then Notices(listeners, image) else [])
      ensures completed == old(completed) + (if reports > 0 && old(running) == [w] then 1 else 0)
    {
      var k := 0;
      while k < reports
        invariant Valid() && 0 <= k <= reports
        invariant running == if k > 0 then Remove(old(running), w) else old(running)
        invariant delivered == old(delivered)
          + (if k > 0 && old(running) == [w] then Notices(listeners, image) else [])
        invariant completed == old(completed) + (if k > 0 && old(running) == [w] then 1 else 0)
        invariant k > 0 ==> w !in running
      {
        if k == 0 {
          RemoveDistinct(running, w);
        }
        FinishedDrawing(w);
        k := k + 1;
      }
    }

    /**
     * One worker's pixel pass: every pixel of its column stripe, column by
     * column and top to bottom, gets the colour of its iteration count; no
     * other pixel is written.
     */
    method RenderStripe(w: Worker, escapes: (int, int, int) -> bool)
      requires Valid() && w in running
      modifies image
      ensures forall x, y :: 0 <= x < width && 0 <= y < height ==>
        image[x, y] == if Covers(bounds[w], x) then PixelColor(escapes, x, y) else old(image[x, y])
    {
      PartitionSpec(width, workers);
      var xMin, xMax := bounds[w].xMin, bounds[w].xMax;
      var x := xMin;
      while x < xMax
        invariant xMin <= x <= xMax
        invariant forall a, b :: 0 <= a < width && 0 <= b < height ==>
          image[a, b] == if xMin <= a < x then PixelColor(escapes, a, b) else old(image[a, b])
      {
        var y := 0;
        while y < height
          invariant 0 <= y <= height
          invariant forall a, b :: 0 <= a < width && 0 <= b < height ==>
            image[a, b] == if xMin <= a < x || (a == x && b < y) then PixelColor(escapes, a, b) else old(image[a, b])
        {
          var count := Calculate(PixelOrbit(escapes, x, y), iterations);
          image[x, y] := SetColor(ScaleShade(count, shadeRatio));
          y := y + 1;
        }
        x := x + 1;
      }
    }

    /**
     * A whole render cycle after `Start`: each worker makes its pass and
     * reports.  The listeners run exactly once, after the last report, and
     * receive an image whose first N * threadWidth columns are drawn while
     * the trailing width % N columns keep their earlier value.
     */
    method RunCycle(escapes: (int, int, int) -> bool)
      requires Valid() && running == Threads(workers)
      modifies image, this`running, this`delivered, this`completed
      ensures Valid() && !Running()
      ensures image == old(image)
      ensures forall x, y :: 0 <= x < width && 0 <= y < height ==>
        image[x, y] == if x < workers * threadWidth then PixelColor(escapes, x, y) else old(image[x, y])
      ensures delivered == old(delivered) + Notices(listeners, image)
      ensures completed == old(completed) + 1
    {
      var i := 0;
      ghost var drawn := 0;  // the columns [0, drawn) are drawn
      while i < workers
        invariant 0 <= i <= workers && drawn == i * threadWidth
        invariant Valid() && image == old(image)
        invariant running == Threads(workers)[i..]
        invariant forall x, y :: 0 <= x < width && 0 <= y < height ==>
          image[x, y] == if x < drawn then PixelColor(escapes, x, y) else old(image[x, y])
        invariant delivered == old(delivered) + (if i == workers then Notices(listeners, image) else [])
        invariant completed == old(completed) + (if i == workers then 1 else 0)
      {
        assert running[0] == i && running[1..] == Threads(workers)[i + 1..];
        assert bounds[i] == Stripe(drawn, drawn + threadWidth) by {
          assert bounds[i] == StripeOf(i, threadWidth);
          assert (i + 1) * threadWidth == drawn + threadWidth;
        }
        RenderStripe(i, escapes);
        FinishedDrawing(i);
        i := i + 1;
        drawn := drawn + threadWidth;
      }
    }
  }
}
