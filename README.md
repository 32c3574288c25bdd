# Fractal Explorer rendering engine in Dafny

This project models the rendering engine of Fractal Explorer, a Java program
that draws Mandelbrot and Burning Ship fractals and their Julia sets. The
engine is `AlgorithmChecker` with its worker threads `CalculatorThread`. It
splits the image width into N column stripes, one per worker. Each worker
colours the pixels of its stripe in a shared image and then reports
completion. The last report hands the finished image to the registered
listeners.

Modules:

- `Kernel` (`kernel.dfy`): the escape-time counting loop shared by
  `MandelbrotChecker.calculate` and `BurningShipChecker.calculate`. An
  `Orbit` predicate stands in for the floating-point escape test
  (`modulusSquared() > 4` after the i-th update).
- `Shading` (`shading.dfy`): the shade ratio `765 / iterations`,
  `scaleShade`, and the saturating red/green/blue split of `setColor`.
- `Partition` (`partition.dfy`): Java's truncating `width / N` and the
  stripes `[i*tw, (i+1)*tw)` that `update` hands out.
- `Engine` (`engine.dfy`): one sequential class `AlgorithmChecker`.
  - Workers are the ids 0..N-1, in thread-list order.
  - Each thread's `setBounds` fields are the `bounds` sequence.
  - The `running` ArrayList is a sequence field.
  - The image is a `width × height` `array2<Rgb>`.
  - A worker's pixel pass (`RenderStripe`) and its completion reports
    (`FinishedDrawing`, `ReportUntilWoken`) are method calls.
  - Listener invocations are recorded in the `delivered` log, each with the
    image it received.
  - Ghost counters count dispatched and completed cycles.
- `Arith` (`arith.dfy`): two multiplication and division facts used by the
  proofs.

The class invariant `Valid()` records the facts that make the engine safe:
- `ready` implies a positive stripe width and height, with the bounds equal
  to the stripes of `width / N`.
- `running` holds no duplicates and only real workers.
- While a cycle is in flight, the image exists and has the configured size.
- `dispatched` equals `completed` plus one while a cycle is in flight. So in
  the model, where `Start` is one atomic step, the listeners run at most once
  per dispatched cycle. The code can break this; see the `Start` line under
  "## Left out".

Consequences of the code that the model makes explicit:
- `765 / iterations` is an integer quotient (Main.java:543). So with the
  default cap of 100, a count of 100 gets shade 65, which is the colour
  (65, 0, 0), not 0. A count of 1 gets shade 758, which is (255, 255, 248).
- In general, a pixel that never escapes gets shade `765 mod iterations`
  (`ScaleShadeAtCap`). With a cap above 765 the ratio is 0, so every pixel
  gets shade 765 and is white.
- The trailing `width mod N` columns are never drawn, so they keep the fresh
  image's black (`RunCycle`, `ColumnOwner`).

## Model

| member | source | states |
|---|---|---|
| `Kernel.Calculate` | Main.java:1215-1229 | The counting loop returns the first step in 1..iterations-1 whose escape test holds, otherwise `iterations`. For a positive cap the count lies in [1, iterations]. It equals `EscapeCount`. |
| `Kernel.FirstEscapeIsFirst` | Main.java:1217-1228 | Counting from a given step finds an escaping step or reaches the cap, and no earlier step escapes. |
| `Kernel.EscapeCountSpec` | Main.java:1780-1799 | The count the Burning Ship loop returns, which has the same shape as the Mandelbrot loop, is the first escaping step or the cap. It reaches the cap exactly when no step in 1..iterations-1 escapes, and it lies in [1, iterations] for a positive cap. |
| `Shading.ShadeRatio` | Main.java:543 | The stored ratio is the integer quotient of 765 by the cap: `ratio*iterations <= 765 < (ratio+1)*iterations`. |
| `Shading.ScaleShade` | Main.java:574-577 | `scaleShade` is 765 minus count × ratio. It never exceeds 765 for a non-negative product and is never negative while the product stays within 765. Its range, antitonicity and value at the cap are the lemmas below. |
| `Shading.ScaleShadeRange` | Main.java:574-577 | For a count in [1, iterations], `scaleShade` gives a shade in [0, 765]. |
| `Shading.ScaleShadeAntitone` | Main.java:574-577 | A larger count never gives a lighter shade. |
| `Shading.ScaleShadeAtCap` | Main.java:574-577 | A count equal to the cap gives shade `765 mod iterations`. With a cap above 765, every count gives 765. |
| `Shading.ShadeExamples` | Main.java:574-577 | With cap 100, count 100 gives shade 65 and colour (65,0,0). Count 1 gives shade 758 and colour (255,255,248). |
| `Shading.SetColor` | Main.java:719-728 | For a shade >= 0, each channel lies in [0,255] and the channels sum to min(shade, 765). Green is non-zero only when red is 255, and blue is non-zero only when green is 255. A negative shade stays whole in red. |
| `Shading.SetColorInjective` | Main.java:719-728 | Two different shades in [0,765] give different colours. |
| `Shading.CountColorInRange` | Main.java:679-681 | Every count in [1, iterations] maps to channels in [0,255]. |
| `Partition.JavaDiv` | Main.java:503 | `width / N` truncates toward zero. A non-negative width gives `q*N <= width < q*N + N`. A negative width gives a quotient <= 0. |
| `Partition.Stripes` | Main.java:468-478 | The bounds `update` hands out, one stripe per worker in thread-list order, N of them. Their layout is `PartitionSpec` and `ColumnOwner` below. |
| `Partition.StripeWidthPositive` | Main.java:463-466 | The stripe width is positive exactly when `width >= N`, so `update` defers whenever the image is narrower than the worker count. |
| `Partition.PartitionSpec` | Main.java:468-478 | Stripe 0 starts at column 0. Each stripe ends where the next begins. The stripes are pairwise disjoint and lie inside [0, width). The last one ends at `width - width mod N`, so fewer than N columns are dropped. |
| `Partition.StripeOfColumn` | Main.java:468-478 | Column x lies in stripe `x / tw` and in no other stripe. |
| `Partition.ColumnOwner` | Main.java:468-478 | A column below `N*tw` belongs to exactly one worker, `x / tw`. A trailing column belongs to none. |
| `Engine.Threads` | Main.java:349-352 | The thread list holds each of the N workers exactly once. |
| `Engine.Remove` | Main.java:374 | `running.remove(ct)` leaves the list as it is when `ct` is absent, and otherwise shortens it by one. |
| `Engine.RemoveCount` | Main.java:374 | The removal takes out exactly one occurrence of the worker and keeps every other entry. |
| `Engine.RemoveDistinct` | Main.java:374 | On a duplicate-free list, the removal keeps the list duplicate-free and takes the worker out completely. |
| `Engine.RemoveToEmpty` | Main.java:374-377 | The removal empties a non-empty list exactly when the worker was its only entry. |
| `Engine.AlgorithmChecker.Valid` | Main.java:404-482 | The engine invariant: ready implies a positive stripe width and height with the bounds given by `update`, and a running list implies a ready engine and an image of the configured size. It implies that completed cycles never exceed dispatched ones. |
| `Engine.AlgorithmChecker.constructor` | Main.java:342-355 | A new engine holds N >= 1 idle workers, cap 100, ratio 7, size 0×0, is not ready and has no listeners. |
| `Engine.AlgorithmChecker.Running` | Main.java:443-446 | `running()` is true exactly while a dispatched cycle has not completed. |
| `Engine.AlgorithmChecker.PixelColor` | Main.java:665-681 | The colour written for a pixel has channels in [0,255] under any valid configuration. |
| `Engine.AlgorithmChecker.AddFinishedListener` | Main.java:394-397 | Appends the listener to the registration order. |
| `Engine.AlgorithmChecker.Resize` | Main.java:492-504 | While a cycle is in flight, nothing changes. Otherwise the engine stores the size and `threadWidth = width / N`, and clears `ready`. |
| `Engine.AlgorithmChecker.ChangeAxis` | Main.java:516-527 | While a cycle is in flight, nothing changes. Otherwise the engine stores the viewport bounds and clears `ready`. |
| `Engine.AlgorithmChecker.SetIterations` | Main.java:538-544 | While a cycle is in flight, nothing changes, for any cap. Otherwise the engine stores the cap and the ratio `765 / cap`. `ready` is not touched. |
| `Engine.AlgorithmChecker.SetC` | Main.java:555-562 | While a cycle is in flight, nothing changes. Otherwise the engine stores the Julia seed. `ready` is not touched. |
| `Engine.AlgorithmChecker.SetBounds` | Main.java:634-640 | Sets one worker's column range and no other worker's. |
| `Engine.AlgorithmChecker.Update` | Main.java:457-482 | Returns false, leaving `ready` false and every bound unchanged, when the stripe width or the height is not positive. Otherwise it gives worker i `[i*tw, (i+1)*tw)` and sets `ready`. |
| `Engine.AlgorithmChecker.Start` | Main.java:404-433 | A no-op while rendering, and a no-op when `update` defers. Otherwise it allocates a fresh all-black image of positive size, puts every worker in `running` once, and leaves the engine ready. All of this is one atomic step. |
| `Engine.AlgorithmChecker.FinishedDrawing` | Main.java:368-384 | Does nothing on an empty running list. Otherwise it removes the reporter. Every listener runs once, in registration order, with the current image, exactly when the report turns `running` from non-empty to empty, which is when the reporter was the only entry. |
| `Engine.AlgorithmChecker.ReportUntilWoken` | Main.java:690-700 | Any number of repeated reports from one worker remove it once. They notify the listeners at most once, and only when it was the last running worker. |
| `Engine.AlgorithmChecker.RenderStripe` | Main.java:656-688 | One worker's pass writes the pixel colour of its count at every (x, y) with `xMin <= x < xMax` and `0 <= y < height`. It leaves every other pixel unchanged. |
| `Engine.AlgorithmChecker.RunCycle` | Main.java:647-702 | After `Start`, all N passes and reports colour columns `[0, N*tw)`. The trailing `width mod N` columns keep their value. The listeners run exactly once, on the finished image, and the engine is idle afterwards. This holds for this order of calls, with `Start` finished before any pass and no stale report in between. |

## Left out

- The user interface, event handling, favourites, the Swing timer, PNG export
  and all `Graphics`/`Color` painting are not modelled. A pixel is written
  directly as an `Rgb` value.
- `Color`'s check that each channel lies in 0..255 is not modelled.
  `SetColor` returns the raw triple, whose range is proved for every shade the
  engine produces.
- Thread mechanics are not modelled: `Thread.start`, `interrupt`,
  `sleep(500)` and `synchronized`. Worker passes and reports are sequential
  method calls. `RunCycle` runs the passes one after another. Interleavings of
  concurrent passes are not modelled. A pass reads the worker's current
  bounds, so a pass after `Resize` and `Start` uses the new stripes. A worker
  whose bounds change while its pass is still running is not modelled. That
  can happen only in the stale-report race described below.
- Engine.AlgorithmChecker.ReportUntilWoken: the number of reports made before
  the worker is woken is a parameter, and the 500 ms timing is not modelled.
  The reports are assumed to stop before the next `Start`. In the code,
  `start()` adds a worker to `running` before it interrupts that worker
  (Main.java:422-426). A report from the previous cycle's loop
  (Main.java:692-697) can land between the two. That report removes the
  worker from the new cycle before it has drawn anything. The last report of
  the other workers can then hand the listeners an image with that stripe
  undrawn. The model does not capture this. The promise that listeners
  receive a finished image exactly once (`RunCycle`) holds only when neither
  race occurs: no stale report interleaves with `Start`, and no worker
  reports before `Start` has added every worker (next line).
- Engine.AlgorithmChecker.Start: `start()` is modelled as one atomic step. In
  the code it is not `synchronized`, and it wakes each worker right after
  adding it to `running`, one worker at a time (Main.java:420-432). Worker 0
  can therefore draw its stripe and call `finishedDrawing` (Main.java:368-384)
  while `running` is still `[worker 0]`. That call empties `running` and runs
  every listener on an image that holds only stripe 0. The last report of the
  cycle then runs every listener a second time. So the code can notify twice
  in one cycle, the first time with a partly drawn image. The model does not
  capture this.
- `ComplexNumber` and all floating-point numerics are not modelled. The kernel
  sees only an escape predicate per step (`Orbit`). A pass receives
  `escapes(x, y, i)`, which stands for the escape test of the orbit started
  at pixel (x, y) under the current viewport, fractal family, own-point or
  Julia mode, and seed. The Mandelbrot and Burning Ship update maps differ
  only inside that predicate.
- `threadAxisWidth`, `axisXStep`, `axisYStep`, the per-pixel axis
  accumulation and the `axisXMin` argument of `setBounds` are not modelled.
  `ChangeAxis` stores the bounds it receives as exact reals, and `SetC`
  stores the seed the same way.
- Julia mode with no seed set, where the code dereferences a null seed, is
  not modelled.
- Engine.AlgorithmChecker.constructor: `Runtime.availableProcessors()` is
  replaced by a parameter N >= 1.
- Engine.AlgorithmChecker.SetIterations: when the engine is idle, it requires
  a cap >= 1. An idle call with a cap of 0 throws `ArithmeticException`.
  Negative caps, which the code accepts when idle, are not modelled. While a
  cycle is in flight, any cap is accepted and ignored, as in the code.
- The `double` product `count * shadeRatio` and its `(int)` cast are modelled
  as an exact integer product. All values involved stay at or below 765, so
  they are exact in a `double`.
- Listeners are ids. What a listener does with the image is not modelled;
  only the call and its argument are recorded.
