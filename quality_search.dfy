/** Binary search over JPEG quality in `compress_image` (compress.py).
    The encoder is an abstract deterministic oracle: `encoder(q)` is the byte
    length of the image encoded as JPEG at quality `q`.  The search is a state
    machine over (min_quality, max_quality, quality).  The loop of
    `compress_image` has no iteration guard, so the model runs it for at most `fuel` iterations; the
    lemmas below show exactly when more fuel can change the answer. */
module QualitySearch {

  /** Byte length of the JPEG encoding at a given quality. */
  type Encoder = int -> nat

  /** The fixed absolute tolerance of the exit test, in kilobytes. */
  const ToleranceKb: real := 3.0

  /** Python's `(max_quality + min_quality) // 2`: division rounding toward
      minus infinity, which is what the first ensures pins down. */
  function Midpoint(minQuality: int, maxQuality: int): (q: int)
    ensures 2 * q <= minQuality + maxQuality < 2 * q + 2
    ensures minQuality <= maxQuality ==> minQuality <= q <= maxQuality
    ensures minQuality <= maxQuality <= minQuality + 1 ==> q == minQuality
    ensures minQuality + 2 <= maxQuality ==> minQuality < q < maxQuality
  {
    (maxQuality + minQuality) / 2
  }

  /** `len(buffer.getvalue()) / 1024`: a byte count in kilobytes. */
  function SizeKb(bytes: nat): (kb: real)
    ensures 0.0 <= kb
    ensures kb * 1024.0 == bytes as real
  {
    bytes as real / 1024.0
  }

  function Abs(x: real): (r: real)
    ensures 0.0 <= r && (r == x || r == -x)
  {
    if x < 0.0 then -x else x
  }

  /** The exit test `abs(compressed_size_kb - target_file_size_kb) < 3`. */
  predicate Within(sizeKb: real, targetKb: real)
    ensures Within(sizeKb, targetKb) <==> targetKb - ToleranceKb < sizeKb < targetKb + ToleranceKb
  {
    Abs(sizeKb - targetKb) < ToleranceKb
  }

  /** The loop variables at the top of an iteration. */
  datatype State = State(minQuality: int, maxQuality: int, quality: int)
  {
    function Width(): int
    {
      maxQuality - minQuality
    }
  }

  /** What a run of the search ends with. */
  datatype Outcome =
    | Converged(quality: int, sizeKb: real)  // the loop broke out with this measured pair
    | StillSearching                         // the loop is still running when the fuel ran out
    | NoProgress                             // the guarded search saw a state repeat

  /** The bounds are ordered and `quality` is their floor midpoint. */
  predicate Valid(s: State)
  {
    s.minQuality <= s.maxQuality && s.quality == Midpoint(s.minQuality, s.maxQuality)
  }

  /** The bounds lie in the encoder's quality range 0..100. */
  predicate InQualityRange(s: State)
  {
    0 <= s.minQuality && s.maxQuality <= 100
  }

  /** The state before the first iteration. */
  function Start(minQuality: int, maxQuality: int): (s: State)
    ensures minQuality <= maxQuality ==> Valid(s)
    ensures s.minQuality == minQuality && s.maxQuality == maxQuality
  {
    State(minQuality, maxQuality, Midpoint(minQuality, maxQuality))
  }

  /** One bound update followed by the recomputed midpoint. */
  function Next(s: State, sizeKb: real, targetKb: real): (r: State)
    ensures sizeKb > targetKb ==> r.minQuality == s.minQuality && r.maxQuality == s.quality
    ensures sizeKb <= targetKb ==> r.minQuality == s.quality && r.maxQuality == s.maxQuality
    ensures Valid(s) ==> Valid(r) && s.minQuality <= r.minQuality <= r.maxQuality <= s.maxQuality
    ensures Valid(s) && InQualityRange(s) ==> InQualityRange(r)
    ensures Valid(s) ==> r == s || r.Width() < s.Width()
  {
    var lo := if sizeKb > targetKb then s.minQuality else s.quality;
    var hi := if sizeKb > targetKb then s.quality else s.maxQuality;
    State(lo, hi, Midpoint(lo, hi))
  }

  /** The loop of `compress_image` run from `s` for at most `fuel` iterations. */
  function Run(encoder: Encoder, targetKb: real, s: State, fuel: nat): (r: Outcome)
    ensures !r.NoProgress?
    ensures r.Converged? ==> Within(r.sizeKb, targetKb) && r.sizeKb == SizeKb(encoder(r.quality))
    ensures r.Converged? && Valid(s) ==> s.minQuality <= r.quality <= s.maxQuality
    decreases fuel
  {
    if fuel == 0 then StillSearching
    else
      var sizeKb := SizeKb(encoder(s.quality));
      if Within(sizeKb, targetKb) then Converged(s.quality, sizeKb)
      else Run(encoder, targetKb, Next(s, sizeKb, targetKb), fuel - 1)
  }

  /** The search loop of `compress_image`, bounded by `fuel` iterations.  It
      returns the last measured (quality, size) pair once the exit test holds. */
  method CompressImage(encoder: Encoder, targetFileSizeKb: real, fuel: nat,
                       maxQuality: int := 100, minQuality: int := 0)
    returns (r: Outcome)
    ensures r == Run(encoder, targetFileSizeKb, Start(minQuality, maxQuality), fuel)
    ensures r.Converged? ==> Within(r.sizeKb, targetFileSizeKb) && r.sizeKb == SizeKb(encoder(r.quality))
    ensures r.Converged? && minQuality <= maxQuality ==> minQuality <= r.quality <= maxQuality
  {
    var lo, hi := minQuality, maxQuality;
    var quality := (hi + lo) / 2;
    var remaining := fuel;
    while remaining > 0
      invariant minQuality <= maxQuality ==> Valid(State(lo, hi, quality)) && minQuality <= lo && hi <= maxQuality
      invariant Run(encoder, targetFileSizeKb, State(lo, hi, quality), remaining)
             == Run(encoder, targetFileSizeKb, Start(minQuality, maxQuality), fuel)
      decreases remaining
    {
      ghost var s := State(lo, hi, quality);
      var compressedSizeKb := SizeKb(encoder(quality));
      if compressedSizeKb > targetFileSizeKb {
        hi := quality;
      } else {
        lo := quality;
      }
      if Abs(compressedSizeKb - targetFileSizeKb) < ToleranceKb {
        r := Converged(quality, compressedSizeKb);
        return;
      }
      quality := (hi + lo) / 2;
      assert State(lo, hi, quality) == Next(s, compressedSizeKb, targetFileSizeKb);
      remaining := remaining - 1;
    }
    r := StillSearching;
  }

  /** Once the interval has width at most 1 the midpoint is its lower end, and
      one more step keeps measuring that same quality.  With width 0, or when
      the measured size does not exceed the target, the state does not change. */
  lemma CollapsedIntervalIsFixed(s: State, sizeKb: real, targetKb: real)
    requires Valid(s) && s.Width() <= 1
    ensures s.quality == s.minQuality
    ensures Next(s, sizeKb, targetKb).quality == s.quality
    ensures Next(s, sizeKb, targetKb).Width() <= s.Width()
    ensures s.Width() == 0 || sizeKb <= targetKb ==> Next(s, sizeKb, targetKb) == s
  {
  }

  /** The stall: from a collapsed interval whose quality fails the exit test,
      the loop never exits, however many iterations it is given. */
  lemma {:induction false} StallIsForever(encoder: Encoder, targetKb: real, s: State, fuel: nat)
    requires Valid(s) && s.Width() <= 1
    requires !Within(SizeKb(encoder(s.quality)), targetKb)
    ensures Run(encoder, targetKb, s, fuel) == StillSearching
    decreases fuel
  {
    if fuel > 0 {
      var n := Next(s, SizeKb(encoder(s.quality)), targetKb);
      CollapsedIntervalIsFixed(s, SizeKb(encoder(s.quality)), targetKb);
      StallIsForever(encoder, targetKb, n, fuel - 1);
    }
  }

  /** If no quality in the interval passes the exit test the loop never exits. */
  lemma NoAcceptableQualityNeverExits(encoder: Encoder, targetKb: real, s: State, fuel: nat)
    requires Valid(s)
    requires forall q :: s.minQuality <= q <= s.maxQuality ==> !Within(SizeKb(encoder(q)), targetKb)
    ensures Run(encoder, targetKb, s, fuel) == StillSearching
  {
  }

  /** Ten kilobytes per quality step. */
  function TenKbPerStep(q: int): nat
  {
    if q <= 0 then 0 else 10240 * q
  }

  /** A monotone encoder and a target strictly between the sizes at quality 0
      and quality 100 for which the loop of `compress_image` never exits. */
  lemma MonotoneEncoderStalls(fuel: nat)
    ensures SizeKb(TenKbPerStep(0)) < 5.0 < SizeKb(TenKbPerStep(100))
    ensures forall p, q :: p <= q ==> TenKbPerStep(p) <= TenKbPerStep(q)
    ensures Run(TenKbPerStep, 5.0, Start(0, 100), fuel) == StillSearching
    ensures Next(State(0, 1, 0), SizeKb(TenKbPerStep(0)), 5.0) == State(0, 1, 0)
  {
  }

  /** The corrected search: identical to the loop of `compress_image`, except that a step
      that leaves the state unchanged ends the search with `NoProgress`
      instead of repeating forever.  It needs no fuel. */
  function Guarded(encoder: Encoder, targetKb: real, s: State): (r: Outcome)
    requires Valid(s)
    ensures !r.StillSearching?
    ensures r.Converged? ==> Within(r.sizeKb, targetKb) && r.sizeKb == SizeKb(encoder(r.quality))
    ensures r.Converged? ==> s.minQuality <= r.quality <= s.maxQuality
    decreases s.Width()
  {
    var sizeKb := SizeKb(encoder(s.quality));
    if Within(sizeKb, targetKb) then Converged(s.quality, sizeKb)
    else
      var n := Next(s, sizeKb, targetKb);
      if n == s then NoProgress else Guarded(encoder, targetKb, n)
  }

  /** The guarded search as a loop, for caller bounds 0 and 100 by default. */
  method CompressImageGuarded(encoder: Encoder, targetFileSizeKb: real,
                              maxQuality: int := 100, minQuality: int := 0)
    returns (r: Outcome)
    requires minQuality <= maxQuality
    ensures r == Guarded(encoder, targetFileSizeKb, Start(minQuality, maxQuality))
    ensures r.Converged? ==> minQuality <= r.quality <= maxQuality && Within(r.sizeKb, targetFileSizeKb)
  {
    var lo, hi := minQuality, maxQuality;
    var quality := (hi + lo) / 2;
    while true
      invariant Valid(State(lo, hi, quality))
      invariant Guarded(encoder, targetFileSizeKb, State(lo, hi, quality))
             == Guarded(encoder, targetFileSizeKb, Start(minQuality, maxQuality))
      decreases hi - lo
    {
      ghost var s := State(lo, hi, quality);
      var compressedSizeKb := SizeKb(encoder(quality));
      if Abs(compressedSizeKb - targetFileSizeKb) < ToleranceKb {
        r := Converged(quality, compressedSizeKb);
        return;
      }
      var newLo, newHi := lo, hi;
      if compressedSizeKb > targetFileSizeKb {
        newHi := quality;
      } else {
        newLo := quality;
      }
      if newLo == lo && newHi == hi {
        r := NoProgress;
        return;
      }
      lo, hi := newLo, newHi;
      quality := (hi + lo) / 2;
      assert State(lo, hi, quality) == Next(s, compressedSizeKb, targetFileSizeKb);
    }
  }

  /** Whenever the loop of `compress_image` exits, the guarded search returns the same pair. */
  lemma {:induction false} GuardedAgreesWhenRunConverges(encoder: Encoder, targetKb: real, s: State, fuel: nat)
    requires Valid(s)
    requires Run(encoder, targetKb, s, fuel).Converged?
    ensures Guarded(encoder, targetKb, s) == Run(encoder, targetKb, s, fuel)
    decreases fuel
  {
    var sizeKb := SizeKb(encoder(s.quality));
    if !Within(sizeKb, targetKb) {
      var n := Next(s, sizeKb, targetKb);
      GuardedAgreesWhenRunConverges(encoder, targetKb, n, fuel - 1);
    }
  }

  /** When the guarded search reports no progress the loop of `compress_image` runs forever. */
  lemma {:induction false} NoProgressMeansRunForever(encoder: Encoder, targetKb: real, s: State, fuel: nat)
    requires Valid(s)
    requires Guarded(encoder, targetKb, s) == NoProgress
    ensures Run(encoder, targetKb, s, fuel) == StillSearching
    decreases fuel
  {
    if fuel > 0 {
      var n := Next(s, SizeKb(encoder(s.quality)), targetKb);
      NoProgressMeansRunForever(encoder, targetKb, n, fuel - 1);
    }
  }

  /** When the guarded search converges, the loop of `compress_image` converges to the same
      pair within `Width() + 1` iterations. */
  lemma {:induction false} GuardedConvergesWithinWidth(encoder: Encoder, targetKb: real, s: State, fuel: nat)
    requires Valid(s)
    requires Guarded(encoder, targetKb, s).Converged?
    requires fuel > s.Width()
    ensures Run(encoder, targetKb, s, fuel) == Guarded(encoder, targetKb, s)
    decreases s.Width()
  {
    var sizeKb := SizeKb(encoder(s.quality));
    if !Within(sizeKb, targetKb) {
      var n := Next(s, sizeKb, targetKb);
      GuardedConvergesWithinWidth(encoder, targetKb, n, fuel - 1);
    }
  }

  /** The call `compress_image(image, target)` either returns within 101
      iterations, with a quality in 0..100, or never returns. */
  lemma {:induction false} DefaultSearchReturnsEarlyOrNever(encoder: Encoder, targetKb: real, fuel: nat)
    ensures Run(encoder, targetKb, Start(0, 100), fuel).Converged? ==>
              Run(encoder, targetKb, Start(0, 100), 101) == Run(encoder, targetKb, Start(0, 100), fuel)
    ensures Run(encoder, targetKb, Start(0, 100), fuel).Converged? ==>
              0 <= Run(encoder, targetKb, Start(0, 100), fuel).quality <= 100
    ensures Run(encoder, targetKb, Start(0, 100), 101).StillSearching? ==>
              Run(encoder, targetKb, Start(0, 100), fuel).StillSearching?
  {
    var s := Start(0, 100);
    var g := Guarded(encoder, targetKb, s);
    if g.Converged? {
      GuardedConvergesWithinWidth(encoder, targetKb, s, 101);
    } else {
      NoProgressMeansRunForever(encoder, targetKb, s, fuel);
      NoProgressMeansRunForever(encoder, targetKb, s, 101);
    }
    if Run(encoder, targetKb, s, fuel).Converged? {
      GuardedAgreesWhenRunConverges(encoder, targetKb, s, fuel);
    }
  }
}
