/** The image pipeline that runs on the microcontroller (odev3/Core/Src/main.c):
    a 64x64 grey image stored row-major in a byte buffer, Otsu binarisation,
    and 3x3 erosion and dilation that write into a scratch buffer and copy it
    back over the source. */
module Morphology {
  import opened Base

  const Width: int := 64
  const Height: int := 64
  const Size: int := Width * Height

  predicate InImage(x: int, y: int) {
    0 <= x < Width && 0 <= y < Height
  }

  /** `get_pixel`: a bounds-checked read; anything outside the image reads as 0. */
  function GetPixel(img: seq<Byte>, x: int, y: int): (v: Byte)
    requires |img| == Size
    ensures !InImage(x, y) ==> v == 0
    ensures InImage(x, y) ==> 0 <= y * Width + x < Size && v == img[y * Width + x]
  {
    if x < 0 || x >= Width || y < 0 || y >= Height then 0 else img[y * Width + x]
  }

  /** Every buffer index is the read of exactly one in-image coordinate pair. */
  lemma PixelOfIndex(img: seq<Byte>, i: int)
    requires |img| == Size && 0 <= i < Size
    ensures InImage(i % Width, i / Width) && (i / Width) * Width + i % Width == i
    ensures GetPixel(img, i % Width, i / Width) == img[i]
  {
  }

  lemma CoordinatesOfIndex(x: int, y: int)
    requires InImage(x, y)
    ensures (y * Width + x) % Width == x && (y * Width + x) / Width == y
  {
  }

  /** The offsets of the k-th read of the 3x3 window, in the order of the
      source's loops: `ky` from -1 to 1 outside, `kx` from -1 to 1 inside. */
  const OffsetX: seq<int> := [-1, 0, 1, -1, 0, 1, -1, 0, 1]
  const OffsetY: seq<int> := [-1, -1, -1, 0, 0, 0, 1, 1, 1]

  /** The k-th read of the 3x3 window around (x, y). */
  function WindowRead(img: seq<Byte>, x: int, y: int, k: int): Byte
    requires |img| == Size && 0 <= k < 9
  {
    GetPixel(img, x + OffsetX[k], y + OffsetY[k])
  }

  /** The running minimum after the first n window reads, starting from 255. */
  function WindowMin(img: seq<Byte>, x: int, y: int, n: int): Byte
    requires |img| == Size && 0 <= n <= 9
  {
    if n == 0 then 255
    else
      var v := WindowRead(img, x, y, n - 1);
      var m := WindowMin(img, x, y, n - 1);
      if v < m then v else m
  }

  /** The running minimum of the first n reads is at most each of them and,
      once there is a read, equal to one of them. */
  lemma {:induction false} WindowMinIsMin(img: seq<Byte>, x: int, y: int, n: int)
    requires |img| == Size && 0 <= n <= 9
    ensures forall k :: 0 <= k < n ==> WindowMin(img, x, y, n) <= WindowRead(img, x, y, k)
    ensures n > 0 ==> exists k :: 0 <= k < n && WindowMin(img, x, y, n) == WindowRead(img, x, y, k)
    decreases n
  {
    if n > 0 {
      WindowMinIsMin(img, x, y, n - 1);
      if n > 1 && WindowMin(img, x, y, n) == WindowMin(img, x, y, n - 1) {
        var k :| 0 <= k < n - 1 && WindowMin(img, x, y, n - 1) == WindowRead(img, x, y, k);
      }
    }
  }

  /** The running maximum after the first n window reads, starting from 0. */
  function WindowMax(img: seq<Byte>, x: int, y: int, n: int): Byte
    requires |img| == Size && 0 <= n <= 9
  {
    if n == 0 then 0
    else
      var v := WindowRead(img, x, y, n - 1);
      var m := WindowMax(img, x, y, n - 1);
      if v > m then v else m
  }

  /** The running maximum of the first n reads is at least each of them and,
      once there is a read, equal to one of them. */
  lemma {:induction false} WindowMaxIsMax(img: seq<Byte>, x: int, y: int, n: int)
    requires |img| == Size && 0 <= n <= 9
    ensures forall k :: 0 <= k < n ==> WindowRead(img, x, y, k) <= WindowMax(img, x, y, n)
    ensures n > 0 ==> exists k :: 0 <= k < n && WindowMax(img, x, y, n) == WindowRead(img, x, y, k)
    decreases n
  {
    if n > 0 {
      WindowMaxIsMax(img, x, y, n - 1);
      if n > 1 && WindowMax(img, x, y, n) == WindowMax(img, x, y, n - 1) {
        var k :| 0 <= k < n - 1 && WindowMax(img, x, y, n - 1) == WindowRead(img, x, y, k);
      }
    }
  }

  /** The eroded value of buffer index i: the window minimum at its coordinates. */
  function ErodedAt(img: seq<Byte>, i: int): Byte
    requires |img| == Size && 0 <= i < Size
  {
    WindowMin(img, i % Width, i / Width, 9)
  }

  /** The dilated value of buffer index i: the window maximum at its coordinates. */
  function DilatedAt(img: seq<Byte>, i: int): Byte
    requires |img| == Size && 0 <= i < Size
  {
    WindowMax(img, i % Width, i / Width, 9)
  }

  /** The image erosion produces: every pixel replaced by its 3x3 window minimum. */
  function Eroded(img: seq<Byte>): (r: seq<Byte>)
    requires |img| == Size
    ensures |r| == Size
  {
    seq(Size, i requires 0 <= i < Size => ErodedAt(img, i))
  }

  /** The image dilation produces: every pixel replaced by its 3x3 window maximum. */
  function Dilated(img: seq<Byte>): (r: seq<Byte>)
    requires |img| == Size
    ensures |r| == Size
  {
    seq(Size, i requires 0 <= i < Size => DilatedAt(img, i))
  }

  /** One more read of the window, at offset (kx, ky), updates the running
      minimum as the erosion loop's `if` statement does. */
  lemma WindowMinStep(img: seq<Byte>, x: int, y: int, kx: int, ky: int)
    requires |img| == Size && -1 <= kx <= 1 && -1 <= ky <= 1
    ensures var n := (ky + 1) * 3 + kx + 1; var v := GetPixel(img, x + kx, y + ky);
      WindowMin(img, x, y, n + 1) == if v < WindowMin(img, x, y, n) then v else WindowMin(img, x, y, n)
  {
    WindowOffsets(img, x, y, kx, ky);
  }

  /** The same for the running maximum of the dilation loop. */
  lemma WindowMaxStep(img: seq<Byte>, x: int, y: int, kx: int, ky: int)
    requires |img| == Size && -1 <= kx <= 1 && -1 <= ky <= 1
    ensures var n := (ky + 1) * 3 + kx + 1; var v := GetPixel(img, x + kx, y + ky);
      WindowMax(img, x, y, n + 1) == if v > WindowMax(img, x, y, n) then v else WindowMax(img, x, y, n)
  {
    WindowOffsets(img, x, y, kx, ky);
  }

  /** The two inner loops of `Apply_Erosion` for one pixel: the minimum over
      its window, starting from 255. */
  method ErodePixel(src: array<Byte>, x: int, y: int) returns (minVal: Byte)
    requires src.Length == Size
    ensures minVal == WindowMin(src[..], x, y, 9)
  {
    var img := src[..];
    minVal := 255;
    for ky := -1 to 2
      invariant minVal == WindowMin(img, x, y, (ky + 1) * 3)
    {
      for kx := -1 to 2
        invariant minVal == WindowMin(img, x, y, (ky + 1) * 3 + kx + 1)
      {
        var val := GetPixel(img, x + kx, y + ky);
        WindowMinStep(img, x, y, kx, ky);
        if val < minVal {
          minVal := val;
        }
      }
    }
  }


  /** The two inner loops of `Apply_Dilation` for one pixel: the maximum over
      its window, starting from 0. */
  method DilatePixel(src: array<Byte>, x: int, y: int) returns (maxVal: Byte)
    requires src.Length == Size
    ensures maxVal == WindowMax(src[..], x, y, 9)
  {
    var img := src[..];
    maxVal := 0;
    for ky := -1 to 2
      invariant maxVal == WindowMax(img, x, y, (ky + 1) * 3)
    {
      for kx := -1 to 2
        invariant maxVal == WindowMax(img, x, y, (ky + 1) * 3 + kx + 1)
      {
        var val := GetPixel(img, x + kx, y + ky);
        WindowMaxStep(img, x, y, kx, ky);
        if val > maxVal {
          maxVal := val;
        }
      }
    }
  }


  /** `Apply_Erosion`: fills `dest` with the eroded image, then copies it over `src`. */
  method ApplyErosion(src: array<Byte>, dest: array<Byte>)
    requires src.Length == Size && dest.Length == Size && src != dest
    modifies src, dest
    ensures src[..] == Eroded(old(src[..]))
    ensures dest[..] == src[..]
  {
    ghost var img := src[..];
    for y := 0 to Height
      invariant src[..] == img
      invariant forall i :: 0 <= i < y * Width ==> dest[i] == ErodedAt(img, i)
    {
      for x := 0 to Width
        invariant src[..] == img
        invariant forall i :: 0 <= i < y * Width + x ==> dest[i] == ErodedAt(img, i)
      {
        var minVal := ErodePixel(src, x, y);
        CoordinatesOfIndex(x, y);
        dest[y * Width + x] := minVal;
      }
    }
    forall i | 0 <= i < Size {
      src[i] := dest[i];
    }
  }

  /** `Apply_Dilation`: fills `dest` with the dilated image, then copies it over `src`. */
  method ApplyDilation(src: array<Byte>, dest: array<Byte>)
    requires src.Length == Size && dest.Length == Size && src != dest
    modifies src, dest
    ensures src[..] == Dilated(old(src[..]))
    ensures dest[..] == src[..]
  {
    ghost var img := src[..];
    for y := 0 to Height
      invariant src[..] == img
      invariant forall i :: 0 <= i < y * Width ==> dest[i] == DilatedAt(img, i)
    {
      for x := 0 to Width
        invariant src[..] == img
        invariant forall i :: 0 <= i < y * Width + x ==> dest[i] == DilatedAt(img, i)
      {
        var maxVal := DilatePixel(src, x, y);
        CoordinatesOfIndex(x, y);
        dest[y * Width + x] := maxVal;
      }
    }
    forall i | 0 <= i < Size {
      src[i] := dest[i];
    }
  }

  /** A read of the source at offset (dx, dy) from (x, y). */
  function Neighbour(img: seq<Byte>, x: int, y: int, dx: int, dy: int): Byte
    requires |img| == Size
  {
    GetPixel(img, x + dx, y + dy)
  }

  /** The window of (x, y) holds exactly the reads at offsets dx, dy in -1..1. */
  lemma WindowOffsets(img: seq<Byte>, x: int, y: int, dx: int, dy: int)
    requires |img| == Size && -1 <= dx <= 1 && -1 <= dy <= 1
    ensures 0 <= (dy + 1) * 3 + dx + 1 < 9
    ensures WindowRead(img, x, y, (dy + 1) * 3 + dx + 1) == Neighbour(img, x, y, dx, dy)
  {
  }

  /** An eroded pixel is the minimum of the source over its 3x3 neighbourhood,
      with neighbours outside the image read as 0. */
  lemma ErodedIsNeighbourhoodMin(img: seq<Byte>, x: int, y: int)
    requires |img| == Size && InImage(x, y)
    ensures forall dx, dy :: -1 <= dx <= 1 && -1 <= dy <= 1 ==>
      Eroded(img)[y * Width + x] <= Neighbour(img, x, y, dx, dy)
    ensures exists dx, dy ::
      -1 <= dx <= 1 && -1 <= dy <= 1 && Eroded(img)[y * Width + x] == Neighbour(img, x, y, dx, dy)
  {
    CoordinatesOfIndex(x, y);
    var m := Eroded(img)[y * Width + x];
    assert m == WindowMin(img, x, y, 9);
    WindowMinIsMin(img, x, y, 9);
    forall dx, dy | -1 <= dx <= 1 && -1 <= dy <= 1
      ensures m <= Neighbour(img, x, y, dx, dy)
    {
      WindowOffsets(img, x, y, dx, dy);
    }
    var k :| 0 <= k < 9 && m == WindowRead(img, x, y, k);
    WindowOffsets(img, x, y, OffsetX[k], OffsetY[k]);
  }

  /** A dilated pixel is the maximum of the source over its 3x3 neighbourhood. */
  lemma DilatedIsNeighbourhoodMax(img: seq<Byte>, x: int, y: int)
    requires |img| == Size && InImage(x, y)
    ensures forall dx, dy :: -1 <= dx <= 1 && -1 <= dy <= 1 ==>
      Neighbour(img, x, y, dx, dy) <= Dilated(img)[y * Width + x]
    ensures exists dx, dy ::
      -1 <= dx <= 1 && -1 <= dy <= 1 && Dilated(img)[y * Width + x] == Neighbour(img, x, y, dx, dy)
  {
    CoordinatesOfIndex(x, y);
    var m := Dilated(img)[y * Width + x];
    assert m == WindowMax(img, x, y, 9);
    WindowMaxIsMax(img, x, y, 9);
    forall dx, dy | -1 <= dx <= 1 && -1 <= dy <= 1
      ensures Neighbour(img, x, y, dx, dy) <= m
    {
      WindowOffsets(img, x, y, dx, dy);
    }
    var k :| 0 <= k < 9 && m == WindowRead(img, x, y, k);
    WindowOffsets(img, x, y, OffsetX[k], OffsetY[k]);
  }

  /** Erosion never brightens a pixel, and it blackens the whole border,
      because every border pixel has a neighbour outside the image. */
  lemma ErosionShrinksAndClearsBorder(img: seq<Byte>, x: int, y: int)
    requires |img| == Size && InImage(x, y)
    ensures Eroded(img)[y * Width + x] <= img[y * Width + x]
    ensures x == 0 || x == Width - 1 || y == 0 || y == Height - 1 ==> Eroded(img)[y * Width + x] == 0
  {
    ErodedIsNeighbourhoodMin(img, x, y);
    assert Neighbour(img, x, y, 0, 0) == img[y * Width + x];
    if x == 0 {
      assert Neighbour(img, x, y, -1, 0) == 0;
    } else if x == Width - 1 {
      assert Neighbour(img, x, y, 1, 0) == 0;
    } else if y == 0 {
      assert Neighbour(img, x, y, 0, -1) == 0;
    } else if y == Height - 1 {
      assert Neighbour(img, x, y, 0, 1) == 0;
    }
  }

  /** Dilation never darkens a pixel. */
  lemma DilationGrows(img: seq<Byte>, x: int, y: int)
    requires |img| == Size && InImage(x, y)
    ensures img[y * Width + x] <= Dilated(img)[y * Width + x]
  {
    DilatedIsNeighbourhoodMax(img, x, y);
    assert Neighbour(img, x, y, 0, 0) == img[y * Width + x];
  }

  /** Number of occurrences of the value v among the pixels s. */
  function Count(s: seq<Byte>, v: int): nat
  {
    if s == [] then 0 else Count(s[..|s| - 1], v) + (if s[|s| - 1] == v then 1 else 0)
  }

  function Sum(h: seq<int>): int
  {
    if h == [] then 0 else Sum(h[..|h| - 1]) + h[|h| - 1]
  }

  lemma {:induction false} SumOfZeros(h: seq<int>)
    requires forall j :: 0 <= j < |h| ==> h[j] == 0
    ensures Sum(h) == 0
    decreases |h|
  {
    if h != [] {
      SumOfZeros(h[..|h| - 1]);
    }
  }

  /** Incrementing one bin raises the total by one. */
  lemma {:induction false} SumIncrement(h: seq<int>, j: int)
    requires 0 <= j < |h|
    ensures Sum(h[j := h[j] + 1]) == Sum(h) + 1
    decreases |h|
  {
    var h' := h[j := h[j] + 1];
    assert h'[..|h| - 1] == if j < |h| - 1 then h[..|h| - 1][j := h[j] + 1] else h[..|h| - 1];
    if j < |h| - 1 {
      SumIncrement(h[..|h| - 1], j);
    }
  }

  /** The 256-bin histogram of the pixel values s. */
  ghost function Histogram(s: seq<Byte>): (h: seq<nat>)
    ensures |h| == 256
  {
    seq(256, v => Count(s, v))
  }

  /** The histogram loop of `Apply_Otsu`: bin v counts the first `size`
      pixels equal to v, and the bins add up to `size`. */
  method BuildHistogram(img: array<Byte>, size: int) returns (hist: seq<nat>)
    requires 0 <= size <= img.Length
    ensures |hist| == 256
    ensures forall v :: 0 <= v < 256 ==> hist[v] == Count(img[..size], v)
    ensures Sum(hist) == size
  {
    var h := new nat[256](_ => 0);
    SumOfZeros(h[..]);
    for i := 0 to size
      invariant forall v :: 0 <= v < 256 ==> h[v] == Count(img[..i], v)
      invariant Sum(h[..]) == i
    {
      ghost var before := h[..];
      assert img[..i + 1][..i] == img[..i];
      h[img[i]] := h[img[i]] + 1;
      assert h[..] == before[img[i] := before[img[i]] + 1];
      SumIncrement(before, img[i]);
    }
    hist := h[..];
  }

  /** The binarisation loop of `Apply_Otsu`: each of the first `size` pixels
      becomes 255 when it exceeds the threshold and 0 otherwise. */
  method Binarize(img: array<Byte>, size: int, threshold: Byte)
    requires 0 <= size <= img.Length
    modifies img
    ensures forall i :: 0 <= i < size ==> img[i] == (if old(img[i]) > threshold then 255 else 0)
    ensures forall i :: size <= i < img.Length ==> img[i] == old(img[i])
  {
    for i := 0 to size
      invariant forall j :: 0 <= j < i ==> img[j] == (if old(img[j]) > threshold then 255 else 0)
      invariant forall j :: i <= j < img.Length ==> img[j] == old(img[j])
    {
      img[i] := if img[i] > threshold then 255 else 0;
    }
  }

  /** Pixels at or below level t: the running `w_bg` of the search. */
  function Below(hist: seq<nat>, t: int): nat
    requires |hist| == 256 && -1 <= t < 256
  {
    if t < 0 then 0 else Below(hist, t - 1) + hist[t]
  }

  /** Sum of the levels of the pixels at or below level t: the running
      `sum_bg`; at t = 255 it is `sum_total`. */
  function LevelSum(hist: seq<nat>, t: int): nat
    requires |hist| == 256 && -1 <= t < 256
  {
    if t < 0 then 0 else LevelSum(hist, t - 1) + t * hist[t]
  }

  /** The search is still running at level t: no earlier level put every
      pixel into the background (the `break` on `w_fg == 0`). */
  predicate Reached(hist: seq<nat>, size: int, t: int)
    requires |hist| == 256 && 0 <= t <= 256
  {
    forall u :: 0 <= u < t ==> Below(hist, u) == 0 || size != Below(hist, u)
  }

  /** Level t is weighed by the search: it is reached, and both classes are
      non-empty there. */
  predicate Candidate(hist: seq<nat>, size: int, t: int)
    requires |hist| == 256 && 0 <= t < 256
  {
    Reached(hist, size, t) && Below(hist, t) > 0 && size != Below(hist, t)
  }

  /** The between-class variance `w_bg * w_fg * (m_bg - m_fg)^2` of two
      classes of wBg and wFg pixels whose levels add up to sBg and sFg, in
      exact arithmetic; each mean is its class's level sum over its size. */
  function Spread(wBg: int, wFg: int, sBg: int, sFg: int): real
    requires wBg != 0 && wFg != 0
  {
    var mBg := sBg as real / wBg as real;
    var mFg := sFg as real / wFg as real;
    wBg as real * wFg as real * (mBg - mFg) * (mBg - mFg)
  }

  /** The between-class variance when the background is the levels 0..t. */
  function Variance(hist: seq<nat>, size: int, t: int): real
    requires |hist| == 256 && 0 <= t < 256 && Below(hist, t) > 0 && size != Below(hist, t)
  {
    Spread(Below(hist, t), size - Below(hist, t), LevelSum(hist, t), LevelSum(hist, 255) - LevelSum(hist, t))
  }

  /** Otsu's choice: the first weighed level whose variance is positive and
      not exceeded by any weighed level; 0 when no weighed level has a
      positive variance. */
  predicate IsOtsuThreshold(hist: seq<nat>, size: int, t: int)
    requires |hist| == 256
  {
    0 <= t < 256 &&
    if Candidate(hist, size, t) && Variance(hist, size, t) > 0.0 then
      forall u :: 0 <= u < 256 && Candidate(hist, size, u) ==>
        Variance(hist, size, u) <= Variance(hist, size, t) &&
        (u < t ==> Variance(hist, size, u) < Variance(hist, size, t))
    else
      t == 0 && forall u :: 0 <= u < 256 && Candidate(hist, size, u) ==> Variance(hist, size, u) <= 0.0
  }

  /** At most one level is Otsu's choice for a histogram. */
  lemma OtsuThresholdUnique(hist: seq<nat>, size: int, t1: int, t2: int)
    requires |hist| == 256 && IsOtsuThreshold(hist, size, t1) && IsOtsuThreshold(hist, size, t2)
    ensures t1 == t2
  {
  }

  /** A search that stops at level t (every pixel is in the background there)
      weighs no level from t on. */
  lemma StopsAt(hist: seq<nat>, size: int, t: int)
    requires |hist| == 256 && 0 <= t < 256 && Below(hist, t) > 0 && size == Below(hist, t)
    ensures forall u :: t <= u < 256 ==> !Candidate(hist, size, u)
  {
    forall u | t <= u < 256
      ensures !Candidate(hist, size, u)
    {
      if u > t {
        assert !(Below(hist, t) == 0 || size != Below(hist, t));
      }
    }
  }

  /** The search goes on past level t unless level t holds every pixel. */
  lemma ReachedNext(hist: seq<nat>, size: int, t: int)
    requires |hist| == 256 && 0 <= t < 256 && Reached(hist, size, t)
    requires Below(hist, t) == 0 || size != Below(hist, t)
    ensures Reached(hist, size, t + 1)
  {
  }

  /** The first loop of `Apply_Otsu`'s search: `sum_total`. */
  method TotalLevelSum(hist: seq<nat>) returns (sumTotal: int)
    requires |hist| == 256
    ensures sumTotal == LevelSum(hist, 255)
  {
    sumTotal := 0;
    for i := 0 to 256
      invariant sumTotal == LevelSum(hist, i - 1)
    {
      sumTotal := sumTotal + i * hist[i];
    }
  }

  /** The threshold search of `Apply_Otsu`: one pass over the levels keeping
      the largest between-class variance, strictly larger to replace it. */
  method OtsuThreshold(hist: seq<nat>, size: int) returns (threshold: Byte)
    requires |hist| == 256
    ensures IsOtsuThreshold(hist, size, threshold)
  {
    var sumTotal := TotalLevelSum(hist);
    var sumBg: int := 0;
    var wBg: int := 0;
    var varMax: real := 0.0;
    threshold := 0;
    var t := 0;
    while t < 256
      invariant 0 <= t <= 256 && Reached(hist, size, t)
      invariant wBg == Below(hist, t - 1) && sumBg == LevelSum(hist, t - 1)
      invariant varMax >= 0.0
      invariant varMax > 0.0 ==>
        threshold < t && Candidate(hist, size, threshold) && Variance(hist, size, threshold) == varMax
      invariant varMax <= 0.0 ==> threshold == 0
      invariant forall u :: 0 <= u < t && Candidate(hist, size, u) ==> Variance(hist, size, u) <= varMax
      invariant forall u :: 0 <= u < threshold && Candidate(hist, size, u) ==> Variance(hist, size, u) < varMax
    {
      wBg := wBg + hist[t];
      if wBg == 0 {
        ReachedNext(hist, size, t);
        t := t + 1;
        continue;
      }
      var wFg := size - wBg;
      if wFg == 0 {
        StopsAt(hist, size, t);
        break;
      }
      sumBg := sumBg + t * hist[t];
      var varBet := Spread(wBg, wFg, sumBg, sumTotal - sumBg);
      assert Candidate(hist, size, t) && varBet == Variance(hist, size, t);
      if varBet > varMax {
        varMax := varBet;
        threshold := t;
      }
      ReachedNext(hist, size, t);
      t := t + 1;
    }
  }

  /** `Apply_Otsu`: histogram, threshold search, binarisation. */
  method ApplyOtsu(img: array<Byte>, size: int) returns (threshold: Byte)
    requires 0 <= size <= img.Length
    modifies img
    ensures IsOtsuThreshold(Histogram(old(img[..size])), size, threshold)
    ensures forall i :: 0 <= i < size ==> (img[i] == 0 || img[i] == 255)
    ensures forall i :: 0 <= i < size ==> (img[i] == 255 <==> old(img[i]) > threshold)
    ensures forall i :: size <= i < img.Length ==> img[i] == old(img[i])
  {
    var hist := BuildHistogram(img, size);
    assert hist == Histogram(img[..size]);
    threshold := OtsuThreshold(hist, size);
    Binarize(img, size, threshold);
  }
}
