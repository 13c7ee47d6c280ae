/** The byte layout shared by the IDX reader and writer: big-endian unsigned
    32-bit header words (Python `struct` format `>I`) and the row-major
    flattening of an N x R x C array of bytes (numpy `tobytes` / `reshape`). */
module IdxLayout {
  import opened Base

  const TwoTo32: int := 0x1_0000_0000

  /** `struct.pack(">I", n)`: the four bytes of n, most significant first. */
  function BeU32(n: int): (b: seq<Byte>)
    requires 0 <= n < TwoTo32
    ensures |b| == 4
  {
    [n / 0x100_0000, (n / 0x1_0000) % 0x100, (n / 0x100) % 0x100, n % 0x100]
  }

  /** The number a byte string spells in base 256, most significant byte first. */
  function BigEndian(b: seq<Byte>): nat
  {
    if b == [] then 0 else BigEndian(b[..|b| - 1]) * 0x100 + b[|b| - 1]
  }

  /** Four bytes spell b0*2^24 + b1*2^16 + b2*2^8 + b3. */
  lemma BigEndian4(b: seq<Byte>)
    requires |b| == 4
    ensures BigEndian(b) == (b[0] as int * 0x100 + b[1]) * 0x1_0000 + (b[2] as int * 0x100 + b[3])
  {
    assert b[..1][..0] == [];
    assert BigEndian(b[..1]) == b[0];
    assert b[..2][..1] == b[..1];
    assert BigEndian(b[..2]) == b[0] as int * 0x100 + b[1];
    assert b[..3][..2] == b[..2];
    assert BigEndian(b[..3]) == (b[0] as int * 0x100 + b[1]) * 0x100 + b[2];
    assert b[..3] == b[..|b| - 1];
  }

  /** `struct.unpack(">I", b[..4])`: the number the first four bytes spell. */
  function ReadBeU32(b: seq<Byte>): (n: nat)
    requires |b| >= 4
    ensures n < TwoTo32
  {
    BigEndian4(b[..4]);
    BigEndian(b[..4])
  }

  /** Packing then unpacking a header word is the identity. */
  lemma ReadBeU32OfBeU32(n: int)
    requires 0 <= n < TwoTo32
    ensures ReadBeU32(BeU32(n)) == n
  {
    var b := BeU32(n);
    assert b[..4] == b;
    BigEndian4(b);
    var hi, lo := n / 0x1_0000, n % 0x1_0000;
    DivModOf(n, hi, lo, 0x1_0000);
    assert b[0] == hi / 0x100 by { DivDiv(n, 0x100, 0x1_0000); }
    assert b[1] == hi % 0x100 by { DivDiv(n, 0x1_0000, 0x100); }
    assert b[2] == lo / 0x100 by { ModDiv(n, 0x1_0000, 0x100); }
    assert b[3] == lo % 0x100 by { ModMod(n, 0x1_0000, 0x100); }
  }

  /** Unpacking then packing four bytes gives them back. */
  lemma BeU32OfReadBeU32(b: seq<Byte>)
    requires |b| == 4
    ensures BeU32(ReadBeU32(b)) == b
  {
    var n := ReadBeU32(b);
    assert b[..4] == b;
    BigEndian4(b);
    var hi: int := b[0] as int * 0x100 + b[1];
    var lo: int := b[2] as int * 0x100 + b[3];
    assert n == hi * 0x1_0000 + lo;
    assert n / 0x100_0000 == b[0] by {
      DivModOf(n, b[0], b[1] as int * 0x1_0000 + lo, 0x100_0000);
    }
    assert (n / 0x1_0000) % 0x100 == b[1] by {
      DivModOf(n, hi, lo, 0x1_0000);
      DivModOf(hi, b[0], b[1], 0x100);
    }
    assert (n / 0x100) % 0x100 == b[2] && n % 0x100 == b[3] by {
      DivModOf(n, hi * 0x100 + b[2], b[3], 0x100);
      DivModOf(hi * 0x100 + b[2], hi, b[2], 0x100);
    }
  }

  /** Division by a positive constant recovers quotient and remainder. */
  lemma DivModOf(n: int, q: int, r: int, d: int)
    requires d > 0 && 0 <= r < d && n == q * d + r
    ensures n / d == q && n % d == r
  {
    var q', r' := n / d, n % d;
    assert (q - q') * d == r' - r;
    if q > q' {
      assert (q - q') * d >= d by { MulAtLeast(q - q', d); }
    } else if q < q' {
      assert (q' - q) * d >= d by { MulAtLeast(q' - q, d); }
    }
  }

  lemma DivDiv(n: nat, a: nat, b: nat)
    requires a > 0 && b > 0
    ensures n / (a * b) == n / b / a
  {
    var q, r := n / b, n % b;
    var q2, r2 := q / a, q % a;
    assert n == (q2 * a + r2) * b + r;
    assert n == q2 * (a * b) + (r2 * b + r);
    assert r2 * b + r < a * b by { MulMonotone(r2 + 1, a, b); }
    DivModOf(n, q2, r2 * b + r, a * b);
  }

  /** Bytes below position b*a: (n % (b*a)) / a == (n / a) % b. */
  lemma ModDiv(n: nat, m: nat, a: nat)
    requires a > 0 && m > 0 && m % a == 0
    ensures (n % m) / a == (n / a) % (m / a)
  {
    var k := m / a;
    assert m == k * a;
    assert k > 0;
    var q, r := n / a, n % a;
    var q2, r2 := q / k, q % k;
    assert n == q2 * m + (r2 * a + r);
    assert r2 * a + r < m by { MulMonotone(r2 + 1, k, a); }
    DivModOf(n, q2, r2 * a + r, m);
    DivModOf(r2 * a + r, r2, r, a);
  }

  lemma ModMod(n: nat, m: nat, a: nat)
    requires a > 0 && m > 0 && m % a == 0
    ensures (n % m) % a == n % a
  {
    var k := m / a;
    assert m == k * a;
    var q, r := n / m, n % m;
    assert n == (q * k) * a + r;
    var q2, r2 := r / a, r % a;
    assert n == (q * k + q2) * a + r2;
    DivModOf(n, q * k + q2, r2, a);
  }

  lemma MulAtLeast(a: int, d: int)
    requires a >= 1 && d > 0
    ensures a * d >= d
  {
  }

  /** Concatenation of a sequence of sequences, in order. */
  function Concat<T>(xs: seq<seq<T>>): seq<T>
  {
    if xs == [] then [] else Concat(xs[..|xs| - 1]) + xs[|xs| - 1]
  }

  lemma {:induction false} ConcatLength<T>(xs: seq<seq<T>>, k: nat)
    requires forall i :: 0 <= i < |xs| ==> |xs[i]| == k
    ensures |Concat(xs)| == |xs| * k
    decreases |xs|
  {
    if xs != [] {
      var init := xs[..|xs| - 1];
      ConcatLength(init, k);
      assert |Concat(xs)| == |Concat(init)| + |xs[|xs| - 1]|;
      MulPred(|xs|, k);
    }
  }

  /** The first n consecutive blocks of k elements of s. */
  function Chunks<T>(s: seq<T>, n: nat, k: nat): (r: seq<seq<T>>)
    requires |s| == n * k
    ensures |r| == n && forall i :: 0 <= i < n ==> |r[i]| == k
  {
    if n == 0 then []
    else
      MulPred(n, k);
      Chunks(s[..(n - 1) * k], n - 1, k) + [s[(n - 1) * k..]]
  }

  lemma {:induction false} ChunksAt<T>(s: seq<T>, n: nat, k: nat, i: nat, j: nat)
    requires |s| == n * k && i < n && j < k
    ensures i * k + j < |s| && Chunks(s, n, k)[i][j] == s[i * k + j]
    decreases n
  {
    MulPred(n, k);
    var m := (n - 1) * k;
    var init := Chunks(s[..m], n - 1, k);
    assert Chunks(s, n, k) == init + [s[m..]];
    if i < n - 1 {
      MulMonotone(i + 1, n - 1, k);
      MulPred(i + 1, k);
      assert i * k + j < m;
      ChunksAt(s[..m], n - 1, k, i, j);
      assert Chunks(s, n, k)[i] == init[i];
    } else {
      assert Chunks(s, n, k)[i] == s[m..];
    }
  }

  lemma MulPred(a: nat, k: nat)
    requires a > 0
    ensures (a - 1) * k == a * k - k
  {
  }

  lemma MulMonotone(a: nat, b: nat, k: nat)
    requires a <= b
    ensures a * k <= b * k
  {
  }

  /** Cutting a concatenation of k-blocks into k-blocks restores the blocks. */
  lemma {:induction false} ChunksOfConcat<T>(xs: seq<seq<T>>, k: nat)
    requires forall i :: 0 <= i < |xs| ==> |xs[i]| == k
    ensures |Concat(xs)| == |xs| * k && Chunks(Concat(xs), |xs|, k) == xs
    decreases |xs|
  {
    ConcatLength(xs, k);
    if xs != [] {
      var init := xs[..|xs| - 1];
      ConcatLength(init, k);
      assert Concat(xs)[..(|xs| - 1) * k] == Concat(init);
      assert Concat(xs)[(|xs| - 1) * k..] == xs[|xs| - 1];
      ChunksOfConcat(init, k);
    }
  }

  /** A well-formed N x R x C byte array: every image has R rows of C bytes. */
  predicate Shaped(data: seq<seq<seq<Byte>>>, rows: nat, cols: nat)
  {
    forall i :: 0 <= i < |data| ==>
      |data[i]| == rows && forall r :: 0 <= r < rows ==> |data[i][r]| == cols
  }

  /** `np.reshape(payload, (n, rows, cols))`. */
  function Reshape(payload: seq<Byte>, n: nat, rows: nat, cols: nat): (r: seq<seq<seq<Byte>>>)
    requires |payload| == n * (rows * cols)
    ensures |r| == n && Shaped(r, rows, cols)
  {
    var images := Chunks(payload, n, rows * cols);
    seq(n, i requires 0 <= i < n => Chunks(images[i], rows, cols))
  }

  /** `array.tobytes()`: the bytes in row-major order. */
  function Flatten(data: seq<seq<seq<Byte>>>): seq<Byte>
  {
    Concat(seq(|data|, i requires 0 <= i < |data| => Concat(data[i])))
  }

  lemma FlattenLength(data: seq<seq<seq<Byte>>>, rows: nat, cols: nat)
    requires Shaped(data, rows, cols)
    ensures |Flatten(data)| == |data| * (rows * cols)
  {
    var images := seq(|data|, i requires 0 <= i < |data| => Concat(data[i]));
    forall i | 0 <= i < |data| ensures |images[i]| == rows * cols {
      ConcatLength(data[i], cols);
    }
    ConcatLength(images, rows * cols);
  }

  /** Element (i, r, c) of a reshaped payload is payload byte i*R*C + r*C + c. */
  lemma ReshapeAt(payload: seq<Byte>, n: nat, rows: nat, cols: nat, i: nat, r: nat, c: nat)
    requires |payload| == n * (rows * cols) && i < n && r < rows && c < cols
    ensures i * (rows * cols) + r * cols + c < |payload|
    ensures Reshape(payload, n, rows, cols)[i][r][c] == payload[i * (rows * cols) + r * cols + c]
  {
    var size := rows * cols;
    var images := Chunks(payload, n, size);
    var offset := r * cols + c;
    assert offset < size by {
      MulMonotone(r + 1, rows, cols);
      MulPred(r + 1, cols);
    }
    ChunksAt(images[i], rows, cols, r, c);
    ChunksAt(payload, n, size, i, offset);
    assert Reshape(payload, n, rows, cols)[i] == Chunks(images[i], rows, cols);
  }

  /** Reshaping the flattening of a well-formed array gives the array back. */
  lemma ReshapeOfFlatten(data: seq<seq<seq<Byte>>>, rows: nat, cols: nat)
    requires Shaped(data, rows, cols)
    ensures |Flatten(data)| == |data| * (rows * cols)
    ensures Reshape(Flatten(data), |data|, rows, cols) == data
  {
    FlattenLength(data, rows, cols);
    var images := seq(|data|, i requires 0 <= i < |data| => Concat(data[i]));
    forall i | 0 <= i < |data| ensures |images[i]| == rows * cols {
      ConcatLength(data[i], cols);
    }
    ChunksOfConcat(images, rows * cols);
    forall i | 0 <= i < |data| ensures Chunks(images[i], rows, cols) == data[i] {
      ChunksOfConcat(data[i], cols);
    }
  }
}
