/** The letter sampler behind `randBytes`: each 63-bit draw is read as ten
    6-bit chunks, lowest bits first; a chunk below 52 selects a letter of
    `LetterBytes`, any other chunk is discarded. */
module Letters {
  import opened Types

  /** The 52 letters a-z then A-Z, written in four pieces so that the
      verifier can index them. */
  const LetterBytes: string := "abcdefghijklm" + "nopqrstuvwxyz" + "ABCDEFGHIJKLM" + "NOPQRSTUVWXYZ"
  /** Bits per letter index. */
  const LetterIdxBits: nat := 6
  /** `1 << LetterIdxBits - 1`. */
  const LetterIdxMask: nat := 63
  /** `63 / LetterIdxBits`: chunks read from one draw before it is refilled. */
  const LetterIdxMax: nat := 10

  predicate IsLetter(c: char) {
    ('a' <= c <= 'z') || ('A' <= c <= 'Z')
  }

  predicate AllLetters(b: Bytes) {
    forall k :: 0 <= k < |b| ==> IsLetter(b[k])
  }

  lemma LetterBytesAreLetters()
    ensures |LetterBytes| == 52
    ensures forall k :: 0 <= k < |LetterBytes| ==> IsLetter(LetterBytes[k])
  {
  }

  /** 64^r, the divisor a right shift by 6r bits stands for. */
  function Pow64(r: nat): (p: nat)
    ensures p >= 1
  {
    if r == 0 then 1 else 64 * Pow64(r - 1)
  }

  lemma MulLe(b: nat, x: nat, y: nat)
    requires x <= y
    ensures b * x <= b * y
  {
  }

  /** The quotient is determined by the remainder's bound. */
  lemma DivUnique(a: nat, m: nat, q: nat, rem: nat)
    requires m >= 1 && a == m * q + rem && rem < m
    ensures a / m == q
  {
    var q1, r1 := a / m, a % m;
    assert a == m * q1 + r1 && r1 < m;
    assert m * (q + 1) == m * q + m && m * (q1 + 1) == m * q1 + m;
    if q1 > q {
      MulLe(m, q + 1, q1);
    } else if q1 < q {
      MulLe(m, q1 + 1, q);
    }
  }

  /** Dividing by b and then by 64 is dividing by 64 * b. */
  lemma DivDiv(a: nat, b: nat)
    requires b >= 1
    ensures a / b / 64 == a / (64 * b)
  {
    var q, r1 := a / b, a % b;
    var q2, r2 := q / 64, q % 64;
    assert a == b * q + r1;
    assert b * q == b * (64 * q2 + r2);
    MulDistrib(b, 64 * q2, r2);
    assert b * (64 * q2) == (64 * b) * q2;
    MulLe(b, r2, 63);
    DivUnique(a, 64 * b, q2, b * r2 + r1);
  }

  lemma MulDistrib(b: nat, x: nat, y: nat)
    ensures b * (x + y) == b * x + b * y
  {
  }

  /** `d >> (LetterIdxBits * r)` for a non-negative `d`, shifting six bits
      at a time. */
  function Shifted(d: nat, r: nat): (s: nat)
    ensures s == d / Pow64(r)
  {
    if r == 0 then d
    else
      DivDiv(d, Pow64(r - 1));
      Shifted(d, r - 1) / 64
  }

  /** The r-th chunk of a draw, `(d >> (6 * r)) & 63`: bits 6r .. 6r + 5. */
  function Chunk(d: nat, r: nat): (x: nat)
    ensures x <= LetterIdxMask
    ensures x == d / Pow64(r) % 64
  {
    Shifted(d, r) % 64
  }

  /** The stream of chunks the sampler reads from the draws `ds`: the ten
      chunks of each draw, lowest first, draw after draw. Every chunk is a
      6-bit value. */
  function Chunks(ds: seq<nat>): (xs: seq<nat>)
    ensures |xs| == 10 * |ds|
    ensures forall k :: 0 <= k < |xs| ==> xs[k] <= LetterIdxMask
  {
    if ds == [] then [] else seq(10, r requires 0 <= r < 10 => Chunk(ds[0], r)) + Chunks(ds[1..])
  }

  /** Chunk r of draw d sits at index 10 * d + r of the stream. */
  lemma {:induction false} ChunkOf(ds: seq<nat>, d: nat, r: nat)
    requires d < |ds| && r < 10
    ensures Chunks(ds)[10 * d + r] == Chunk(ds[d], r)
  {
    if d > 0 {
      ChunkOf(ds[1..], d - 1, r);
      assert ds[1..][d - 1] == ds[d];
    }
  }

  /** `idx < len(letterBytes)`, the length being 52 (LetterBytesAreLetters). */
  predicate Accepted(x: nat) {
    x < 52
  }

  /** The letter an accepted chunk selects, `letterBytes[x]` (LetterIsLetterBytes). */
  function Letter(x: nat): (l: char)
    requires Accepted(x)
    ensures IsLetter(l)
  {
    if x < 26 then (97 + x) as char else (65 + (x - 26)) as char
  }

  lemma LetterIsLetterBytes(x: nat)
    requires Accepted(x)
    ensures Letter(x) == LetterBytes[x]
  {
  }

  /** Number of accepted chunks from index c to the end of the stream. */
  function AcceptedFrom(xs: seq<nat>, c: nat): nat
    requires c <= |xs|
    decreases |xs| - c
  {
    if c == |xs| then 0
    else (if Accepted(xs[c]) then 1 else 0) + AcceptedFrom(xs, c + 1)
  }

  /** The letters taken from chunk `start` onwards, and the chunk index `stop`
      just past the last chunk read. */
  datatype Scan = Scan(letters: seq<char>, stop: nat)

  /** Read chunks from index c until n letters have been accepted. */
  function Take(xs: seq<nat>, c: nat, n: nat): (r: Scan)
    requires c <= |xs| && AcceptedFrom(xs, c) >= n
    ensures |r.letters| == n
    ensures c + n <= r.stop <= |xs|
    decreases |xs| - c
  {
    if n == 0 then Scan([], c)
    else if Accepted(xs[c]) then
      var rest := Take(xs, c + 1, n - 1);
      Scan([Letter(xs[c])] + rest.letters, rest.stop)
    else
      Take(xs, c + 1, n)
  }

  /** The draws hold the initial draw and enough accepted chunks for n letters. */
  predicate Enough(ds: seq<nat>, n: nat) {
    |ds| >= 1 && AcceptedFrom(Chunks(ds), 0) >= n
  }

  /** A buffer of n bytes after the letters `ls` have been stored from its
      end: the t-th letter at index n - 1 - t, the bytes before still zero. */
  function Placed(ls: seq<char>, n: nat): (b: Bytes)
    requires |ls| <= n
    ensures |b| == n
  {
    seq(n, k requires 0 <= k < n => if n - 1 - k < |ls| then ls[n - 1 - k] else 0 as char)
  }

  /** Storing one more letter writes the byte just before those stored. */
  lemma PlacedStep(ls: seq<char>, n: nat, x: char)
    requires |ls| < n
    ensures Placed(ls + [x], n) == Placed(ls, n)[n - 1 - |ls| := x]
  {
  }

  /** The n bytes `randBytes(n)` returns when the source yields `ds`: the
      t-th accepted letter is stored at index n - 1 - t. */
  function RandBytes(ds: seq<nat>, n: nat): (b: Bytes)
    requires Enough(ds, n)
    ensures |b| == n
  {
    Placed(Take(Chunks(ds), 0, n).letters, n)
  }

  /** Every byte the scan collects is one of the 52 letters. */
  lemma {:induction false} TakeLetters(xs: seq<nat>, c: nat, n: nat)
    requires c <= |xs| && AcceptedFrom(xs, c) >= n
    ensures AllLetters(Take(xs, c, n).letters)
    decreases |xs| - c
  {
    if n > 0 {
      if Accepted(xs[c]) {
        TakeLetters(xs, c + 1, n - 1);
        var r := Take(xs, c, n);
        var rest := Take(xs, c + 1, n - 1);
        assert r.letters == [Letter(xs[c])] + rest.letters;
        assert forall k :: 1 <= k < |r.letters| ==> r.letters[k] == rest.letters[k - 1];
      } else {
        TakeLetters(xs, c + 1, n);
      }
    }
  }

  /** `randBytes` yields letters only. */
  lemma RandBytesAreLetters(ds: seq<nat>, n: nat)
    requires Enough(ds, n)
    ensures AllLetters(RandBytes(ds, n))
  {
    TakeLetters(Chunks(ds), 0, n);
    var letters := Take(Chunks(ds), 0, n).letters;
    assert forall k :: 0 <= k < n ==> RandBytes(ds, n)[k] == letters[n - 1 - k];
  }

  /** The number of draws `randBytes(n)` consumes: one at the start, and one
      more each time ten chunks have been read and another is needed. */
  function DrawsUsed(ds: seq<nat>, n: nat): (d: nat)
    requires Enough(ds, n)
    ensures 1 <= d <= |ds|
    ensures d >= (n + 9) / 10
    ensures n == 0 ==> d == 1
  {
    var stop := Take(Chunks(ds), 0, n).stop;
    if stop == 0 then 1 else (stop + 9) / 10
  }

  /** The scan ends just past the n-th accepted chunk: the last chunk it
      read was accepted. */
  lemma {:induction false} TakeStopAccepted(xs: seq<nat>, c: nat, n: nat)
    requires c <= |xs| && AcceptedFrom(xs, c) >= n && n > 0
    ensures Accepted(xs[Take(xs, c, n).stop - 1])
    decreases |xs| - c
  {
    if Accepted(xs[c]) {
      if n > 1 {
        TakeStopAccepted(xs, c + 1, n - 1);
      }
    } else {
      TakeStopAccepted(xs, c + 1, n);
    }
  }

  /** The chunks the scan did not read hold exactly the accepted chunks it
      did not need. */
  lemma {:induction false} TakeStopRest(xs: seq<nat>, c: nat, n: nat)
    requires c <= |xs| && AcceptedFrom(xs, c) >= n
    ensures AcceptedFrom(xs, Take(xs, c, n).stop) == AcceptedFrom(xs, c) - n
    decreases |xs| - c
  {
    if n > 0 {
      if Accepted(xs[c]) {
        TakeStopRest(xs, c + 1, n - 1);
      } else {
        TakeStopRest(xs, c + 1, n);
      }
    }
  }

  /** The letters of the accepted chunks among chunks a .. c - 1, in order. */
  function Collected(xs: seq<nat>, a: nat, c: nat): (ls: seq<char>)
    requires a <= c <= |xs|
    ensures |ls| <= c - a
    decreases c - a
  {
    if a == c then []
    else LetterOf(xs, a) + Collected(xs, a + 1, c)
  }

  /** The letters chunk c contributes: its letter when it is accepted. */
  function LetterOf(xs: seq<nat>, c: nat): (l: seq<char>)
    requires c < |xs|
    ensures |l| == (if Accepted(xs[c]) then 1 else 0)
  {
    if Accepted(xs[c]) then [Letter(xs[c])] else []
  }

  /** Reading one more chunk adds its letter at the end when it is accepted. */
  lemma {:induction false} CollectedSnoc(xs: seq<nat>, a: nat, c: nat)
    requires a <= c < |xs|
    ensures Collected(xs, a, c + 1) == Collected(xs, a, c) + LetterOf(xs, c)
    decreases c - a
  {
    if a < c {
      CollectedSnoc(xs, a + 1, c);
      calc {
        Collected(xs, a, c + 1);
        LetterOf(xs, a) + Collected(xs, a + 1, c + 1);
        LetterOf(xs, a) + (Collected(xs, a + 1, c) + LetterOf(xs, c));
        (LetterOf(xs, a) + Collected(xs, a + 1, c)) + LetterOf(xs, c);
        Collected(xs, a, c) + LetterOf(xs, c);
      }
    } else {
      assert Collected(xs, c, c + 1) == LetterOf(xs, c) + [];
    }
  }

  /** The accepted chunks from a on are those among a .. c - 1 and those from c on. */
  lemma {:induction false} AcceptedSplit(xs: seq<nat>, a: nat, c: nat)
    requires a <= c <= |xs|
    ensures AcceptedFrom(xs, a) == |Collected(xs, a, c)| + AcceptedFrom(xs, c)
    decreases c - a
  {
    if a < c {
      AcceptedSplit(xs, a + 1, c);
    }
  }

  /** When chunks a .. c - 1 hold exactly m accepted chunks and chunk c - 1 is
      one of them, the scan for m letters from a reads exactly those chunks. */
  lemma {:induction false} CollectedIsTake(xs: seq<nat>, a: nat, c: nat, m: nat)
    requires a <= c <= |xs| && |Collected(xs, a, c)| == m
    requires m > 0 ==> a < c && Accepted(xs[c - 1])
    requires m == 0 ==> a == c
    ensures AcceptedFrom(xs, a) >= m
    ensures Take(xs, a, m) == Scan(Collected(xs, a, c), c)
    decreases c - a
  {
    AcceptedSplit(xs, a, c);
    if m > 0 {
      if a + 1 < c {
        CollectedSnoc(xs, a + 1, c - 1);
      }
      if Accepted(xs[a]) {
        CollectedIsTake(xs, a + 1, c, m - 1);
      } else {
        CollectedIsTake(xs, a + 1, c, m);
      }
    }
  }
}
