/** The arithmetic behind bn_inverse_fast: one iteration of the almost-Montgomery
    inverse on plain integers, what it keeps, and why it ends in time. */
module AlmostInverse {
  import opened Limbs
  import opened BignumBasic
  import opened Congruence

  datatype State = State(u: int, v: int, r: int, s: int, k: nat)

  /** One unfinished iteration, branches b1 to b4 of the source. */
  function Step(st: State): State
  {
    var State(u, v, r, s, k) := st;
    if u % 2 == 0 then State(u / 2, v, r, 2 * s, k + 1)
    else if v % 2 == 0 then State(u, v / 2, 2 * r, s, k + 1)
    else if v < u then State((u - v) / 2, v, r + s, 2 * s, k + 1)
    else State(u, (v - u) / 2, 2 * r, s + r, k + 1)
  }

  /** The sizes every iteration keeps while v has not reached 1. */
  ghost predicate Sizes(st: State, p: int)
  {
    && st.u >= 1 && st.v >= 1 && st.r >= 0 && st.s >= 1
    && st.u * st.s + st.v * st.r == p
  }

  /** r is zero only before the first subtraction. */
  ghost predicate Started(st: State, p: int)
  {
    st.r == 0 ==> st.s == 1 && st.u == p && st.v < p
  }

  /** u * v at least halves in every iteration. */
  ghost predicate Shrinking(st: State, x: int, p: int)
  {
    st.u * st.v * Two(st.k) <= p * x
  }

  /** s and r track v and u as multiples of x, up to 2^k. */
  ghost predicate Tracks(st: State, x: int, p: int)
    requires p > 0
  {
    Cong(x * st.s, st.v * Two(st.k), p) && Cong(x * st.r, (-st.u) * Two(st.k), p)
  }

  ghost predicate Inv(st: State, x: int, p: int)
  {
    p > 1 && p % 2 == 1 && 0 < x < p
    && Sizes(st, p) && Started(st, p) && Shrinking(st, x, p) && Tracks(st, x, p)
  }

  /** i and j witness that u and v are coprime. */
  ghost predicate Pair(st: State, i: int, j: int)
  {
    i * st.u + j * st.v == 1
  }

  lemma InitInv(x: int, p: int)
    requires p > 1 && p % 2 == 1 && 0 < x < p
    ensures Inv(State(p, x, 0, 1, 0), x, p)
  {
    CongIntro(x * 1, x * Two(0), 0, p);
    CongIntro(x * 0, (-p) * Two(0), 1, p);
  }

  lemma TwiceTwo(a: int, k: nat)
    ensures (2 * a) * Two(k) == a * Two(k + 1) && 2 * (a * Two(k)) == a * Two(k + 1)
  {
    assert (2 * a) * Two(k) == a * (2 * Two(k));
  }

  /** Halving u or v while doubling the partner keeps each congruence. */
  lemma ShiftCong(x: int, c: int, w: int, k: nat, p: int)
    requires p > 0 && Cong(x * c, w * Two(k), p)
    ensures Cong(x * (2 * c), w * Two(k + 1), p)
  {
    CongScale(2, x * c, w * Two(k), p);
    TwiceTwo(w, k);
    assert 2 * (x * c) == x * (2 * c);
  }

  lemma HalveCong(x: int, c: int, w: int, h: int, k: nat, p: int)
    requires p > 0 && w == 2 * h && Cong(x * c, w * Two(k), p)
    ensures Cong(x * c, h * Two(k + 1), p)
  {
    TwiceTwo(h, k);
  }

  lemma SumCong(x: int, c: int, e: int, w: int, y: int, h: int, k: nat, p: int)
    requires p > 0 && w + y == 2 * h
    requires Cong(x * c, w * Two(k), p) && Cong(x * e, y * Two(k), p)
    ensures Cong(x * (c + e), h * Two(k + 1), p)
  {
    CongAdd(x * c, w * Two(k), x * e, y * Two(k), p);
    Distrib(w, y, Two(k));
    assert x * c + x * e == x * (c + e);
    HalveCong(x, c + e, w + y, h, k, p);
  }

  lemma TracksHalfU(u: int, v: int, r: int, s: int, k: nat, h: int, x: int, p: int)
    requires p > 0 && u == 2 * h && Tracks(State(u, v, r, s, k), x, p)
    ensures Tracks(State(h, v, r, 2 * s, k + 1), x, p)
  {
    ShiftCong(x, s, v, k, p);
    HalveCong(x, r, -u, -h, k, p);
  }

  lemma TracksHalfV(u: int, v: int, r: int, s: int, k: nat, h: int, x: int, p: int)
    requires p > 0 && v == 2 * h && Tracks(State(u, v, r, s, k), x, p)
    ensures Tracks(State(u, h, 2 * r, s, k + 1), x, p)
  {
    HalveCong(x, s, v, h, k, p);
    ShiftCong(x, r, -u, k, p);
  }

  lemma TracksDiffU(u: int, v: int, r: int, s: int, k: nat, h: int, x: int, p: int)
    requires p > 0 && u - v == 2 * h && Tracks(State(u, v, r, s, k), x, p)
    ensures Tracks(State(h, v, r + s, 2 * s, k + 1), x, p)
  {
    ShiftCong(x, s, v, k, p);
    SumCong(x, r, s, -u, v, -h, k, p);
  }

  lemma TracksDiffV(u: int, v: int, r: int, s: int, k: nat, h: int, x: int, p: int)
    requires p > 0 && v - u == 2 * h && Tracks(State(u, v, r, s, k), x, p)
    ensures Tracks(State(u, h, 2 * r, s + r, k + 1), x, p)
  {
    SumCong(x, s, r, v, -u, h, k, p);
    ShiftCong(x, r, -u, k, p);
  }

  lemma StepTracks(st: State, x: int, p: int)
    requires p > 0 && Tracks(st, x, p)
    ensures Tracks(Step(st), x, p)
  {
    hide Cong, Tracks;
    var State(u, v, r, s, k) := st;
    if u % 2 == 0 {
      TracksHalfU(u, v, r, s, k, u / 2, x, p);
    } else if v % 2 == 0 {
      TracksHalfV(u, v, r, s, k, v / 2, x, p);
    } else if v < u {
      TracksDiffU(u, v, r, s, k, (u - v) / 2, x, p);
    } else {
      TracksDiffV(u, v, r, s, k, (v - u) / 2, x, p);
    }
  }

  lemma StepShrinks(st: State, x: int, p: int)
    requires Shrinking(st, x, p) && st.u >= 1 && st.v >= 1
    ensures Shrinking(Step(st), x, p)
  {
    var State(u, v, r, s, k) := st;
    if u % 2 == 0 {
      assert u * v == 2 * ((u / 2) * v);
      TwiceTwo((u / 2) * v, k);
    } else if v % 2 == 0 {
      assert u * v == 2 * (u * (v / 2));
      TwiceTwo(u * (v / 2), k);
    } else if v < u {
      ProductShrinks(u, v, (u - v) / 2, v, k);
    } else {
      ProductShrinks(v, u, (v - u) / 2, u, k);
      assert u * v == v * u && u * ((v - u) / 2) == ((v - u) / 2) * u;
    }
  }

  lemma SizesHalf(u: int, v: int, r: int, s: int, k: nat, h: int, p: int)
    requires Sizes(State(u, v, r, s, k), p)
    ensures u == 2 * h ==> Sizes(State(h, v, r, 2 * s, k + 1), p)
    ensures v == 2 * h ==> Sizes(State(u, h, 2 * r, s, k + 1), p)
  {
    assert h * (2 * s) == (2 * h) * s;
    assert h * (2 * r) == (2 * h) * r;
  }

  lemma SizesDiffU(u: int, v: int, r: int, s: int, k: nat, h: int, p: int)
    requires Sizes(State(u, v, r, s, k), p) && u == 2 * h + v && h >= 1
    ensures Sizes(State(h, v, r + s, 2 * s, k + 1), p)
  {
    CrossTerms(u, v, h, s, r);
  }

  lemma SizesDiffV(u: int, v: int, r: int, s: int, k: nat, h: int, p: int)
    requires Sizes(State(u, v, r, s, k), p) && v == 2 * h + u && h >= 1
    ensures Sizes(State(u, h, 2 * r, s + r, k + 1), p)
  {
    CrossTerms(v, u, h, r, s);
  }

  lemma StepSizes(st: State, p: int)
    requires Sizes(st, p) && st.u >= 1 && st.v >= 1 && st.u != st.v
    ensures Sizes(Step(st), p)
  {
    hide Sizes;
    var State(u, v, r, s, k) := st;
    if u % 2 == 0 {
      SizesHalf(u, v, r, s, k, u / 2, p);
    } else if v % 2 == 0 {
      SizesHalf(u, v, r, s, k, v / 2, p);
    } else if v < u {
      SizesDiffU(u, v, r, s, k, (u - v) / 2, p);
    } else {
      SizesDiffV(u, v, r, s, k, (v - u) / 2, p);
    }
  }

  lemma CrossTerms(a: int, b: int, h: int, s: int, r: int)
    requires a == 2 * h + b
    ensures h * (2 * s) + b * (r + s) == a * s + b * r
  {
    Distrib(2 * h, b, s);
  }

  lemma PairHalf(u: int, v: int, r: int, s: int, r': int, s': int, k: nat, h: int, i: int, j: int)
    requires Pair(State(u, v, r, s, k), i, j)
    ensures u == 2 * h ==> Pair(State(h, v, r', s', k + 1), 2 * i, j)
    ensures v == 2 * h ==> Pair(State(u, h, r', s', k + 1), i, 2 * j)
  {
    assert (2 * i) * h == i * (2 * h);
    assert (2 * j) * h == j * (2 * h);
  }

  lemma PairDiff(u: int, v: int, r: int, s: int, r': int, s': int, k: nat, h: int, i: int, j: int)
    requires Pair(State(u, v, r, s, k), i, j)
    ensures u == 2 * h + v ==> Pair(State(h, v, r', s', k + 1), 2 * i, i + j)
    ensures v == 2 * h + u ==> Pair(State(u, h, r', s', k + 1), i + j, 2 * j)
  {
    if u == 2 * h + v {
      MulEq(i, u, 2 * h + v);
      Distrib(2 * h, v, i);
      Distrib(i, j, v);
    }
    if v == 2 * h + u {
      MulEq(j, v, 2 * h + u);
      Distrib(2 * h, u, j);
      Distrib(i, j, u);
    }
  }

  lemma StepPair(st: State, i: int, j: int) returns (i': int, j': int)
    requires Pair(st, i, j)
    ensures Pair(Step(st), i', j')
  {
    hide Pair;
    var State(u, v, r, s, k) := st;
    var st' := Step(st);
    if u % 2 == 0 {
      PairHalf(u, v, r, s, st'.r, st'.s, k, u / 2, i, j);
      i', j' := 2 * i, j;
    } else if v % 2 == 0 {
      PairHalf(u, v, r, s, st'.r, st'.s, k, v / 2, i, j);
      i', j' := i, 2 * j;
    } else if v < u {
      PairDiff(u, v, r, s, st'.r, st'.s, k, (u - v) / 2, i, j);
      i', j' := 2 * i, i + j;
    } else {
      PairDiff(u, v, r, s, st'.r, st'.s, k, (v - u) / 2, i, j);
      i', j' := i + j, 2 * j;
    }
  }

  lemma ProductShrinks(a: int, b: int, h: int, c: int, k: nat)
    requires a == 2 * h + b && b == c >= 0 && h >= 0
    ensures h * c * Two(k + 1) <= a * b * Two(k)
  {
    TwiceTwo(h * c, k);
    MulMono(0, b, b);
    assert a * b == 2 * (h * c) + b * b by { Distrib(2 * h, b, b); }
    MulMono(2 * (h * c), a * b, Two(k));
  }

  lemma CoprimeNotEqual(u: int, v: int, i: int, j: int)
    requires u >= 1 && i * u + j * v == 1 && v != 1
    ensures u != v
  {
    if u == v {
      Distrib(i, j, u);
      MulMono(if i + j >= 1 then 1 else i + j, if i + j >= 1 then i + j else 0, u);
    }
  }

  /** One iteration keeps the invariant and a Bezout pair for (u, v). */
  lemma StepKeeps(st: State, x: int, p: int, i: int, j: int) returns (i': int, j': int)
    requires Inv(st, x, p) && Pair(st, i, j) && st.v != 1
    ensures Inv(Step(st), x, p) && Pair(Step(st), i', j')
  {
    hide Cong, Tracks, Shrinking, Two;
    StepTracks(st, x, p);
    StepShrinks(st, x, p);
    CoprimeNotEqual(st.u, st.v, i, j);
    StepSizes(st, p);
    i', j' := StepPair(st, i, j);
  }

  /** Neither r nor s outgrows the modulus. */
  lemma Small(st: State, x: int, p: int)
    requires Inv(st, x, p)
    ensures st.s <= p && st.r <= p && (st.v == 1 ==> st.s < p)
  {
    MulMono(1, st.u, st.s);
    MulMono(1, st.v, st.r);
    MulMono(0, st.v, st.r);
    MulMono(0, st.u, st.s);
  }

  /** u * v at least halves each time, so fewer than 512 iterations are unfinished. */
  lemma EndsInTime(st: State, x: int, p: int)
    requires Inv(st, x, p) && p <= TWO256
    ensures st.k < 512
  {
    hide Tracks, Cong, Started, Two;
    var n := Two(st.k);
    MulMono(1, st.u, st.v);
    MulMono(1, st.u * st.v, n);
    assert n <= p * x;
    if st.k >= 512 {
      TwoMono(512, st.k);
      TwoLiterals();
      TwoSquare(256, TWO256);
      assert TWO256 * TWO256 <= p * x;
      MulMono(x, TWO256 - 1, p);
      MulMono(p, TWO256, TWO256 - 1);
    }
  }

  /** The final step: dividing s by 2^k leaves the inverse. */
  lemma DividedOut(x: int, s0: int, s: int, k: nat, p: int)
    requires p > 1 && p % 2 == 1
    requires Cong(x * s0, Two(k), p) && Cong(s * Two(k), s0, p)
    ensures Cong(x * s, 1, p)
  {
    hide Cong, Two;
    var w := s * Two(k);
    CongScale(x, w, s0, p);
    CongTrans(x * w, x * s0, Two(k), p);
    assert x * w == (x * s) * Two(k) && Two(k) == 1 * Two(k);
    CancelTwos(x * s, 1, k, p);
  }
}
