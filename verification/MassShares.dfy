/** How a mass is shared out: nearly in proportion to the weights, and to whom. */
module MassShares {
  import opened Powers
  import opened MassArithmetic
  import opened MassWeights

  /** The masses of all blocks, and what has come back to the loop's header or has left the loop. */
  datatype Flow = Flow(masses: seq<Mass>, backedge: Mass, exits: seq<(nat, Mass)>)

  // ---- proportion

  /** m is the part that weight w of W has of M, up to k roundings of (M + 2^32) / 2^32 each. */
  predicate NearlyPart(m: int, w: int, W: int, M: int, k: nat) {
    0 - k * (W * (M + 2 * D)) <= 2 * D * (m * W - M * w) <= k * (W * (M + 2 * D))
  }

  /** The part that a rounded probability takes of a mass, rounded down. */
  lemma PartIsProportional(m: nat, n: nat, M: nat, w: nat, r: nat)
    requires m * D <= M * n < m * D + D && 0 - r <= 2 * (n * r - w * D) <= r && 0 < r
    ensures NearlyPart(m, w, r, M, 1)
  {
    var P := n * r - w * D;
    TimesBetween(m, n, M, r);
    assert M * n * r == M * w * D + M * P by {
      assert M * (n * r) == M * (w * D + P) == M * (w * D) + M * P;
      assert M * n * r == M * (n * r) && M * w * D == M * (w * D);
    }
    TimesBounds(M, 2 * P, r);
    assert M * (2 * P) == 2 * (M * P);
  }

  lemma TimesBetween(m: nat, n: nat, M: nat, r: nat)
    requires m * D <= M * n < m * D + D
    ensures m * r * D <= M * n * r <= m * r * D + D * r
  {
    assert m * D * r == m * r * D;
    assert (m * D + D) * r == m * D * r + D * r;
    MulMonotone(m * D, M * n, r);
    MulMonotone(M * n, m * D + D, r);
  }

  lemma TimesBounds(M: nat, x: int, r: nat)
    requires 0 - r <= x <= r
    ensures 0 - M * r <= M * x <= M * r
  {
  }

  /** One share after another: what is left stays nearly the part that the weights left have. */
  lemma NextShare(m: int, w: int, r: int, rm: int, W: int, M: int, k: nat)
    requires 0 < w <= r <= W && 0 <= rm <= M && NearlyPart(m, w, r, rm, 1) && NearlyPart(rm, r, W, M, k)
    ensures NearlyPart(m, w, W, M, k + 1) && NearlyPart(rm - m, r - w, W, M, k + 1)
  {
    var x, e, E := rm * W - M * r, m * r - rm * w, M + 2 * D;
    SmallError(e, r, rm, M);
    ShareOfWhole(m, w, r, rm, W, M, x, e);
    RestOfWhole(m, w, r, rm, W, M, x, e);
    Combine(w, r, x, e, W, E, k, m * W - M * w);
    Combine(r - w, r, x, 0 - e, W, E, k, (rm - m) * W - M * (r - w));
  }

  lemma SmallError(e: int, r: int, rm: int, M: int)
    requires 0 < r && rm <= M && 0 - 1 * (r * (rm + 2 * D)) <= 2 * D * e <= 1 * (r * (rm + 2 * D))
    ensures 0 - r * (M + 2 * D) <= 2 * D * e <= r * (M + 2 * D)
  {
    assert r * (rm + 2 * D) <= r * (M + 2 * D);
  }

  lemma ShareOfWhole(m: int, w: int, r: int, rm: int, W: int, M: int, x: int, e: int)
    requires x == rm * W - M * r && e == m * r - rm * w
    ensures r * (m * W - M * w) == w * x + e * W
  {
    assert w * x == w * (rm * W) - w * (M * r);
    assert e * W == m * r * W - rm * w * W;
    assert w * (rm * W) == rm * w * W && w * (M * r) == r * (M * w) && m * r * W == r * (m * W);
    assert r * (m * W - M * w) == r * (m * W) - r * (M * w);
  }

  lemma RestOfWhole(m: int, w: int, r: int, rm: int, W: int, M: int, x: int, e: int)
    requires x == rm * W - M * r && e == m * r - rm * w
    ensures r * ((rm - m) * W - M * (r - w)) == (r - w) * x + (0 - e) * W
  {
    ShareOfWhole(m, w, r, rm, W, M, x, e);
    assert (rm - m) * W - M * (r - w) == x - (m * W - M * w) by {
      assert (rm - m) * W == rm * W - m * W;
      assert M * (r - w) == M * r - M * w;
    }
    assert r * (x - (m * W - M * w)) == r * x - r * (m * W - M * w);
    assert (r - w) * x == r * x - w * x;
    assert (0 - e) * W == 0 - e * W;
  }

  lemma Combine(a: int, r: int, x: int, e: int, W: int, E: int, k: nat, y: int)
    requires 0 <= a <= r && 0 < r && 0 <= W && 0 <= E && r * y == a * x + e * W
    requires 0 - k * (W * E) <= 2 * D * x <= k * (W * E) && 0 - r * E <= 2 * D * e <= r * E
    ensures 0 - (k + 1) * (W * E) <= 2 * D * y <= (k + 1) * (W * E)
  {
    var B, C := k * (W * E), W * E;
    ScaledWithin(a, r, 2 * D * x, B);
    WithinTimes(2 * D * e, r * E, W);
    DoubleD(a, r, x, e, W, y);
    assert r * E * W == r * C;
    assert (k + 1) * C == B + C;
    Quotients(r, 2 * D * y, a * (2 * D * x), (2 * D * e) * W, B, C);
  }

  lemma DoubleD(a: int, r: int, x: int, e: int, W: int, y: int)
    requires r * y == a * x + e * W
    ensures r * (2 * D * y) == a * (2 * D * x) + (2 * D * e) * W
  {
    assert r * (2 * D * y) == 2 * D * (r * y);
    assert a * (2 * D * x) == 2 * D * (a * x) && (2 * D * e) * W == 2 * D * (e * W);
  }

  lemma Quotients(r: int, y: int, x: int, z: int, B: int, C: int)
    requires 0 < r && r * y == x + z && 0 - r * B <= x <= r * B && 0 - r * C <= z <= r * C
    ensures 0 - (B + C) <= y <= B + C
  {
    assert r * (B + C) == r * B + r * C;
    CancelFactor(r, y, B + C);
    assert r * (0 - y) == 0 - r * y;
    CancelFactor(r, 0 - y, B + C);
  }

  lemma ScaledWithin(a: int, r: int, x: int, b: int)
    requires 0 <= a <= r && 0 - b <= x <= b
    ensures 0 - r * b <= a * x <= r * b
  {
    assert a * x <= a * b <= r * b;
    assert a * x >= a * (0 - b) == 0 - a * b;
  }

  lemma WithinTimes(x: int, b: int, W: int)
    requires 0 - b <= x <= b && 0 <= W
    ensures 0 - b * W <= x * W <= b * W
  {
    assert (0 - b) * W == 0 - b * W;
  }

  lemma CancelFactor(r: int, a: int, b: int)
    requires 0 < r && r * a <= r * b
    ensures a <= b
  {
  }

  ghost predicate ShareAt(ws: WeightList, total: int, mass: Mass, shares: seq<Mass>, i: nat) {
    i < |ws| && |shares| == |ws| ==> NearlyPart(shares[i], ws[i].amount, total, mass, i + 1)
  }

  function SumOf(shares: seq<Mass>): int {
    if shares == [] then 0 else shares[0] + SumOf(shares[1..])
  }

  /** Each share is nearly the part that its weight has of the total, with one rounding more for
      every weight before it, and together they are the whole mass. */
  ghost predicate Proportional(ws: WeightList, total: int, mass: Mass, shares: seq<Mass>) {
    && |shares| == |ws| && (ws != [] ==> SumOf(shares) == mass)
    && forall i: nat {:trigger ShareAt(ws, total, mass, shares, i)} :: ShareAt(ws, total, mass, shares, i)
  }

  // ---- who gets it

  /** What goes to block t. */
  function PartTo(ws: WeightList, shares: seq<Mass>, t: nat): (r: int)
    requires |ws| == |shares|
    ensures r >= 0
  {
    if ws == [] then 0
    else (if ws[0].kind == Local && ws[0].target == t then shares[0] else 0) + PartTo(ws[1..], shares[1..], t)
  }

  /** What goes back to the header. */
  function PartBack(ws: WeightList, shares: seq<Mass>): (r: int)
    requires |ws| == |shares|
    ensures r >= 0
  {
    if ws == [] then 0 else (if ws[0].kind == Backedge then shares[0] else 0) + PartBack(ws[1..], shares[1..])
  }

  /** What leaves the loop, with where to. */
  function PartOut(ws: WeightList, shares: seq<Mass>): seq<(nat, Mass)>
    requires |ws| == |shares|
  {
    if ws == [] then []
    else (if ws[0].kind == Exit then [(ws[0].target, shares[0])] else []) + PartOut(ws[1..], shares[1..])
  }

  lemma OneShare(w: Weight, m: Mass, ws: WeightList, shares: seq<Mass>)
    requires |ws| == |shares|
    ensures forall t :: PartTo([w] + ws, [m] + shares, t)
                     == (if w.kind == Local && w.target == t then m else 0) + PartTo(ws, shares, t)
    ensures PartBack([w] + ws, [m] + shares) == (if w.kind == Backedge then m else 0) + PartBack(ws, shares)
    ensures PartOut([w] + ws, [m] + shares) == (if w.kind == Exit then [(w.target, m)] else []) + PartOut(ws, shares)
    ensures ws == [] ==> [w] + ws == [w] && [m] + shares == [m]
  {
    assert ([w] + ws)[1..] == ws && ([m] + shares)[1..] == shares;
  }

  /** The shares have been added where the weights say, up to full mass. */
  ghost predicate Received(f: Flow, f': Flow, ws: WeightList, shares: seq<Mass>) {
    && |ws| == |shares| && |f'.masses| == |f.masses|
    && (forall t :: 0 <= t < |f.masses| ==> f'.masses[t] == Min(FULL, f.masses[t] + PartTo(ws, shares, t)))
    && f'.backedge == Min(FULL, f.backedge + PartBack(ws, shares))
    && f'.exits == f.exits + PartOut(ws, shares)
  }

  /** With one weight for each target, a block gets its own share. */
  lemma {:induction false} OwnShare(ws: WeightList, shares: seq<Mass>, i: nat)
    requires |ws| == |shares| && i < |ws| && Distinct(ws)
    ensures PartTo(ws, shares, ws[i].target) == if ws[i].kind == Local then shares[i] else 0
  {
    if i == 0 {
      NoOtherShare(ws[1..], shares[1..], ws[0].target);
    } else {
      OwnShare(ws[1..], shares[1..], i - 1);
    }
  }

  lemma {:induction false} NoOtherShare(ws: WeightList, shares: seq<Mass>, t: nat)
    requires |ws| == |shares| && forall i :: 0 <= i < |ws| ==> ws[i].target != t
    ensures PartTo(ws, shares, t) == 0
  {
    if ws != [] {
      NoOtherShare(ws[1..], shares[1..], t);
    }
  }

  lemma {:induction false} ExitsAreExits(ws: WeightList, shares: seq<Mass>)
    requires |ws| == |shares|
    ensures forall e :: e in PartOut(ws, shares) ==>
              exists i :: 0 <= i < |ws| && ws[i].kind == Exit && ws[i].target == e.0
  {
    if ws != [] {
      ExitsAreExits(ws[1..], shares[1..]);
      forall e | e in PartOut(ws, shares)
        ensures exists i :: 0 <= i < |ws| && ws[i].kind == Exit && ws[i].target == e.0
      {
        if e in PartOut(ws[1..], shares[1..]) {
          var i :| 0 <= i < |ws[1..]| && ws[1..][i].kind == Exit && ws[1..][i].target == e.0;
          assert ws[i + 1].kind == Exit && ws[i + 1].target == e.0;
        } else {
          assert ws[0].kind == Exit && ws[0].target == e.0;
        }
      }
    }
  }

  lemma {:induction false} NothingOut(ws: WeightList, shares: seq<Mass>)
    requires |ws| == |shares| && forall i :: 0 <= i < |ws| ==> ws[i].kind != Exit
    ensures PartOut(ws, shares) == []
  {
    if ws != [] {
      NothingOut(ws[1..], shares[1..]);
    }
  }

  lemma {:induction false} NothingBack(ws: WeightList, shares: seq<Mass>)
    requires |ws| == |shares| && forall i :: 0 <= i < |ws| ==> ws[i].kind != Backedge
    ensures PartBack(ws, shares) == 0
  {
    if ws != [] {
      NothingBack(ws[1..], shares[1..]);
    }
  }
}
