/**
 * Claims and the horizontal geometry of Managers/ProtectionManager.php:
 * which claim covers a position, and whether a new centre keeps the minimum
 * separation from the claims already registered. The source compares
 * `sqrt(dx*dx + dz*dz)` with the radius or the minimum distance; here the
 * comparison is made on the squared distance, and the two lemmas
 * `WithinRadiusIsSqrtComparison` and `CloserThanIsSqrtComparison` show that
 * nothing changes by it.
 */
module Protections {
  import opened Wrappers
  import PhpArray

  /** A block position: the folder name of its world and its coordinates. */
  datatype Position = Position(world: string, x: int, y: int, z: int)

  /** The record stored under an owner's name. */
  datatype Claim = Claim(owner: string, world: string, x: int, y: int, z: int, created: int, radius: int)

  /** The registry: owner names and their claims, in insertion order. */
  type Registry = seq<(string, Claim)>

  function Centre(c: Claim): Position
  {
    Position(c.world, c.x, c.y, c.z)
  }

  /** Square of the distance between (x1, z1) and (x2, z2) on the horizontal plane. */
  function DistanceSquared(x1: int, z1: int, x2: int, z2: int): (d2: int)
    ensures d2 >= 0
  {
    SquareNonNegative(x1 - x2);
    SquareNonNegative(z1 - z2);
    (x1 - x2) * (x1 - x2) + (z1 - z2) * (z1 - z2)
  }

  lemma SquareNonNegative(d: int)
    ensures d * d >= 0
  {
    if d < 0 {
      assert d * d == (-d) * (-d);
    }
  }

  /** `sqrt(d2) <= radius` for a squared distance `d2`. */
  predicate WithinRadius(d2: int, radius: int)
  {
    0 <= radius && d2 <= radius * radius
  }

  /** `sqrt(d2) < minDistance` for a squared distance `d2`. */
  predicate CloserThan(d2: int, minDistance: int)
  {
    0 <= minDistance && d2 < minDistance * minDistance
  }

  /** The squared test agrees with the source's test on the (non-negative) square root `s` of `d2`. */
  lemma WithinRadiusIsSqrtComparison(d2: nat, radius: int, s: real)
    requires 0.0 <= s && s * s == d2 as real
    ensures s <= radius as real <==> WithinRadius(d2, radius)
  {
    var r := radius as real;
    assert (radius * radius) as real == r * r;
    if s <= r {
      RealSquareMono(s, r);
    }
    if WithinRadius(d2, radius) && r < s {
      RealSquareStrict(r, s);
    }
  }

  lemma CloserThanIsSqrtComparison(d2: nat, minDistance: int, s: real)
    requires 0.0 <= s && s * s == d2 as real
    ensures s < minDistance as real <==> CloserThan(d2, minDistance)
  {
    var m := minDistance as real;
    assert (minDistance * minDistance) as real == m * m;
    if s < m {
      RealSquareStrict(s, m);
    }
    if CloserThan(d2, minDistance) && m <= s {
      RealSquareMono(m, s);
    }
  }

  lemma RealSquareMono(a: real, b: real)
    requires 0.0 <= a <= b
    ensures a * a <= b * b
  {
    var aa, ab, bb := a * a, a * b, b * b;
    assert aa <= ab;
    assert ab <= bb;
  }

  lemma RealSquareStrict(a: real, b: real)
    requires 0.0 <= a < b
    ensures a * a < b * b
  {
    var aa, ab, bb := a * a, a * b, b * b;
    assert aa <= ab;
    assert ab < bb;
  }

  /** The claim protects the position: same world, horizontal distance at most its radius. */
  predicate Covers(c: Claim, p: Position)
  {
    c.world == p.world && WithinRadius(DistanceSquared(p.x, p.z, c.x, c.z), c.radius)
  }

  /** A new centre at `p` would be closer to the claim than `minDistance` allows. */
  predicate TooCloseTo(c: Claim, p: Position, minDistance: int)
  {
    c.world == p.world && CloserThan(DistanceSquared(p.x, p.z, c.x, c.z), minDistance)
  }

  /** The first claim, in iteration order, that covers `p`. */
  function FirstCovering(claims: Registry, p: Position): (r: Option<Claim>)
    ensures r.None? <==> forall i :: 0 <= i < |claims| ==> !Covers(claims[i].1, p)
    ensures r.Some? ==>
      exists i :: 0 <= i < |claims| && claims[i].1 == r.value && Covers(r.value, p) &&
        forall j :: 0 <= j < i ==> !Covers(claims[j].1, p)
  {
    if claims == [] then None
    else if Covers(claims[0].1, p) then Some(claims[0].1)
    else
      var r := FirstCovering(claims[1..], p);
      assert forall i :: 1 <= i < |claims| ==> claims[1..][i - 1] == claims[i];
      if r.Some? then
        var i :| 0 <= i < |claims[1..]| && claims[1..][i].1 == r.value && Covers(r.value, p) &&
          forall j :: 0 <= j < i ==> !Covers(claims[1..][j].1, p);
        assert claims[i + 1].1 == r.value;
        assert forall j :: 0 <= j < i + 1 ==> !Covers(claims[j].1, p) by {
          forall j | 0 <= j < i + 1 ensures !Covers(claims[j].1, p) {
            if j > 0 {
              assert claims[j] == claims[1..][j - 1];
            }
          }
        }
        r
      else
        r
  }

  /** No registered claim is too close to a new centre at `p`. */
  predicate LocationFree(claims: Registry, p: Position, minDistance: int)
  {
    forall i :: 0 <= i < |claims| ==> !TooCloseTo(claims[i].1, p, minDistance)
  }

  /** Every claim's centre kept `minDistance` from each claim registered before it. */
  predicate Separated(claims: Registry, minDistance: int)
  {
    forall i, j :: 0 <= i < j < |claims| ==> !TooCloseTo(claims[i].1, Centre(claims[j].1), minDistance)
  }

  /** The vertical coordinate never changes which claim covers a position. */
  lemma {:induction false} FirstCoveringIgnoresHeight(claims: Registry, p: Position, y: int)
    ensures FirstCovering(claims, p) == FirstCovering(claims, p.(y := y))
  {
    if claims != [] {
      assert Covers(claims[0].1, p) == Covers(claims[0].1, p.(y := y));
      FirstCoveringIgnoresHeight(claims[1..], p, y);
    }
  }

  /** Registering a claim at a free centre, under a new owner, keeps the registry separated. */
  lemma CreatePreservesSeparation(claims: Registry, owner: string, c: Claim, minDistance: int)
    requires Separated(claims, minDistance)
    requires !PhpArray.HasKey(claims, owner)
    requires LocationFree(claims, Centre(c), minDistance)
    ensures Separated(PhpArray.Set(claims, owner, c), minDistance)
  {
    var r := PhpArray.Set(claims, owner, c);
    assert r == claims + [(owner, c)];
    forall i, j | 0 <= i < j < |r| ensures !TooCloseTo(r[i].1, Centre(r[j].1), minDistance) {
      assert r[i] == claims[i];
      if j < |claims| {
        assert r[j] == claims[j];
      }
    }
  }

  /** Removing an owner's claim keeps the registry separated. */
  lemma RemovePreservesSeparation(claims: Registry, owner: string, minDistance: int)
    requires PhpArray.DistinctKeys(claims)
    requires Separated(claims, minDistance)
    ensures Separated(PhpArray.Unset(claims, owner), minDistance)
  {
    var r := PhpArray.Unset(claims, owner);
    if PhpArray.HasKey(claims, owner) {
      var k :| 0 <= k < |claims| && claims[k].0 == owner;
      PhpArray.UnsetShift(claims, owner, k);
      forall i, j | 0 <= i < j < |r| ensures !TooCloseTo(r[i].1, Centre(r[j].1), minDistance) {
        assert r[i] == claims[if i < k then i else i + 1];
        assert r[j] == claims[if j < k then j else j + 1];
      }
    }
  }

  /**
   * Triangle inequality on squared lengths: if |u| <= r1 and |v| <= r2 then
   * |u + v| <= r1 + r2.
   */
  lemma TriangleSquared(u1: int, u2: int, v1: int, v2: int, r1: int, r2: int)
    requires 0 <= r1 && 0 <= r2
    requires u1 * u1 + u2 * u2 <= r1 * r1
    requires v1 * v1 + v2 * v2 <= r2 * r2
    ensures (u1 + v1) * (u1 + v1) + (u2 + v2) * (u2 + v2) <= (r1 + r2) * (r1 + r2)
  {
    var uu := u1 * u1 + u2 * u2;
    var vv := v1 * v1 + v2 * v2;
    var dot := u1 * v1 + u2 * v2;
    SquareNonNegative(u1); SquareNonNegative(u2);
    SquareNonNegative(v1); SquareNonNegative(v2);
    // Cauchy-Schwarz in two dimensions: the gap is a square.
    var w := u1 * v2 - u2 * v1;
    SquareNonNegative(w);
    assert uu * vv - dot * dot == w * w;
    // uu * vv <= (r1 * r2)^2
    MulMono(uu, r1 * r1, vv, r2 * r2);
    assert (r1 * r1) * (r2 * r2) == (r1 * r2) * (r1 * r2);
    // so dot <= r1 * r2
    var m := r1 * r2;
    MulNonNegative(r1, r2);
    if dot > m {
      MulStrict(m, dot);
      assert false;
    }
    assert (u1 + v1) * (u1 + v1) + (u2 + v2) * (u2 + v2) == uu + 2 * dot + vv;
    assert (r1 + r2) * (r1 + r2) == r1 * r1 + 2 * m + r2 * r2;
  }

  lemma MulNonNegative(a: int, b: int)
    requires 0 <= a && 0 <= b
    ensures 0 <= a * b
  {
  }

  lemma MulMono(a: int, a': int, b: int, b': int)
    requires 0 <= a <= a' && 0 <= b <= b'
    ensures a * b <= a' * b'
  {
    assert a * b <= a' * b;
    assert a' * b <= a' * b';
  }

  lemma MulStrict(m: int, d: int)
    requires 0 <= m < d
    ensures m * m < d * d
  {
    assert m * m <= m * d < d * d;
  }

  /**
   * When every two radii together stay under the minimum separation, no two
   * claims of a separated registry cover the same position.
   */
  lemma AtMostOneCovers(claims: Registry, minDistance: int, p: Position, i: int, j: int)
    requires Separated(claims, minDistance)
    requires 0 <= i < j < |claims|
    requires claims[i].1.radius + claims[j].1.radius < minDistance
    ensures !(Covers(claims[i].1, p) && Covers(claims[j].1, p))
  {
    var a, b := claims[i].1, claims[j].1;
    if Covers(a, p) && Covers(b, p) {
      CoveringBothIsTooClose(a, b, p, minDistance);
      assert false;
    }
  }

  /** Two claims that cover one position have centres closer than the sum of their radii allows. */
  lemma CoveringBothIsTooClose(a: Claim, b: Claim, p: Position, minDistance: int)
    requires Covers(a, p) && Covers(b, p)
    requires a.radius + b.radius < minDistance
    ensures TooCloseTo(a, Centre(b), minDistance)
  {
    TriangleSquared(a.x - p.x, a.z - p.z, p.x - b.x, p.z - b.z, a.radius, b.radius);
    assert DistanceSquared(b.x, b.z, a.x, a.z) <= (a.radius + b.radius) * (a.radius + b.radius);
    MulStrict(a.radius + b.radius, minDistance);
  }

  /**
   * Under the same condition on radii for all claims, the first covering
   * claim is the only one: first-match and any-match agree.
   */
  lemma FirstCoveringIsOnlyCovering(claims: Registry, minDistance: int, p: Position, k: int)
    requires Separated(claims, minDistance)
    requires forall i :: 0 <= i < |claims| ==> 2 * claims[i].1.radius < minDistance
    requires 0 <= k < |claims| && Covers(claims[k].1, p)
    ensures FirstCovering(claims, p) == Some(claims[k].1)
  {
    var r := FirstCovering(claims, p);
    var i :| 0 <= i < |claims| && claims[i].1 == r.value && Covers(r.value, p) &&
      forall j :: 0 <= j < i ==> !Covers(claims[j].1, p);
    if i < k {
      AtMostOneCovers(claims, minDistance, p, i, k);
    } else if k < i {
      assert false;
    }
  }

  /**
   * A claim centred at (0, 64, 0) with radius 15 covers (10, 70, 3), at
   * horizontal distance sqrt(109), but not (16, 64, 0); a centre at distance
   * 40 is too close under a minimum separation of 50, in that world only.
   */
  lemma CoveringExample()
    ensures var alice := Claim("Alice", "overworld", 0, 64, 0, 0, 15);
      && FirstCovering([("Alice", alice)], Position("overworld", 10, 70, 3)) == Some(alice)
      && FirstCovering([("Alice", alice)], Position("overworld", 16, 64, 0)) == None
      && FirstCovering([("Alice", alice)], Position("nether", 0, 64, 0)) == None
      && !LocationFree([("Alice", alice)], Position("overworld", 40, 64, 0), 50)
      && LocationFree([("Alice", alice)], Position("nether", 40, 64, 0), 50)
  {
    var alice := Claim("Alice", "overworld", 0, 64, 0, 0, 15);
    assert DistanceSquared(10, 3, 0, 0) == 109;
    assert DistanceSquared(16, 0, 0, 0) == 256;
  }
}
