/** How many unordered pairs of distinct ids a fleet can form. */
module PairCount {

  /** n choose 2: the number of unordered pairs of distinct elements among n. */
  function Choose2(n: nat): (c: nat)
    ensures 2 * c == n * (n - 1)
  {
    if n == 0 then 0 else Choose2(n - 1) + (n - 1)
  }

  /** The largest element of a non-empty set of naturals. */
  ghost function MaxOf(s: set<nat>): (m: nat)
    requires s != {}
    ensures m in s && forall x :: x in s ==> x <= m
  {
    var x :| x in s;
    if s == {x} then
      assert forall z :: z in s ==> z == x;
      x
    else
      var y := MaxOf(s - {x});
      assert forall z :: z in s ==> z == x || z in s - {x};
      if x < y then y else x
  }

  /** Every element of `s` paired with a fixed second component `m`. */
  ghost function PairedWith(s: set<nat>, m: nat): set<(nat, nat)>
  {
    set a | a in s :: (a, m)
  }

  /** Pairing every element of `s` with a fixed `m` loses no element. */
  lemma {:induction false} PairedWithCard(s: set<nat>, m: nat)
    ensures |PairedWith(s, m)| == |s|
  {
    if s != {} {
      var x :| x in s;
      var rest := s - {x};
      PairedWithCard(rest, m);
      assert (x, m) !in PairedWith(rest, m);
      assert PairedWith(s, m) == PairedWith(rest, m) + {(x, m)};
      assert s == rest + {x};
    }
  }

  lemma SubsetCard<T>(a: set<T>, b: set<T>)
    requires a <= b
    ensures |a| <= |b|
  {
    assert b == a + (b - a);
  }

  /** A set of ordered pairs `(small, large)` of ids from `ids` has at most
      |ids| choose 2 elements. */
  lemma {:induction false} PairsBound(ids: set<nat>, pairs: set<(nat, nat)>)
    requires forall p :: p in pairs ==> p.0 in ids && p.1 in ids && p.0 < p.1
    ensures |pairs| <= Choose2(|ids|)
    decreases |ids|
  {
    if ids == {} {
      assert pairs == {};
    } else {
      var m := MaxOf(ids);
      var rest := ids - {m};
      var below := set p | p in pairs && p.1 != m;
      var withMax := set p | p in pairs && p.1 == m;
      assert pairs == below + withMax;
      assert below * withMax == {};
      PairsBound(rest, below);
      assert withMax <= PairedWith(rest, m) by {
        forall p | p in withMax ensures p in PairedWith(rest, m) {
          assert p == (p.0, m);
        }
      }
      PairedWithCard(rest, m);
      SubsetCard(withMax, PairedWith(rest, m));
      assert |pairs| == |below| + |withMax|;
      assert |ids| == |rest| + 1;
      assert Choose2(|ids|) == Choose2(|rest|) + |rest|;
    }
  }
}
