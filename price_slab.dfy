/**
 * The rate slab of authentication/shipping_price_calculator.py: a finite map
 * from a weight ceiling to a flat price, and the lookup that picks the
 * smallest ceiling at or above a weight, falling back to the largest one.
 * Weights and prices are exact reals (the source uses floats).
 */
module PriceSlab {
  import opened Common

  /** Weight ceiling -> price. */
  type Slab = map<real, real>

  /** Raised by `max()` of no keys when the slab is empty. */
  datatype SlabError = EmptySlab

  /** DUMMY_PRICE_SLAB, the slab used when no rate file is given. */
  const DefaultSlab: Slab :=
    map[0.5 := 5.0, 1.0 := 8.0, 2.0 := 12.0, 3.0 := 16.0,
        5.0 := 22.0, 10.0 := 35.0, 20.0 := 50.0, 30.0 := 70.0]

  // ---------------------------------------------------------------------
  // Specification of the lookup
  // ---------------------------------------------------------------------

  /** `m` is the least element of `s`. */
  predicate IsLeast(m: real, s: set<real>) {
    m in s && forall x :: x in s ==> m <= x
  }

  /** `m` is the greatest element of `s`. */
  predicate IsGreatest(m: real, s: set<real>) {
    m in s && forall x :: x in s ==> x <= m
  }

  /** A non-empty set has an element. */
  lemma NonEmptyHasElement(s: set<real>)
    requires s != {}
    ensures exists y :: y in s
  {
    if forall y :: y !in s {
      assert false;
    }
  }

  lemma {:induction false} LeastExists(s: set<real>)
    requires s != {}
    ensures exists m :: IsLeast(m, s)
  {
    NonEmptyHasElement(s);
    var y :| y in s;
    if s != {y} {
      var rest := s - {y};
      LeastExists(rest);
      var m :| IsLeast(m, rest);
      var least := if y < m then y else m;
      forall x | x in s ensures least <= x {
        if x != y { assert x in rest; }
      }
      assert IsLeast(least, s);
    } else {
      assert IsLeast(y, s);
    }
  }

  lemma {:induction false} GreatestExists(s: set<real>)
    requires s != {}
    ensures exists m :: IsGreatest(m, s)
  {
    NonEmptyHasElement(s);
    var y :| y in s;
    if s != {y} {
      var rest := s - {y};
      GreatestExists(rest);
      var m :| IsGreatest(m, rest);
      var greatest := if m < y then y else m;
      forall x | x in s ensures x <= greatest {
        if x != y { assert x in rest; }
      }
      assert IsGreatest(greatest, s);
    } else {
      assert IsGreatest(y, s);
    }
  }

  /** The least element of a non-empty finite set. */
  ghost function Least(s: set<real>): (m: real)
    requires s != {}
    ensures m in s && forall x :: x in s ==> m <= x
  {
    LeastExists(s);
    var m :| IsLeast(m, s); m
  }

  /** The greatest element of a non-empty finite set (Python's `max`). */
  ghost function Greatest(s: set<real>): (m: real)
    requires s != {}
    ensures m in s && forall x :: x in s ==> x <= m
  {
    GreatestExists(s);
    var m :| IsGreatest(m, s); m
  }

  /** The ceilings that cover a weight. */
  ghost function Covering(weight: real, slab: Slab): set<real> {
    set k | k in slab && weight <= k
  }

  /**
   * The ceiling the lookup charges for: the smallest one at or above the
   * weight, or the largest one when the weight is above every ceiling.
   */
  ghost function Ceiling(weight: real, slab: Slab): (c: real)
    requires slab.Keys != {}
    ensures c in slab
    ensures (exists k :: k in slab && weight <= k) ==>
              weight <= c && forall k :: k in slab && weight <= k ==> c <= k
    ensures (forall k :: k in slab ==> k < weight) ==>
              forall k :: k in slab ==> k <= c
  {
    var cover := Covering(weight, slab);
    if cover != {} then
      var m := Least(cover);
      assert forall k :: k in slab && weight <= k ==> m <= k by {
        forall k | k in slab && weight <= k ensures m <= k { assert k in cover; }
      }
      m
    else
      assert forall k :: k in slab ==> k < weight by {
        forall k | k in slab ensures k < weight {
          assert k !in cover;
        }
      }
      Greatest(slab.Keys)
  }

  /** The price the lookup returns for a weight. */
  ghost function PriceFor(weight: real, slab: Slab): real
    requires slab.Keys != {}
  {
    slab[Ceiling(weight, slab)]
  }

  /** Any ceiling meeting the lookup's description is the one it picks. */
  lemma CeilingIsUnique(weight: real, slab: Slab, c: real)
    requires c in slab
    requires weight <= c ==> forall k :: k in slab && weight <= k ==> c <= k
    requires c < weight ==> forall k :: k in slab ==> k <= c
    ensures Ceiling(weight, slab) == c
  {
    var r := Ceiling(weight, slab);
    if weight <= c {
      assert weight <= r;
    } else {
      assert forall k :: k in slab ==> k < weight;
    }
  }

  /** A weight equal to a ceiling is charged at that ceiling (the `<=`). */
  lemma ExactCeilingIsChosen(weight: real, slab: Slab)
    requires weight in slab
    ensures Ceiling(weight, slab) == weight
    ensures PriceFor(weight, slab) == slab[weight]
  {
    CeilingIsUnique(weight, slab, weight);
  }

  /** A weight above every ceiling is charged at the largest ceiling. */
  lemma HeavyWeightFallsBack(weight: real, slab: Slab)
    requires slab.Keys != {}
    requires forall k :: k in slab ==> k < weight
    ensures Ceiling(weight, slab) == Greatest(slab.Keys)
  {
    CeilingIsUnique(weight, slab, Greatest(slab.Keys));
  }

  /** The price is always one of the slab's prices. */
  lemma PriceIsASlabValue(weight: real, slab: Slab)
    requires slab.Keys != {}
    ensures PriceFor(weight, slab) in slab.Values
  {
    var c := Ceiling(weight, slab);
    assert slab[c] in slab.Values;
  }

  /** The chosen ceiling does not decrease as the weight grows. */
  lemma CeilingIsMonotone(w1: real, w2: real, slab: Slab)
    requires slab.Keys != {}
    requires w1 <= w2
    ensures Ceiling(w1, slab) <= Ceiling(w2, slab)
  {
    var c1, c2 := Ceiling(w1, slab), Ceiling(w2, slab);
    if w2 <= c2 {
      assert w1 <= c2;
    } else {
      assert forall k :: k in slab ==> k < w2;
    }
  }

  /** Prices that never fall as the ceiling rises. */
  ghost predicate PricesRise(slab: Slab) {
    forall k1, k2 :: k1 in slab && k2 in slab && k1 <= k2 ==> slab[k1] <= slab[k2]
  }

  /** With prices rising with the ceilings, the price is monotone in the weight. */
  lemma PriceIsMonotone(w1: real, w2: real, slab: Slab)
    requires slab.Keys != {}
    requires PricesRise(slab)
    requires w1 <= w2
    ensures PriceFor(w1, slab) <= PriceFor(w2, slab)
  {
    CeilingIsMonotone(w1, w2, slab);
  }

  /** The default slab's prices rise with its ceilings. */
  lemma DefaultPricesRise()
    ensures PricesRise(DefaultSlab)
  {
  }

  /** The worked examples: 2 -> 12, 2.5 -> 16, 35 -> 70. */
  lemma DefaultSlabExamples()
    ensures DefaultSlab.Keys != {}
    ensures PriceFor(2.0, DefaultSlab) == 12.0
    ensures PriceFor(2.5, DefaultSlab) == 16.0
    ensures PriceFor(35.0, DefaultSlab) == 70.0
  {
    assert 2.0 in DefaultSlab;
    ExactCeilingIsChosen(2.0, DefaultSlab);
    CeilingIsUnique(2.5, DefaultSlab, 3.0);
    CeilingIsUnique(35.0, DefaultSlab, 30.0);
  }

  // ---------------------------------------------------------------------
  // The lookup itself
  // ---------------------------------------------------------------------

  ghost predicate StrictlyIncreasing(s: seq<real>) {
    forall i, j :: 0 <= i < j < |s| ==> s[i] < s[j]
  }

  /** `sorted(price_slab.keys())`: the keys in increasing order. */
  method SortedKeys(slab: Slab) returns (ks: seq<real>)
    ensures StrictlyIncreasing(ks)
    ensures forall k :: k in slab <==> k in ks
    ensures |ks| == |slab.Keys|
  {
    ks := [];
    var rest := slab.Keys;
    while rest != {}
      invariant StrictlyIncreasing(ks)
      invariant forall k :: k in slab <==> (k in ks || k in rest)
      invariant forall i, k :: 0 <= i < |ks| && k in rest ==> ks[i] < k
      invariant rest <= slab.Keys && |ks| + |rest| == |slab.Keys|
      decreases |rest|
    {
      LeastExists(rest);
      var m :| IsLeast(m, rest);
      ks := ks + [m];
      rest := rest - {m};
    }
  }

  /**
   * `get_price_for_weight`: walk the sorted ceilings and stop at the first
   * one at or above the weight; otherwise take the largest ceiling.
   */
  method GetPriceForWeight(finalWeight: real, slab: Slab) returns (r: Result<real, SlabError>)
    ensures r.Err? <==> slab.Keys == {}
    ensures r.Ok? ==> slab.Keys != {} && r.value == PriceFor(finalWeight, slab)
  {
    var ks := SortedKeys(slab);
    var closest: Option<real> := None;
    var i := 0;
    while i < |ks|
      invariant 0 <= i <= |ks|
      invariant closest.None?
      invariant forall j :: 0 <= j < i ==> ks[j] < finalWeight
    {
      if finalWeight <= ks[i] {
        closest := Some(ks[i]);
        break;
      }
      i := i + 1;
    }
    if closest.None? {
      if |ks| == 0 {
        return Err(EmptySlab);
      }
      // max(price_slab.keys()) is the last of the sorted keys
      var top := ks[|ks| - 1];
      assert forall k :: k in slab ==> k <= top by {
        forall k | k in slab ensures k <= top {
          assert k in ks;
          var j :| 0 <= j < |ks| && ks[j] == k;
          assert j == |ks| - 1 || ks[j] < top;
        }
      }
      CeilingIsUnique(finalWeight, slab, top);
      closest := Some(top);
    } else {
      var c := closest.value;
      assert forall k :: k in slab && finalWeight <= k ==> c <= k by {
        forall k | k in slab && finalWeight <= k ensures c <= k {
          assert k in ks;
          var j :| 0 <= j < |ks| && ks[j] == k;
          assert i <= j;
        }
      }
      CeilingIsUnique(finalWeight, slab, c);
    }
    r := Ok(slab[closest.value]);
  }

  // ---------------------------------------------------------------------
  // Loading a slab
  // ---------------------------------------------------------------------

  /** A rate-file row already parsed into (weight ceiling, price). */
  type Row = (real, real)

  /** The slab built by folding the rows in order; later rows overwrite. */
  function SlabOf(rows: seq<Row>): Slab
  {
    if rows == [] then map[]
    else SlabOf(rows[..|rows| - 1])[rows[|rows| - 1].0 := rows[|rows| - 1].1]
  }

  /** The slab's ceilings are exactly the rows' weights. */
  lemma {:induction false} SlabOfKeys(rows: seq<Row>)
    ensures forall k :: k in SlabOf(rows) <==> exists i :: 0 <= i < |rows| && rows[i].0 == k
  {
    if rows != [] {
      var init := rows[..|rows| - 1];
      SlabOfKeys(init);
      forall k ensures k in SlabOf(rows) <==> exists i :: 0 <= i < |rows| && rows[i].0 == k {
        if k in SlabOf(init) {
          var i :| 0 <= i < |init| && init[i].0 == k;
          assert rows[i].0 == k;
        }
        if exists i :: 0 <= i < |rows| && rows[i].0 == k {
          var i :| 0 <= i < |rows| && rows[i].0 == k;
          if i < |init| { assert init[i].0 == k; }
        }
      }
    }
  }

  /** A ceiling's price comes from the last row that names it. */
  lemma {:induction false} SlabOfLastRowWins(rows: seq<Row>, i: nat)
    requires i < |rows|
    requires forall j :: i < j < |rows| ==> rows[j].0 != rows[i].0
    ensures rows[i].0 in SlabOf(rows) && SlabOf(rows)[rows[i].0] == rows[i].1
  {
    if i < |rows| - 1 {
      var init := rows[..|rows| - 1];
      assert forall j :: i < j < |init| ==> init[j].0 != init[i].0 by {
        forall j | i < j < |init| ensures init[j].0 != init[i].0 {
          assert init[j] == rows[j];
        }
      }
      SlabOfLastRowWins(init, i);
    }
  }

  /**
   * `load_price_slab`: no path (None or the empty string) gives the default
   * slab; otherwise the file's rows are folded into a fresh map.
   */
  method LoadPriceSlab(filePath: Option<string>, rows: seq<Row>) returns (slab: Slab)
    ensures (filePath.None? || filePath.value == "") ==> slab == DefaultSlab
    ensures filePath.Some? && filePath.value != "" ==> slab == SlabOf(rows)
  {
    if filePath.None? || filePath.value == "" {
      return DefaultSlab;
    }
    slab := map[];
    for i := 0 to |rows|
      invariant slab == SlabOf(rows[..i])
    {
      assert rows[..i + 1][..i] == rows[..i];
      slab := slab[rows[i].0 := rows[i].1];
    }
    assert rows[..|rows|] == rows;
  }
}
