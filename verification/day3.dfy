/** Fabric claims: a claim's box, the positions it covers, and the count of
    square inches claimed by two or more claims. */
module Day3 {

  import opened Plane
  import Toolbox

  datatype Claim = Claim(id: int, box: Box)

  /** The secondary constructor: `left..left+width-1` by `top..top+height-1`. */
  function MakeClaim(id: int, left: int, top: int, width: int, height: int): (c: Claim)
    ensures c.id == id
    ensures forall p :: c.box.Contains(p) <==> left <= p.x < left + width && top <= p.y < top + height
    ensures width >= 0 ==> c.box.x.Size() == width
    ensures height >= 0 ==> c.box.y.Size() == height
  {
    Claim(id, Box(Range(left, left + width - 1), Range(top, top + height - 1)))
  }

  /** The column `x` of the box, top to bottom. */
  function Column(x: int, ys: Range): (r: seq<Pos>)
    ensures |r| == ys.Size()
    ensures forall k :: 0 <= k < |r| ==> r[k] == Pos(x, ys.start + k)
    decreases ys.Size()
  {
    if ys.IsEmpty() then [] else [Pos(x, ys.start)] + Column(x, Range(ys.start + 1, ys.end))
  }

  /** `positions()`: column by column, each column top to bottom. */
  function Positions(b: Box): (r: seq<Pos>)
    ensures |r| == b.x.Size() * b.y.Size()
    ensures forall k :: 0 <= k < |r| ==> b.Contains(r[k])
    decreases b.x.Size()
  {
    if b.x.IsEmpty() then []
    else
      var rest := Positions(Box(Range(b.x.start + 1, b.x.end), b.y));
      assert b.x.Size() * b.y.Size() == b.y.Size() + (b.x.Size() - 1) * b.y.Size();
      Column(b.x.start, b.y) + rest
  }

  lemma {:induction false} PositionsComplete(b: Box, p: Pos)
    requires b.Contains(p)
    ensures p in Positions(b)
    decreases b.x.Size()
  {
    var col := Column(b.x.start, b.y);
    assert Positions(b) == col + Positions(Box(Range(b.x.start + 1, b.x.end), b.y));
    if p.x == b.x.start {
      assert col[p.y - b.y.start] == p;
    } else {
      PositionsComplete(Box(Range(b.x.start + 1, b.x.end), b.y), p);
    }
  }

  /** No position is listed twice. */
  lemma {:induction false} PositionsDistinct(b: Box)
    ensures forall i, j :: 0 <= i < j < |Positions(b)| ==> Positions(b)[i] != Positions(b)[j]
    decreases b.x.Size()
  {
    if !b.x.IsEmpty() {
      var rb := Box(Range(b.x.start + 1, b.x.end), b.y);
      PositionsDistinct(rb);
      var col := Column(b.x.start, b.y);
      var rest := Positions(rb);
      assert Positions(b) == col + rest;
      forall i, j | 0 <= i < j < |col + rest|
        ensures (col + rest)[i] != (col + rest)[j]
      {
        if j >= |col| && i < |col| {
          assert rb.Contains(rest[j - |col|]);
        }
      }
    }
  }

  /** The material map: how many claims cover each position seen so far. */
  type Material = map<Pos, nat>

  function Get(m: Material, p: Pos): nat {
    if p in m then m[p] else 0
  }

  function AddPositions(m: Material, ps: seq<Pos>): Material
    decreases |ps|
  {
    if ps == [] then m else AddPositions(m[ps[0] := Get(m, ps[0]) + 1], ps[1..])
  }

  /** `material[pos] = (material[pos] ?: 0) + 1` for every position of every claim. */
  function AddClaims(m: Material, claims: seq<Claim>): Material
    decreases |claims|
  {
    if claims == [] then m else AddClaims(AddPositions(m, Positions(claims[0].box)), claims[1..])
  }

  /** Number of claims covering `p`, the reference for the material map. */
  function Covering(claims: seq<Claim>, p: Pos): nat
    decreases |claims|
  {
    if claims == [] then 0 else (if claims[0].box.Contains(p) then 1 else 0) + Covering(claims[1..], p)
  }

  lemma {:induction false} AddPositionsCount(m: Material, ps: seq<Pos>, p: Pos)
    requires forall i, j :: 0 <= i < j < |ps| ==> ps[i] != ps[j]
    ensures Get(AddPositions(m, ps), p) == Get(m, p) + (if p in ps then 1 else 0)
    ensures p !in m && p !in ps ==> p !in AddPositions(m, ps)
    decreases |ps|
  {
    if ps != [] {
      AddPositionsCount(m[ps[0] := Get(m, ps[0]) + 1], ps[1..], p);
    }
  }

  lemma {:induction false} AddClaimsCount(m: Material, claims: seq<Claim>, p: Pos)
    ensures Get(AddClaims(m, claims), p) == Get(m, p) + Covering(claims, p)
    decreases |claims|
  {
    if claims != [] {
      var b := claims[0].box;
      PositionsDistinct(b);
      AddPositionsCount(m, Positions(b), p);
      if b.Contains(p) {
        PositionsComplete(b, p);
      }
      AddClaimsCount(AddPositions(m, Positions(b)), claims[1..], p);
    }
  }

  /** Each position's material count equals the number of claims covering it. */
  lemma MaterialIsCovering(claims: seq<Claim>, p: Pos)
    ensures Get(AddClaims(map[], claims), p) == Covering(claims, p)
  {
    AddClaimsCount(map[], claims, p);
  }

  /** The claimed positions that at least two claims cover. */
  ghost function MultiplyClaimed(claims: seq<Claim>): set<Pos> {
    set p | p in AddClaims(map[], claims) && Covering(claims, p) >= 2
  }

  /** Part 1: the number of positions claimed at least twice. */
  function Overlap(claims: seq<Claim>): (r: nat)
    ensures r == |MultiplyClaimed(claims)|
  {
    var m := AddClaims(map[], claims);
    var counted := set p | p in m && m[p] >= 2;
    assert counted == MultiplyClaimed(claims) by {
      forall p | p in m ensures m[p] == Covering(claims, p) {
        MaterialIsCovering(claims, p);
      }
    }
    |counted|
  }


  function TotalArea(claims: seq<Claim>): nat
    decreases |claims|
  {
    if claims == [] then 0 else claims[0].box.x.Size() * claims[0].box.y.Size() + TotalArea(claims[1..])
  }

  lemma {:induction false} AddPositionsDomain(m: Material, ps: seq<Pos>)
    ensures |AddPositions(m, ps).Keys| <= |m.Keys| + |ps|
    decreases |ps|
  {
    if ps != [] {
      var m' := m[ps[0] := Get(m, ps[0]) + 1];
      AddPositionsDomain(m', ps[1..]);
      if ps[0] in m {
        assert m'.Keys == m.Keys;
      } else {
        assert m'.Keys == m.Keys + {ps[0]};
      }
    }
  }

  lemma {:induction false} AddClaimsDomain(m: Material, claims: seq<Claim>)
    ensures |AddClaims(m, claims).Keys| <= |m.Keys| + TotalArea(claims)
    decreases |claims|
  {
    if claims != [] {
      var ps := Positions(claims[0].box);
      AddPositionsDomain(m, ps);
      AddClaimsDomain(AddPositions(m, ps), claims[1..]);
    }
  }

  /** The overlap never exceeds the total claimed area. */
  lemma OverlapAtMostArea(claims: seq<Claim>)
    ensures Overlap(claims) <= TotalArea(claims)
  {
    var m := AddClaims(map[], claims);
    AddClaimsDomain(map[], claims);
    var s := set p | p in m && m[p] >= 2;
    assert s <= m.Keys;
    Toolbox.SubsetSize(s, m.Keys);
  }

  /** A single claim overlaps nothing. */
  lemma SingleClaimOverlapsNothing(c: Claim)
    ensures Overlap([c]) == 0
  {
    var m := AddClaims(map[], [c]);
    var s := set p | p in m && m[p] >= 2;
    forall p | p in m
      ensures m[p] <= 1
    {
      MaterialIsCovering([c], p);
    }
    assert s == {};
  }
}
