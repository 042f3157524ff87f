/**
 The map view: the records it shows (filtered with the sidebar's predicate)
 and where it puts each marker. Markers that share exact coordinates are
 spread on a circle of radius 0.5 degrees, each at an angle given by its
 rank among the records at that spot.

 The source tells the records at one spot apart by object identity; here a
 record of the filtered list is named by its position in that list.
 `Math.cos` and `Math.sin` are parameters.
 */
module WorldMap {

  import opened DataTypes
  import opened Sequences
  import opened FilterSidebar

  /** The offset radius, in degrees. */
  const Radius: real := 0.5

  /** The shortest decimal that rounds to the double `Math.PI`, used in its place (it is not the exact value of that double). */
  const Pi: real := 3.141592653589793

  /**
   `filteredData`: the records passing the sidebar's predicate, in dataset
   order. Its positions are the matching positions of the dataset, so it has
   exactly the length the sidebar reports.
   */
  function FilteredData(data: seq<CulturalData>, f: Filters): (r: seq<CulturalData>)
    ensures |r| == FilteredCount(data, f)
    ensures |r| == |Positions(data, MatchesFilters(f))|
    ensures forall k :: 0 <= k < |r| ==> r[k] == data[Positions(data, MatchesFilters(f))[k]]
    ensures forall k :: 0 <= k < |r| ==> Matches(r[k], f)
    ensures forall i :: 0 <= i < |data| && Matches(data[i], f) ==> data[i] in r
  {
    FilterAtPositions(data, MatchesFilters(f));
    var r := Filter(data, MatchesFilters(f));
    assert forall k :: 0 <= k < |r| ==> MatchesFilters(f)(r[k]);
    r
  }

  /** Exact equality of latitude and longitude with `loc`. */
  function AtLocation(loc: Location): CulturalData -> bool
  {
    (d: CulturalData) => d.country.location.latitude == loc.latitude && d.country.location.longitude == loc.longitude
  }

  /**
   `itemsAtLocation` for the record at position `k` of the filtered list:
   the positions of the records at exactly its coordinates, in list order.
   It always holds `k` itself.
   */
  function ItemsAtLocation(fd: seq<CulturalData>, k: nat): (g: seq<nat>)
    requires k < |fd|
    ensures k in g && |g| >= 1
    ensures forall j :: 0 <= j < |fd| ==> (j in g <==> fd[j].country.location == fd[k].country.location)
    ensures forall l :: 0 <= l < |g| ==> g[l] < |fd|
  {
    var g := Positions(fd, AtLocation(fd[k].country.location));
    assert AtLocation(fd[k].country.location)(fd[k]);
    g
  }

  /** `localIndex`: where the record itself stands among the records at its coordinates. */
  function LocalIndex(fd: seq<CulturalData>, k: nat): (i: nat)
    requires k < |fd|
    ensures i < |ItemsAtLocation(fd, k)|
    ensures ItemsAtLocation(fd, k)[i] == k
  {
    FindIndex(ItemsAtLocation(fd, k), k)
  }

  /** The angle `localIndex / n * 2 * PI`, which lies in [0, 2 * PI). */
  function MarkerAngle(fd: seq<CulturalData>, k: nat): (a: real)
    requires k < |fd|
    ensures 0.0 <= a < 2.0 * Pi
  {
    var n := |ItemsAtLocation(fd, k)| as real;
    var i := LocalIndex(fd, k) as real;
    ShareOfTurn(i, n);
    i / n * 2.0 * Pi
  }

  /** An index below the group size gives an angle in [0, 2 * PI). */
  lemma ShareOfTurn(i: real, n: real)
    requires 0.0 <= i < n
    ensures 0.0 <= i / n * 2.0 * Pi < 2.0 * Pi
  {
    var x := i / n;
    assert x * n == i;
    assert 0.0 <= x < 1.0;
  }

  /**
   `getMarkerPosition`: a record alone at its coordinates stays there; one of
   n > 1 records is moved by the radius in the direction of its angle.
   */
  function MarkerPosition(fd: seq<CulturalData>, k: nat, cos: real -> real, sin: real -> real): (p: Location)
    requires k < |fd|
    ensures |ItemsAtLocation(fd, k)| == 1 ==> p == fd[k].country.location
    ensures |ItemsAtLocation(fd, k)| > 1 ==>
      && p.latitude - fd[k].country.location.latitude == cos(MarkerAngle(fd, k)) * Radius
      && p.longitude - fd[k].country.location.longitude == sin(MarkerAngle(fd, k)) * Radius
  {
    var loc := fd[k].country.location;
    if |ItemsAtLocation(fd, k)| == 1 then loc
    else
      var angle := MarkerAngle(fd, k);
      Location(loc.latitude + cos(angle) * Radius, loc.longitude + sin(angle) * Radius)
  }

  /** A record that no other shown record shares coordinates with keeps its own coordinates. */
  lemma LoneRecordKeepsLocation(fd: seq<CulturalData>, k: nat, cos: real -> real, sin: real -> real)
    requires k < |fd|
    requires forall j :: 0 <= j < |fd| && j != k ==> fd[j].country.location != fd[k].country.location
    ensures |ItemsAtLocation(fd, k)| == 1
    ensures MarkerPosition(fd, k, cos, sin) == fd[k].country.location
  {
    var p := AtLocation(fd[k].country.location);
    assert p(fd[k]);
    PositionsOfOnly(fd, p, k);
  }

  /** Two different records at the same spot share one group and get different indices and angles. */
  lemma DistinctMembersDistinctAngles(fd: seq<CulturalData>, k1: nat, k2: nat)
    requires k1 < |fd| && k2 < |fd| && k1 != k2
    requires fd[k1].country.location == fd[k2].country.location
    ensures ItemsAtLocation(fd, k1) == ItemsAtLocation(fd, k2)
    ensures |ItemsAtLocation(fd, k1)| > 1
    ensures LocalIndex(fd, k1) != LocalIndex(fd, k2)
    ensures MarkerAngle(fd, k1) != MarkerAngle(fd, k2)
  {
    var g := ItemsAtLocation(fd, k1);
    var i1, i2 := LocalIndex(fd, k1), LocalIndex(fd, k2);
    assert g[i1] == k1 && g[i2] == k2;
    DistinctFractions(i1 as real, i2 as real, |g| as real);
  }

  /** Different numerators over one positive denominator give different angles. */
  lemma DistinctFractions(i1: real, i2: real, n: real)
    requires n > 0.0 && i1 != i2
    ensures i1 / n * 2.0 * Pi != i2 / n * 2.0 * Pi
  {
    assert i1 / n * n == i1 && i2 / n * n == i2;
  }

  /** When cos and sin satisfy cos^2 + sin^2 = 1, a moved marker lies exactly on the circle. */
  lemma OffsetOnCircle(fd: seq<CulturalData>, k: nat, cos: real -> real, sin: real -> real)
    requires k < |fd|
    requires |ItemsAtLocation(fd, k)| > 1
    requires forall a :: cos(a) * cos(a) + sin(a) * sin(a) == 1.0
    ensures var p, loc := MarkerPosition(fd, k, cos, sin), fd[k].country.location;
      (p.latitude - loc.latitude) * (p.latitude - loc.latitude)
        + (p.longitude - loc.longitude) * (p.longitude - loc.longitude) == Radius * Radius
  {
    var a := MarkerAngle(fd, k);
    var loc := fd[k].country.location;
    assert MarkerPosition(fd, k, cos, sin) == Location(loc.latitude + cos(a) * Radius, loc.longitude + sin(a) * Radius);
    CircleOffset(loc.latitude, loc.longitude, cos(a), sin(a));
  }

  /** Moving a point by (c, s) times the radius, with c^2 + s^2 = 1, puts it on the circle. */
  lemma CircleOffset(x: real, y: real, c: real, s: real)
    requires c * c + s * s == 1.0
    ensures ((x + c * Radius) - x) * ((x + c * Radius) - x) + ((y + s * Radius) - y) * ((y + s * Radius) - y)
         == Radius * Radius
  {
    assert (x + c * Radius) - x == c * Radius;
    assert (y + s * Radius) - y == s * Radius;
    assert (c * Radius) * (c * Radius) + (s * Radius) * (s * Radius) == (c * c + s * s) * (Radius * Radius);
  }

  /** The group size counts the records at the spot. */
  lemma GroupSize(fd: seq<CulturalData>, k: nat)
    requires k < |fd|
    ensures |ItemsAtLocation(fd, k)| == |Filter(fd, AtLocation(fd[k].country.location))|
  {
    FilterAtPositions(fd, AtLocation(fd[k].country.location));
  }

  /** The local index counts the records at the spot that come before the record. */
  lemma {:induction false} LocalIndexIsRank(fd: seq<CulturalData>, k: nat)
    requires k < |fd|
    ensures LocalIndex(fd, k) == |Filter(fd[..k], AtLocation(fd[k].country.location))|
  {
    var p := AtLocation(fd[k].country.location);
    var g := ItemsAtLocation(fd, k);
    FilterAtPositions(fd[..k], p);
    PositionsOfPrefix(fd, k + 1, p);
    var before := Positions(fd[..k], p);
    assert fd[..k + 1][..k] == fd[..k];
    assert p(fd[..k + 1][k]);
    assert Positions(fd[..k + 1], p) == before + [k];
    assert g[|before|] == k;
    FindIndexIncreasing(g, |before|);
  }

  /**
   A marker's position is fixed by the record itself, the size of its group
   and its index in the group, and by nothing else in the list.
   */
  lemma PositionDependsOnGroupOnly(fd1: seq<CulturalData>, k1: nat, fd2: seq<CulturalData>, k2: nat,
                                   cos: real -> real, sin: real -> real)
    requires k1 < |fd1| && k2 < |fd2| && fd1[k1] == fd2[k2]
    requires |ItemsAtLocation(fd1, k1)| == |ItemsAtLocation(fd2, k2)|
    requires LocalIndex(fd1, k1) == LocalIndex(fd2, k2)
    ensures MarkerPosition(fd1, k1, cos, sin) == MarkerPosition(fd2, k2, cos, sin)
  {
    assert MarkerAngle(fd1, k1) == MarkerAngle(fd2, k2);
  }

  /** Inserting a record the predicate rejects keeps the count of the whole and of every prefix. */
  lemma InsertKeepsCounts(fd: seq<CulturalData>, k: nat, m: nat, x: CulturalData, p: CulturalData -> bool)
    requires k < |fd| && m <= |fd| && !p(x)
    ensures var fd', k' := fd[..m] + [x] + fd[m..], if m <= k then k + 1 else k;
      && |Filter(fd', p)| == |Filter(fd, p)|
      && |Filter(fd'[..k'], p)| == |Filter(fd[..k], p)|
  {
    var fd' := fd[..m] + [x] + fd[m..];
    assert fd == fd[..m] + fd[m..];
    FilterSkipsRejected(fd[..m], x, fd[m..], p);
    if m <= k {
      assert fd'[..k + 1] == fd[..m] + [x] + fd[m..k];
      assert fd[..k] == fd[..m] + fd[m..k];
      FilterSkipsRejected(fd[..m], x, fd[m..k], p);
    } else {
      assert fd'[..k] == fd[..k];
    }
  }

  /** Inserting a record at other coordinates keeps the group size and every local index. */
  lemma InsertKeepsGroup(fd: seq<CulturalData>, k: nat, m: nat, x: CulturalData)
    requires k < |fd| && m <= |fd|
    requires x.country.location != fd[k].country.location
    ensures var fd', k' := fd[..m] + [x] + fd[m..], if m <= k then k + 1 else k;
      && k' < |fd'| && fd'[k'] == fd[k]
      && |ItemsAtLocation(fd', k')| == |ItemsAtLocation(fd, k)|
      && LocalIndex(fd', k') == LocalIndex(fd, k)
  {
    var fd' := fd[..m] + [x] + fd[m..];
    var k' := if m <= k then k + 1 else k;
    assert fd'[k'] == fd[k];
    InsertKeepsCounts(fd, k, m, x, AtLocation(fd[k].country.location));
    GroupSize(fd, k);
    GroupSize(fd', k');
    LocalIndexIsRank(fd, k);
    LocalIndexIsRank(fd', k');
  }

  /**
   Records elsewhere do not move a marker: putting a record at other
   coordinates anywhere into the list leaves the position of every record
   already there unchanged.
   */
  lemma InsertElsewhere(fd: seq<CulturalData>, k: nat, m: nat, x: CulturalData, cos: real -> real, sin: real -> real)
    requires k < |fd| && m <= |fd|
    requires x.country.location != fd[k].country.location
    ensures var fd', k' := fd[..m] + [x] + fd[m..], if m <= k then k + 1 else k;
      k' < |fd'| && fd'[k'] == fd[k] &&
      MarkerPosition(fd', k', cos, sin) == MarkerPosition(fd, k, cos, sin)
  {
    InsertKeepsGroup(fd, k, m, x);
    var fd', k' := fd[..m] + [x] + fd[m..], if m <= k then k + 1 else k;
    PositionDependsOnGroupOnly(fd', k', fd, k, cos, sin);
  }
}
