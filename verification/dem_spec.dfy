/**
 * Values and specification functions of the discrete element method
 * (DEM) tables: particles, bonds, the options and geometry the cell-list
 * cache depends on, and what a cache rebuild is meant to produce.
 *
 * The simulation is two-dimensional. Positions and distances are `real`;
 * the geometry helpers the cache uses are not part of this model and
 * appear as fields of `Geometry`, with the ranges the tables rely on.
 */
module DemSpec {
  import opened CInt
  import CommonUint

  const NDim := 2

  /** `M_2PI`. */
  const TwoPi: real := 6.283185307179586

  datatype Role = Free | Fixed | Driven

  /** One particle slot; the C arrays `part.role[i]`, `part.l[i]`, ... grouped into one record. */
  datatype Particle = Particle(
    role: Role, l: int, r: real, m: real, jred: real,
    x: seq<real>, v: seq<real>, a: seq<real>,
    phi: real, omega: real, alpha: real,
    f: seq<real>, tau: real)

  /** One bond record of `link.part[i]`: target, rest length, rest angles of both ends and break limits. */
  datatype Link = Link(target: int, rrest: real, phirest0: real, phirest1: real, rlim: real, philim: real)

  datatype Caching = CachingNone | CachingNeigh

  /** The bond force law; only the beam law records angles and break limits. */
  datatype LinkForce = Beam | OtherLinkForce

  /** The options the tables read. */
  datatype Opts = Opts(
    box: seq<real>, ncell: seq<int>, rcutoff: real, caching: Caching,
    flink: LinkForce, ccrlink: real, cshlink: real,
    crlim0: real, crlim1: real, cphilim0: real, cphilim1: real)
  {
    /** Both axes have a box length and at least one cell. */
    predicate Valid() {
      |box| == NDim && |ncell| == NDim && forall d :: 0 <= d < NDim ==> ncell[d] >= 1
    }
  }

  /**
   * The helpers of `fp.h`, `geom.h`, `geom2d.h` and `neigh.h`: linear
   * interpolation, the periodic squared distance and direction, the square
   * root, and the cells of the upper half of a cell's neighbourhood, given
   * the box and cell counts of the options.
   */
  datatype Geometry = Geometry(
    lerp: (real, real, real, real, real) -> real,
    cpdist2: (seq<real>, seq<real>) -> real,
    sqrt: real -> real,
    dir: (seq<real>, seq<real>) -> real,
    redir: real -> real,
    ncpij: seq<int> -> nat,
    icpij: (seq<int>, nat) -> int,
    ballprmoi: real)
  {
    /**
     * For every cell vector within the grid `ncell`, every neighbour cell
     * index lies in [0, Prod(ncell)).
     */
    ghost predicate Valid(ncell: seq<int>) {
      forall ij: seq<int>, k: nat :: CommonUint.DigitsFit(ij, ncell) && k < ncpij(ij) ==>
        0 <= icpij(ij, k) < CommonUint.Prod(ncell)
    }
  }

  /**
   * A fixed-capacity list: a count `n` and a buffer `items` of the list's
   * capacity, of which the first `n` entries are in use.
   */
  datatype Buffer<T> = Buffer(n: nat, items: seq<T>) {
    predicate Fits(cap: nat) {
      n <= cap && |items| == cap
    }

    function Live(): seq<T>
      requires n <= |items|
    {
      items[..n]
    }
  }

  /** A buffer of particle indices whose live entries all lie below `bound`. */
  predicate IndicesBelow(b: Buffer<int>, bound: int) {
    b.n <= |b.items| && forall k :: 0 <= k < b.n ==> 0 <= b.items[k] < bound
  }

  /** The first `k` elements of `s`, or all of `s` when it is shorter. */
  function Take<T>(s: seq<T>, k: nat): (r: seq<T>)
    ensures r <= s && |r| == (if |s| <= k then |s| else k)
  {
    if |s| <= k then s else s[..k]
  }

  function Sq(x: real): real {
    x * x
  }

  function Zeros(): (z: seq<real>)
    ensures |z| == NDim && forall d :: 0 <= d < NDim ==> z[d] == 0.0
  {
    [0.0, 0.0]
  }

  /** The state `bmm_dem_addpart` gives a new particle with label `l`. */
  function NewParticle(l: int, g: Geometry): (p: Particle)
    ensures p.role == Free && p.l == l && p.r == 1.0 && p.m == 1.0 && p.jred == g.ballprmoi
    ensures p.x == Zeros() && p.v == Zeros() && p.a == Zeros() && p.f == Zeros()
    ensures p.phi == 0.0 && p.omega == 0.0 && p.alpha == 0.0 && p.tau == 0.0
  {
    Particle(Free, l, 1.0, 1.0, g.ballprmoi, Zeros(), Zeros(), Zeros(), 0.0, 0.0, 0.0, Zeros(), 0.0)
  }

  /**
   * The bond record `bmm_dem_link_pair` writes into the free `slot` of the
   * table of `p` for a bond to particle `j` at position `q.x`: the rest
   * length is the periodic separation scaled by `cshlink`. The beam law also
   * records the rest angles of both ends and break limits scaled from the
   * uniform draws `u` and `w`; other laws leave those fields of the slot.
   */
  function NewBond(g: Geometry, o: Opts, p: Particle, q: Particle, j: int, slot: Link, u: real, w: real): Link {
    var rrest := g.sqrt(g.cpdist2(p.x, q.x)) * o.cshlink;
    if o.flink == Beam then
      var phi := g.dir(p.x, q.x);
      Link(j, rrest, p.phi - phi, q.phi - g.redir(phi),
        (u * (o.crlim1 - o.crlim0) + o.crlim0) * rrest,
        (w * (o.cphilim1 - o.cphilim0) + o.cphilim0) * TwoPi)
    else
      slot.(target := j, rrest := rrest)
  }

  /** The integers in [a, b). */
  function Range(a: int, b: int): set<int>
    decreases b - a
  {
    if a >= b then {} else {a} + Range(a + 1, b)
  }

  lemma {:induction false} InRange(a: int, b: int, j: int)
    ensures j in Range(a, b) <==> a <= j < b
    decreases b - a
  {
    if a < b {
      InRange(a + 1, b, j);
    }
  }

  /** For every row `k < count`, the particles after `k` and below `n`: the bonds the brute-force loops may add. */
  function Later(n: int, count: nat): (allowed: seq<set<int>>)
    ensures |allowed| == count
  {
    seq(count, k => Range(k + 1, n))
  }

  /** For every row, the particles its neighbour list names: the bonds the cached loops may add. */
  function Listed(rows: seq<Buffer<int>>): (allowed: seq<set<int>>)
    ensures |allowed| == |rows|
  {
    seq(|rows|, k requires 0 <= k < |rows| => set x | x in Take(rows[k].items, rows[k].n))
  }

  /**
   * Every bond table still starts with its old records, and every record
   * added to table `k` targets a particle of `allowed[k]`.
   */
  ghost predicate BondsAdded(base: seq<Buffer<Link>>, rows: seq<Buffer<Link>>, allowed: seq<set<int>>) {
    |rows| == |base| == |allowed| &&
    forall k :: 0 <= k < |rows| ==>
      base[k].n <= |base[k].items| && rows[k].n <= |rows[k].items| &&
      base[k].Live() <= rows[k].Live() &&
      forall m :: base[k].n <= m < rows[k].n ==> rows[k].items[m].target in allowed[k]
  }

  /** No bond added yet. */
  lemma {:induction false} BondsAddedNothing(base: seq<Buffer<Link>>, allowed: seq<set<int>>)
    requires |allowed| == |base| && forall k :: 0 <= k < |base| ==> base[k].n <= |base[k].items|
    ensures BondsAdded(base, base, allowed)
  {
  }

  /** Appending to table `i` a record whose target is allowed for `i` keeps `BondsAdded`. */
  lemma {:induction false} BondsAddedSnoc(base: seq<Buffer<Link>>, rows: seq<Buffer<Link>>, allowed: seq<set<int>>,
                                         i: int, row: Buffer<Link>)
    requires BondsAdded(base, rows, allowed) && 0 <= i < |rows|
    requires row.n == rows[i].n + 1 && row.n <= |row.items| && row.items[..rows[i].n] == rows[i].Live()
    requires row.items[rows[i].n].target in allowed[i]
    ensures BondsAdded(base, rows[i := row], allowed)
  {
    var after := rows[i := row];
    assert rows[i].Live() <= row.Live();
    forall k | 0 <= k < |after|
      ensures base[k].Live() <= after[k].Live()
      ensures forall m :: base[k].n <= m < after[k].n ==> after[k].items[m].target in allowed[k]
    {
      if k == i {
        PrefixTrans(base[k].Live(), rows[k].Live(), row.Live());
        forall m | base[k].n <= m < row.n ensures row.items[m].target in allowed[k] {
          if m < rows[i].n {
            assert row.items[m] == rows[i].Live()[m] == rows[i].items[m];
          }
        }
      }
    }
  }

  /**
   * Whether `bmm_dem_link_pair` bonds `p` to `q` on the table `row` of `p`:
   * the squared periodic separation is at most `ccrlink` times the squared
   * sum of the radii, and the table has a free slot.
   */
  predicate Bonds(g: Geometry, o: Opts, p: Particle, q: Particle, row: Buffer<Link>) {
    g.cpdist2(p.x, q.x) <= Sq(p.r + q.r) * o.ccrlink && row.n < |row.items|
  }

  /** The bond tables during `bmm_dem_link`, and the index of the next uniform draw of the stream. */
  datatype Linking = Linking(rows: seq<Buffer<Link>>, next: nat)

  /**
   * `bmm_dem_link_pair(i, j)` on the tables of `s`: a bond appends the
   * record `NewBond` to table `i`, a beam bond taking the next two draws of
   * the stream; a rejected pair changes nothing. A pair outside the tables
   * is never offered.
   */
  function Offer(g: Geometry, o: Opts, parts: seq<Particle>, draws: nat -> real, s: Linking, i: int, j: int): (s': Linking)
    ensures |s'.rows| == |s.rows|
  {
    if 0 <= i < |s.rows| && i < |parts| && 0 <= j < |parts| && Bonds(g, o, parts[i], parts[j], s.rows[i]) then
      var row := s.rows[i];
      var bond := NewBond(g, o, parts[i], parts[j], j, row.items[row.n], draws(s.next), draws(s.next + 1));
      Linking(s.rows[i := Buffer(row.n + 1, row.items[row.n := bond])], if o.flink == Beam then s.next + 2 else s.next)
    else s
  }

  /** `bmm_dem_link_pair` applied to the pairs of `pairs` in order, starting from `s`. */
  function LinkFold(g: Geometry, o: Opts, parts: seq<Particle>, draws: nat -> real, s: Linking, pairs: seq<(int, int)>): (r: Linking)
    ensures |r.rows| == |s.rows|
    decreases |pairs|
  {
    if pairs == [] then s
    else
      var last := pairs[|pairs| - 1];
      Offer(g, o, parts, draws, LinkFold(g, o, parts, draws, s, pairs[..|pairs| - 1]), last.0, last.1)
  }

  /** One more pair offered after `pairs`. */
  lemma {:induction false} LinkFoldSnoc(g: Geometry, o: Opts, parts: seq<Particle>, draws: nat -> real, s: Linking,
                                        pairs: seq<(int, int)>, p: (int, int))
    ensures LinkFold(g, o, parts, draws, s, pairs + [p]) == Offer(g, o, parts, draws, LinkFold(g, o, parts, draws, s, pairs), p.0, p.1)
  {
    assert (pairs + [p])[..|pairs|] == pairs;
  }

  /** Offering `a` and then `b` is offering `a + b`. */
  lemma {:induction false} LinkFoldAppend(g: Geometry, o: Opts, parts: seq<Particle>, draws: nat -> real, s: Linking,
                                          a: seq<(int, int)>, b: seq<(int, int)>)
    ensures LinkFold(g, o, parts, draws, s, a + b) == LinkFold(g, o, parts, draws, LinkFold(g, o, parts, draws, s, a), b)
    decreases |b|
  {
    if b == [] {
      assert a + b == a;
    } else {
      var front := b[..|b| - 1];
      assert (a + b)[..|a + b| - 1] == a + front;
      assert (a + b)[|a + b| - 1] == b[|b| - 1];
      LinkFoldAppend(g, o, parts, draws, s, a, front);
    }
  }

  /**
   * Offering pairs only appends: every table keeps its old records, and
   * every record added to table `k` targets some `j` of an offered pair
   * `(k, j)` that `allowed[k]` contains.
   */
  lemma {:induction false} LinkFoldAllowed(g: Geometry, o: Opts, parts: seq<Particle>, draws: nat -> real, s: Linking,
                                           pairs: seq<(int, int)>, allowed: seq<set<int>>)
    requires |allowed| == |s.rows| && forall k :: 0 <= k < |s.rows| ==> s.rows[k].n <= |s.rows[k].items|
    requires forall p :: p in pairs && 0 <= p.0 < |allowed| ==> p.1 in allowed[p.0]
    ensures BondsAdded(s.rows, LinkFold(g, o, parts, draws, s, pairs).rows, allowed)
    decreases |pairs|
  {
    if pairs == [] {
      BondsAddedNothing(s.rows, allowed);
    } else {
      var front, last := pairs[..|pairs| - 1], pairs[|pairs| - 1];
      assert forall p :: p in front ==> p in pairs;
      LinkFoldAllowed(g, o, parts, draws, s, front, allowed);
      var prev := LinkFold(g, o, parts, draws, s, front);
      var i, j := last.0, last.1;
      if 0 <= i < |prev.rows| && i < |parts| && 0 <= j < |parts| && Bonds(g, o, parts[i], parts[j], prev.rows[i]) {
        var row := prev.rows[i];
        var bond := NewBond(g, o, parts[i], parts[j], j, row.items[row.n], draws(prev.next), draws(prev.next + 1));
        var grown := Buffer(row.n + 1, row.items[row.n := bond]);
        assert last in pairs;
        assert grown.items[..row.n] == row.Live();
        BondsAddedSnoc(s.rows, prev.rows, allowed, i, grown);
      }
    }
  }

  /** Tables from `m` on are not touched when every offered pair starts below `m`. */
  lemma {:induction false} LinkFoldFrom(g: Geometry, o: Opts, parts: seq<Particle>, draws: nat -> real, s: Linking,
                                        pairs: seq<(int, int)>, m: int, k: int)
    requires forall p :: p in pairs ==> p.0 < m
    requires 0 <= m <= k < |s.rows|
    ensures LinkFold(g, o, parts, draws, s, pairs).rows[k] == s.rows[k]
    decreases |pairs|
  {
    if pairs != [] {
      var front := pairs[..|pairs| - 1];
      assert forall p :: p in front ==> p in pairs;
      assert pairs[|pairs| - 1] in pairs;
      LinkFoldFrom(g, o, parts, draws, s, front, m, k);
    }
  }

  /**
   * When no pair is offered twice, no table gains two records with the same
   * target: one call never bonds a particle to the same partner twice.
   */
  lemma {:induction false} LinkFoldFresh(g: Geometry, o: Opts, parts: seq<Particle>, draws: nat -> real, s: Linking,
                                         pairs: seq<(int, int)>, k: int, a: int, b: int)
    requires forall k' :: 0 <= k' < |s.rows| ==> s.rows[k'].n <= |s.rows[k'].items|
    requires forall x, y :: 0 <= x < y < |pairs| ==> pairs[x] != pairs[y]
    requires 0 <= k < |s.rows|
    requires var rows := LinkFold(g, o, parts, draws, s, pairs).rows;
      s.rows[k].n <= a < b < rows[k].n && rows[k].n <= |rows[k].items|
    ensures var rows := LinkFold(g, o, parts, draws, s, pairs).rows;
      rows[k].items[a].target != rows[k].items[b].target
    decreases |pairs|
  {
    var front, last := pairs[..|pairs| - 1], pairs[|pairs| - 1];
    var prev := LinkFold(g, o, parts, draws, s, front);
    var rows := LinkFold(g, o, parts, draws, s, pairs).rows;
    var partners := seq(|s.rows|, k' => set p | p in front && p.0 == k' :: p.1);
    LinkFoldAllowed(g, o, parts, draws, s, front, partners);
    if b < prev.rows[k].n {
      LinkFoldFresh(g, o, parts, draws, s, front, k, a, b);
      assert rows[k].items[a] == prev.rows[k].items[a] && rows[k].items[b] == prev.rows[k].items[b];
    } else {
      assert last.0 == k && rows[k].items[b].target == last.1;
      assert rows[k].items[a] == prev.rows[k].items[a];
      assert prev.rows[k].items[a].target in partners[k];
      forall p | p in front && p.0 == k ensures p != last {
        var x :| 0 <= x < |front| && front[x] == p;
      }
    }
  }

  /** Removing `s[i]` by moving the last element into its place. */
  function SwapRemove<T>(s: seq<T>, i: int): (r: seq<T>)
    requires 0 <= i < |s|
    ensures |r| == |s| - 1
  {
    s[i := s[|s| - 1]][..|s| - 1]
  }

  /** Swap removal takes away exactly the removed element. */
  lemma {:induction false} SwapRemoveMultiset<T>(s: seq<T>, i: int)
    requires 0 <= i < |s|
    ensures multiset(SwapRemove(s, i)) == multiset(s) - multiset{s[i]}
  {
    var last := |s| - 1;
    var r := SwapRemove(s, i);
    if i == last {
      assert s == r + [s[i]];
      AddRemove(multiset(r), s[i]);
    } else {
      var front, middle := s[..i], s[i + 1..last];
      assert s == front + [s[i]] + (middle + [s[last]]);
      assert r == front + ([s[last]] + middle);
      var rest := multiset(front) + multiset(middle) + multiset{s[last]};
      assert multiset(r) == rest by {
        assert multiset([s[last]] + middle) == multiset{s[last]} + multiset(middle);
      }
      assert multiset(s) == rest + multiset{s[i]} by {
        assert multiset(middle + [s[last]]) == multiset(middle) + multiset{s[last]};
      }
      AddRemove(rest, s[i]);
    }
  }

  lemma AddRemove<T>(m: multiset<T>, x: T)
    ensures (m + multiset{x}) - multiset{x} == m
  {
    forall e ensures ((m + multiset{x}) - multiset{x})[e] == m[e] {
    }
  }

  /** Swap removal keeps every other element in place, except the last which moves to `i`. */
  lemma {:induction false} SwapRemoveAt<T>(s: seq<T>, i: int, k: int)
    requires 0 <= i < |s| && 0 <= k < |s| - 1
    ensures SwapRemove(s, i)[k] == (if k == i then s[|s| - 1] else s[k])
  {
  }

  /**
   * The clamped cell coordinate of `bmm_dem_cache_ijcell` along one axis:
   * the position is mapped from [0, box] onto [1, ncell - 1] and truncated,
   * with everything below 1 going to cell 0 and everything from ncell - 1 up
   * to the last cell.
   */
  function CellCoord(g: Geometry, x: real, box: real, ncell: int): (c: int)
    requires ncell >= 1
    ensures 0 <= c <= ncell - 1
    ensures var t := g.lerp(x, 0.0, box, 1.0, (ncell - 1) as real);
      && (t < 1.0 ==> c == 0)
      && (1.0 <= t && t >= (ncell - 1) as real ==> c == ncell - 1)
      && (1.0 <= t < (ncell - 1) as real ==> 1 <= c < ncell - 1 && c as real <= t < c as real + 1.0)
  {
    var i := ncell - 1;
    var t := g.lerp(x, 0.0, box, 1.0, i as real);
    if t < 1.0 then 0
    else if t >= i as real then i
    else
      var j := t.Floor;
      assert j < i;
      j
  }

  /** The cell index vector of a position. */
  function CellCoords(g: Geometry, o: Opts, x: seq<real>): (ij: seq<int>)
    requires o.Valid() && |x| == NDim
    ensures CommonUint.DigitsFit(ij, o.ncell)
  {
    seq(NDim, d requires 0 <= d < NDim => CellCoord(g, x[d], o.box[d], o.ncell[d]))
  }

  /** The particles among the first `|cells|` whose cell is `c`, in ascending order. */
  function Members(cells: seq<int>, c: int): (ms: seq<int>)
    ensures |ms| <= |cells|
    ensures forall k :: 0 <= k < |ms| ==> 0 <= ms[k] < |cells| && cells[ms[k]] == c
  {
    if |cells| == 0 then []
    else
      var m := |cells| - 1;
      Members(cells[..m], c) + (if cells[m] == c then [m] else [])
  }

  /** Every particle is a member of exactly the bucket of its own cell. */
  lemma {:induction false} MembersExactlyOne(cells: seq<int>, i: int, c: int)
    requires 0 <= i < |cells|
    ensures i in Members(cells, c) <==> cells[i] == c
  {
    var m := |cells| - 1;
    if i < m {
      MembersExactlyOne(cells[..m], i, c);
    } else {
      assert Members(cells, c)[..|Members(cells[..m], c)|] == Members(cells[..m], c);
    }
  }

  /** Members are listed in strictly ascending order, so no particle appears twice. */
  lemma {:induction false} MembersAscending(cells: seq<int>, c: int)
    ensures forall a, b :: 0 <= a < b < |Members(cells, c)| ==> Members(cells, c)[a] < Members(cells, c)[b]
  {
    if |cells| > 0 {
      MembersAscending(cells[..|cells| - 1], c);
    }
  }

  /** A bucket over a prefix of the particles is no longer than the full bucket. */
  lemma {:induction false} MembersPrefix(cells: seq<int>, k: int, c: int)
    requires 0 <= k <= |cells|
    ensures |Members(cells[..k], c)| <= |Members(cells, c)|
    decreases |cells| - k
  {
    if k < |cells| {
      MembersPrefix(cells, k + 1, c);
      assert cells[..k + 1][..k] == cells[..k];
    } else {
      assert cells[..k] == cells;
    }
  }

  /**
   * A bucket already holding `cap` members among the first `k` particles
   * overflows once particle `k` of the same cell is added.
   */
  lemma {:induction false} MembersOverflow(cells: seq<int>, k: int, c: int, cap: nat)
    requires 0 <= k < |cells| && cells[k] == c
    requires |Members(cells[..k], c)| >= cap
    ensures |Members(cells, c)| > cap
  {
    assert cells[..k + 1][..k] == cells[..k];
    MembersPrefix(cells, k + 1, c);
  }

  /** The cached state the eligibility test and the neighbour lists are computed from. */
  datatype CacheView = CacheView(g: Geometry, rc2: real, icell: seq<int>, x: seq<seq<real>>, n: nat)

  /**
   * `bmm_dem_cache_eligible(i, j)`: `j` is a neighbour candidate of `i` unless
   * both share a cell and `j <= i`, or they are farther apart than the cutoff.
   */
  predicate Elig(v: CacheView, i: int, j: int) {
    0 <= i < |v.icell| && 0 <= j < |v.icell| && i < |v.x| && j < |v.x| &&
    !(v.icell[i] == v.icell[j] && j <= i) && v.g.cpdist2(v.x[i], v.x[j]) <= v.rc2
  }

  /** Eligibility is irreflexive. */
  lemma EligIrreflexive(v: CacheView, i: int)
    ensures !Elig(v, i, i)
  {
  }

  /** Inside one cell, eligibility holds in at most one direction. */
  lemma EligOneWayInCell(v: CacheView, i: int, j: int)
    requires Elig(v, i, j) && Elig(v, j, i)
    ensures v.icell[i] != v.icell[j]
  {
  }

  /**
   * The two directions of the neighbour-list builders: `addfrom` lists the
   * particles `j` eligible for `i` (covariant), `addto` the particles `j`
   * for which `i` is eligible (contravariant).
   */
  datatype Variance = Covariant | Contravariant

  predicate Related(v: CacheView, dir: Variance, i: int, j: int) {
    if dir == Covariant then Elig(v, i, j) else Elig(v, j, i)
  }

  /** The bucket of cell `c` over the live particles. */
  function Bucket(v: CacheView, c: int): (ms: seq<int>)
    requires v.n <= |v.icell|
    ensures forall k :: 0 <= k < |ms| ==> 0 <= ms[k] < v.n && v.icell[ms[k]] == c
  {
    Members(v.icell[..v.n], c)
  }

  /** The entries of `js` related to `i` in direction `dir`, in order. */
  function Keep(v: CacheView, dir: Variance, i: int, js: seq<int>): (ks: seq<int>)
    ensures |ks| <= |js|
  {
    if |js| == 0 then []
    else
      var m := |js| - 1;
      Keep(v, dir, i, js[..m]) + (if Related(v, dir, i, js[m]) then [js[m]] else [])
  }

  /** What `Keep` retains comes from `js` and is related to `i`. */
  lemma {:induction false} KeepSub(v: CacheView, dir: Variance, i: int, js: seq<int>)
    ensures forall k :: k in Keep(v, dir, i, js) ==> k in js && Related(v, dir, i, k)
  {
    if |js| > 0 {
      var m := |js| - 1;
      KeepSub(v, dir, i, js[..m]);
      forall k | k in Keep(v, dir, i, js) ensures k in js && Related(v, dir, i, k) {
        if k in Keep(v, dir, i, js[..m]) {
          assert k in js[..m];
        }
      }
    }
  }

  lemma {:induction false} KeepPrefix(v: CacheView, dir: Variance, i: int, js: seq<int>, k: int)
    requires 0 <= k <= |js|
    ensures Keep(v, dir, i, js[..k]) <= Keep(v, dir, i, js)
    decreases |js| - k
  {
    if k < |js| {
      KeepPrefix(v, dir, i, js, k + 1);
      assert js[..k + 1][..k] == js[..k];
    } else {
      assert js[..k] == js;
    }
  }

  /** The cells of the upper half of the neighbourhood of cell vector `ij`. */
  function Hood(g: Geometry, ij: seq<int>): (cs: seq<int>)
    ensures |cs| == g.ncpij(ij)
  {
    seq(g.ncpij(ij), k requires 0 <= k < g.ncpij(ij) => g.icpij(ij, k))
  }

  /**
   * The bucket members related to `i`, cell after cell of `hood`: the
   * neighbour list of `i` when `dir` is covariant, and the particles whose
   * lists receive `i` when it is contravariant.
   */
  function Cand(v: CacheView, dir: Variance, i: int, hood: seq<int>): seq<int>
    requires v.n <= |v.icell|
  {
    if |hood| == 0 then []
    else
      var m := |hood| - 1;
      Cand(v, dir, i, hood[..m]) + Keep(v, dir, i, Bucket(v, hood[m]))
  }

  /** Every candidate is a live particle related to `i` whose cell is in `hood`. */
  lemma {:induction false} CandSub(v: CacheView, dir: Variance, i: int, hood: seq<int>)
    requires v.n <= |v.icell|
    ensures forall k :: k in Cand(v, dir, i, hood) ==> Related(v, dir, i, k) && 0 <= k < v.n && v.icell[k] in hood
  {
    if |hood| > 0 {
      var m := |hood| - 1;
      var b := Bucket(v, hood[m]);
      CandSub(v, dir, i, hood[..m]);
      KeepSub(v, dir, i, b);
      forall k | k in Cand(v, dir, i, hood) ensures Related(v, dir, i, k) && 0 <= k < v.n && v.icell[k] in hood {
        if k in Cand(v, dir, i, hood[..m]) {
          assert v.icell[k] in hood[..m];
        } else {
          assert k in b;
          assert hood[m] in hood;
        }
      }
    }
  }

  lemma {:induction false} CandPrefix(v: CacheView, dir: Variance, i: int, hood: seq<int>, k: int)
    requires v.n <= |v.icell| && 0 <= k <= |hood|
    ensures Cand(v, dir, i, hood[..k]) <= Cand(v, dir, i, hood)
    decreases |hood| - k
  {
    if k < |hood| {
      CandPrefix(v, dir, i, hood, k + 1);
      assert hood[..k + 1][..k] == hood[..k];
    } else {
      assert hood[..k] == hood;
    }
  }

  /** Walking one more cell of `hood` appends the related members of its bucket. */
  lemma {:induction false} CandStep(v: CacheView, dir: Variance, i: int, hood: seq<int>, h: int)
    requires v.n <= |v.icell| && 0 <= h < |hood|
    ensures Cand(v, dir, i, hood[..h + 1]) == Cand(v, dir, i, hood[..h]) + Keep(v, dir, i, Bucket(v, hood[h]))
  {
    assert hood[..h + 1][..h] == hood[..h] && hood[..h + 1][h] == hood[h];
  }

  /**
   * A builder that has walked `hood[..h]` onto `pre` and then the related
   * members of the bucket of `hood[h]` has walked `hood[..h + 1]`; those
   * members fit in the whole walk.
   */
  lemma {:induction false} CandExtend(v: CacheView, dir: Variance, i: int, hood: seq<int>, h: int, pre: seq<int>)
    requires v.n <= |v.icell| && 0 <= h < |hood|
    ensures pre + Cand(v, dir, i, hood[..h]) + Keep(v, dir, i, Bucket(v, hood[h])) == pre + Cand(v, dir, i, hood[..h + 1])
    ensures |Cand(v, dir, i, hood[..h])| + |Keep(v, dir, i, Bucket(v, hood[h]))| <= |Cand(v, dir, i, hood)|
  {
    CandStep(v, dir, i, hood, h);
    CandPrefix(v, dir, i, hood, h + 1);
    var c, k := Cand(v, dir, i, hood[..h]), Keep(v, dir, i, Bucket(v, hood[h]));
    assert pre + c + k == pre + (c + k);
  }

  /** One more entry of `js` adds itself to `Keep` exactly when it is related to `i`. */
  lemma {:induction false} KeepStep(v: CacheView, dir: Variance, i: int, js: seq<int>, g: int)
    requires 0 <= g < |js|
    ensures Keep(v, dir, i, js[..g + 1]) == Keep(v, dir, i, js[..g]) + (if Related(v, dir, i, js[g]) then [js[g]] else [])
  {
    assert js[..g + 1][..g] == js[..g] && js[..g + 1][g] == js[g];
  }

  /**
   * A builder that has kept the related entries of `js[..g]` on top of `pre`
   * and then appends `js[g]` if it is related has kept those of `js[..g + 1]`;
   * a related `js[g]` still fits in the whole of `Keep`.
   */
  lemma {:induction false} KeepExtend(v: CacheView, dir: Variance, i: int, js: seq<int>, g: int, pre: seq<int>)
    requires 0 <= g < |js|
    ensures Related(v, dir, i, js[g]) ==> pre + Keep(v, dir, i, js[..g]) + [js[g]] == pre + Keep(v, dir, i, js[..g + 1])
    ensures !Related(v, dir, i, js[g]) ==> Keep(v, dir, i, js[..g]) == Keep(v, dir, i, js[..g + 1])
    ensures Related(v, dir, i, js[g]) ==> |Keep(v, dir, i, js[..g])| < |Keep(v, dir, i, js)|
  {
    KeepStep(v, dir, i, js, g);
    KeepPrefix(v, dir, i, js, g + 1);
    var k := Keep(v, dir, i, js[..g]);
    assert pre + k + [js[g]] == pre + (k + [js[g]]);
  }

  /** Being a prefix is transitive. */
  lemma PrefixTrans<T>(a: seq<T>, b: seq<T>, c: seq<T>)
    requires a <= b && b <= c
    ensures a <= c
  {
    assert a == b[..|a|] == c[..|b|][..|a|];
  }

  /** Extending a common start by a prefix of `s` stays a prefix of what `pre + s` is a prefix of. */
  lemma {:induction false} PrefixExtend<T>(pre: seq<T>, p: seq<T>, s: seq<T>, whole: seq<T>)
    requires p <= s && pre + s <= whole
    ensures pre + p <= whole
  {
    forall k | 0 <= k < |pre + p| ensures (pre + p)[k] == whole[k] {
      if k >= |pre| {
        assert (pre + p)[k] == p[k - |pre|] == s[k - |pre|] == (pre + s)[k];
      } else {
        assert (pre + p)[k] == pre[k] == (pre + s)[k];
      }
    }
  }

  /** `m` copies of `x`. */
  function Rep(x: int, m: nat): (r: seq<int>)
    ensures |r| == m
  {
    seq(m, _ => x)
  }

  /** Every row is within capacity `cap` and lists only indices below `bound`. */
  ghost predicate Stocked(rows: seq<Buffer<int>>, cap: nat, bound: int) {
    forall k :: 0 <= k < |rows| ==> rows[k].Fits(cap) && IndicesBelow(rows[k], bound)
  }

  /** Replacing one row by a row within bounds keeps all rows within bounds. */
  lemma {:induction false} StockedSet(rows: seq<Buffer<int>>, cap: nat, bound: int, j: int, row: Buffer<int>)
    requires Stocked(rows, cap, bound) && 0 <= j < |rows| && row.Fits(cap) && IndicesBelow(row, bound)
    ensures Stocked(rows[j := row], cap, bound)
  {
    var after := rows[j := row];
    forall k | 0 <= k < |after| ensures after[k].Fits(cap) && IndicesBelow(after[k], bound) {
      if k != j {
        assert after[k] == rows[k];
      }
    }
  }

  /**
   * What `bmm_dem_cache_addto` has done to the neighbour lists once it has
   * walked `s`: row `k` is its old list followed by one `x` for every
   * occurrence of `k` in `s`.
   */
  ghost predicate Received(base: seq<Buffer<int>>, rows: seq<Buffer<int>>, x: int, s: seq<int>) {
    |rows| == |base| &&
    forall k :: 0 <= k < |rows| ==>
      base[k].n <= |base[k].items| && rows[k].n <= |rows[k].items| &&
      rows[k].Live() == base[k].Live() + Rep(x, multiset(s)[k])
  }

  /** Some row would have to hold more than `cap` entries to receive its share of `s`. */
  ghost predicate Overflows(base: seq<Buffer<int>>, s: seq<int>, cap: nat) {
    exists k :: 0 <= k < |base| && base[k].n + multiset(s)[k] > cap
  }

  /** Nothing has been walked yet. */
  lemma {:induction false} ReceivedNothing(base: seq<Buffer<int>>, x: int)
    requires forall k :: 0 <= k < |base| ==> base[k].n <= |base[k].items|
    ensures Received(base, base, x, [])
  {
    forall k | 0 <= k < |base| ensures base[k].Live() == base[k].Live() + Rep(x, multiset([])[k]) {
      assert Rep(x, 0) == [];
    }
  }

  /** Appending `x` to row `j` records one more occurrence of `j`. */
  lemma {:induction false} ReceivedSnoc(base: seq<Buffer<int>>, rows: seq<Buffer<int>>, x: int, s: seq<int>, j: int, row: Buffer<int>)
    requires Received(base, rows, x, s) && 0 <= j < |rows|
    requires row.n <= |row.items| && row.Live() == rows[j].Live() + [x]
    ensures Received(base, rows[j := row], x, s + [j])
  {
    var after := rows[j := row];
    forall k | 0 <= k < |after|
      ensures after[k].Live() == base[k].Live() + Rep(x, multiset(s + [j])[k])
    {
      assert multiset(s + [j]) == multiset(s) + multiset{j};
      if k == j {
        var m := multiset(s)[k];
        assert Rep(x, m + 1) == Rep(x, m) + [x];
      }
    }
  }

  /** A row that is already full overflows once it is named again. */
  lemma {:induction false} ReceivedFull(base: seq<Buffer<int>>, rows: seq<Buffer<int>>, x: int, s: seq<int>, j: int, cap: nat)
    requires Received(base, rows, x, s) && 0 <= j < |rows| && rows[j].n >= cap
    ensures Overflows(base, s + [j], cap)
  {
    assert |rows[j].Live()| == |base[j].Live()| + multiset(s)[j];
    assert multiset(s + [j]) == multiset(s) + multiset{j};
  }

  /** Rows within capacity that received `s` show that `s` does not overflow. */
  lemma {:induction false} ReceivedFits(base: seq<Buffer<int>>, rows: seq<Buffer<int>>, x: int, s: seq<int>, cap: nat, bound: int)
    requires Received(base, rows, x, s) && Stocked(rows, cap, bound)
    ensures !Overflows(base, s, cap)
  {
    forall k | 0 <= k < |base| ensures base[k].n + multiset(s)[k] <= cap {
      assert |rows[k].Live()| == |base[k].Live()| + multiset(s)[k];
    }
  }

  /** A walk whose start already overflows overflows as a whole. */
  lemma {:induction false} OverflowsPrefix(base: seq<Buffer<int>>, p: seq<int>, s: seq<int>, cap: nat)
    requires p <= s && Overflows(base, p, cap)
    ensures Overflows(base, s, cap)
  {
    var k :| 0 <= k < |base| && base[k].n + multiset(p)[k] > cap;
    PrefixCount(p, s, k);
  }

  /** Every row still starts with its old list. */
  ghost predicate Grown(base: seq<Buffer<int>>, rows: seq<Buffer<int>>) {
    |rows| == |base| &&
    forall k :: 0 <= k < |rows| ==>
      base[k].n <= |base[k].items| && rows[k].n <= |rows[k].items| && base[k].Live() <= rows[k].Live()
  }

  /** Rows that received a walk still start with their old lists. */
  lemma {:induction false} ReceivedGrown(base: seq<Buffer<int>>, rows: seq<Buffer<int>>, x: int, s: seq<int>)
    requires Received(base, rows, x, s)
    ensures Grown(base, rows)
  {
    forall k | 0 <= k < |rows| ensures base[k].Live() <= rows[k].Live() {
      assert rows[k].Live() == base[k].Live() + Rep(x, multiset(s)[k]);
    }
  }

  /** Counting in a prefix never gives more than counting in the whole. */
  lemma {:induction false} PrefixCount<T>(p: seq<T>, s: seq<T>, x: T)
    requires p <= s
    ensures multiset(p)[x] <= multiset(s)[x]
  {
    assert s == p + s[|p|..];
  }

  /**
   * A neighbour list holds no particle twice when the neighbourhood lists
   * every cell at most once.
   */
  lemma {:induction false} CandDistinct(v: CacheView, dir: Variance, i: int, hood: seq<int>)
    requires v.n <= |v.icell|
    requires forall a, b :: 0 <= a < b < |hood| ==> hood[a] != hood[b]
    ensures forall a, b :: 0 <= a < b < |Cand(v, dir, i, hood)| ==> Cand(v, dir, i, hood)[a] != Cand(v, dir, i, hood)[b]
  {
    if |hood| > 0 {
      var m := |hood| - 1;
      var prev := Cand(v, dir, i, hood[..m]);
      var bucket := Bucket(v, hood[m]);
      var next := Keep(v, dir, i, bucket);
      CandDistinct(v, dir, i, hood[..m]);
      CandSub(v, dir, i, hood[..m]);
      KeepSub(v, dir, i, bucket);
      MembersAscending(v.icell[..v.n], hood[m]);
      KeepDistinct(v, dir, i, bucket);
      forall x | x in prev
        ensures x !in next
      {
        assert v.icell[x] in hood[..m];
        assert hood[m] !in hood[..m];
      }
      DistinctConcat(prev, next);
    }
  }

  /** Two duplicate-free sequences with no element in common concatenate to one. */
  lemma {:induction false} DistinctConcat<T>(p: seq<T>, q: seq<T>)
    requires forall a, b :: 0 <= a < b < |p| ==> p[a] != p[b]
    requires forall a, b :: 0 <= a < b < |q| ==> q[a] != q[b]
    requires forall x :: x in p ==> x !in q
    ensures forall a, b :: 0 <= a < b < |p + q| ==> (p + q)[a] != (p + q)[b]
  {
    forall a, b | 0 <= a < b < |p + q|
      ensures (p + q)[a] != (p + q)[b]
    {
      if a < |p| && b >= |p| {
        assert (p + q)[a] in p;
        assert (p + q)[b] in q;
      }
    }
  }

  /** Filtering a duplicate-free sequence leaves it duplicate-free. */
  lemma {:induction false} KeepDistinct(v: CacheView, dir: Variance, i: int, js: seq<int>)
    requires forall a, b :: 0 <= a < b < |js| ==> js[a] < js[b]
    ensures forall a, b :: 0 <= a < b < |Keep(v, dir, i, js)| ==> Keep(v, dir, i, js)[a] != Keep(v, dir, i, js)[b]
  {
    if |js| > 0 {
      var m := |js| - 1;
      KeepDistinct(v, dir, i, js[..m]);
      KeepSub(v, dir, i, js[..m]);
      forall k | k in Keep(v, dir, i, js[..m]) ensures k < js[m] {
        assert k in js[..m];
      }
    }
  }

  /** The pairs (i, j) with i < j < n, row by row: what the brute-force loops visit. */
  function UpperPairs(n: nat, rows: nat): (ps: seq<(int, int)>)
    requires rows <= n
  {
    if rows == 0 then []
    else UpperPairs(n, rows - 1) + seq(n - rows, k => (rows - 1, rows + k))
  }

  /** The pairs (i, j) for i < j < m in order: the row of `i` the brute-force loops have visited before `j` reaches `m`. */
  function UpperRow(i: int, m: int): (ps: seq<(int, int)>)
    decreases m - i
  {
    if m <= i + 1 then [] else UpperRow(i, m - 1) + [(i, m - 1)]
  }

  /** The finished row of `i` completes the pairs of the first `i + 1` rows. */
  lemma {:induction false} UpperRowClosed(n: nat, i: nat)
    requires i < n
    ensures UpperPairs(n, i) + UpperRow(i, n) == UpperPairs(n, i + 1)
  {
    UpperRowElems(i, n);
  }

  lemma {:induction false} UpperRowElems(i: int, m: int)
    requires i < m
    ensures UpperRow(i, m) == seq(m - i - 1, k => (i, i + 1 + k))
    decreases m - i
  {
    if m > i + 1 {
      UpperRowElems(i, m - 1);
    }
  }

  /** The brute-force loops visit each unordered pair of live particles once, smaller index first. */
  lemma {:induction false} UpperPairsExactly(n: nat, rows: nat, i: int, j: int)
    requires rows <= n
    ensures (i, j) in UpperPairs(n, rows) <==> 0 <= i < rows && i < j < n
  {
    if rows > 0 {
      UpperPairsExactly(n, rows - 1, i, j);
      var row := seq(n - rows, k => (rows - 1, rows + k));
      if i == rows - 1 && i < j < n {
        assert row[j - rows] == (i, j);
      }
    }
  }

  /** No pair occurs twice in the brute-force enumeration. */
  lemma {:induction false} UpperPairsDistinct(n: nat, rows: nat)
    requires rows <= n
    ensures forall a, b :: 0 <= a < b < |UpperPairs(n, rows)| ==> UpperPairs(n, rows)[a] != UpperPairs(n, rows)[b]
  {
    if rows > 0 {
      UpperPairsDistinct(n, rows - 1);
      var prev := UpperPairs(n, rows - 1);
      var row := seq(n - rows, k => (rows - 1, rows + k));
      forall a | 0 <= a < |prev| ensures prev[a].0 < rows - 1 {
        var p := prev[a];
        assert p in prev;
        UpperPairsExactly(n, rows - 1, p.0, p.1);
      }
    }
  }

  /** The pairs (i, s[k]) for every entry of `s`, in order. */
  function RowPairs(i: int, s: seq<int>): (ps: seq<(int, int)>)
    ensures |ps| == |s|
  {
    seq(|s|, k requires 0 <= k < |s| => (i, s[k]))
  }

  /** One more entry of a row. */
  lemma RowPairsSnoc(i: int, s: seq<int>, k: int)
    requires 0 <= k < |s|
    ensures RowPairs(i, s[..k + 1]) == RowPairs(i, s[..k]) + [(i, s[k])]
  {
  }

  /** The pairs (i, j) for `j` in the neighbour list of `i`, for `i < count` row by row: what the cached loops visit. */
  function NeighPairs(rows: seq<Buffer<int>>, count: nat): seq<(int, int)>
    requires count <= |rows|
  {
    if count == 0 then []
    else NeighPairs(rows, count - 1) + RowPairs(count - 1, Take(rows[count - 1].items, rows[count - 1].n))
  }
  /** The uncached loops row by row: the rows `i < count` of `UpperPairs`, each offered in turn from `s`. */
  function UpperRowsFold(g: Geometry, o: Opts, parts: seq<Particle>, draws: nat -> real, s: Linking, n: nat, count: nat): (r: Linking)
    requires count <= n
    ensures |r.rows| == |s.rows|
  {
    if count == 0 then s
    else LinkFold(g, o, parts, draws, UpperRowsFold(g, o, parts, draws, s, n, count - 1), UpperRow(count - 1, n))
  }

  /** Offering the rows one after the other is offering `UpperPairs`. */
  lemma {:induction false} UpperRowsFoldPairs(g: Geometry, o: Opts, parts: seq<Particle>, draws: nat -> real, s: Linking, n: nat, count: nat)
    requires count <= n
    ensures UpperRowsFold(g, o, parts, draws, s, n, count) == LinkFold(g, o, parts, draws, s, UpperPairs(n, count))
  {
    if count > 0 {
      UpperRowsFoldPairs(g, o, parts, draws, s, n, count - 1);
      LinkFoldAppend(g, o, parts, draws, s, UpperPairs(n, count - 1), UpperRow(count - 1, n));
      UpperRowClosed(n, count - 1);
    }
  }

  /** The cached loops row by row: the neighbour lists of the rows `i < count`, each offered in turn from `s`. */
  function ListedRowsFold(g: Geometry, o: Opts, parts: seq<Particle>, draws: nat -> real, s: Linking,
                          lists: seq<Buffer<int>>, count: nat): (r: Linking)
    requires count <= |lists|
    ensures |r.rows| == |s.rows|
  {
    if count == 0 then s
    else
      var row := lists[count - 1];
      LinkFold(g, o, parts, draws, ListedRowsFold(g, o, parts, draws, s, lists, count - 1), RowPairs(count - 1, Take(row.items, row.n)))
  }

  /** Offering the lists one after the other is offering `NeighPairs`. */
  lemma {:induction false} ListedRowsFoldPairs(g: Geometry, o: Opts, parts: seq<Particle>, draws: nat -> real, s: Linking,
                                               lists: seq<Buffer<int>>, count: nat)
    requires count <= |lists|
    ensures ListedRowsFold(g, o, parts, draws, s, lists, count) == LinkFold(g, o, parts, draws, s, NeighPairs(lists, count))
  {
    if count > 0 {
      var row := lists[count - 1];
      ListedRowsFoldPairs(g, o, parts, draws, s, lists, count - 1);
      LinkFoldAppend(g, o, parts, draws, s, NeighPairs(lists, count - 1), RowPairs(count - 1, Take(row.items, row.n)));
    }
  }


  /** The cached loops visit (i, j) exactly when `j` is in the list of a row `i < count`. */
  lemma {:induction false} NeighPairsExactly(rows: seq<Buffer<int>>, count: nat, i: int, j: int)
    requires count <= |rows|
    ensures (i, j) in NeighPairs(rows, count) <==> 0 <= i < count && j in Take(rows[i].items, rows[i].n)
  {
    if count > 0 {
      NeighPairsExactly(rows, count - 1, i, j);
      var m := count - 1;
      var lst := Take(rows[m].items, rows[m].n);
      if i == m && j in lst {
        var k :| 0 <= k < |lst| && lst[k] == j;
        assert RowPairs(m, lst)[k] == (i, j);
      }
    }
  }

  /**
   * The brute-force loops of `bmm_dem_link` only append bonds to later live
   * particles, never twice to the same partner, and leave the tables of
   * particles from `n` on alone.
   */
  lemma {:induction false} UpperBonds(g: Geometry, o: Opts, parts: seq<Particle>, draws: nat -> real, s: Linking, n: nat, k: int)
    requires n <= |s.rows| && forall k' :: 0 <= k' < |s.rows| ==> s.rows[k'].n <= |s.rows[k'].items|
    ensures BondsAdded(s.rows, LinkFold(g, o, parts, draws, s, UpperPairs(n, n)).rows, Later(n, |s.rows|))
    ensures n <= k < |s.rows| ==> LinkFold(g, o, parts, draws, s, UpperPairs(n, n)).rows[k] == s.rows[k]
    ensures var rows := LinkFold(g, o, parts, draws, s, UpperPairs(n, n)).rows;
      0 <= k < |s.rows| ==> forall a, b :: s.rows[k].n <= a < b < rows[k].n ==> rows[k].items[a].target != rows[k].items[b].target
  {
    var pairs := UpperPairs(n, n);
    var allowed := Later(n, |s.rows|);
    forall p | p in pairs ensures p.0 < n && (0 <= p.0 < |allowed| ==> p.1 in allowed[p.0]) {
      UpperPairsExactly(n, n, p.0, p.1);
      InRange(p.0 + 1, n, p.1);
    }
    LinkFoldAllowed(g, o, parts, draws, s, pairs, allowed);
    if n <= k < |s.rows| {
      LinkFoldFrom(g, o, parts, draws, s, pairs, n, k);
    }
    if 0 <= k < |s.rows| {
      var rows := LinkFold(g, o, parts, draws, s, pairs).rows;
      UpperPairsDistinct(n, n);
      forall a, b | s.rows[k].n <= a < b < rows[k].n
        ensures rows[k].items[a].target != rows[k].items[b].target
      {
        LinkFoldFresh(g, o, parts, draws, s, pairs, k, a, b);
      }
    }
  }

  /**
   * The cached loops of `bmm_dem_link` only append bonds to the particles
   * the neighbour lists name, and leave the tables from `count` on alone.
   */
  lemma {:induction false} ListedBonds(g: Geometry, o: Opts, parts: seq<Particle>, draws: nat -> real, s: Linking,
                                       lists: seq<Buffer<int>>, count: nat, k: int)
    requires count <= |lists| == |s.rows| && forall k' :: 0 <= k' < |s.rows| ==> s.rows[k'].n <= |s.rows[k'].items|
    ensures BondsAdded(s.rows, LinkFold(g, o, parts, draws, s, NeighPairs(lists, count)).rows, Listed(lists))
    ensures count <= k < |s.rows| ==> LinkFold(g, o, parts, draws, s, NeighPairs(lists, count)).rows[k] == s.rows[k]
  {
    var pairs := NeighPairs(lists, count);
    var allowed := Listed(lists);
    forall p | p in pairs ensures p.0 < count && (0 <= p.0 < |allowed| ==> p.1 in allowed[p.0]) {
      NeighPairsExactly(lists, count, p.0, p.1);
    }
    LinkFoldAllowed(g, o, parts, draws, s, pairs, allowed);
    if count <= k < |s.rows| {
      LinkFoldFrom(g, o, parts, draws, s, pairs, count, k);
    }
  }
}
