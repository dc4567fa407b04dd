/**
 * The fixed-capacity tables of the discrete element method simulation: the
 * particle store, the per-particle bond tables, and the cell-list cache
 * (cached positions and cell coordinates, buckets of particles per cell,
 * neighbour lists), with the operations that update them in place.
 *
 * Every C array of fixed length is an `array` here. A C struct holding a
 * count and a buffer (`link.part[i]`, `cache.part[c]`, `cache.neigh[i]`) is
 * a `Buffer` element of such an array.
 */
module Dem {
  import opened CInt
  import opened DemSpec
  import CommonUint

  /** The zeroed particle slot `memset` leaves behind. */
  function BlankParticle(): (p: Particle)
    ensures |p.x| == NDim && p.l == 0
  {
    Particle(Free, 0, 0.0, 0.0, 0.0, Zeros(), Zeros(), Zeros(), 0.0, 0.0, 0.0, Zeros(), 0.0)
  }

  const BlankLink := Link(0, 0.0, 0.0, 0.0, 0.0, 0.0)

  /** The moment of inertia `bmm_dem_cache_j` caches for a particle. */
  function Inertia(p: Particle): real {
    p.jred * p.m * Sq(p.r)
  }

  /** A fresh array of `len` copies of `x`. */
  method Filled<T>(len: nat, x: T) returns (a: array<T>)
    ensures fresh(a) && a.Length == len && forall i :: 0 <= i < len ==> a[i] == x
  {
    a := new T[len](_ => x);
  }

  /** The grid of a two-dimensional box has `ns[0] * ns[1]` cells, at least as many as either side. */
  lemma {:induction false} SidesBelowProd(ns: seq<int>)
    requires |ns| == NDim && forall d :: 0 <= d < NDim ==> 1 <= ns[d]
    ensures CommonUint.Prod(ns) == ns[0] * ns[1]
    ensures forall d :: 0 <= d < NDim ==> ns[d] <= CommonUint.Prod(ns)
  {
    assert ns[1..][1..] == [];
    assert CommonUint.Prod(ns[1..][1..]) == 1;
    assert CommonUint.Prod(ns[1..]) == ns[1];
    MulMonotone(1, ns[0], ns[1]);
    MulMonotone(1, ns[1], ns[0]);
  }

  /** With every side at most `ncell`, the grid has at most `ncell^NDim` cells. */
  lemma {:induction false} NCellProd(ns: seq<int>, ncell: int)
    requires |ns| == NDim && forall d :: 0 <= d < NDim ==> 1 <= ns[d] <= ncell
    ensures 0 < CommonUint.Prod(ns) <= Pow(ncell, NDim)
  {
    SidesBelowProd(ns);
    PowTwo(ncell);
    MulMonotone(ns[0], ncell, ns[1]);
    MulMonotone(ns[1], ncell, ncell);
  }

  /**
   * A cell vector that fits a grid of at most `nbucket <= SIZE_MAX` cells
   * has `size_t` entries, and its `size_t` flattening does not wrap and names
   * one of the `nbucket` buckets.
   */
  lemma {:induction false} CellIndexFits(ij: seq<int>, ns: seq<int>, nbucket: int)
    requires |ns| == NDim && forall d :: 0 <= d < NDim ==> 1 <= ns[d]
    requires CommonUint.DigitsFit(ij, ns) && CommonUint.Prod(ns) <= nbucket <= SizeMax
    ensures forall k :: 0 <= k < NDim ==> SizeT.Contains(ij[k]) && SizeT.Contains(ns[k])
    ensures CommonUint.Horner(ij, ns) % (SizeT.max + 1) == CommonUint.Horner(ij, ns)
    ensures 0 <= CommonUint.Horner(ij, ns) < nbucket
  {
    SidesBelowProd(ns);
    CommonUint.UnhcdExact(SizeT, ij, ns);
    CommonUint.HornerBound(ij, ns);
  }

  lemma {:induction false} PowTwo(x: int)
    ensures Pow(x, NDim) == x * x >= 0
  {
    assert Pow(x, 1) == x;
    if x < 0 {
      MulNonNegative(-x, -x);
    } else {
      MulNonNegative(x, x);
    }
  }

  class Simulation {
    /** `BMM_NPART`; `BMM_MPART`, the limit `bmm_dem_addpart` checks, is taken to be the same. */
    const npart: nat
    /** `BMM_NLINK`, the bond capacity of each particle. */
    const nlink: nat
    /** `BMM_NGROUP`, the capacity of a bucket. */
    const ngroup: nat
    /** `BMM_POW(BMM_NCELL, BMM_NDIM)`, the number of buckets. */
    const nbucket: nat
    /** `BMM_NGROUP * (BMM_POW(3, BMM_NDIM) / 2)`, the capacity of a neighbour list. */
    const nneigh: nat

    const opts: Opts
    const geom: Geometry

    /** `part.n` and `part.lnew`. */
    var n: nat
    var lnew: int
    /** `time.t` and `time.istep`. */
    var t: real
    var istep: nat
    /** `cache.stale` and `cache.tprev`. */
    var stale: bool
    var tprev: real

    const part: array<Particle>
    /** `link.part`: the bond records of every particle. */
    const links: array<Buffer<Link>>
    /** `cache.j`, `cache.x`, `cache.ijcell` and `cache.icell`. */
    const cacheJ: array<real>
    const cacheX: array<seq<real>>
    const ijcell: array<seq<int>>
    const icell: array<int>
    /** `cache.part`: the particles of every cell. */
    const buckets: array<Buffer<int>>
    /** `cache.neigh`: the neighbour list of every particle. */
    const neighs: array<Buffer<int>>

    /** Array lengths, the capacities and the options. */
    ghost predicate Shapes() {
      && part.Length == npart && links.Length == npart
      && cacheJ.Length == npart && cacheX.Length == npart && ijcell.Length == npart
      && icell.Length == npart && neighs.Length == npart && buckets.Length == nbucket
      && buckets != neighs
      && opts.Valid() && 0 < CommonUint.Prod(opts.ncell) <= nbucket <= SizeMax
      && geom.Valid(opts.ncell)
    }

    /** Live labels are distinct and below `lnew`; every slot has a position vector. */
    ghost predicate PartsOk()
      reads this`n, this`lnew, part
    {
      n <= npart && Labelled(part[..], n, lnew)
    }

    /** The first `n` of `ps` carry distinct labels below `lnew`; every entry has `NDim` coordinates. */
    static ghost predicate Labelled(ps: seq<Particle>, n: int, lnew: int) {
      && n <= |ps|
      && (forall i :: 0 <= i < |ps| ==> Dims(ps, i) == NDim)
      && (forall i :: 0 <= i < n ==> Label(ps, i) < lnew)
      && (forall i, j :: 0 <= i < j < n ==> Label(ps, i) != Label(ps, j))
    }

    /** The number of coordinates of entry `i`. */
    static function Dims(ps: seq<Particle>, i: int): nat
      requires 0 <= i < |ps|
    {
      |ps[i].x|
    }

    /** The label of entry `i`: the facts about labels are stated on this term alone. */
    static function Label(ps: seq<Particle>, i: int): int
      requires 0 <= i < |ps|
    {
      ps[i].l
    }

    ghost predicate LinksOk()
      reads links
      requires Shapes()
    {
      forall i :: 0 <= i < npart ==> links[i].Fits(nlink)
    }

    /** Cached positions and cell vectors have `NDim` entries, cell indices name a bucket. */
    ghost predicate CellsOk()
      reads cacheX, ijcell, icell
      requires Shapes()
    {
      && (forall i :: 0 <= i < npart ==> |cacheX[i]| == NDim)
      && (forall i :: 0 <= i < npart ==> CommonUint.DigitsFit(ijcell[i], opts.ncell))
      && (forall i :: 0 <= i < npart ==> 0 <= icell[i] < nbucket)
    }

    ghost predicate BucketsOk()
      reads buckets
      requires Shapes()
    {
      forall c :: 0 <= c < nbucket ==> buckets[c].Fits(ngroup) && IndicesBelow(buckets[c], npart)
    }

    ghost predicate NeighsOk()
      reads neighs
      requires Shapes()
    {
      forall i :: 0 <= i < npart ==> neighs[i].Fits(nneigh) && IndicesBelow(neighs[i], npart)
    }

    ghost predicate Valid()
      reads this`n, this`lnew, part, links, cacheX, ijcell, icell, buckets, neighs
    {
      Shapes() && PartsOk() && LinksOk() && CellsOk() && BucketsOk() && NeighsOk()
    }

    /**
     * `bmm_dem_def`: a simulation with no particles, no bonds, empty buckets,
     * the clock at zero and a cache that is not stale. All other slots are
     * zeroed, as the `memset` leaves them.
     */
    constructor(npart: nat, nlink: nat, ngroup: nat, ncell: nat, opts: Opts, geom: Geometry)
      requires opts.Valid() && forall d :: 0 <= d < NDim ==> opts.ncell[d] <= ncell
      requires Pow(ncell, NDim) <= SizeMax
      requires geom.Valid(opts.ncell)
      ensures Valid()
      ensures this.npart == npart && this.nlink == nlink && this.ngroup == ngroup
      ensures nbucket == Pow(ncell, NDim) && nneigh == ngroup * (Pow(3, NDim) / 2)
      ensures this.opts == opts && this.geom == geom
      ensures n == 0 && lnew == 0 && t == 0.0 && istep == 0 && !stale && tprev == 0.0
      ensures forall i :: 0 <= i < npart ==> links[i].n == 0
      ensures forall c :: 0 <= c < nbucket ==> buckets[c].n == 0
    {
      this.npart, this.nlink, this.ngroup := npart, nlink, ngroup;
      PowTwo(ncell);
      var nb := Pow(ncell, NDim);
      var nn := ngroup * (Pow(3, NDim) / 2);
      nbucket, nneigh := nb, nn;
      this.opts, this.geom := opts, geom;
      n, lnew, t, istep, stale, tprev := 0, 0, 0.0, 0, false, 0.0;
      var part0, links0, cacheJ0, cacheX0, ijcell0, icell0, buckets0, neighs0 := Tables(npart, nlink, ngroup, nb, nn);
      part, links, cacheJ, cacheX, ijcell, icell, buckets, neighs :=
        part0, links0, cacheJ0, cacheX0, ijcell0, icell0, buckets0, neighs0;
      new;
      NCellProd(opts.ncell, ncell);
      assert Shapes();
      assert CommonUint.DigitsFit([0, 0], opts.ncell);
      assert PartsOk();
      assert LinksOk();
      assert CellsOk();
      assert BucketsOk();
      assert NeighsOk();
    }

    /** The zeroed tables `memset` leaves behind, for `npart` particles and `nb` buckets. */
    static method Tables(npart: nat, nlink: nat, ngroup: nat, nb: nat, nn: nat)
      returns (part: array<Particle>, links: array<Buffer<Link>>, cacheJ: array<real>,
               cacheX: array<seq<real>>, ijcell: array<seq<int>>, icell: array<int>,
               buckets: array<Buffer<int>>, neighs: array<Buffer<int>>)
      ensures fresh(part) && fresh(links) && fresh(cacheJ) && fresh(cacheX)
      ensures fresh(ijcell) && fresh(icell) && fresh(buckets) && fresh(neighs) && buckets != neighs
      ensures part.Length == npart && links.Length == npart && cacheJ.Length == npart
      ensures cacheX.Length == npart && ijcell.Length == npart && icell.Length == npart
      ensures buckets.Length == nb && neighs.Length == npart
      ensures Labelled(part[..], 0, 0)
      ensures forall i :: 0 <= i < npart ==> links[i].n == 0 && links[i].Fits(nlink)
      ensures forall i :: 0 <= i < npart ==> |cacheX[i]| == NDim && ijcell[i] == [0, 0] && icell[i] == 0
      ensures forall c :: 0 <= c < nb ==> buckets[c].n == 0 && buckets[c].Fits(ngroup)
      ensures forall i :: 0 <= i < npart ==> neighs[i].n == 0 && neighs[i].Fits(nn)
    {
      part := Filled(npart, BlankParticle());
      links := Filled(npart, Buffer(0, seq(nlink, _ => BlankLink)));
      cacheJ := Filled(npart, 0.0);
      cacheX := Filled(npart, Zeros());
      ijcell := Filled(npart, [0, 0]);
      icell := Filled(npart, 0);
      buckets := Filled(nb, Buffer(0, seq(ngroup, _ => 0)));
      neighs := Filled(npart, Buffer(0, seq(nn, _ => 0)));
    }

    /**
     * `bmm_dem_addpart`: on a full store returns `SIZE_MAX` and changes
     * nothing; otherwise appends a fresh particle labelled `lnew`, returns
     * its index, advances `lnew` and marks the cache stale.
     */
    method AddPart() returns (ipart: int)
      requires Valid()
      modifies this`n, this`lnew, this`stale, part
      ensures Valid()
      ensures old(n) >= npart ==>
        ipart == SizeMax && n == old(n) && lnew == old(lnew)
        && stale == old(stale) && part[..] == old(part[..])
      ensures old(n) < npart ==>
        ipart == old(n) && n == old(n) + 1 && lnew == old(lnew) + 1
        && stale && part[..] == old(part[..])[ipart := NewParticle(old(lnew), geom)]
      ensures t == old(t) && istep == old(istep) && tprev == old(tprev)
    {
      ipart := n;
      if ipart >= npart {
        return SizeMax;
      }
      n := n + 1;
      ghost var before := part[..];
      part[ipart] := NewParticle(lnew, geom);
      Appended(before, part[..], ipart, lnew);
      lnew := lnew + 1;
      stale := true;
    }

    /** Storing a particle labelled `lnew` in slot `k` keeps the first `k + 1` labels distinct and below `lnew + 1`. */
    static lemma {:induction false} Appended(before: seq<Particle>, after: seq<Particle>, k: int, lnew: int)
      requires 0 <= k < |before| && Labelled(before, k, lnew)
      requires |after| == |before| && after == before[k := after[k]] && after[k].l == lnew && |after[k].x| == NDim
      ensures Labelled(after, k + 1, lnew + 1)
    {
      forall i | 0 <= i < |after| ensures Dims(after, i) == NDim {
        if i != k {
          assert Dims(before, i) == NDim;
        }
      }
      forall i | 0 <= i < k + 1 ensures Label(after, i) < lnew + 1 {
        if i < k {
          assert Label(before, i) < lnew;
        }
      }
      forall i, j | 0 <= i < j < k + 1 ensures Label(after, i) != Label(after, j) {
        if j < k {
          assert Label(before, i) != Label(before, j);
        } else {
          assert Label(before, i) < lnew;
        }
      }
    }

    /**
     * `bmm_dem_reassign(ipart, jpart)`: slot `ipart` takes the whole state
     * of slot `jpart`, its bond count and its live bond records; the records
     * of `ipart` beyond them stay as they were.
     */
    method Reassign(ipart: int, jpart: int)
      requires Valid() && 0 <= ipart < npart && 0 <= jpart < npart
      modifies part, links
      ensures Shapes() && LinksOk()
      ensures part[..] == old(part[..])[ipart := old(part[jpart])]
      ensures links[ipart].n == old(links[jpart].n)
      ensures links[ipart].Live() == old(links[jpart].Live())
      ensures links[ipart].items[links[ipart].n..] == old(links[ipart].items[links[jpart].n..])
      ensures forall k :: 0 <= k < npart && k != ipart ==> links[k] == old(links[k])
    {
      part[ipart] := part[jpart];
      var src, row := links[jpart], links[ipart].items;
      for ilink := 0 to src.n
        invariant |row| == nlink
        invariant row == src.items[..ilink] + old(links[ipart].items)[ilink..]
      {
        row := row[ilink := src.items[ilink]];
      }
      links[ipart] := Buffer(src.n, row);
    }

    /**
     * `bmm_dem_rempart(ipart)`: the last live particle, with its bonds, moves
     * into slot `ipart` (unless it is `ipart` itself), the store shrinks by
     * one and the cache is marked stale. The live particles afterwards are
     * the old ones without `ipart`, and every other slot keeps its index.
     */
    method RemPart(ipart: int)
      requires Valid() && 0 <= ipart < n
      modifies this`n, this`stale, part, links
      ensures Valid()
      ensures n == old(n) - 1 && lnew == old(lnew) && stale
      ensures part[..n] == SwapRemove(old(part[..n]), ipart)
      ensures part[..] == old(part[..])[ipart := old(part[..])[n]]
      ensures ipart < n ==>
        && links[ipart].Live() == old(links[..])[n].Live()
        && links[ipart].items[links[ipart].n..] == old(links[ipart].items)[links[ipart].n..]
      ensures forall k :: 0 <= k < npart && (k != ipart || ipart == n) ==> links[k] == old(links[k])
    {
      ghost var before := part[..];
      var jpart := n - 1;
      if jpart != ipart {
        Reassign(ipart, jpart);
      }
      n := jpart;
      stale := true;
      SwapRemoved(before, part[..], ipart, n, lnew);
      assert Shapes();
      assert PartsOk();
      assert LinksOk();
      assert CellsOk();
      assert BucketsOk();
      assert NeighsOk();
    }

    /**
     * Moving slot `last` into slot `i` leaves in the first `last` slots the
     * old live particles without `i`, with their labels still distinct.
     */
    static lemma {:induction false} SwapRemoved(before: seq<Particle>, after: seq<Particle>, i: int, last: int, lnew: int)
      requires 0 <= i <= last < |before| == |after|
      requires after == (if i == last then before else before[i := before[last]])
      requires Labelled(before, last + 1, lnew)
      ensures after[..last] == SwapRemove(before[..last + 1], i)
      ensures Labelled(after, last, lnew)
    {
      var live := before[..last + 1];
      SwapRemoveMultiset(live, i);
      forall k | 0 <= k < last ensures after[..last][k] == SwapRemove(live, i)[k] {
        SwapRemoveAt(live, i, k);
      }
      assert after[..last] == SwapRemove(live, i);
      forall a | 0 <= a < |after| ensures Dims(after, a) == NDim {
        assert Dims(before, if a == i then last else a) == NDim;
      }
      forall a | 0 <= a < last ensures Label(after, a) < lnew {
        assert Label(before, if a == i then last else a) < lnew;
      }
      forall a, b | 0 <= a < b < last ensures Label(after, a) != Label(after, b) {
        var a0 := if a == i then last else a;
        var b0 := if b == i then last else b;
        if a0 < b0 {
          assert Label(before, a0) != Label(before, b0);
        } else {
          assert Label(before, b0) != Label(before, a0);
        }
      }
    }

    /** The cached state the eligibility test and the neighbour lists are computed from. */
    function View(): (v: CacheView)
      reads this`n, icell, cacheX
      ensures v.n == n && v.icell == icell[..] && v.x == cacheX[..]
    {
      CacheView(geom, Sq(opts.rcutoff), icell[..], cacheX[..], n)
    }

    /** What `bmm_dem_cache_addfrom` (covariant) or `addto` (contravariant) walks for `i`. */
    ghost function Candidates(dir: Variance, i: int): seq<int>
      reads this`n, icell, cacheX, ijcell
      requires Shapes() && n <= npart && 0 <= i < npart
    {
      Cand(View(), dir, i, Hood(geom, ijcell[i]))
    }

    /** The per-particle cache entries agree with the live particles. */
    ghost predicate Derived()
      reads this`n, part, cacheJ, cacheX, ijcell, icell
      requires Shapes() && n <= npart && CellsOk()
    {
      forall i :: 0 <= i < n ==>
        && cacheJ[i] == Inertia(part[i])
        && cacheX[i] == part[i].x
        && ijcell[i] == CellCoords(geom, opts, cacheX[i])
        && icell[i] == CommonUint.Horner(ijcell[i], opts.ncell)
    }

    /** Every bucket lists the live particles of its cell, in ascending order. */
    ghost predicate BucketsHold()
      reads this`n, icell, cacheX, buckets
      requires Shapes() && n <= npart && BucketsOk()
    {
      forall c :: 0 <= c < nbucket ==> buckets[c].Live() == Bucket(View(), c)
    }

    ghost predicate BucketsFit()
      reads this`n, icell, cacheX
      requires Shapes() && n <= npart
    {
      forall c :: 0 <= c < nbucket ==> |Bucket(View(), c)| <= ngroup
    }

    /** Every live particle's neighbour list is its covariant candidate list. */
    ghost predicate NeighsHold()
      reads this`n, icell, cacheX, ijcell, neighs
      requires Shapes() && n <= npart && NeighsOk()
    {
      forall i :: 0 <= i < n ==> neighs[i].Live() == Candidates(Covariant, i)
    }

    ghost predicate NeighsFit()
      reads this`n, icell, cacheX, ijcell
      requires Shapes() && n <= npart
    {
      forall i :: 0 <= i < n ==> |Candidates(Covariant, i)| <= nneigh
    }

    /** No bucket and no neighbour list of the live particles exceeds its capacity. */
    ghost predicate Fits()
      reads this`n, icell, cacheX, ijcell
      requires Shapes() && n <= npart
    {
      BucketsFit() && NeighsFit()
    }

    /** `bmm_dem_cache_j(ipart)`: caches the moment of inertia of `ipart`. */
    method CacheJ(ipart: int)
      requires Valid() && 0 <= ipart < npart
      modifies cacheJ
      ensures cacheJ[..] == old(cacheJ[..])[ipart := Inertia(part[ipart])]
    {
      cacheJ[ipart] := Inertia(part[ipart]);
    }

    /** `bmm_dem_cache_x(ipart)`: caches the position of `ipart`, coordinate by coordinate. */
    method CacheX(ipart: int)
      requires Valid() && 0 <= ipart < npart
      modifies cacheX
      ensures Valid()
      ensures cacheX[..] == old(cacheX[..])[ipart := part[ipart].x]
    {
      var x := cacheX[ipart];
      assert Dims(part[..], ipart) == NDim;
      for idim := 0 to NDim
        invariant |x| == NDim
        invariant x[..idim] == part[ipart].x[..idim]
      {
        x := x[idim := part[ipart].x[idim]];
      }
      assert x == x[..NDim] && part[ipart].x == part[ipart].x[..NDim];
      cacheX[ipart] := x;
    }

    /**
     * `bmm_dem_cache_ijcell(ipart)`: caches the clamped cell coordinate of
     * the cached position of `ipart` along every axis.
     */
    method CacheIjcell(ipart: int)
      requires Valid() && 0 <= ipart < npart
      modifies ijcell
      ensures Valid()
      ensures ijcell[..] == old(ijcell[..])[ipart := CellCoords(geom, opts, cacheX[ipart])]
    {
      ghost var target := CellCoords(geom, opts, cacheX[ipart]);
      var ij := ijcell[ipart];
      for idim := 0 to NDim
        invariant |ij| == NDim
        invariant ij[..idim] == target[..idim]
      {
        var c := CellCoord(geom, cacheX[ipart][idim], opts.box[idim], opts.ncell[idim]);
        ij := ij[idim := c];
      }
      assert ij == ij[..NDim] && target == target[..NDim];
      ijcell[ipart] := ij;
    }

    /**
     * `bmm_dem_cache_icell(ipart)`: flattens the cached cell vector of
     * `ipart` with the `size_t` instance of `bmm_unhcd`. The grid has at most
     * `SIZE_MAX` cells, so no wrap-around occurs and the index names a bucket.
     */
    method CacheIcell(ipart: int)
      requires Valid() && 0 <= ipart < npart
      modifies icell
      ensures Valid()
      ensures icell[..] == old(icell[..])[ipart := CommonUint.Horner(ijcell[ipart], opts.ncell)]
    {
      var row := ijcell[ipart];
      var ns := opts.ncell;
      CellIndexFits(row, ns, nbucket);
      var ij := new int[NDim](k requires 0 <= k < NDim => row[k]);
      var nper := new int[NDim](k requires 0 <= k < NDim => ns[k]);
      assert ij[..NDim] == row && nper[..NDim] == ns;
      var c := CommonUint.Unhcd(SizeT, ij, NDim, nper);
      icell[ipart] := c;
    }

    /**
     * `bmm_dem_cache_eligible(ipart, jpart)`: whether `jpart` may be listed
     * as a neighbour of `ipart`; this is `DemSpec.Elig` on the cached state.
     */
    predicate Eligible(ipart: int, jpart: int)
      reads this`n, icell, cacheX
      requires Shapes() && 0 <= ipart < npart && 0 <= jpart < npart
      ensures Eligible(ipart, jpart) == Elig(View(), ipart, jpart)
    {
      if icell[ipart] == icell[jpart] && jpart <= ipart then false
      else if geom.cpdist2(cacheX[ipart], cacheX[jpart]) > Sq(opts.rcutoff) then false
      else true
    }

    /** `bmm_dem_cache_clrparts`: empties every bucket. */
    method ClrParts()
      requires Valid()
      modifies buckets
      ensures Valid()
      ensures forall c :: 0 <= c < nbucket ==> buckets[c] == old(buckets[c]).(n := 0)
    {
      for c := 0 to nbucket
        invariant BucketsOk()
        invariant forall d :: 0 <= d < nbucket ==> buckets[d] == if d < c then old(buckets[d]).(n := 0) else old(buckets[d])
      {
        buckets[c] := buckets[c].(n := 0);
      }
    }

    /**
     * `bmm_dem_cache_addpart(ipart)`: appends `ipart` to the bucket of its
     * cached cell when that bucket has room; a full bucket is left as it was.
     */
    method CacheAddPart(ipart: int) returns (ok: bool)
      requires Valid() && 0 <= ipart < npart
      modifies buckets
      ensures Valid()
      ensures ok <==> old(buckets[icell[ipart]].n) < ngroup
      ensures ok ==> buckets[icell[ipart]].Live() == old(buckets[icell[ipart]].Live()) + [ipart]
      ensures forall c :: 0 <= c < nbucket && (c != icell[ipart] || !ok) ==> buckets[c] == old(buckets[c])
    {
      var c := icell[ipart];
      var b := buckets[c];
      if b.n >= ngroup {
        return false;
      }
      buckets[c] := Buffer(b.n + 1, b.items[b.n := ipart]);
      assert buckets[c].Live() == b.Live() + [ipart];
      ok := true;
    }

    /** `bmm_dem_cache_clrneighs`: empties the neighbour list of every live particle. */
    method ClrNeighs()
      requires Valid()
      modifies neighs
      ensures Valid()
      ensures forall i :: 0 <= i < npart ==> neighs[i] == if i < n then old(neighs[i]).(n := 0) else old(neighs[i])
    {
      for i := 0 to n
        invariant NeighsOk()
        invariant forall k :: 0 <= k < npart ==> neighs[k] == if k < i then old(neighs[k]).(n := 0) else old(neighs[k])
      {
        neighs[i] := neighs[i].(n := 0);
      }
    }

    /**
     * `bmm_dem_cache_addfrom(ipart, BMM_NEIGH_MASK_UPPERH)`: walks the
     * buckets of the upper half of the neighbourhood of the cell of `ipart`
     * and appends every particle eligible for `ipart` to its neighbour list.
     * It fails at the first eligible particle that finds the list full; the
     * list is then left full.
     */
    method AddFrom(ipart: int) returns (ok: bool)
      requires Valid() && 0 <= ipart < n && BucketsHold()
      modifies neighs
      ensures Valid()
      ensures ok <==> old(neighs[ipart].n) + |Candidates(Covariant, ipart)| <= nneigh
      ensures ok ==> neighs[ipart].Live() == old(neighs[ipart].Live()) + Candidates(Covariant, ipart)
      ensures !ok ==> neighs[ipart].n == nneigh
      ensures !ok ==> neighs[ipart].Live() <= old(neighs[ipart].Live()) + Candidates(Covariant, ipart)
      ensures forall k :: 0 <= k < npart && k != ipart ==> neighs[k] == old(neighs[k])
    {
      ok, neighs[ipart] := AddFromHood(View(), buckets, opts.ncell, ijcell[ipart], ipart, neighs[ipart], nneigh, npart);
      assert NeighsOk();
    }

    /**
     * The outer loop of `bmm_dem_cache_addfrom`: appends to `row`, bucket by
     * bucket over the upper half of the neighbourhood of cell `ij`, the
     * particles eligible for `ipart`, failing as soon as `row` is full.
     */
    static method AddFromHood(v: CacheView, bs: array<Buffer<int>>, ghost ncell: seq<int>, ij: seq<int>, ipart: int,
                              row: Buffer<int>, cap: nat, bound: int)
      returns (ok: bool, out: Buffer<int>)
      requires v.n <= |v.icell| && v.g.Valid(ncell) && CommonUint.DigitsFit(ij, ncell)
      requires CommonUint.Prod(ncell) <= bs.Length
      requires forall c :: 0 <= c < bs.Length ==> IndicesBelow(bs[c], bound) && bs[c].Live() == Bucket(v, c)
      requires row.Fits(cap) && IndicesBelow(row, bound)
      ensures out.Fits(cap) && IndicesBelow(out, bound)
      ensures ok <==> row.n + |Cand(v, Covariant, ipart, Hood(v.g, ij))| <= cap
      ensures ok ==> out.Live() == row.Live() + Cand(v, Covariant, ipart, Hood(v.g, ij))
      ensures !ok ==> out.n == cap && out.Live() <= row.Live() + Cand(v, Covariant, ipart, Hood(v.g, ij))
    {
      ghost var hood := Hood(v.g, ij);
      var nn := v.g.ncpij(ij);
      out := row;
      for h := 0 to nn
        invariant out.Fits(cap) && IndicesBelow(out, bound)
        invariant out.Live() == row.Live() + Cand(v, Covariant, ipart, hood[..h])
      {
        var c := v.g.icpij(ij, h);
        assert c == hood[h];
        CandExtend(v, Covariant, ipart, hood, h, row.Live());
        assert bs[c].Live() == Bucket(v, c);
        var fits;
        fits, out := AddFromCell(v, ipart, bs[c], out, cap, bound);
        if !fits {
          CandPrefix(v, Covariant, ipart, hood, h + 1);
          ghost var whole := row.Live() + Cand(v, Covariant, ipart, hood);
          PrefixExtend(row.Live(), Cand(v, Covariant, ipart, hood[..h + 1]), Cand(v, Covariant, ipart, hood), whole);
          PrefixTrans(out.Live(), row.Live() + Cand(v, Covariant, ipart, hood[..h + 1]), whole);
          return false, out;
        }
      }
      assert hood[..nn] == hood;
      ok := true;
    }

    /**
     * The inner loop of `bmm_dem_cache_addfrom`: appends to `row` the live
     * members of bucket `b` eligible for `ipart`, failing at the first one
     * that finds `row` full (`cap` entries).
     */
    static method AddFromCell(v: CacheView, ipart: int, b: Buffer<int>, row: Buffer<int>, cap: nat, bound: int)
      returns (ok: bool, out: Buffer<int>)
      requires IndicesBelow(b, bound) && row.Fits(cap) && IndicesBelow(row, bound)
      ensures out.Fits(cap) && IndicesBelow(out, bound)
      ensures ok <==> row.n + |Keep(v, Covariant, ipart, b.Live())| <= cap
      ensures ok ==> out.Live() == row.Live() + Keep(v, Covariant, ipart, b.Live())
      ensures !ok ==> out.n == cap && out.Live() <= row.Live() + Keep(v, Covariant, ipart, b.Live())
    {
      ghost var bl := b.Live();
      out := row;
      for g := 0 to b.n
        invariant out.Fits(cap) && IndicesBelow(out, bound)
        invariant out.Live() == row.Live() + Keep(v, Covariant, ipart, bl[..g])
      {
        var jpart := b.items[g];
        assert jpart == bl[g];
        KeepExtend(v, Covariant, ipart, bl, g, row.Live());
        if Elig(v, ipart, jpart) {
          if out.n >= cap {
            KeepPrefix(v, Covariant, ipart, bl, g);
            PrefixExtend(row.Live(), Keep(v, Covariant, ipart, bl[..g]), Keep(v, Covariant, ipart, bl), row.Live() + Keep(v, Covariant, ipart, bl));
            return false, out;
          }
          var grown := Buffer(out.n + 1, out.items[out.n := jpart]);
          assert grown.Live() == out.Live() + [jpart];
          out := grown;
        }
      }
      assert bl[..b.n] == bl;
      ok := true;
    }

    /**
     * `bmm_dem_cache_addto(ipart, mask)`: walks the buckets of the upper half
     * of the neighbourhood of the cell of `ipart` and appends `ipart` to the
     * neighbour list of every particle for which `ipart` is eligible. It
     * fails at the first such list that is full; what was appended before
     * stays in place. The rebuild never calls it.
     */
    method AddTo(ipart: int) returns (ok: bool)
      requires Valid() && 0 <= ipart < n && BucketsHold()
      modifies neighs
      ensures Valid()
      ensures ok <==> !Overflows(old(neighs[..]), Candidates(Contravariant, ipart), nneigh)
      ensures ok ==> Received(old(neighs[..]), neighs[..], ipart, Candidates(Contravariant, ipart))
      ensures Grown(old(neighs[..]), neighs[..])
    {
      assert Stocked(neighs[..], nneigh, npart);
      ok := AddToHood(View(), buckets, opts.ncell, ijcell[ipart], ipart, neighs, nneigh);
      assert NeighsOk();
    }

    /**
     * The outer loop of `bmm_dem_cache_addto`: bucket by bucket over the
     * upper half of the neighbourhood of cell `ij`, appends `ipart` to the
     * rows of the particles it is eligible for.
     */
    static method AddToHood(v: CacheView, bs: array<Buffer<int>>, ghost ncell: seq<int>, ij: seq<int>, ipart: int,
                            rows: array<Buffer<int>>, cap: nat)
      returns (ok: bool)
      requires v.n <= |v.icell| && v.g.Valid(ncell) && CommonUint.DigitsFit(ij, ncell)
      requires CommonUint.Prod(ncell) <= bs.Length && bs != rows && 0 <= ipart < rows.Length
      requires forall c :: 0 <= c < bs.Length ==> IndicesBelow(bs[c], rows.Length) && bs[c].Live() == Bucket(v, c)
      requires Stocked(rows[..], cap, rows.Length)
      modifies rows
      ensures Stocked(rows[..], cap, rows.Length) && Grown(old(rows[..]), rows[..])
      ensures ok <==> !Overflows(old(rows[..]), Cand(v, Contravariant, ipart, Hood(v.g, ij)), cap)
      ensures ok ==> Received(old(rows[..]), rows[..], ipart, Cand(v, Contravariant, ipart, Hood(v.g, ij)))
    {
      ghost var base := rows[..];
      ghost var hood := Hood(v.g, ij);
      ReceivedNothing(base, ipart);
      var nn := v.g.ncpij(ij);
      for h := 0 to nn
        invariant Stocked(rows[..], cap, rows.Length)
        invariant Received(base, rows[..], ipart, Cand(v, Contravariant, ipart, hood[..h]))
      {
        var c := v.g.icpij(ij, h);
        assert c == hood[h];
        ghost var pre := Cand(v, Contravariant, ipart, hood[..h]);
        ghost var keep := Keep(v, Contravariant, ipart, Bucket(v, c));
        CandStep(v, Contravariant, ipart, hood, h);
        assert bs[c].Live() == Bucket(v, c);
        var fits := AddToCell(v, ipart, bs[c], rows, cap, base, pre);
        if !fits {
          assert Overflows(base, pre + keep, cap);
          CandPrefix(v, Contravariant, ipart, hood, h + 1);
          OverflowsPrefix(base, pre + keep, Cand(v, Contravariant, ipart, hood), cap);
          return false;
        }
        assert Received(base, rows[..], ipart, pre + keep);
      }
      assert hood[..nn] == hood;
      ReceivedGrown(base, rows[..], ipart, Cand(v, Contravariant, ipart, hood));
      ReceivedFits(base, rows[..], ipart, Cand(v, Contravariant, ipart, hood), cap, rows.Length);
      ok := true;
    }

    /**
     * The inner loop of `bmm_dem_cache_addto`: appends `ipart` to the row of
     * every live member of bucket `b` it is eligible for, on top of rows that
     * have received the walk `pre` since they were `base`.
     */
    static method AddToCell(v: CacheView, ipart: int, b: Buffer<int>, rows: array<Buffer<int>>, cap: nat,
                            ghost base: seq<Buffer<int>>, ghost pre: seq<int>)
      returns (ok: bool)
      requires IndicesBelow(b, rows.Length) && 0 <= ipart < rows.Length
      requires Stocked(rows[..], cap, rows.Length) && Received(base, rows[..], ipart, pre)
      modifies rows
      ensures Stocked(rows[..], cap, rows.Length) && Grown(base, rows[..])
      ensures ok ==> Received(base, rows[..], ipart, pre + Keep(v, Contravariant, ipart, b.Live()))
      ensures !ok ==> Overflows(base, pre + Keep(v, Contravariant, ipart, b.Live()), cap)
    {
      ghost var bl := b.Live();
      for g := 0 to b.n
        invariant Stocked(rows[..], cap, rows.Length)
        invariant Received(base, rows[..], ipart, pre + Keep(v, Contravariant, ipart, bl[..g]))
      {
        var jpart := b.items[g];
        assert jpart == bl[g];
        ghost var walked := pre + Keep(v, Contravariant, ipart, bl[..g]);
        KeepExtend(v, Contravariant, ipart, bl, g, pre);
        if Elig(v, jpart, ipart) {
          var fits := Receive(rows, jpart, ipart, cap, base, walked);
          if !fits {
            KeepPrefix(v, Contravariant, ipart, bl, g + 1);
            PrefixExtend(pre, Keep(v, Contravariant, ipart, bl[..g + 1]), Keep(v, Contravariant, ipart, bl), pre + Keep(v, Contravariant, ipart, bl));
            OverflowsPrefix(base, walked + [jpart], pre + Keep(v, Contravariant, ipart, bl), cap);
            return false;
          }
          assert walked + [jpart] == pre + Keep(v, Contravariant, ipart, bl[..g + 1]);
        }
      }
      assert bl[..b.n] == bl;
      ReceivedGrown(base, rows[..], ipart, pre + Keep(v, Contravariant, ipart, bl));
      ok := true;
    }

    /**
     * The contravariant block of `bmm_dem_cache_addto`: appends `x` to row
     * `j` unless that row is full, on top of rows that have received the
     * walk `walked` since they were `base`.
     */
    static method Receive(rows: array<Buffer<int>>, j: int, x: int, cap: nat,
                          ghost base: seq<Buffer<int>>, ghost walked: seq<int>)
      returns (ok: bool)
      requires 0 <= j < rows.Length && 0 <= x < rows.Length
      requires Stocked(rows[..], cap, rows.Length) && Received(base, rows[..], x, walked)
      modifies rows
      ensures Stocked(rows[..], cap, rows.Length) && Grown(base, rows[..])
      ensures ok <==> old(rows[j].n) < cap
      ensures ok ==> Received(base, rows[..], x, walked + [j])
      ensures !ok ==> Overflows(base, walked + [j], cap) && rows[..] == old(rows[..])
    {
      var row := rows[j];
      if row.n >= cap {
        ReceivedFull(base, rows[..], x, walked, j, cap);
        ReceivedGrown(base, rows[..], x, walked);
        return false;
      }
      var grown := Buffer(row.n + 1, row.items[row.n := x]);
      assert grown.Live() == row.Live() + [x];
      ghost var before := rows[..];
      assert IndicesBelow(grown, rows.Length) by {
        assert forall k :: 0 <= k < row.n ==> grown.items[k] == row.items[k];
      }
      StockedSet(before, cap, rows.Length, j, grown);
      ReceivedSnoc(base, before, x, walked, j, grown);
      rows[j] := grown;
      assert rows[..] == before[j := grown];
      ReceivedGrown(base, rows[..], x, walked + [j]);
      ok := true;
    }

    /** The first loop of `bmm_dem_cache_build`: caches the moment of inertia of every live particle. */
    method BuildJ()
      requires Valid()
      modifies cacheJ
      ensures forall i :: 0 <= i < n ==> cacheJ[i] == Inertia(part[i])
      ensures forall i :: n <= i < npart ==> cacheJ[i] == old(cacheJ[i])
    {
      for k := 0 to n
        invariant forall i :: 0 <= i < k ==> cacheJ[i] == Inertia(part[i])
        invariant forall i :: k <= i < npart ==> cacheJ[i] == old(cacheJ[i])
      {
        CacheJ(k);
      }
    }

    /** The second loop of `bmm_dem_cache_build`: caches the position of every live particle. */
    method BuildX()
      requires Valid()
      modifies cacheX
      ensures Valid()
      ensures forall i :: 0 <= i < n ==> cacheX[i] == part[i].x
      ensures forall i :: n <= i < npart ==> cacheX[i] == old(cacheX[i])
    {
      for k := 0 to n
        invariant Valid()
        invariant forall i :: 0 <= i < k ==> cacheX[i] == part[i].x
        invariant forall i :: k <= i < npart ==> cacheX[i] == old(cacheX[i])
      {
        CacheX(k);
      }
    }

    /** The third loop of `bmm_dem_cache_build`: caches the cell vector of every live particle. */
    method BuildIjcell()
      requires Valid()
      modifies ijcell
      ensures Valid()
      ensures forall i :: 0 <= i < n ==> ijcell[i] == CellCoords(geom, opts, cacheX[i])
      ensures forall i :: n <= i < npart ==> ijcell[i] == old(ijcell[i])
    {
      for k := 0 to n
        invariant Valid()
        invariant forall i :: 0 <= i < k ==> ijcell[i] == CellCoords(geom, opts, cacheX[i])
        invariant forall i :: k <= i < npart ==> ijcell[i] == old(ijcell[i])
      {
        CacheIjcell(k);
      }
    }

    /** The fourth loop of `bmm_dem_cache_build`: caches the cell index of every live particle. */
    method BuildIcell()
      requires Valid()
      modifies icell
      ensures Valid()
      ensures forall i :: 0 <= i < n ==> icell[i] == CommonUint.Horner(ijcell[i], opts.ncell)
      ensures forall i :: n <= i < npart ==> icell[i] == old(icell[i])
    {
      for k := 0 to n
        invariant Valid()
        invariant forall i :: 0 <= i < k ==> icell[i] == CommonUint.Horner(ijcell[i], opts.ncell)
        invariant forall i :: k <= i < npart ==> icell[i] == old(icell[i])
      {
        CacheIcell(k);
      }
    }

    /** The first four loops of `bmm_dem_cache_build`: the per-particle cache entries of all live particles. */
    method CacheParticles()
      requires Valid()
      modifies cacheJ, cacheX, ijcell, icell
      ensures Valid() && Derived()
    {
      BuildJ();
      ghost var js := cacheJ[..];
      BuildX();
      ghost var xs := cacheX[..];
      BuildIjcell();
      ghost var ijs := ijcell[..];
      BuildIcell();
      assert cacheJ[..] == js && cacheX[..] == xs && ijcell[..] == ijs;
    }

    /**
     * The bucket phase of `bmm_dem_cache_build`: empties the buckets and
     * appends every live particle to the bucket of its cell, failing at the
     * first particle whose bucket is full.
     */
    method BuildBuckets() returns (ok: bool)
      requires Valid()
      modifies buckets
      ensures Valid()
      ensures ok <==> BucketsFit()
      ensures ok ==> BucketsHold()
    {
      ClrParts();
      ghost var cells := icell[..];
      for k := 0 to n
        invariant Valid()
        invariant forall c :: 0 <= c < nbucket ==> buckets[c].Live() == Members(cells[..k], c)
      {
        var c := icell[k];
        assert cells[..k + 1][..k] == cells[..k];
        ghost var before := Members(cells[..k], c);
        ok := CacheAddPart(k);
        if !ok {
          assert |before| >= ngroup;
          assert cells[..n][..k] == cells[..k];
          MembersOverflow(cells[..n], k, c, ngroup);
          assert |Bucket(View(), c)| > ngroup;
          return false;
        }
      }
      assert cells[..n] == View().icell[..n];
      ok := true;
      assert BucketsHold();
      forall c | 0 <= c < nbucket ensures |Bucket(View(), c)| <= ngroup {
        assert buckets[c].Fits(ngroup);
      }
    }

    /**
     * The neighbour phase of `bmm_dem_cache_build`: empties the neighbour
     * lists and fills the list of every live particle with `AddFrom`,
     * failing at the first list that overflows.
     */
    method BuildNeighs() returns (ok: bool)
      requires Valid() && BucketsHold()
      modifies neighs
      ensures Valid() && BucketsHold()
      ensures ok <==> NeighsFit()
      ensures ok ==> NeighsHold()
    {
      ClrNeighs();
      for k := 0 to n
        invariant Valid() && BucketsHold()
        invariant forall i :: 0 <= i < k ==> neighs[i].Live() == Candidates(Covariant, i)
        invariant forall i :: 0 <= i < k ==> |Candidates(Covariant, i)| <= nneigh
        invariant forall i :: k <= i < n ==> neighs[i].n == 0
      {
        assert neighs[k].Live() == [];
        ok := AddFrom(k);
        if !ok {
          return false;
        }
      }
      ok := true;
    }

    /**
     * `bmm_dem_cache_build`: recomputes every per-particle cache entry, then
     * the buckets, then the neighbour lists. On success the cache is no
     * longer stale; on failure the flag is left as it was.
     */
    method Build() returns (ok: bool)
      requires Valid()
      modifies cacheJ, cacheX, ijcell, icell, buckets, neighs, this`stale
      ensures Valid() && Derived()
      ensures ok <==> Fits()
      ensures ok ==> BucketsHold() && NeighsHold() && !stale
      ensures !ok ==> stale == old(stale)
    {
      CacheParticles();
      ok := BuildBuckets();
      if !ok {
        return;
      }
      assert BucketsFit();
      ok := BuildNeighs();
      if ok {
        stale := false;
      }
    }

    /**
     * `bmm_dem_link_pair(ipart, jpart)`: bonds `ipart` to `jpart` unless
     * their squared periodic separation exceeds `ccrlink` times the squared
     * sum of their radii or the bond table of `ipart` is full; either
     * rejection changes nothing. `u` and `w` are the two uniform draws the
     * beam law takes for the break limits.
     */
    method LinkPair(ipart: int, jpart: int, u: real, w: real) returns (ok: bool)
      requires Valid() && 0 <= ipart < npart && 0 <= jpart < npart
      modifies links
      ensures Valid()
      ensures ok <==>
        && geom.cpdist2(part[ipart].x, part[jpart].x) <= Sq(part[ipart].r + part[jpart].r) * opts.ccrlink
        && old(links[ipart].n) < nlink
      ensures ok ==>
        var m := old(links[ipart].n);
        var bond := NewBond(geom, opts, part[ipart], part[jpart], jpart, old(links[ipart].items[links[ipart].n]), u, w);
        links[ipart] == Buffer(m + 1, old(links[ipart].items)[m := bond])
      ensures ok ==> links[ipart].Live() == old(links[ipart].Live()) + [links[ipart].items[old(links[ipart].n)]]
      ensures ok ==> links[ipart].items[old(links[ipart].n)].target == jpart
      ensures ok ==> (links[ipart].items[old(links[ipart].n)].rrest ==
        geom.sqrt(geom.cpdist2(part[ipart].x, part[jpart].x)) * opts.cshlink)
      ensures !ok ==> links[ipart] == old(links[ipart])
      ensures forall k :: 0 <= k < npart && k != ipart ==> links[k] == old(links[k])
    {
      var p, q := part[ipart], part[jpart];
      var d2 := geom.cpdist2(p.x, q.x);
      var r2 := Sq(p.r + q.r);
      if d2 > r2 * opts.ccrlink {
        return false;
      }
      var row := links[ipart];
      if row.n >= nlink {
        return false;
      }
      var d := geom.sqrt(d2);
      var rrest := d * opts.cshlink;
      var slot := row.items[row.n];
      if opts.flink == Beam {
        var phi := geom.dir(p.x, q.x);
        slot := slot.(phirest0 := p.phi - phi, phirest1 := q.phi - geom.redir(phi));
        var crlim := u * (opts.crlim1 - opts.crlim0) + opts.crlim0;
        slot := slot.(rlim := crlim * rrest);
        var cphilim := w * (opts.cphilim1 - opts.cphilim0) + opts.cphilim0;
        slot := slot.(philim := cphilim * TwoPi);
      }
      slot := slot.(rrest := rrest, target := jpart);
      assert slot == NewBond(geom, opts, p, q, jpart, row.items[row.n], u, w);
      var grown := Buffer(row.n + 1, row.items[row.n := slot]);
      assert grown.Live() == row.Live() + [slot];
      links[ipart] := grown;
      ok := true;
    }

    /** The pairs `bmm_dem_link` offers: i < j of live particles without caching, the list entries with it. */
    ghost function LinkOrder(): seq<(int, int)>
      reads this`n, neighs
      requires neighs.Length == npart && n <= npart
    {
      match opts.caching
      case CachingNone => UpperPairs(n, n)
      case CachingNeigh => NeighPairs(neighs[..], n)
    }

    /**
     * `bmm_dem_link`: offers every pair of `LinkOrder` to `LinkPair`, in
     * order; rejected pairs are skipped. `draws` is the stream of uniform
     * numbers `gsl_rng_uniform` returns, and `used` how many of them the
     * call consumed: two for each beam bond. New bonds go only to later live
     * particles (brute force) or to listed neighbours (cached), never twice
     * to the same partner without caching, and the tables of the slots
     * from `n` on are left alone.
     */
    method LinkAll(draws: nat -> real) returns (ok: bool, used: nat)
      requires Valid()
      modifies links
      ensures Valid() && ok
      ensures Linking(links[..], used) == LinkFold(geom, opts, old(part[..]), draws, Linking(old(links[..]), 0), old(LinkOrder()))
      ensures opts.caching == CachingNone ==> BondsAdded(old(links[..]), links[..], Later(n, npart))
      ensures opts.caching == CachingNone ==> forall k, a, b :: 0 <= k < npart && old(links[k].n) <= a < b < links[k].n ==>
        links[k].items[a].target != links[k].items[b].target
      ensures opts.caching == CachingNeigh ==> BondsAdded(old(links[..]), links[..], Listed(neighs[..]))
      ensures forall k :: n <= k < npart ==> links[k] == old(links[k])
    {
      ghost var start := Linking(links[..], 0);
      match opts.caching {
        case CachingNone =>
          used := LinkUpper(draws);
          forall k | 0 <= k < npart
            ensures BondsAdded(start.rows, links[..], Later(n, npart))
            ensures n <= k ==> links[k] == start.rows[k]
            ensures forall a, b :: start.rows[k].n <= a < b < links[k].n ==> links[k].items[a].target != links[k].items[b].target
          {
            UpperBonds(geom, opts, old(part[..]), draws, start, n, k);
          }
        case CachingNeigh =>
          used := LinkListed(draws);
          forall k | 0 <= k < npart
            ensures BondsAdded(start.rows, links[..], Listed(neighs[..]))
            ensures n <= k ==> links[k] == start.rows[k]
          {
            ListedBonds(geom, opts, old(part[..]), draws, start, neighs[..], n, k);
          }
      }
      ok := true;
    }

    /** The uncached case of `bmm_dem_link`: the pairs i < j of live particles, row by row. */
    method LinkUpper(draws: nat -> real) returns (used: nat)
      requires Valid()
      modifies links
      ensures Valid()
      ensures Linking(links[..], used) == LinkFold(geom, opts, old(part[..]), draws, Linking(old(links[..]), 0), UpperPairs(n, n))
    {
      ghost var start := Linking(links[..], 0);
      used := 0;
      for ipart := 0 to n
        invariant Valid()
        invariant Linking(links[..], used) == UpperRowsFold(geom, opts, old(part[..]), draws, start, n, ipart)
      {
        used := LinkUpperRow(ipart, draws, used);
      }
      UpperRowsFoldPairs(geom, opts, old(part[..]), draws, start, n, n);
    }

    /** The inner uncached loop of `bmm_dem_link`: the pairs (ipart, j) for ipart < j < n. */
    method LinkUpperRow(ipart: int, draws: nat -> real, next: nat) returns (used: nat)
      requires Valid() && 0 <= ipart < n
      modifies links
      ensures Valid()
      ensures Linking(links[..], used) == LinkFold(geom, opts, old(part[..]), draws, Linking(old(links[..]), next), UpperRow(ipart, n))
    {
      ghost var start := Linking(links[..], next);
      ghost var ps := [];
      used := next;
      for jpart := ipart + 1 to n
        invariant Valid()
        invariant ps == UpperRow(ipart, jpart)
        invariant Linking(links[..], used) == LinkFold(geom, opts, old(part[..]), draws, start, ps)
      {
        LinkFoldSnoc(geom, opts, old(part[..]), draws, start, ps, (ipart, jpart));
        used := OfferBond(ipart, jpart, draws, used);
        ps := ps + [(ipart, jpart)];
      }
    }

    /** The cached case of `bmm_dem_link`: the neighbour-list entries of every live particle. */
    method LinkListed(draws: nat -> real) returns (used: nat)
      requires Valid()
      modifies links
      ensures Valid()
      ensures Linking(links[..], used) == LinkFold(geom, opts, old(part[..]), draws, Linking(old(links[..]), 0), NeighPairs(old(neighs[..]), n))
    {
      ghost var start := Linking(links[..], 0);
      ghost var rows := neighs[..];
      used := 0;
      for ipart := 0 to n
        invariant Valid()
        invariant Linking(links[..], used) == ListedRowsFold(geom, opts, old(part[..]), draws, start, rows, ipart)
      {
        assert neighs[ipart] == rows[ipart];
        used := LinkListedRow(ipart, draws, used);
      }
      ListedRowsFoldPairs(geom, opts, old(part[..]), draws, start, rows, n);
    }

    /** The inner cached loop of `bmm_dem_link`: `ipart` with each entry of its neighbour list. */
    method LinkListedRow(ipart: int, draws: nat -> real, next: nat) returns (used: nat)
      requires Valid() && 0 <= ipart < n
      modifies links
      ensures Valid()
      ensures Linking(links[..], used) ==
        LinkFold(geom, opts, old(part[..]), draws, Linking(old(links[..]), next), RowPairs(ipart, Take(old(neighs[ipart]).items, old(neighs[ipart]).n)))
    {
      ghost var start := Linking(links[..], next);
      ghost var lst := Take(neighs[ipart].items, neighs[ipart].n);
      used := next;
      for ineigh := 0 to neighs[ipart].n
        invariant Valid()
        invariant Linking(links[..], used) == LinkFold(geom, opts, old(part[..]), draws, start, RowPairs(ipart, lst[..ineigh]))
      {
        var jpart := neighs[ipart].items[ineigh];
        RowPairsSnoc(ipart, lst, ineigh);
        LinkFoldSnoc(geom, opts, old(part[..]), draws, start, RowPairs(ipart, lst[..ineigh]), (ipart, jpart));
        used := OfferBond(ipart, jpart, draws, used);
      }
      assert lst[..neighs[ipart].n] == lst;
    }

    /**
     * One call of `bmm_dem_link_pair` inside `bmm_dem_link`, with the stream
     * at draw `next`: the tables and the stream position become those
     * `Offer` gives.
     */
    method OfferBond(ipart: int, jpart: int, draws: nat -> real, next: nat) returns (after: nat)
      requires Valid() && 0 <= ipart < npart && 0 <= jpart < npart
      modifies links
      ensures Valid()
      ensures Linking(links[..], after) == Offer(geom, opts, old(part[..]), draws, Linking(old(links[..]), next), ipart, jpart)
    {
      ghost var before := links[..];
      var linked := LinkPair(ipart, jpart, draws(next), draws(next + 1));
      after := next;
      if linked {
        if opts.flink == Beam {
          after := next + 2;
        }
        assert links[..] == before[ipart := links[ipart]];
      } else {
        assert links[..] == before;
      }
    }

    /** `bmm_dem_unlink`: empties the bond table of every live particle. */
    method Unlink() returns (ok: bool)
      requires Valid()
      modifies links
      ensures Valid() && ok
      ensures forall i :: 0 <= i < npart ==> links[i] == if i < n then old(links[i]).(n := 0) else old(links[i])
    {
      for ipart := 0 to n
        invariant LinksOk()
        invariant forall k :: 0 <= k < npart ==> links[k] == if k < ipart then old(links[k]).(n := 0) else old(links[k])
      {
        links[ipart] := links[ipart].(n := 0);
      }
      ok := true;
    }

    /**
     * The pair loops of `bmm_dem_force`: the pairs, in order, handed to
     * `bmm_dem_force_pair`. Without caching these are the pairs i < j of live
     * particles; with it, every live particle paired with each entry of its
     * neighbour list.
     */
    method ForcePairs() returns (ps: seq<(int, int)>)
      requires Valid()
      ensures opts.caching == CachingNone ==> ps == UpperPairs(n, n)
      ensures opts.caching == CachingNeigh ==> ps == NeighPairs(neighs[..], n)
    {
      match opts.caching {
        case CachingNone =>
          ps := AllPairs(n);
        case CachingNeigh =>
          ps := ListedPairs(neighs, n);
      }
    }

    /** The uncached pair loop of `bmm_dem_force`: every pair i < j below `count`. */
    static method AllPairs(count: nat) returns (ps: seq<(int, int)>)
      ensures ps == UpperPairs(count, count)
    {
      ps := [];
      for ipart := 0 to count
        invariant ps == UpperPairs(count, ipart)
      {
        for jpart := ipart + 1 to count
          invariant ps == UpperPairs(count, ipart) + seq(jpart - (ipart + 1), k => (ipart, ipart + 1 + k))
        {
          ps := ps + [(ipart, jpart)];
        }
      }
    }

    /** The cached pair loop of `bmm_dem_force`: each of the first `count` rows with its list. */
    static method ListedPairs(rows: array<Buffer<int>>, count: nat) returns (ps: seq<(int, int)>)
      requires count <= rows.Length
      requires forall k :: 0 <= k < count ==> rows[k].n <= |rows[k].items|
      ensures ps == NeighPairs(rows[..], count)
    {
      ps := [];
      for ipart := 0 to count
        invariant ps == NeighPairs(rows[..], ipart)
      {
        ghost var lst := Take(rows[ipart].items, rows[ipart].n);
        for ineigh := 0 to rows[ipart].n
          invariant ps == NeighPairs(rows[..], ipart) + RowPairs(ipart, lst[..ineigh])
        {
          ps := ps + [(ipart, rows[ipart].items[ineigh])];
        }
        assert lst[..rows[ipart].n] == lst;
      }
    }

    /** With the buckets built, every live particle is in the bucket of its own cell and in no other. */
    lemma {:induction false} InOwnBucket(i: int, c: int)
      requires Valid() && BucketsHold() && 0 <= i < n && 0 <= c < nbucket
      ensures i in buckets[c].Live() <==> icell[i] == c
    {
      MembersExactlyOne(icell[..n], i, c);
    }

    /**
     * With the neighbour lists built, the list of a live particle `i` holds
     * only live particles eligible for `i` whose cells lie in the upper half
     * of the neighbourhood of the cell of `i`.
     */
    lemma {:induction false} NeighsEligible(i: int, j: int)
      requires Valid() && NeighsHold() && 0 <= i < n && j in neighs[i].Live()
      ensures Elig(View(), i, j) && 0 <= j < n && icell[j] in Hood(geom, ijcell[i])
    {
      CandSub(View(), Covariant, i, Hood(geom, ijcell[i]));
    }

    /** With the neighbour lists built, every pair the cached loops visit is eligible. */
    lemma {:induction false} CachedPairsEligible(i: int, j: int)
      requires Valid() && NeighsHold()
      requires (i, j) in NeighPairs(neighs[..], n)
      ensures Elig(View(), i, j)
    {
      NeighPairsExactly(neighs[..], n, i, j);
      NeighsEligible(i, j);
    }

    /**
     * The cache gate at the top of `bmm_dem_step`: rebuilds the cache when it
     * is stale or `expired` (the expiry test) says so, recording the time of
     * the rebuild; otherwise leaves the cache as it is.
     */
    method Refresh(expired: bool) returns (ok: bool)
      requires Valid()
      modifies cacheJ, cacheX, ijcell, icell, buckets, neighs, this`stale, this`tprev
      ensures Valid()
      ensures !(old(stale) || expired) ==> ok && stale == old(stale) && tprev == old(tprev)
      ensures !(old(stale) || expired) ==> unchanged(cacheJ, cacheX, ijcell, icell, buckets, neighs)
      ensures (old(stale) || expired) ==> Derived() && (ok <==> Fits())
      ensures (old(stale) || expired) && ok ==> BucketsHold() && NeighsHold() && !stale && tprev == t
      ensures !ok ==> stale == old(stale) && tprev == old(tprev)
    {
      ok := true;
      if stale || expired {
        ok := Build();
        if ok {
          tprev := t;
        }
      }
    }

    /**
     * `bmm_dem_step`: refreshes the cache and gives up, before the clock
     * moves, when the rebuild fails; otherwise advances the time by `dt` and
     * the step counter by one. The integration between the two is not part
     * of this model.
     */
    method Step(expired: bool, dt: real) returns (ok: bool)
      requires Valid()
      modifies cacheJ, cacheX, ijcell, icell, buckets, neighs, this`stale, this`tprev, this`t, this`istep
      ensures Valid()
      ensures !(old(stale) || expired) ==> ok && stale == old(stale) && tprev == old(tprev)
      ensures !(old(stale) || expired) ==> unchanged(cacheJ, cacheX, ijcell, icell, buckets, neighs)
      ensures (old(stale) || expired) ==> Derived() && (ok <==> Fits())
      ensures (old(stale) || expired) && ok ==> BucketsHold() && NeighsHold() && !stale && tprev == old(t)
      ensures !ok ==> t == old(t) && istep == old(istep) && stale == old(stale) && tprev == old(tprev)
      ensures ok ==> t == old(t) + dt && istep == old(istep) + 1
    {
      ok := Refresh(expired);
      if !ok {
        return false;
      }
      t := t + dt;
      istep := istep + 1;
    }
  }
}
