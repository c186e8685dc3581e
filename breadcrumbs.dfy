/** The breadcrumb trail: the walk that climbs parent pointers from the
    folder being viewed up to the Root sentinel, prepending each folder it
    resolves. */
module Breadcrumbs {
  import opened Catalog

  /** `Array.prototype.find` on the folder catalog: the first folder whose id
      is `id`, or None when no folder has that id. */
  function Find(folders: seq<Folder>, id: string): (r: Option<Folder>)
    ensures r.None? <==> forall d :: d in folders ==> d.id != id
    ensures r.Some? ==> r.value in folders && r.value.id == id
  {
    if folders == [] then None
    else if folders[0].id == id then Some(folders[0])
    else Find(folders[1..], id)
  }

  /** With duplicate ids, the folder found is the first one in catalog
      order. */
  lemma {:induction false} FindFirst(folders: seq<Folder>, id: string, i: nat)
    requires i < |folders| && folders[i].id == id
    ensures Find(folders, id).Some?
    ensures exists k :: 0 <= k <= i && folders[k] == Find(folders, id).value
                        && forall j :: 0 <= j < k ==> folders[j].id != id
  {
    if folders[0].id == id {
      assert folders[0] == Find(folders, id).value;
    } else {
      FindFirst(folders[1..], id, i - 1);
      var k :| 0 <= k <= i - 1 && folders[1..][k] == Find(folders[1..], id).value
               && forall j :: 0 <= j < k ==> folders[1..][j].id != id;
      assert folders[k + 1] == Find(folders, id).value;
      forall j | 0 <= j < k + 1 ensures folders[j].id != id {
        if j > 0 { assert folders[j] == folders[1..][j - 1]; }
      }
    }
  }

  /** The walk from `id` stops within `n` resolved steps: it meets Root or an
      id that resolves to no folder before it has climbed `n` times. */
  predicate Halts(folders: seq<Folder>, id: string, n: nat)
    decreases n
  {
    id == Root || Find(folders, id).None?
    || (n > 0 && Halts(folders, Find(folders, id).value.parent, n - 1))
  }

  /** The walk from `id` stops at all; it runs forever exactly when this
      fails (the source has no cycle detection). */
  ghost predicate Terminates(folders: seq<Folder>, id: string) {
    exists n: nat :: Halts(folders, id, n)
  }

  /** Exactly `d` resolved steps lead from `id` to Root: the depth of the
      folder `id`, counted in edges from Root. */
  predicate ReachesRoot(folders: seq<Folder>, id: string, d: nat)
    decreases d
  {
    if d == 0 then id == Root
    else id != Root && Find(folders, id).Some?
         && ReachesRoot(folders, Find(folders, id).value.parent, d - 1)
  }

  /** The trail the walk builds from `id`, root-to-leaf: every folder the walk
      resolves, the one for `id` itself last. */
  function Trail(folders: seq<Folder>, id: string, n: nat): seq<Folder>
    requires Halts(folders, id, n)
    decreases n
  {
    if id == Root then []
    else match Find(folders, id)
      case None => []
      case Some(f) => Trail(folders, f.parent, n - 1) + [f]
  }

  /** One step of the walk: a resolved non-root id climbs to its parent, and
      its folder ends the trail. */
  lemma TrailStep(folders: seq<Folder>, id: string, n: nat, f: Folder)
    requires Halts(folders, id, n) && id != Root && Find(folders, id) == Some(f)
    ensures n > 0 && Halts(folders, f.parent, n - 1)
    ensures Trail(folders, id, n) == Trail(folders, f.parent, n - 1) + [f]
  {
  }

  /** The shape of a breadcrumb trail for `id`, stated without the walk:
      empty exactly when `id` is Root or resolves to nothing; otherwise each
      element is what its own id resolves to, the last one is `id`'s folder,
      each element after the first has the one before it as its parent, and the first
      one's parent is Root or an id that resolves to nothing. */
  ghost predicate IsTrailOf(folders: seq<Folder>, id: string, s: seq<Folder>) {
    if s == [] then id == Root || Find(folders, id).None?
    else
      && (forall i :: 0 <= i < |s| ==> s[i].id != Root && Find(folders, s[i].id) == Some(s[i]))
      && s[|s| - 1].id == id
      && (forall i :: 0 <= i < |s| - 1 ==> s[i + 1].parent == s[i].id)
      && (s[0].parent == Root || Find(folders, s[0].parent).None?)
  }

  /** Every folder on a trail is a record of the catalog. */
  lemma TrailInCatalog(folders: seq<Folder>, id: string, s: seq<Folder>)
    requires IsTrailOf(folders, id, s)
    ensures forall i :: 0 <= i < |s| ==> s[i] in folders
  {
  }

  /** Extending a trail for `d.parent` by the folder `d` that `id` resolves
      to gives a trail for `id`, and only such extensions do. */
  lemma {:induction false} IsTrailOfSnoc(folders: seq<Folder>, id: string, s: seq<Folder>, d: Folder)
    requires id != Root && Find(folders, id) == Some(d)
    ensures IsTrailOf(folders, id, s + [d]) <==> IsTrailOf(folders, d.parent, s)
  {
    var t := s + [d];
    assert t[|t| - 1] == d;
    assert forall i :: 0 <= i < |s| ==> t[i] == s[i];
    if IsTrailOf(folders, d.parent, s) {
      if s != [] {
        assert s[|s| - 1].id == d.parent;
      }
    }
    if IsTrailOf(folders, id, t) {
      if s != [] {
        assert forall i :: 0 <= i < |s| - 1 ==> s[i + 1].parent == s[i].id by {
          forall i | 0 <= i < |s| - 1 ensures s[i + 1].parent == s[i].id {
            assert t[i + 1].parent == t[i].id;
          }
        }
        assert t[|s|].parent == t[|s| - 1].id;
      } else {
        assert t[0].parent == d.parent;
      }
    }
  }

  /** The walk's trail has the shape IsTrailOf describes. */
  lemma {:induction false} TrailIsTrailOf(folders: seq<Folder>, id: string, n: nat)
    requires Halts(folders, id, n)
    ensures IsTrailOf(folders, id, Trail(folders, id, n))
    decreases n
  {
    if id != Root && Find(folders, id).Some? {
      var d := Find(folders, id).value;
      TrailIsTrailOf(folders, d.parent, n - 1);
      IsTrailOfSnoc(folders, id, Trail(folders, d.parent, n - 1), d);
    }
  }

  /** And that shape determines the trail: a sequence with that shape is the
      walk's trail. */
  lemma {:induction false} IsTrailOfUnique(folders: seq<Folder>, id: string, n: nat, s: seq<Folder>)
    requires Halts(folders, id, n)
    requires IsTrailOf(folders, id, s)
    ensures s == Trail(folders, id, n)
    decreases n
  {
    if s != [] {
      var k := |s| - 1;
      var d := s[k];
      assert Find(folders, id) == Some(d);
      assert s == s[..k] + [d];
      IsTrailOfSnoc(folders, id, s[..k], d);
      IsTrailOfUnique(folders, d.parent, n - 1, s[..k]);
    }
  }

  /** The trail does not depend on the bound used to show that the walk
      stops. */
  lemma {:induction false} TrailFuel(folders: seq<Folder>, id: string, n: nat, m: nat)
    requires Halts(folders, id, n) && Halts(folders, id, m)
    ensures Trail(folders, id, n) == Trail(folders, id, m)
  {
    TrailIsTrailOf(folders, id, n);
    IsTrailOfUnique(folders, id, m, Trail(folders, id, n));
  }

  /** A bound that suffices for the walk to stop also suffices when raised. */
  lemma {:induction false} HaltsMonotone(folders: seq<Folder>, id: string, n: nat, m: nat)
    requires Halts(folders, id, n) && n <= m
    ensures Halts(folders, id, m)
    decreases n
  {
    if id != Root && Find(folders, id).Some? {
      HaltsMonotone(folders, Find(folders, id).value.parent, n - 1, m - 1);
    }
  }

  /** A folder at depth `d` is reached by a walk that stops within `d`
      steps. */
  lemma {:induction false} ReachesRootHalts(folders: seq<Folder>, id: string, d: nat)
    requires ReachesRoot(folders, id, d)
    ensures Halts(folders, id, d)
    decreases d
  {
    if d > 0 {
      ReachesRootHalts(folders, Find(folders, id).value.parent, d - 1);
    }
  }

  /** For a folder at depth `d` the walk reaches Root without breaking: the
      trail has `d` elements and the first of them is a top-level folder. */
  lemma {:induction false} TrailDepth(folders: seq<Folder>, id: string, n: nat, d: nat)
    requires Halts(folders, id, n) && ReachesRoot(folders, id, d)
    ensures |Trail(folders, id, n)| == d
    ensures d > 0 ==> Trail(folders, id, n)[0].parent == Root
    decreases d
  {
    if d > 0 {
      var f := Find(folders, id).value;
      TrailDepth(folders, f.parent, n - 1, d - 1);
    }
  }

  /** Conversely, the walk reached Root (rather than an unresolved id)
      exactly when `id` is Root or the trail starts at a top-level folder,
      and then the trail's length is the depth of `id`. */
  lemma {:induction false} TrailReachesRoot(folders: seq<Folder>, id: string, n: nat)
    requires Halts(folders, id, n)
    ensures ReachesRoot(folders, id, |Trail(folders, id, n)|) <==>
              id == Root || (Trail(folders, id, n) != [] && Trail(folders, id, n)[0].parent == Root)
    decreases n
  {
    if id != Root && Find(folders, id).Some? {
      var f := Find(folders, id).value;
      var rest := Trail(folders, f.parent, n - 1);
      TrailReachesRoot(folders, f.parent, n - 1);
      assert Trail(folders, id, n) == rest + [f];
      if rest != [] {
        assert (rest + [f])[0] == rest[0];
      }
    }
  }

  /** An acyclic catalog: some rank on ids drops from every folder to its
      parent. */
  ghost predicate Ranked(folders: seq<Folder>, rank: string -> nat) {
    forall d :: d in folders && d.id != Root ==> rank(d.parent) < rank(d.id)
  }

  /** In an acyclic catalog the walk from any id stops, within the rank of
      that id. */
  lemma {:induction false} RankedHalts(folders: seq<Folder>, rank: string -> nat, id: string)
    requires Ranked(folders, rank)
    ensures Halts(folders, id, rank(id))
    decreases rank(id)
  {
    if id != Root && Find(folders, id).Some? {
      var f := Find(folders, id).value;
      assert f in folders && f.id == id;
      var below: nat := rank(id) - 1;
      RankedHalts(folders, rank, f.parent);
      HaltsMonotone(folders, f.parent, rank(f.parent), below);
      assert Halts(folders, f.parent, below);
    }
  }

  /** A set of ids, Root not among them, each resolving to a folder whose
      parent is again in the set: a cycle of the parent graph. */
  ghost predicate ClosedCycle(folders: seq<Folder>, cycle: set<string>) {
    && Root !in cycle
    && forall x {:trigger Find(folders, x)} :: x in cycle ==> Find(folders, x).Some? && Find(folders, x).value.parent in cycle
  }

  /** From an id on a cycle no bound makes the walk stop. */
  lemma {:induction false} CycleNeverHalts(folders: seq<Folder>, cycle: set<string>, id: string, n: nat)
    requires ClosedCycle(folders, cycle) && id in cycle
    ensures !Halts(folders, id, n)
    decreases n
  {
    var f := Find(folders, id).value;
    if n > 0 {
      CycleNeverHalts(folders, cycle, f.parent, n - 1);
    }
  }

  /** So the source's loop runs forever from any id on a cycle. */
  lemma CycleDiverges(folders: seq<Folder>, cycle: set<string>, id: string)
    requires ClosedCycle(folders, cycle) && id in cycle
    ensures !Terminates(folders, id)
  {
    forall n: nat ensures !Halts(folders, id, n) {
      CycleNeverHalts(folders, cycle, id, n);
    }
  }

  /** getBreadcrumbs: starting at `currentFolder`, while the working id is not
      Root, look the id up; a folder found is prepended and the walk moves to
      its parent, an id not found ends the walk. The loop has no cycle check,
      so it is only called where the walk stops. */
  method GetBreadcrumbs(folders: seq<Folder>, currentFolder: string) returns (breadcrumbs: seq<Folder>)
    requires Terminates(folders, currentFolder)
    ensures IsTrailOf(folders, currentFolder, breadcrumbs)
    ensures forall i :: 0 <= i < |breadcrumbs| ==> breadcrumbs[i] in folders
    ensures forall n: nat :: Halts(folders, currentFolder, n) ==> breadcrumbs == Trail(folders, currentFolder, n)
  {
    ghost var bound: nat :| Halts(folders, currentFolder, bound);
    ghost var fuel := bound;
    breadcrumbs := [];
    var currentId := currentFolder;
    while currentId != Root
      invariant Halts(folders, currentId, fuel)
      invariant Trail(folders, currentFolder, bound) == Trail(folders, currentId, fuel) + breadcrumbs
      decreases fuel
    {
      var folder := Find(folders, currentId);
      if folder.Some? {
        var f := folder.value;
        TrailStep(folders, currentId, fuel, f);
        assert Trail(folders, currentFolder, bound) == Trail(folders, f.parent, fuel - 1) + ([f] + breadcrumbs);
        breadcrumbs := [f] + breadcrumbs;
        currentId := f.parent;
        fuel := fuel - 1;
      } else {
        break;
      }
    }
    assert Trail(folders, currentId, fuel) == [];
    assert breadcrumbs == Trail(folders, currentFolder, bound);
    TrailIsTrailOf(folders, currentFolder, bound);
    TrailInCatalog(folders, currentFolder, breadcrumbs);
    forall n: nat | Halts(folders, currentFolder, n)
      ensures breadcrumbs == Trail(folders, currentFolder, n)
    {
      TrailFuel(folders, currentFolder, bound, n);
    }
  }
}
