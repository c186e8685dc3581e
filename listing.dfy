/** The listing of the folder being viewed: the child folders and child files
    of `currentFolder`, each an order-preserving filter of the catalog. */
module Listing {
  import opened Catalog

  /** `a` can be obtained from `b` by deleting elements, keeping the order of
      the rest. */
  predicate IsSubsequence<T(==)>(a: seq<T>, b: seq<T>)
    decreases |b|
  {
    if a == [] then true
    else if b == [] then false
    else (a[0] == b[0] && IsSubsequence(a[1..], b[1..])) || IsSubsequence(a, b[1..])
  }

  /** `Array.prototype.filter`: the elements of `s` that satisfy `p`, in the
      order of `s`, each as often as it occurs in `s`. */
  function Filter<T(==,!new)>(s: seq<T>, p: T -> bool): (r: seq<T>)
    ensures |r| <= |s|
    ensures forall x :: x in r <==> x in s && p(x)
    ensures forall x :: multiset(r)[x] == if p(x) then multiset(s)[x] else 0
    ensures IsSubsequence(r, s)
  {
    if s == [] then []
    else
      var rest := Filter(s[1..], p);
      assert s == [s[0]] + s[1..];
      if p(s[0]) then [s[0]] + rest else rest
  }

  lemma {:induction false} SubsequenceMultiset<T>(a: seq<T>, b: seq<T>)
    requires IsSubsequence(a, b)
    ensures multiset(a) <= multiset(b)
    decreases |b|
  {
    if a != [] {
      assert b == [b[0]] + b[1..];
      if a[0] == b[0] && IsSubsequence(a[1..], b[1..]) {
        SubsequenceMultiset(a[1..], b[1..]);
        assert a == [a[0]] + a[1..];
      } else {
        SubsequenceMultiset(a, b[1..]);
      }
    }
  }

  /** The contract of Filter pins its result down: any subsequence of `s`
      that holds exactly the `p`-elements of `s`, with their multiplicities,
      is `Filter(s, p)`. */
  lemma {:induction false} FilterUnique<T(!new)>(s: seq<T>, p: T -> bool, t: seq<T>)
    requires IsSubsequence(t, s)
    requires forall x :: multiset(t)[x] == if p(x) then multiset(s)[x] else 0
    ensures t == Filter(s, p)
    decreases |s|
  {
    if s == [] {
    } else {
      var h, s' := s[0], s[1..];
      assert s == [h] + s';
      if p(h) {
        assert multiset(t)[h] > 0;
        assert t != [];
        if t[0] == h && IsSubsequence(t[1..], s') {
          assert t == [h] + t[1..];
          forall x ensures multiset(t[1..])[x] == if p(x) then multiset(s')[x] else 0 {
            assert multiset(t)[x] == multiset(t[1..])[x] + (if x == h then 1 else 0);
            assert multiset(s)[x] == multiset(s')[x] + (if x == h then 1 else 0);
          }
          FilterUnique(s', p, t[1..]);
        } else {
          assert IsSubsequence(t, s');
          SubsequenceMultiset(t, s');
          assert false;
        }
      } else {
        if t != [] && t[0] == h {
          assert false;
        }
        assert IsSubsequence(t, s');
        forall x ensures multiset(t)[x] == if p(x) then multiset(s')[x] else 0 {
          assert multiset(s)[x] == multiset(s')[x] + (if x == h then 1 else 0);
        }
        FilterUnique(s', p, t);
      }
    }
  }

  /** getCurrentFiles: the files directly inside `currentFolder`, in catalog
      order; an id that no file names as parent yields nothing. */
  function CurrentFiles(files: seq<File>, currentFolder: string): (r: seq<File>)
    ensures forall f :: f in r <==> f in files && f.parent == currentFolder
    ensures forall f :: multiset(r)[f] == if f.parent == currentFolder then multiset(files)[f] else 0
    ensures IsSubsequence(r, files)
    ensures r == [] <==> forall f :: f in files ==> f.parent != currentFolder
  {
    Filter(files, (f: File) => f.parent == currentFolder)
  }

  /** getCurrentFolders: the folders directly inside `currentFolder`, in
      catalog order; an id that no folder names as parent yields nothing. */
  function CurrentFolders(folders: seq<Folder>, currentFolder: string): (r: seq<Folder>)
    ensures forall d :: d in r <==> d in folders && d.parent == currentFolder
    ensures forall d :: multiset(r)[d] == if d.parent == currentFolder then multiset(folders)[d] else 0
    ensures IsSubsequence(r, folders)
    ensures r == [] <==> forall d :: d in folders ==> d.parent != currentFolder
  {
    Filter(folders, (d: Folder) => d.parent == currentFolder)
  }
}
