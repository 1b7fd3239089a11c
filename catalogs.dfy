/** Asset catalogs: what one `import.meta.glob(..., { eager: true })` call yields, and the
    operations the page builders perform on one: listing its paths with `Object.keys`,
    finding the first path that contains a marker with `find` and `includes`, and turning
    a sequence of paths into their images with `modules[path].default`. */
module Catalogs {
  import opened Collation
  import opened PathSort

  datatype Option<T> = None | Some(value: T)

  /** An image resource: the URL the bundler exports as the module's `default`. */
  type Url = string

  /** `keys` is the `Object.keys` order of the glob result; `modules` maps each path to
      the image exported for it. */
  datatype Catalog = Catalog(keys: seq<string>, modules: map<string, Url>)

  /** Every listed path has an entry, as every key of a JavaScript object does. */
  predicate WellFormed(c: Catalog) {
    forall k :: k in c.keys ==> k in c.modules
  }

  predicate OccursAt(s: string, sub: string, i: int) {
    0 <= i && i + |sub| <= |s| && s[i..i + |sub|] == sub
  }

  /** Model of `s.includes(sub)`: `sub` occurs somewhere in `s`, for instance as its
      prefix, and never when it is longer than `s`. */
  predicate Includes(s: string, sub: string) {
    exists i :: 0 <= i <= |s| - |sub| && OccursAt(s, sub, i)
  }

  /** A marker that is a prefix of the path is included in it, and a marker longer than
      the path is not. */
  lemma IncludesBounds(s: string, sub: string)
    ensures sub <= s ==> Includes(s, sub)
    ensures Includes(s, sub) ==> |sub| <= |s|
  {
    if sub <= s {
      assert OccursAt(s, sub, 0);
    }
  }

  /** The index of the first path that contains `marker`, or `|keys|` when none does. */
  function FirstIncluding(keys: seq<string>, marker: string): (n: nat)
    ensures n <= |keys|
    ensures n < |keys| ==> Includes(keys[n], marker)
    ensures forall j :: 0 <= j < n ==> !Includes(keys[j], marker)
  {
    if keys == [] then 0
    else if Includes(keys[0], marker) then 0
    else 1 + FirstIncluding(keys[1..], marker)
  }

  /** Model of `keys.find(p => p.includes(marker))`: the first path, in key order, that
      contains the marker, or nothing when no path does. */
  function Find(keys: seq<string>, marker: string): (r: Option<string>)
    ensures r.None? <==> forall j :: 0 <= j < |keys| ==> !Includes(keys[j], marker)
    ensures r.Some? ==> exists i :: 0 <= i < |keys| && keys[i] == r.value && Includes(r.value, marker) &&
                                    forall j :: 0 <= j < i ==> !Includes(keys[j], marker)
  {
    var n := FirstIncluding(keys, marker);
    if n < |keys| then Some(keys[n]) else None
  }

  /** A path found by `Find` contains a non-empty marker and so is a non-empty string,
      which JavaScript treats as true: `portada ? ... : ...` takes the found branch
      exactly when a path was found. */
  lemma FoundPathIsTruthy(keys: seq<string>, marker: string)
    requires marker != ""
    requires Find(keys, marker).Some?
    ensures Find(keys, marker).value != ""
  {
    var k := Find(keys, marker).value;
    var i :| 0 <= i <= |k| - |marker| && OccursAt(k, marker, i);
  }

  /** Model of `paths.map(path => modules[path].default)`. */
  function Resolve(m: map<string, Url>, ps: seq<string>): (r: seq<Url>)
    requires forall p :: p in ps ==> p in m
    ensures |r| == |ps|
    ensures forall i :: 0 <= i < |ps| ==> r[i] == m[ps[i]]
  {
    seq(|ps|, i requires 0 <= i < |ps| => m[ps[i]])
  }

  lemma ResolveAppend(m: map<string, Url>, a: seq<string>, b: seq<string>)
    requires forall p :: p in a + b ==> p in m
    ensures Resolve(m, a + b) == Resolve(m, a) + Resolve(m, b)
  {
    assert forall p :: p in a ==> p in a + b;
    assert forall p :: p in b ==> p in a + b;
  }

  lemma RemoveAt(qs: seq<string>, i: int)
    requires 0 <= i < |qs|
    ensures multiset(qs[..i] + qs[i + 1..]) == multiset(qs) - multiset{qs[i]}
  {
    assert qs == qs[..i] + [qs[i]] + qs[i + 1..];
  }

  /** The images of a path list, split around the path at `i`. */
  lemma ResolveSplit(m: map<string, Url>, qs: seq<string>, i: int)
    requires forall p :: p in qs ==> p in m
    requires 0 <= i < |qs|
    ensures forall p :: p in qs[..i] ==> p in m
    ensures forall p :: p in qs[i + 1..] ==> p in m
    ensures Resolve(m, qs) == Resolve(m, qs[..i]) + [m[qs[i]]] + Resolve(m, qs[i + 1..])
  {
    assert forall p :: p in qs[..i] ==> p in qs;
    assert forall p :: p in qs[i + 1..] ==> p in qs;
  }

  /** Dropping the path at `i` drops its image from the images. */
  lemma ResolveRemoveAt(m: map<string, Url>, qs: seq<string>, i: int)
    requires forall p :: p in qs ==> p in m
    requires 0 <= i < |qs|
    ensures forall p :: p in qs[..i] + qs[i + 1..] ==> p in m
    ensures multiset(Resolve(m, qs)) ==
            multiset(Resolve(m, qs[..i] + qs[i + 1..])) + multiset{m[qs[i]]}
  {
    ResolveSplit(m, qs, i);
    var front, back := qs[..i], qs[i + 1..];
    ResolveAppend(m, front, back);
    MultisetMiddle(Resolve(m, front), m[qs[i]], Resolve(m, back));
  }

  lemma MultisetMiddle<T>(a: seq<T>, x: T, b: seq<T>)
    ensures multiset(a + [x] + b) == multiset(a + b) + multiset{x}
  {
  }

  /** Rearranging the paths rearranges their images the same way. */
  lemma {:induction false} ResolvePermutation(m: map<string, Url>, ps: seq<string>, qs: seq<string>)
    requires forall p :: p in qs ==> p in m
    requires multiset(ps) == multiset(qs)
    ensures forall p :: p in ps ==> p in m
    ensures multiset(Resolve(m, ps)) == multiset(Resolve(m, qs))
  {
    assert forall p :: p in ps ==> p in multiset(qs);
    if ps != [] {
      var x := ps[0];
      assert x in multiset(qs);
      var i :| 0 <= i < |qs| && qs[i] == x;
      var rest := qs[..i] + qs[i + 1..];
      RemoveAt(qs, i);
      RemoveAt(ps, 0);
      assert ps[..0] + ps[1..] == ps[1..];
      ResolveRemoveAt(m, qs, i);
      ResolvePermutation(m, ps[1..], rest);
      ResolveRemoveAt(m, ps, 0);
    }
  }

  /** Model of `paths.sort(numeric localeCompare).map(path => modules[path].default)`:
      the images of the given paths, in an order of the paths sorted by the comparator. */
  function SortedPages(m: map<string, Url>, ps: seq<string>): (r: seq<Url>)
    requires forall p :: p in ps ==> p in m
    ensures |r| == |ps|
    ensures multiset(r) == multiset(Resolve(m, ps))
  {
    var order := SortPaths(ps);
    assert |order| == |multiset(order)| == |multiset(ps)| == |ps|;
    ResolvePermutation(m, order, ps);
    Resolve(m, order)
  }

  /** The images of a section follow an arrangement of its paths that is sorted by the
      comparator. */
  lemma SortedPagesOrder(m: map<string, Url>, ps: seq<string>)
    requires forall p :: p in ps ==> p in m
    ensures exists order :: Sorted(order) && multiset(order) == multiset(ps) &&
                            (forall p :: p in order ==> p in m) && SortedPages(m, ps) == Resolve(m, order)
  {
    var order := SortPaths(ps);
    ResolvePermutation(m, order, ps);
  }

  /** The images of one catalog, ordered by their paths: the section builders at
      `Object.keys(modules).sort(...).map(...)`. */
  function SectionPages(c: Catalog): (r: seq<Url>)
    requires WellFormed(c)
    ensures |r| == |c.keys|
    ensures multiset(r) == multiset(Resolve(c.modules, c.keys))
  {
    SortedPages(c.modules, c.keys)
  }
}
