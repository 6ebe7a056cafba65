/** Visiting the keys of a map in an unspecified order, as Go's `range`
    over a map does, and what stays the same whatever the order. */
module Collections {

  /** An arbitrary element of a non-empty set. */
  ghost function Pick<K>(s: set<K>): (k: K)
    requires s != {}
    ensures k in s
  {
    var k :| k in s; k
  }

  /** Some listing of the elements of `s`, each exactly once. */
  ghost function Enumerate<K(!new)>(s: set<K>): (r: seq<K>)
    ensures |r| == |s|
    ensures forall k :: k in r <==> k in s
    decreases s
  {
    if s == {} then [] else [Pick(s)] + Enumerate(s - {Pick(s)})
  }

  function MapSeq<K, T>(ks: seq<K>, f: K -> T): (r: seq<T>)
    ensures |r| == |ks|
    ensures forall i :: 0 <= i < |ks| ==> r[i] == f(ks[i])
  {
    if ks == [] then [] else [f(ks[0])] + MapSeq(ks[1..], f)
  }

  /** The multiset of images of the elements of `s`. */
  ghost function Bag<K(!new), T>(s: set<K>, f: K -> T): multiset<T>
    decreases s
  {
    if s == {} then multiset{} else multiset{f(Pick(s))} + Bag(s - {Pick(s)}, f)
  }

  /** Listing the elements and mapping them gives the same multiset. */
  lemma {:induction false} BagOfEnumerate<K(!new), T>(s: set<K>, f: K -> T)
    ensures multiset(MapSeq(Enumerate(s), f)) == Bag(s, f)
    decreases s
  {
    if s != {} {
      var first := Pick(s);
      var rest := Enumerate(s - {first});
      assert Enumerate(s) == [first] + rest;
      assert ([first] + rest)[1..] == rest;
      assert MapSeq(Enumerate(s), f) == [f(first)] + MapSeq(rest, f);
      BagOfEnumerate(s - {first}, f);
    }
  }

  /** Taking out any one element first leaves the same multiset; this is
      why a loop that picks keys in an arbitrary order collects `Bag`. */
  lemma {:induction false} BagPick<K(!new), T>(s: set<K>, f: K -> T, k: K)
    requires k in s
    ensures Bag(s, f) == Bag(s - {k}, f) + multiset{f(k)}
    decreases s
  {
    var first := Pick(s);
    if first != k {
      var both := s - {first} - {k};
      assert s - {k} - {first} == both;
      BagPick(s - {first}, f, k);
      BagPick(s - {k}, f, first);
      Rearrange(Bag(s, f), Bag(s - {first}, f), Bag(s - {k}, f), Bag(both, f), f(first), f(k));
    }
  }

  lemma Rearrange<T>(a: multiset<T>, b: multiset<T>, c: multiset<T>, common: multiset<T>, x: T, y: T)
    requires a == multiset{x} + b && b == common + multiset{y} && c == common + multiset{x}
    ensures a == c + multiset{y}
  {
  }

  /** Appending the image of one more element while removing it from the
      set still to visit keeps the total bag. */
  lemma BagStep<K(!new), T>(visited: seq<T>, remaining: set<K>, f: K -> T, k: K)
    requires k in remaining
    ensures multiset(visited + [f(k)]) + Bag(remaining - {k}, f) == multiset(visited) + Bag(remaining, f)
  {
    BagPick(remaining, f, k);
  }

  /** A sequence holding the images of a set's elements, in any order,
      holds exactly the images. */
  lemma {:induction false} ImagesOfSet<K(!new), T>(s: set<K>, f: K -> T, xs: seq<T>)
    requires multiset(xs) == multiset(MapSeq(Enumerate(s), f))
    ensures forall i :: 0 <= i < |xs| ==> exists k :: k in s && xs[i] == f(k)
    ensures forall k :: k in s ==> f(k) in xs
  {
    var ks := Enumerate(s);
    var all := MapSeq(ks, f);
    forall i | 0 <= i < |xs| ensures exists k :: k in s && xs[i] == f(k) {
      assert xs[i] in multiset(all);
      var j :| 0 <= j < |all| && all[j] == xs[i];
      assert ks[j] in s;
    }
    forall k | k in s ensures f(k) in xs {
      assert k in ks;
      var j :| 0 <= j < |ks| && ks[j] == k;
      assert all[j] in multiset(xs);
    }
  }

  /** Visiting a set through an injective renaming `h` of its elements
      collects the same images as visiting the renamed set `t`. */
  lemma {:induction false} BagImage<K(!new), J(!new), T>(s: set<K>, h: K -> J, t: set<J>, f: J -> T, g: K -> T)
    requires forall a, b :: a in s && b in s && h(a) == h(b) ==> a == b
    requires forall k :: k in s ==> h(k) in t
    requires forall j :: j in t ==> exists k :: k in s && h(k) == j
    requires forall k :: k in s ==> g(k) == f(h(k))
    ensures Bag(s, g) == Bag(t, f)
    decreases s
  {
    if s == {} {
      assert t == {};
    } else {
      var p := Pick(s);
      var rest := s - {p};
      forall j | j in t - {h(p)} ensures exists k :: k in rest && h(k) == j {
        var k :| k in s && h(k) == j;
        assert k in rest;
      }
      BagImage(rest, h, t - {h(p)}, f, g);
      BagPick(t, f, h(p));
    }
  }
}
