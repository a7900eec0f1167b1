/** The three Ruby `Array`/`Enumerable` methods that `Editor.available` chains:
    `compact`, `uniq` and `find`, as pure functions over sequences. */
module Arrays {
  import opened Wrappers

  /** No element occurs twice. */
  predicate Distinct<T(==)>(xs: seq<T>) {
    forall i, j :: 0 <= i < j < |xs| ==> xs[i] != xs[j]
  }

  /** `Array#compact`: drops the nil entries and keeps the others in order. */
  function Compact<T(==)>(xs: seq<Option<T>>): (r: seq<T>)
    ensures |r| <= |xs|
    ensures forall i :: 0 <= i < |r| ==> Some(r[i]) in xs
    ensures forall i :: 0 <= i < |xs| && xs[i].Some? ==> xs[i].value in r
  {
    if xs == [] then []
    else
      assert xs == [xs[0]] + xs[1..];
      match xs[0]
      case None => Compact(xs[1..])
      case Some(x) => [x] + Compact(xs[1..])
  }

  /** `Array#uniq`: keeps the first occurrence of every element, in order. */
  function Uniq<T(==)>(xs: seq<T>): (r: seq<T>)
    ensures forall i :: 0 <= i < |r| ==> r[i] in xs
    ensures Distinct(r)
    decreases |xs|
  {
    if xs == [] then []
    else
      var init, last := xs[..|xs| - 1], xs[|xs| - 1];
      assert xs == init + [last];
      var u := Uniq(init);
      if last in u then u else u + [last]
  }

  /** `compact` works piecewise: the nils of each part are dropped and the
      remaining values of the first part come before those of the second. */
  lemma {:induction false} CompactAppend<T>(a: seq<Option<T>>, b: seq<Option<T>>)
    ensures Compact(a + b) == Compact(a) + Compact(b)
  {
    if a == [] {
      assert a + b == b;
    } else {
      assert (a + b)[0] == a[0];
      assert (a + b)[1..] == a[1..] + b;
      CompactAppend(a[1..], b);
      match a[0]
      case None =>
      case Some(x) =>
        assert [x] + (Compact(a[1..]) + Compact(b)) == ([x] + Compact(a[1..])) + Compact(b);
    }
  }

  /** Appending never reorders what `uniq` already produced: the result for a
      prefix is a prefix of the result for the whole. */
  lemma {:induction false} UniqExtends<T>(a: seq<T>, b: seq<T>)
    ensures Uniq(a) <= Uniq(a + b)
    decreases |b|
  {
    if b == [] {
      assert a + b == a;
    } else {
      var init := b[..|b| - 1];
      assert b == init + [b[|b| - 1]];
      assert (a + b)[..|a + b| - 1] == a + init;
      assert (a + b)[|a + b| - 1] == b[|b| - 1];
      UniqExtends(a, init);
    }
  }

  /** A further element is added at the end exactly when it did not occur before. */
  lemma UniqSnoc<T>(a: seq<T>, x: T)
    ensures Uniq(a + [x]) == if x in a then Uniq(a) else Uniq(a) + [x]
  {
    assert (a + [x])[..|a + [x]| - 1] == a;
    assert (a + [x])[|a + [x]| - 1] == x;
    UniqKeepsEvery(a);
    if x in a {
      var i :| 0 <= i < |a| && a[i] == x;
    }
  }

  /** Position `i` holds the first element that `p` accepts. */
  predicate FirstAt<T>(p: T -> bool, xs: seq<T>, i: int) {
    0 <= i < |xs| && p(xs[i]) && forall j :: 0 <= j < i ==> !p(xs[j])
  }

  /** `uniq` drops no value: every element of the input is in the output. */
  lemma {:induction false} UniqKeepsEvery<T>(xs: seq<T>)
    ensures forall i :: 0 <= i < |xs| ==> xs[i] in Uniq(xs)
    decreases |xs|
  {
    if xs != [] {
      var init, last := xs[..|xs| - 1], xs[|xs| - 1];
      assert xs == init + [last];
      UniqKeepsEvery(init);
      assert forall i :: 0 <= i < |init| ==> xs[i] == init[i];
    }
  }

  /** `Enumerable#find`: the first element the block accepts, or nil. */
  function Find<T(==)>(p: T -> bool, xs: seq<T>): (r: Option<T>)
    ensures r.None? <==> forall i :: 0 <= i < |xs| ==> !p(xs[i])
    ensures r.Some? ==> exists i :: FirstAt(p, xs, i) && xs[i] == r.value
  {
    if xs == [] then None
    else if p(xs[0]) then
      assert FirstAt(p, xs, 0);
      Some(xs[0])
    else
      var r := Find(p, xs[1..]);
      assert r.Some? ==> exists i :: FirstAt(p, xs, i) && xs[i] == r.value by {
        if r.Some? {
          var k :| FirstAt(p, xs[1..], k) && xs[1..][k] == r.value;
          assert forall j :: 0 <= j < k + 1 ==> !p(xs[j]) by {
            forall j | 0 <= j < k + 1 ensures !p(xs[j]) {
              if j > 0 { assert xs[j] == xs[1..][j - 1]; }
            }
          }
          assert FirstAt(p, xs, k + 1);
        }
      }
      r
  }

  /** Appending one element changes `find` only when nothing earlier was found. */
  lemma {:induction false} FindSnoc<T>(p: T -> bool, xs: seq<T>, x: T)
    ensures Find(p, xs + [x]) == (if Find(p, xs).Some? then Find(p, xs)
                                  else if p(x) then Some(x) else None)
  {
    if xs != [] {
      assert (xs + [x])[1..] == xs[1..] + [x];
      FindSnoc(p, xs[1..], x);
    }
  }

  /** Removing duplicates never changes which element `find` returns. */
  lemma {:induction false} FindUniq<T>(p: T -> bool, xs: seq<T>)
    ensures Find(p, Uniq(xs)) == Find(p, xs)
    decreases |xs|
  {
    if xs != [] {
      var init, last := xs[..|xs| - 1], xs[|xs| - 1];
      assert xs == init + [last];
      FindUniq(p, init);
      FindSnoc(p, init, last);
      if last !in Uniq(init) {
        FindSnoc(p, Uniq(init), last);
      }
    }
  }

  /** A list without duplicates is left unchanged by `uniq`. */
  lemma {:induction false} UniqOfDistinct<T>(xs: seq<T>)
    requires Distinct(xs)
    ensures Uniq(xs) == xs
    decreases |xs|
  {
    if xs != [] {
      var init, last := xs[..|xs| - 1], xs[|xs| - 1];
      assert xs == init + [last];
      assert Distinct(init);
      UniqOfDistinct(init);
      assert last !in init;
    }
  }
}
