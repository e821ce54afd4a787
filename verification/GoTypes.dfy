/** Small value types shared by the models. */
module GoTypes {
  /** Names that the code only ever compares for equality. */
  type Name(==, !new)

  datatype Option<+T> = None | Some(value: T)

  datatype Result<+T, +E> = Ok(value: T) | Err(error: E)

  /** A Go slice as reflect.DeepEqual sees it: a nil slice differs from an empty one. */
  datatype Slice<+T> = Nil | Of(items: seq<T>) {
    function Items(): seq<T> {
      if Nil? then [] else items
    }
  }

  /** The slice that `var s []T` becomes after appending `xs` one by one: nil if nothing was appended. */
  function Appended<T>(xs: seq<T>): Slice<T> {
    if xs == [] then Nil else Of(xs)
  }

  /** The loop that appends f(x) for every x where f has a result. */
  function FilterMap<A, B>(f: A -> Option<B>, xs: seq<A>): (ys: seq<B>)
    ensures |ys| <= |xs|
  {
    if xs == [] then []
    else
      var y := f(xs[0]);
      (if y.Some? then [y.value] else []) + FilterMap(f, xs[1..])
  }

  lemma {:induction false} FilterMapAppend<A, B>(f: A -> Option<B>, a: seq<A>, b: seq<A>)
    ensures FilterMap(f, a + b) == FilterMap(f, a) + FilterMap(f, b)
  {
    if a == [] {
      assert a + b == b;
    } else {
      assert (a + b)[1..] == a[1..] + b && (a + b)[0] == a[0];
      FilterMapAppend(f, a[1..], b);
      var head := if f(a[0]).Some? then [f(a[0]).value] else [];
      assert FilterMap(f, a + b) == head + FilterMap(f, (a + b)[1..]);
      assert head + (FilterMap(f, a[1..]) + FilterMap(f, b)) == (head + FilterMap(f, a[1..])) + FilterMap(f, b);
    }
  }

  /** One iteration of that loop. */
  lemma FilterMapStep<A, B>(f: A -> Option<B>, xs: seq<A>, i: nat)
    requires i < |xs|
    ensures FilterMap(f, xs[..i + 1]) ==
            FilterMap(f, xs[..i]) + (if f(xs[i]).Some? then [f(xs[i]).value] else [])
  {
    assert xs[..i + 1] == xs[..i] + [xs[i]];
    FilterMapAppend(f, xs[..i], [xs[i]]);
  }

  /** Filtering through g after f keeps a list unchanged exactly when every element survives both unchanged. */
  lemma {:induction false} FilterMapEcho<A, B>(f: A -> Option<B>, g: B -> Option<A>, xs: seq<A>)
    ensures FilterMap(g, FilterMap(f, xs)) == xs <==>
            forall i :: 0 <= i < |xs| ==> f(xs[i]).Some? && g(f(xs[i]).value) == Some(xs[i])
  {
    if xs != [] {
      FilterMapEcho(f, g, xs[1..]);
      var y := f(xs[0]);
      var rest := FilterMap(g, FilterMap(f, xs[1..]));
      if y.Some? {
        FilterMapAppend(g, [y.value], FilterMap(f, xs[1..]));
        var back := g(y.value);
        assert FilterMap(g, [y.value]) == if back.Some? then [back.value] else [];
        if back == Some(xs[0]) {
          assert xs == [xs[0]] + xs[1..];
          assert ([xs[0]] + rest)[1..] == rest;
        }
      }
    }
  }

  lemma TakeStep<T>(s: seq<T>, i: nat)
    requires i < |s|
    ensures s[..i + 1] == s[..i] + [s[i]] && s[..|s|] == s
  {
  }

  // Set facts for loops that take the elements of a map's keys one by one. They are stated for any
  // element type, which keeps the reasoning away from strings.

  lemma AddKnown<T>(done: set<T>, known: set<T>, n: T)
    ensures (done + {n}) - known == if n in known then done - known else (done - known) + {n}
  {
  }

  lemma NothingLeft<T>(a: set<T>, b: set<T>)
    requires forall n :: n in a ==> n in b
    ensures a - b == {} && a <= b
  {
  }

  ghost predicate NoDuplicates<T>(s: seq<T>) {
    forall i, j :: 0 <= i < j < |s| ==> s[i] != s[j]
  }

  lemma {:induction false} DistinctCount<T>(s: seq<T>)
    requires NoDuplicates(s)
    ensures |set x | x in s| == |s|
  {
    if s != [] {
      var rest := s[1..];
      DistinctCount(rest);
      assert (set x | x in s) == (set x | x in rest) + {s[0]};
    }
  }

  /** A list without duplicates of exactly the elements of a set. */
  lemma ListsAll<T>(s: seq<T>, all: set<T>)
    requires NoDuplicates(s) && (forall x :: x in s ==> x in all) && forall x :: x in all ==> x in s
    ensures |s| == |all|
  {
    DistinctCount(s);
    assert all == set x | x in s;
  }

  lemma Remainder<T(!new)>(all: set<T>, part: set<T>, rest: set<T>)
    requires forall x :: x in part ==> x in all
    requires forall x :: x in rest <==> x in all && x !in part
    ensures rest == all - part && |rest| + |part| == |all|
  {
    assert all == rest + part;
  }

  /** `order` lists the elements of `all` outside `rest`, each once. */
  ghost predicate Enumerates<T(!new)>(order: seq<T>, all: set<T>, rest: set<T>) {
    NoDuplicates(order) && forall n :: n in order <==> n in all && n !in rest
  }

  lemma EnumerateStep<T(!new)>(order: seq<T>, all: set<T>, rest: set<T>, n: T)
    requires Enumerates(order, all, rest) && n in rest && n in all
    ensures Enumerates(order + [n], all, rest - {n}) && n !in order
  {
  }
}
