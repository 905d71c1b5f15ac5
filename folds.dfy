/**
 * Folds over sequences of per-row readings: what the scraper's for loops build, item by
 * item, once each row has been read.
 */
module Folds {
  import opened Wrappers

  // ---------------------------------------------------------------- reading each row

  /** f applied to each element, in order: what a loop appending one reading per row builds. */
  function MapSeq<A, B>(f: A -> B, xs: seq<A>): seq<B> {
    if xs == [] then [] else MapSeq(f, xs[..|xs| - 1]) + [f(xs[|xs| - 1])]
  }

  /** Reading a concatenation reads each part in turn. */
  lemma {:induction false} MapSeqAppend<A, B>(f: A -> B, xs: seq<A>, ys: seq<A>)
    ensures MapSeq(f, xs + ys) == MapSeq(f, xs) + MapSeq(f, ys)
    decreases |ys|
  {
    if ys == [] {
      assert xs + ys == xs;
    } else {
      assert (xs + ys)[..|xs + ys| - 1] == xs + ys[..|ys| - 1];
      MapSeqAppend(f, xs, ys[..|ys| - 1]);
    }
  }

  /** One reading per element. */
  lemma {:induction false} MapSeqLength<A, B>(f: A -> B, xs: seq<A>)
    ensures |MapSeq(f, xs)| == |xs|
  {
    if xs != [] {
      MapSeqLength(f, xs[..|xs| - 1]);
    }
  }

  /** Entry k of the readings is the reading of element k. */
  lemma {:induction false} MapSeqAt<A, B>(f: A -> B, xs: seq<A>)
    ensures |MapSeq(f, xs)| == |xs|
    ensures forall k :: 0 <= k < |xs| ==> MapSeq(f, xs)[k] == f(xs[k])
  {
    if xs != [] {
      var init := xs[..|xs| - 1];
      MapSeqAt(f, init);
      assert forall k :: 0 <= k < |init| ==> init[k] == xs[k];
    }
  }

  /** Some element satisfies p: what a loop returning true at the first hit decides. */
  predicate Any<A>(p: A -> bool, xs: seq<A>) {
    xs != [] && (Any(p, xs[..|xs| - 1]) || p(xs[|xs| - 1]))
  }

  /** Any holds exactly when some element satisfies p. */
  lemma {:induction false} AnyMeaning<A>(p: A -> bool, xs: seq<A>)
    ensures Any(p, xs) <==> exists k :: 0 <= k < |xs| && p(xs[k])
  {
    if xs != [] {
      var init := xs[..|xs| - 1];
      AnyMeaning(p, init);
      assert forall k :: 0 <= k < |init| ==> init[k] == xs[k];
    }
  }

  /** A prefix with a hit gives the whole sequence a hit. */
  lemma {:induction false} AnyGrows<A>(p: A -> bool, xs: seq<A>, i: nat)
    requires i <= |xs| && Any(p, xs[..i])
    ensures Any(p, xs)
    decreases |xs| - i
  {
    if i < |xs| {
      assert xs[..|xs| - 1][..i] == xs[..i];
      AnyGrows(p, xs[..|xs| - 1], i);
    } else {
      assert xs[..i] == xs;
    }
  }

  // ---------------------------------------------------------------- first present value

  /** The first present value of xs: what a for loop with an early return finds. */
  function FirstSome<T>(xs: seq<Option<T>>): Option<T> {
    if xs == [] then None
    else if xs[0].Some? then xs[0]
    else FirstSome(xs[1..])
  }

  /** FirstSome finds nothing exactly when every value is absent, else a value with none present before it. */
  lemma {:induction false} FirstSomeMeaning<T>(xs: seq<Option<T>>)
    ensures FirstSome(xs).None? <==> forall k :: 0 <= k < |xs| ==> xs[k].None?
    ensures FirstSome(xs).Some? ==>
      exists k :: 0 <= k < |xs| && xs[k] == FirstSome(xs) && forall j :: 0 <= j < k ==> xs[j].None?
  {
    if xs != [] && xs[0].None? {
      FirstSomeMeaning(xs[1..]);
      assert forall k :: 0 < k < |xs| ==> xs[1..][k - 1] == xs[k];
      if FirstSome(xs).Some? {
        var k :| 0 <= k < |xs[1..]| && xs[1..][k] == FirstSome(xs) && forall j :: 0 <= j < k ==> xs[1..][j].None?;
        assert xs[k + 1] == FirstSome(xs);
      }
    }
  }

  /** Skipping leading absent values does not change what FirstSome finds. */
  lemma FirstSomeSkip<T>(xs: seq<Option<T>>, i: nat)
    requires i < |xs| && xs[i].None?
    ensures FirstSome(xs[i..]) == FirstSome(xs[i + 1..])
  {
    assert xs[i..][1..] == xs[i + 1..];
  }

  /** A present value with only absent ones before it is the one FirstSome finds. */
  lemma {:induction false} FirstSomeAt<T>(xs: seq<Option<T>>, k: nat)
    requires k < |xs| && xs[k].Some?
    requires forall j :: 0 <= j < k ==> xs[j].None?
    ensures FirstSome(xs) == xs[k]
  {
    if k > 0 {
      assert xs[0].None?;
      assert forall j :: 0 <= j < k - 1 ==> xs[1..][j] == xs[j + 1];
      FirstSomeAt(xs[1..], k - 1);
    }
  }

  /** The present values of xs, in order: what a loop appending only the non-null ones collects. */
  function Somes<T>(xs: seq<Option<T>>): (r: seq<T>)
    ensures |r| <= |xs|
  {
    if xs == [] then []
    else Somes(xs[..|xs| - 1]) + (if xs[|xs| - 1].Some? then [xs[|xs| - 1].value] else [])
  }

  lemma {:induction false} SomesAppend<T>(a: seq<Option<T>>, b: seq<Option<T>>)
    ensures Somes(a + b) == Somes(a) + Somes(b)
    decreases |b|
  {
    if b == [] {
      assert a + b == a;
    } else {
      assert (a + b)[..|a + b| - 1] == a + b[..|b| - 1];
      SomesAppend(a, b[..|b| - 1]);
    }
  }

  /** Reading one more entry adds its value, if present. */
  lemma SomesStep<T>(xs: seq<Option<T>>, i: nat)
    requires i < |xs|
    ensures Somes(xs[..i + 1]) == Somes(xs[..i]) + (if xs[i].Some? then [xs[i].value] else [])
  {
    assert xs[..i + 1][..i] == xs[..i];
  }

  /** Somes keeps exactly the present values: each is one of xs, and each of xs is kept. */
  lemma {:induction false} SomesMembers<T>(xs: seq<Option<T>>)
    ensures forall v :: v in Somes(xs) <==> Some(v) in xs
  {
    if xs != [] {
      SomesMembers(xs[..|xs| - 1]);
      assert xs == xs[..|xs| - 1] + [xs[|xs| - 1]];
    }
  }

  // ---------------------------------------------------------------- sums and counts

  /** Adding two partial sums: the first error wins. */
  function Plus(a: Result<int>, b: Result<int>): Result<int> {
    if a.Err? then a else if b.Err? then b else Ok(a.value + b.value)
  }

  /** The exact (unbounded) sum of the values, or the first error among them. */
  function SumResults(ms: seq<Result<int>>): Result<int> {
    if ms == [] then Ok(0) else Plus(SumResults(ms[..|ms| - 1]), ms[|ms| - 1])
  }

  /** Summing two blocks sums their sums; an error in either is raised. */
  lemma {:induction false} SumResultsAppend(a: seq<Result<int>>, b: seq<Result<int>>)
    ensures SumResults(a + b) == Plus(SumResults(a), SumResults(b))
    decreases |b|
  {
    if b == [] {
      assert a + b == a;
    } else {
      var b' := b[..|b| - 1];
      assert (a + b)[..|a + b| - 1] == a + b';
      assert (a + b)[|a + b| - 1] == b[|b| - 1];
      SumResultsAppend(a, b');
    }
  }

  /** The sum raises exactly the first error among the values, and only if there is one. */
  lemma {:induction false} SumResultsRaises(ms: seq<Result<int>>)
    ensures SumResults(ms).Err? <==> exists k :: 0 <= k < |ms| && ms[k].Err?
    ensures SumResults(ms).Err? ==>
      exists k :: 0 <= k < |ms| && ms[k] == SumResults(ms) && forall j :: 0 <= j < k ==> ms[j].Ok?
  {
    if ms != [] {
      var init := ms[..|ms| - 1];
      SumResultsRaises(init);
      assert forall k :: 0 <= k < |init| ==> init[k] == ms[k];
    }
  }

  /** How many of the flags are set. */
  function CountTrue(bs: seq<bool>): (n: nat)
    ensures n <= |bs|
  {
    if bs == [] then 0 else CountTrue(bs[..|bs| - 1]) + (if bs[|bs| - 1] then 1 else 0)
  }

  /** The count is 0 exactly when no flag is set, and all of them exactly when every flag is. */
  lemma {:induction false} CountTrueExtremes(bs: seq<bool>)
    ensures CountTrue(bs) == 0 <==> forall k :: 0 <= k < |bs| ==> !bs[k]
    ensures CountTrue(bs) == |bs| <==> forall k :: 0 <= k < |bs| ==> bs[k]
  {
    if bs != [] {
      var init := bs[..|bs| - 1];
      CountTrueExtremes(init);
      assert forall k :: 0 <= k < |init| ==> init[k] == bs[k];
    }
  }

  /** Counting the elements that satisfy p: none exactly when no element does, all exactly when every one does. */
  lemma CountMapExtremes<A>(p: A -> bool, xs: seq<A>)
    ensures CountTrue(MapSeq(p, xs)) <= |xs|
    ensures CountTrue(MapSeq(p, xs)) == 0 <==> forall k :: 0 <= k < |xs| ==> !p(xs[k])
    ensures CountTrue(MapSeq(p, xs)) == |xs| <==> forall k :: 0 <= k < |xs| ==> p(xs[k])
  {
    MapSeqAt(p, xs);
    CountTrueExtremes(MapSeq(p, xs));
  }

  // ---------------------------------------------------------------- sets

  /** The set of the present values: what a loop adding each non-null reading to a HashSet builds. */
  function Gather(xs: seq<Option<string>>): (r: set<string>)
    ensures forall x :: x in r <==> Some(x) in xs
  {
    set k | 0 <= k < |xs| && xs[k].Some? :: xs[k].value
  }

  method GatherAll(xs: seq<Option<string>>) returns (found: set<string>)
    ensures found == Gather(xs)
  {
    found := {};
    var i := 0;
    while i < |xs|
      invariant 0 <= i <= |xs|
      invariant found == Gather(xs[..i])
    {
      assert xs[..i + 1] == xs[..i] + [xs[i]];
      if xs[i].Some? {
        found := found + {xs[i].value};
      }
      i := i + 1;
    }
    assert xs[..i] == xs;
  }

  /** A running maximum from `start` over the present values: `if (n > max) max = n`. */
  function MaxOf(start: int, vs: seq<Option<nat>>): int {
    if vs == [] then start
    else
      var m := MaxOf(start, vs[..|vs| - 1]);
      match vs[|vs| - 1]
      case None => m
      case Some(n) => if n > m then n else m
  }

  /** The running maximum is at least `start` and every present value, and is one of them. */
  lemma {:induction false} MaxOfMeaning(start: int, vs: seq<Option<nat>>)
    ensures MaxOf(start, vs) >= start
    ensures forall k :: 0 <= k < |vs| && vs[k].Some? ==> vs[k].value <= MaxOf(start, vs)
    ensures MaxOf(start, vs) == start || exists k :: 0 <= k < |vs| && vs[k] == Some(MaxOf(start, vs))
  {
    if vs != [] {
      var init := vs[..|vs| - 1];
      MaxOfMeaning(start, init);
      assert forall k :: 0 <= k < |init| ==> init[k] == vs[k];
    }
  }

  // ---------------------------------------------------------------- collecting

  /**
   * The strings gathered from a sequence of readings, each of which may raise, add
   * nothing or add one string; the first raised error aborts the whole collection.
   */
  function Collect(rs: seq<Result<Option<string>>>): Result<set<string>> {
    if rs == [] then Ok({})
    else
      match Collect(rs[..|rs| - 1])
      case Err(e) => Err(e)
      case Ok(s) =>
        match rs[|rs| - 1]
        case Err(e) => Err(e)
        case Ok(None) => Ok(s)
        case Ok(Some(x)) => Ok(s + {x})
  }

  /**
   * Collecting raises exactly when some reading raises, and then the first such error;
   * otherwise it holds exactly the strings some reading adds.
   */
  lemma {:induction false} CollectMeaning(rs: seq<Result<Option<string>>>)
    ensures Collect(rs).Err? <==> exists k :: 0 <= k < |rs| && rs[k].Err?
    ensures Collect(rs).Err? ==>
      exists k :: 0 <= k < |rs| && rs[k].Err? && rs[k].error == Collect(rs).error &&
        forall j :: 0 <= j < k ==> rs[j].Ok?
    ensures Collect(rs).Ok? ==> forall x :: x in Collect(rs).value <==> Ok(Some(x)) in rs
  {
    if rs != [] {
      var init := rs[..|rs| - 1];
      CollectMeaning(init);
      assert rs == init + [rs[|rs| - 1]];
      assert forall k :: 0 <= k < |init| ==> init[k] == rs[k];
    }
  }

  /** The for loop that adds each reading's string to a set, in order. */
  method CollectAll(rs: seq<Result<Option<string>>>) returns (r: Result<set<string>>)
    ensures r == Collect(rs)
  {
    var found: set<string> := {};
    var i := 0;
    while i < |rs|
      invariant 0 <= i <= |rs|
      invariant Collect(rs[..i]) == Ok(found)
    {
      assert rs[..i + 1][..i] == rs[..i];
      var reading := rs[i];
      if reading.Err? {
        CollectAbort(rs, i);
        return Err(reading.error);
      }
      if reading.value.Some? {
        found := found + {reading.value.value};
      }
      i := i + 1;
    }
    assert rs[..i] == rs;
    return Ok(found);
  }

  /** Once a reading raises, the collection raises that error whatever follows. */
  lemma {:induction false} CollectAbort(rs: seq<Result<Option<string>>>, i: nat)
    requires i < |rs| && rs[i].Err? && Collect(rs[..i]).Ok?
    ensures Collect(rs) == Err(rs[i].error)
    decreases |rs| - i
  {
    if i == |rs| - 1 {
      assert rs[..|rs| - 1] == rs[..i];
    } else {
      var shorter := rs[..|rs| - 1];
      assert shorter[..i] == rs[..i];
      CollectAbort(shorter, i);
    }
  }

  // ---------------------------------------------------------------- flattening

  /** The present values, row after row, in order. */
  function Flatten<T>(xss: seq<seq<Option<T>>>): seq<T> {
    if xss == [] then [] else Flatten(xss[..|xss| - 1]) + Somes(xss[|xss| - 1])
  }

  /** Flattening a concatenation flattens each part in turn. */
  lemma {:induction false} FlattenAppend<T>(xss: seq<seq<Option<T>>>, yss: seq<seq<Option<T>>>)
    ensures Flatten(xss + yss) == Flatten(xss) + Flatten(yss)
    decreases |yss|
  {
    if yss == [] {
      assert xss + yss == xss;
    } else {
      assert (xss + yss)[..|xss + yss| - 1] == xss + yss[..|yss| - 1];
      FlattenAppend(xss, yss[..|yss| - 1]);
    }
  }

  /** Reading a slice gives the same slice of the readings. */
  lemma MapSeqSlices<A, B>(f: A -> B, xs: seq<A>, k: int)
    requires 0 <= k < |xs|
    ensures |MapSeq(f, xs)| == |xs| && MapSeq(f, xs)[k] == f(xs[k])
    ensures MapSeq(f, xs[..k]) == MapSeq(f, xs)[..k]
    ensures MapSeq(f, xs[k + 1..]) == MapSeq(f, xs)[k + 1..]
  {
    MapSeqAt(f, xs);
    MapSeqAt(f, xs[..k]);
    MapSeqAt(f, xs[k + 1..]);
  }

  /** Flattening keeps row order: row k's values come after every earlier row's, before every later one's. */
  lemma FlattenRowSplit<T>(xss: seq<seq<Option<T>>>, k: int)
    requires 0 <= k < |xss|
    ensures Flatten(xss) == Flatten(xss[..k]) + Somes(xss[k]) + Flatten(xss[k + 1..])
  {
    SplitAround(xss, k);
    FlattenAppend3(xss[..k], xss[k], xss[k + 1..]);
  }

  lemma FlattenAppend3<T>(before: seq<seq<Option<T>>>, row: seq<Option<T>>, after: seq<seq<Option<T>>>)
    ensures Flatten(before + [row] + after) == Flatten(before) + Somes(row) + Flatten(after)
  {
    FlattenAppend(before + [row], after);
    FlattenAppend(before, [row]);
    FlattenOne(row);
  }

  lemma FlattenOne<T>(row: seq<Option<T>>)
    ensures Flatten([row]) == Somes(row)
  {
    assert [row][..0] == [];
  }

  /** Somes keeps entry order: entry j's value comes after every earlier entry's, before every later one's. */
  lemma SomesSplit<T>(xs: seq<Option<T>>, j: int)
    requires 0 <= j < |xs|
    ensures Somes(xs) == Somes(xs[..j]) + Somes([xs[j]]) + Somes(xs[j + 1..])
  {
    SplitAround(xs, j);
    SomesAppend3(xs[..j], xs[j], xs[j + 1..]);
  }

  lemma SplitAround<T>(xs: seq<T>, j: int)
    requires 0 <= j < |xs|
    ensures xs == xs[..j] + [xs[j]] + xs[j + 1..]
  {
  }

  lemma SomesAppend3<T>(before: seq<Option<T>>, x: Option<T>, after: seq<Option<T>>)
    ensures Somes(before + [x] + after) == Somes(before) + Somes([x]) + Somes(after)
  {
    SomesAppend(before + [x], after);
    SomesAppend(before, [x]);
  }

  /**
   * Flattening keeps row order, then entry order: entry j of row k comes after every earlier
   * row and earlier entry, and before every later one.
   */
  lemma FlattenSplitAt<T>(xss: seq<seq<Option<T>>>, k: int, j: int)
    requires 0 <= k < |xss| && 0 <= j < |xss[k]|
    ensures Flatten(xss) ==
      Flatten(xss[..k]) + Somes(xss[k][..j]) + Somes([xss[k][j]]) + Somes(xss[k][j + 1..]) + Flatten(xss[k + 1..])
  {
    FlattenRowSplit(xss, k);
    SomesSplit(xss[k], j);
  }

  /** Every flattened value is present in some row, and every present value is kept. */
  lemma {:induction false} FlattenMembers<T>(xss: seq<seq<Option<T>>>)
    ensures forall s :: s in Flatten(xss) <==> exists k :: 0 <= k < |xss| && Some(s) in xss[k]
  {
    if xss != [] {
      var init := xss[..|xss| - 1];
      FlattenMembers(init);
      SomesMembers(xss[|xss| - 1]);
      assert forall k :: 0 <= k < |init| ==> init[k] == xss[k];
    }
  }

  /** A value is flattened out of the rows f reads exactly when some row's reading holds it. */
  lemma FlattenMapMembers<A, T>(f: A -> seq<Option<T>>, xs: seq<A>, t: T)
    ensures t in Flatten(MapSeq(f, xs)) <==>
      exists k, j :: 0 <= k < |xs| && 0 <= j < |f(xs[k])| && f(xs[k])[j] == Some(t)
  {
    var xss := MapSeq(f, xs);
    MapSeqAt(f, xs);
    FlattenMembers(xss);
    if t in Flatten(xss) {
      var k :| 0 <= k < |xss| && Some(t) in xss[k];
      var j :| 0 <= j < |xss[k]| && xss[k][j] == Some(t);
      assert 0 <= j < |f(xs[k])| && f(xs[k])[j] == Some(t);
    }
    if exists k, j :: 0 <= k < |xs| && 0 <= j < |f(xs[k])| && f(xs[k])[j] == Some(t) {
      var k, j :| 0 <= k < |xs| && 0 <= j < |f(xs[k])| && f(xs[k])[j] == Some(t);
      assert Some(t) in xss[k];
    }
  }

  /** Nested for loops appending the present values of each row in turn. */
  method FlattenAll<T>(xss: seq<seq<Option<T>>>) returns (ret: seq<T>)
    ensures ret == Flatten(xss)
  {
    ret := [];
    var i := 0;
    while i < |xss|
      invariant 0 <= i <= |xss|
      invariant ret == Flatten(xss[..i])
    {
      assert xss[..i + 1][..i] == xss[..i];
      var countries := xss[i];
      var j := 0;
      while j < |countries|
        invariant 0 <= j <= |countries|
        invariant ret == Flatten(xss[..i]) + Somes(countries[..j])
      {
        SomesStep(countries, j);
        if countries[j].Some? {
          ret := ret + [countries[j].value];
        }
        j := j + 1;
      }
      assert countries[..j] == countries;
      i := i + 1;
    }
    assert xss[..i] == xss;
  }

}
