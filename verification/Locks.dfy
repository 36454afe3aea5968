// Advisory locks: the command space and the bucket space, and the order in which
// an atomic transaction takes them.
module Locks {

  datatype Lock = CommandLock(key: int) | BucketLock(key: int)

  /** The two-int32 command space comes before the bigint bucket space. */
  predicate Before(a: Lock, b: Lock)
  {
    match (a, b)
    case (CommandLock(x), CommandLock(y)) => x < y
    case (BucketLock(x), BucketLock(y)) => x < y
    case (CommandLock(_), BucketLock(_)) => true
    case (BucketLock(_), CommandLock(_)) => false
  }

  lemma BeforeTransitive(a: Lock, b: Lock, c: Lock)
    requires Before(a, b) && Before(b, c)
    ensures Before(a, c)
  {
  }

  ghost predicate Increasing(locks: seq<Lock>)
  {
    forall i, j :: 0 <= i < j < |locks| ==> Before(locks[i], locks[j])
  }

  // -------------------------------------------------------------- lock plans

  predicate Sorted(s: seq<int>) { forall i, j :: 0 <= i < j < |s| ==> s[i] <= s[j] }

  /** What is inserted before the last key stays below it. */
  lemma BelowLast(x: int, s: seq<int>, head: seq<int>)
    requires Sorted(s) && s != [] && x < s[|s| - 1]
    requires forall k :: k in head <==> k in s[..|s| - 1] || k == x
    ensures forall i :: 0 <= i < |head| ==> head[i] <= s[|s| - 1]
  {
    var n := |s| - 1;
    forall i | 0 <= i < |head| ensures head[i] <= s[n] {
      assert head[i] in head;
      if head[i] != x {
        var j :| 0 <= j < n && s[..n][j] == head[i];
        assert s[j] <= s[n];
      }
    }
  }

  function Insert(x: int, s: seq<int>): (r: seq<int>)
    requires Sorted(s)
    ensures Sorted(r) && |r| == |s| + 1
    ensures forall k :: k in r <==> k in s || k == x
  {
    if s == [] then [x]
    else if s[|s| - 1] <= x then s + [x]
    else
      var n := |s| - 1;
      assert s == s[..n] + [s[n]];
      var head := Insert(x, s[..n]);
      BelowLast(x, s, head);
      head + [s[n]]
  }

  /** sort.Slice by ascending key. */
  function SortKeys(s: seq<int>): (r: seq<int>)
    ensures Sorted(r) && |r| == |s|
    ensures forall k :: k in r <==> k in s
  {
    if s == [] then []
    else
      assert s == s[..|s| - 1] + [s[|s| - 1]];
      Insert(s[|s| - 1], SortKeys(s[..|s| - 1]))
  }

  /** The acquisition loop over sorted keys: a key equal to the one before it is skipped. */
  method PlanBuckets(keys: seq<int>) returns (plan: seq<Lock>)
    ensures plan == BucketPlan(keys)
  {
    var locks := SortKeys(keys);
    plan := [];
    for i := 0 to |locks|
      invariant plan == Skipping(locks[..i])
    {
      assert locks[..i + 1][..i] == locks[..i];
      if i > 0 && locks[i] == locks[i - 1] {
        continue;
      }
      plan := plan + [BucketLock(locks[i])];
    }
    assert locks[..|locks|] == locks;
  }

  function Skipping(s: seq<int>): seq<Lock>
  {
    if s == [] then []
    else
      var n := |s| - 1;
      if n > 0 && s[n] == s[n - 1] then Skipping(s[..n]) else Skipping(s[..n]) + [BucketLock(s[n])]
  }

  function BucketPlan(keys: seq<int>): seq<Lock> { Skipping(SortKeys(keys)) }

  lemma {:induction false} SkippingIncreases(s: seq<int>)
    requires Sorted(s)
    ensures Increasing(Skipping(s))
    ensures forall i :: 0 <= i < |Skipping(s)| ==> Skipping(s)[i].BucketLock? && Skipping(s)[i].key <= s[|s| - 1]
    ensures s != [] ==> BucketLock(s[|s| - 1]) in Skipping(s)
  {
    if s != [] { SkippingIncreases(s[..|s| - 1]); }
  }

  lemma {:induction false} SkippingCovers(s: seq<int>, k: int)
    ensures BucketLock(k) in Skipping(s) <==> k in s
  {
    if s != [] {
      var n := |s| - 1;
      assert s == s[..n] + [s[n]];
      SkippingCovers(s[..n], k);
      if n > 0 && s[n] == s[n - 1] { assert s[n - 1] in s[..n]; }
    }
  }

  /** Bucket locks are taken in strictly increasing order, one for each key. */
  lemma {:induction false} BucketPlanIncreases(keys: seq<int>)
    ensures Increasing(BucketPlan(keys))
    ensures forall i :: 0 <= i < |BucketPlan(keys)| ==> BucketPlan(keys)[i].BucketLock?
    ensures forall k :: BucketLock(k) in BucketPlan(keys) <==> k in keys
  {
    SkippingIncreases(SortKeys(keys));
    forall k ensures BucketLock(k) in BucketPlan(keys) <==> k in keys { SkippingCovers(SortKeys(keys), k); }
  }
}
