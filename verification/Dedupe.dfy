/** Stable sorting and keep-first deduplication over any record type, given by a strict weak order and a
    key. `sort_events` and `dedupe_events` are the instance for events. */
module Dedupe {
  import opened Wrappers

  datatype Order<!T, !K> = Order(less: (T, T) -> bool, key: T -> K)

  /** `less` is a strict weak order. */
  ghost predicate StrictWeak<T(!new)>(less: (T, T) -> bool) {
    && (forall a :: !less(a, a))
    && (forall a, b, c :: less(a, b) && less(b, c) ==> less(a, c))
    && (forall a, b, c :: !less(a, b) && !less(b, c) ==> !less(a, c))
  }

  /** Records that sort alike have the same key. */
  ghost predicate Valid<T(!new), K(!new)>(o: Order<T, K>) {
    && StrictWeak(o.less)
    && forall a, b :: o.less(a, b) || o.less(b, a) || o.key(a) == o.key(b)
  }

  ghost predicate Sorted<T>(less: (T, T) -> bool, xs: seq<T>) {
    forall i, j | 0 <= i < j < |xs| :: !less(xs[j], xs[i])
  }

  ghost predicate StrictlySorted<T>(less: (T, T) -> bool, xs: seq<T>) {
    forall i, j | 0 <= i < j < |xs| :: less(xs[i], xs[j])
  }

  ghost predicate Distinct<T, K>(key: T -> K, xs: seq<T>) {
    forall i, j | 0 <= i < j < |xs| :: key(xs[i]) != key(xs[j])
  }

  function Insert<T>(less: (T, T) -> bool, x: T, ys: seq<T>): (r: seq<T>) {
    if ys == [] || !less(ys[0], x) then [x] + ys else [ys[0]] + Insert(less, x, ys[1..])
  }

  /** Python's `sorted`: stable, ascending. */
  function Sort<T>(less: (T, T) -> bool, xs: seq<T>): (r: seq<T>) {
    if xs == [] then [] else Insert(less, xs[0], Sort(less, xs[1..]))
  }

  /** The first record of every key that is not in `seen`. */
  function Keep<T, K(==)>(key: T -> K, xs: seq<T>, seen: set<K>): (r: seq<T>) {
    if xs == [] then []
    else if key(xs[0]) in seen then Keep(key, xs[1..], seen)
    else [xs[0]] + Keep(key, xs[1..], seen + {key(xs[0])})
  }

  function Deduped<T, K(==)>(o: Order<T, K>, xs: seq<T>): (r: seq<T>) {
    Keep(o.key, Sort(o.less, xs), {})
  }

  function First<T, K(==)>(key: T -> K, xs: seq<T>, k: K): (r: Option<T>) {
    if xs == [] then None else if key(xs[0]) == k then Some(xs[0]) else First(key, xs[1..], k)
  }

  /** The smallest record with key `k`, the first of them on a tie: what deduplication is meant to keep. */
  function Earliest<T, K(==)>(o: Order<T, K>, xs: seq<T>, k: K): (r: Option<T>) {
    if xs == [] then None
    else if o.key(xs[0]) == k then Pick(o.less, Some(xs[0]), Earliest(o, xs[1..], k))
    else Earliest(o, xs[1..], k)
  }

  function Pick<T>(less: (T, T) -> bool, a: Option<T>, b: Option<T>): (r: Option<T>) {
    if a.None? then b else if b.None? then a else if less(b.value, a.value) then b else a
  }

  function KeySet<T, K>(key: T -> K, xs: seq<T>): (s: set<K>) {
    set i | 0 <= i < |xs| :: key(xs[i])
  }

  lemma KeySetSnoc<T, K>(key: T -> K, xs: seq<T>, x: T)
    ensures KeySet(key, xs + [x]) == KeySet(key, xs) + {key(x)}
  {
    forall k | k in KeySet(key, xs + [x]) ensures k in KeySet(key, xs) + {key(x)} {
      var i :| 0 <= i < |xs + [x]| && key((xs + [x])[i]) == k;
      if i < |xs| { assert key(xs[i]) in KeySet(key, xs); }
    }
    forall k | k in KeySet(key, xs) + {key(x)} ensures k in KeySet(key, xs + [x]) {
      if k in KeySet(key, xs) {
        var i :| 0 <= i < |xs| && key(xs[i]) == k;
        assert (xs + [x])[i] == xs[i];
      } else {
        assert (xs + [x])[|xs|] == x;
      }
    }
  }

  lemma {:induction false} KeySetCount<T, K>(key: T -> K, xs: seq<T>)
    requires Distinct(key, xs)
    ensures |KeySet(key, xs)| == |xs|
  {
    if xs == [] {
      assert KeySet(key, xs) == {};
    } else {
      var init, last := xs[..|xs| - 1], xs[|xs| - 1];
      KeySetCount(key, init);
      KeySetSnoc(key, init, last);
      assert xs == init + [last] && key(last) !in KeySet(key, init);
    }
  }

  /** One turn of the seen-set loop. */
  lemma KeepStep<T, K>(key: T -> K, out: seq<T>, xs: seq<T>, i: nat, seen: set<K>)
    requires i < |xs|
    ensures out + Keep(key, xs[i..], seen)
      == if key(xs[i]) in seen then out + Keep(key, xs[i + 1..], seen)
         else (out + [xs[i]]) + Keep(key, xs[i + 1..], seen + {key(xs[i])})
  {
    assert xs[i..][0] == xs[i] && xs[i..][1..] == xs[i + 1..];
  }

  lemma EmptyOrMember<T>(xs: seq<T>)
    ensures xs == [] || exists x :: x in xs
  {
    if xs != [] { assert xs[0] in xs; }
  }

  // ---- sorting ----

  lemma {:induction false} InsertContents<T(!new)>(less: (T, T) -> bool, x: T, ys: seq<T>)
    ensures multiset(Insert(less, x, ys)) == multiset([x] + ys)
    ensures forall y | y in Insert(less, x, ys) :: y == x || y in ys
  {
    if ys != [] && less(ys[0], x) {
      assert ys == [ys[0]] + ys[1..];
      InsertContents(less, x, ys[1..]);
    }
  }

  lemma {:induction false} InsertSorted<T(!new)>(less: (T, T) -> bool, x: T, ys: seq<T>)
    requires StrictWeak(less) && Sorted(less, ys)
    ensures Sorted(less, Insert(less, x, ys))
  {
    if ys != [] && less(ys[0], x) {
      InsertSorted(less, x, ys[1..]);
      InsertContents(less, x, ys[1..]);
      var rest := Insert(less, x, ys[1..]);
      forall i | 0 <= i < |rest| ensures !less(rest[i], ys[0]) {
        assert rest[i] == x || rest[i] in ys[1..];
      }
    } else {
      forall j | 0 <= j < |ys| ensures !less(ys[j], x) {
        if j > 0 { assert !less(ys[j], ys[0]) && !less(ys[0], x); }
      }
    }
  }

  /** Sorting sorts and loses nothing. */
  lemma {:induction false} SortSorts<T(!new)>(less: (T, T) -> bool, xs: seq<T>)
    requires StrictWeak(less)
    ensures Sorted(less, Sort(less, xs)) && multiset(Sort(less, xs)) == multiset(xs)
  {
    if xs != [] {
      SortSorts(less, xs[1..]);
      InsertSorted(less, xs[0], Sort(less, xs[1..]));
      InsertContents(less, xs[0], Sort(less, xs[1..]));
      assert xs == [xs[0]] + xs[1..];
    }
  }

  /** The records that sort like `x`, in order. */
  function Alike<T>(less: (T, T) -> bool, xs: seq<T>, x: T): (r: seq<T>) {
    if xs == [] then []
    else if !less(xs[0], x) && !less(x, xs[0]) then [xs[0]] + Alike(less, xs[1..], x)
    else Alike(less, xs[1..], x)
  }

  lemma {:induction false} InsertStable<T(!new)>(less: (T, T) -> bool, x: T, ys: seq<T>, p: T)
    requires StrictWeak(less)
    ensures Alike(less, Insert(less, x, ys), p) == Alike(less, [x] + ys, p)
  {
    if ys != [] && less(ys[0], x) {
      InsertStable(less, x, ys[1..], p);
      assert Insert(less, x, ys)[1..] == Insert(less, x, ys[1..]);
      assert ([x] + ys[1..])[1..] == ys[1..] && ([x] + ys)[1..] == ys;
    }
  }

  /** Sorting is stable. */
  lemma {:induction false} SortStable<T(!new)>(less: (T, T) -> bool, xs: seq<T>, p: T)
    requires StrictWeak(less)
    ensures Alike(less, Sort(less, xs), p) == Alike(less, xs, p)
  {
    if xs != [] {
      SortStable(less, xs[1..], p);
      InsertStable(less, xs[0], Sort(less, xs[1..]), p);
      assert ([xs[0]] + Sort(less, xs[1..]))[1..] == Sort(less, xs[1..]);
    }
  }

  // ---- what deduplication keeps ----

  lemma {:induction false} FirstOfKeep<T, K>(key: T -> K, xs: seq<T>, seen: set<K>, k: K)
    ensures First(key, Keep(key, xs, seen), k) == if k in seen then None else First(key, xs, k)
  {
    if xs != [] {
      var seen' := if key(xs[0]) in seen then seen else seen + {key(xs[0])};
      FirstOfKeep(key, xs[1..], seen', k);
      if key(xs[0]) !in seen {
        assert Keep(key, xs, seen)[1..] == Keep(key, xs[1..], seen');
      }
    }
  }

  lemma {:induction false} FirstSome<T, K>(key: T -> K, xs: seq<T>, i: nat)
    requires i < |xs|
    ensures First(key, xs, key(xs[i])).Some?
  {
    if i > 0 { FirstSome(key, xs[1..], i - 1); }
  }

  lemma {:induction false} FirstIn<T, K>(key: T -> K, xs: seq<T>, k: K)
    requires First(key, xs, k).Some?
    ensures First(key, xs, k).value in xs && key(First(key, xs, k).value) == k
  {
    if key(xs[0]) != k { FirstIn(key, xs[1..], k); }
  }

  lemma {:induction false} FirstOfMember<T, K>(key: T -> K, xs: seq<T>, x: T)
    requires Distinct(key, xs) && x in xs
    ensures First(key, xs, key(x)) == Some(x)
  {
    if key(xs[0]) == key(x) {
      var i :| 0 <= i < |xs| && xs[i] == x;
      assert i == 0;
    } else {
      FirstOfMember(key, xs[1..], x);
    }
  }

  lemma {:induction false} KeepDistinct<T, K>(key: T -> K, xs: seq<T>, seen: set<K>)
    ensures Distinct(key, Keep(key, xs, seen))
    ensures forall i | 0 <= i < |Keep(key, xs, seen)| :: key(Keep(key, xs, seen)[i]) !in seen
    ensures forall x | x in Keep(key, xs, seen) :: x in xs
  {
    if xs != [] {
      KeepDistinct(key, xs[1..], if key(xs[0]) in seen then seen else seen + {key(xs[0])});
    }
  }

  lemma {:induction false} KeepShorter<T, K>(key: T -> K, xs: seq<T>, seen: set<K>)
    ensures |Keep(key, xs, seen)| <= |xs|
  {
    if xs != [] { KeepShorter(key, xs[1..], if key(xs[0]) in seen then seen else seen + {key(xs[0])}); }
  }

  lemma {:induction false} KeepSorted<T(!new), K(!new)>(o: Order<T, K>, xs: seq<T>, seen: set<K>)
    requires Valid(o) && Sorted(o.less, xs)
    ensures StrictlySorted(o.less, Keep(o.key, xs, seen))
  {
    if xs != [] {
      var seen' := if o.key(xs[0]) in seen then seen else seen + {o.key(xs[0])};
      KeepSorted(o, xs[1..], seen');
      KeepDistinct(o.key, xs[1..], seen');
      if o.key(xs[0]) !in seen {
        var rest := Keep(o.key, xs[1..], seen');
        forall i | 0 <= i < |rest| ensures o.less(xs[0], rest[i]) {
          assert rest[i] in xs[1..];
          var j :| 0 <= j < |xs[1..]| && xs[1..][j] == rest[i];
          assert !o.less(xs[j + 1], xs[0]);
        }
      }
    }
  }

  lemma {:induction false} EarliestOfSorted<T, K>(o: Order<T, K>, xs: seq<T>, k: K)
    requires Sorted(o.less, xs)
    ensures Earliest(o, xs, k) == First(o.key, xs, k)
  {
    if xs != [] {
      EarliestOfSorted(o, xs[1..], k);
      if o.key(xs[0]) == k && First(o.key, xs[1..], k).Some? {
        FirstIn(o.key, xs[1..], k);
        var j :| 0 <= j < |xs[1..]| && xs[1..][j] == First(o.key, xs[1..], k).value;
        assert !o.less(xs[j + 1], xs[0]);
      }
    }
  }

  lemma {:induction false} EarliestInsert<T(!new), K(!new)>(o: Order<T, K>, x: T, ys: seq<T>, k: K)
    requires StrictWeak(o.less)
    ensures Earliest(o, Insert(o.less, x, ys), k) == Earliest(o, [x] + ys, k)
  {
    assert ([x] + ys)[1..] == ys;
    if ys != [] && o.less(ys[0], x) {
      EarliestInsert(o, x, ys[1..], k);
      assert Insert(o.less, x, ys)[1..] == Insert(o.less, x, ys[1..]);
      assert ([x] + ys[1..])[1..] == ys[1..];
    }
  }

  lemma {:induction false} EarliestOfSort<T(!new), K(!new)>(o: Order<T, K>, xs: seq<T>, k: K)
    requires StrictWeak(o.less)
    ensures Earliest(o, Sort(o.less, xs), k) == Earliest(o, xs, k)
  {
    if xs != [] {
      EarliestOfSort(o, xs[1..], k);
      EarliestInsert(o, xs[0], Sort(o.less, xs[1..]), k);
      assert ([xs[0]] + Sort(o.less, xs[1..]))[1..] == Sort(o.less, xs[1..]);
    }
  }

  /** Deduplication yields strictly increasing records with distinct keys, and for every key the earliest
      record with it. */
  lemma DedupedKeepsEarliest<T(!new), K(!new)>(o: Order<T, K>, xs: seq<T>)
    requires Valid(o)
    ensures StrictlySorted(o.less, Deduped(o, xs)) && Distinct(o.key, Deduped(o, xs))
    ensures forall k :: First(o.key, Deduped(o, xs), k) == Earliest(o, xs, k)
    ensures forall k :: Earliest(o, Deduped(o, xs), k) == Earliest(o, xs, k)
  {
    var sorted := Sort(o.less, xs);
    SortSorts(o.less, xs);
    KeepSorted(o, sorted, {});
    KeepDistinct(o.key, sorted, {});
    forall k
      ensures First(o.key, Deduped(o, xs), k) == Earliest(o, xs, k)
      ensures Earliest(o, Deduped(o, xs), k) == Earliest(o, xs, k)
    {
      FirstOfKeep(o.key, sorted, {}, k);
      EarliestOfSorted(o, sorted, k);
      EarliestOfSort(o, xs, k);
      StrictIsSorted(o.less, Deduped(o, xs));
      EarliestOfSorted(o, Deduped(o, xs), k);
    }
  }

  lemma StrictIsSorted<T(!new)>(less: (T, T) -> bool, xs: seq<T>)
    requires StrictWeak(less) && StrictlySorted(less, xs)
    ensures Sorted(less, xs)
  {
    forall i, j | 0 <= i < j < |xs| ensures !less(xs[j], xs[i]) {
      assert less(xs[i], xs[j]);
    }
  }

  /** A strictly increasing list with distinct keys is determined by its record for each key. */
  lemma {:induction false} SameFirstSameList<T(!new), K(!new)>(o: Order<T, K>, xs: seq<T>, ys: seq<T>)
    requires StrictWeak(o.less)
    requires StrictlySorted(o.less, xs) && Distinct(o.key, xs)
    requires StrictlySorted(o.less, ys) && Distinct(o.key, ys)
    requires forall k :: First(o.key, xs, k) == First(o.key, ys, k)
    ensures xs == ys
  {
    if xs != [] {
      FirstSome(o.key, xs, 0);
      assert First(o.key, ys, o.key(xs[0])).Some?;
    }
    if ys != [] {
      FirstSome(o.key, ys, 0);
      assert First(o.key, xs, o.key(ys[0])).Some?;
    }
    if xs != [] && ys != [] {
      SameHead(o, xs, ys);
      forall k ensures First(o.key, xs[1..], k) == First(o.key, ys[1..], k) {
        if k == o.key(xs[0]) {
          NoFirst(o.key, xs[1..], k);
          NoFirst(o.key, ys[1..], k);
        } else {
          assert First(o.key, xs, k) == First(o.key, ys, k);
        }
      }
      SameFirstSameList(o, xs[1..], ys[1..]);
      assert xs == [xs[0]] + xs[1..] && ys == [ys[0]] + ys[1..];
    }
  }

  lemma {:induction false} NoFirst<T, K>(key: T -> K, xs: seq<T>, k: K)
    requires forall i | 0 <= i < |xs| :: key(xs[i]) != k
    ensures First(key, xs, k) == None
  {
    if xs != [] { NoFirst(key, xs[1..], k); }
  }

  lemma SameHead<T(!new), K(!new)>(o: Order<T, K>, xs: seq<T>, ys: seq<T>)
    requires StrictWeak(o.less) && xs != [] && ys != []
    requires StrictlySorted(o.less, xs) && StrictlySorted(o.less, ys)
    requires forall k :: First(o.key, xs, k) == First(o.key, ys, k)
    ensures xs[0] == ys[0]
  {
    var x, y := xs[0], ys[0];
    assert First(o.key, ys, o.key(x)) == Some(x) && First(o.key, xs, o.key(y)) == Some(y);
    FirstIn(o.key, ys, o.key(x));
    FirstIn(o.key, xs, o.key(y));
    var i :| 0 <= i < |ys| && ys[i] == x;
    var j :| 0 <= j < |xs| && xs[j] == y;
    assert i > 0 ==> o.less(y, x);
    assert j > 0 ==> o.less(x, y);
  }

  ghost predicate SameEarliest<T(!new), K(!new)>(o: Order<T, K>, xs: seq<T>, ys: seq<T>) {
    forall k :: Earliest(o, xs, k) == Earliest(o, ys, k)
  }

  /** Deduplication is determined by the earliest record of each key, and determines it. */
  lemma SameEarliestSameDeduped<T(!new), K(!new)>(o: Order<T, K>, xs: seq<T>, ys: seq<T>)
    requires Valid(o)
    ensures Deduped(o, xs) == Deduped(o, ys) <==> SameEarliest(o, xs, ys)
  {
    DedupedKeepsEarliest(o, xs);
    DedupedKeepsEarliest(o, ys);
    if SameEarliest(o, xs, ys) {
      forall k ensures First(o.key, Deduped(o, xs), k) == First(o.key, Deduped(o, ys), k) {
        assert Earliest(o, xs, k) == Earliest(o, ys, k);
      }
      SameFirstSameList(o, Deduped(o, xs), Deduped(o, ys));
    }
  }

  // ---- algebra ----

  lemma {:induction false} EarliestConcat<T(!new), K(!new)>(o: Order<T, K>, xs: seq<T>, ys: seq<T>, k: K)
    requires StrictWeak(o.less)
    ensures Earliest(o, xs + ys, k) == Pick(o.less, Earliest(o, xs, k), Earliest(o, ys, k))
  {
    if xs == [] {
      assert xs + ys == ys;
    } else {
      assert (xs + ys)[1..] == xs[1..] + ys;
      EarliestConcat(o, xs[1..], ys, k);
    }
  }

  /** Two caches can be deduplicated separately and merged. */
  lemma DedupedConcat<T(!new), K(!new)>(o: Order<T, K>, xs: seq<T>, ys: seq<T>)
    requires Valid(o)
    ensures Deduped(o, xs + ys) == Deduped(o, Deduped(o, xs) + Deduped(o, ys))
  {
    DedupedKeepsEarliest(o, xs);
    DedupedKeepsEarliest(o, ys);
    forall k ensures Earliest(o, xs + ys, k) == Earliest(o, Deduped(o, xs) + Deduped(o, ys), k) {
      EarliestConcat(o, xs, ys, k);
      EarliestConcat(o, Deduped(o, xs), Deduped(o, ys), k);
    }
    SameEarliestSameDeduped(o, xs + ys, Deduped(o, xs) + Deduped(o, ys));
  }

  lemma {:induction false} EarliestIsLeast<T(!new), K(!new)>(o: Order<T, K>, xs: seq<T>, k: K)
    requires StrictWeak(o.less)
    ensures match Earliest(o, xs, k)
      case None => forall x | x in xs :: o.key(x) != k
      case Some(e) => e in xs && o.key(e) == k && forall x | x in xs && o.key(x) == k :: !o.less(x, e)
  {
    if xs != [] {
      EarliestIsLeast(o, xs[1..], k);
      assert forall x :: x in xs <==> x == xs[0] || x in xs[1..];
    }
  }

  /** Input order and repetition do not matter as long as records that sort alike are the same record. */
  lemma DedupedIgnoresOrder<T(!new), K(!new)>(o: Order<T, K>, xs: seq<T>, ys: seq<T>)
    requires Valid(o)
    requires forall x :: x in xs <==> x in ys
    requires forall x, y | x in xs && y in xs && !o.less(x, y) && !o.less(y, x) :: x == y
    ensures Deduped(o, xs) == Deduped(o, ys)
  {
    forall k ensures Earliest(o, xs, k) == Earliest(o, ys, k) {
      EarliestIsLeast(o, xs, k);
      EarliestIsLeast(o, ys, k);
    }
    SameEarliestSameDeduped(o, xs, ys);
  }

  /** Records sharing a key are all the same record: then deduplication keeps exactly the input's records. */
  lemma DedupedSet<T(!new), K(!new)>(o: Order<T, K>, xs: seq<T>)
    requires Valid(o)
    requires forall x, y | x in xs && y in xs && o.key(x) == o.key(y) :: x == y
    ensures forall x :: x in Deduped(o, xs) <==> x in xs
  {
    DedupedKeepsEarliest(o, xs);
    forall x ensures x in Deduped(o, xs) <==> x in xs {
      var k := o.key(x);
      EarliestIsLeast(o, xs, k);
      if x in xs {
        assert First(o.key, Deduped(o, xs), k) == Some(x);
        FirstIn(o.key, Deduped(o, xs), k);
      }
      if x in Deduped(o, xs) {
        SortSorts(o.less, xs);
        KeepDistinct(o.key, Sort(o.less, xs), {});
        assert x in multiset(Sort(o.less, xs)) && x in multiset(xs);
      }
    }
  }

  /** No event sorts strictly before the cached record it would duplicate. */
  ghost predicate NoneEarlier<T(!new), K(!new)>(o: Order<T, K>, cached: seq<T>, events: seq<T>) {
    forall y | y in events :: Earliest(o, cached, o.key(y)).Some? ==> !o.less(y, Earliest(o, cached, o.key(y)).value)
  }

  /** Appending only the records with unknown keys and loading the cache is merging the events into the
      loaded cache, exactly when none of them sorts before the cached record with its key. */
  lemma AppendThenLoad<T(!new), K(!new)>(o: Order<T, K>, cached: seq<T>, events: seq<T>)
    requires Valid(o)
    ensures Deduped(o, cached + Keep(o.key, Sort(o.less, events), KeySet(o.key, cached)))
        == Deduped(o, Deduped(o, cached) + events)
      <==> NoneEarlier(o, cached, events)
  {
    var appended := Keep(o.key, Sort(o.less, events), KeySet(o.key, cached));
    var merged := Deduped(o, cached) + events;
    DedupedKeepsEarliest(o, cached);
    SameEarliestSameDeduped(o, cached + appended, merged);
    forall k
      ensures Earliest(o, cached + appended, k) == Earliest(o, merged, k) <==> NotEarlierAt(o, cached, events, k)
    {
      EarliestConcat(o, cached, appended, k);
      EarliestConcat(o, Deduped(o, cached), events, k);
      EarliestOfAppended(o, cached, events, k);
      PickCached(o, cached, events, k);
    }
    NoneEarlierPointwise(o, cached, events);
  }

  ghost predicate NotEarlierAt<T(!new), K(!new)>(o: Order<T, K>, cached: seq<T>, events: seq<T>, k: K) {
    var c, e := Earliest(o, cached, k), Earliest(o, events, k);
    c.Some? && e.Some? ==> !o.less(e.value, c.value)
  }

  lemma PickCached<T(!new), K(!new)>(o: Order<T, K>, cached: seq<T>, events: seq<T>, k: K)
    requires Valid(o)
    ensures var c, e := Earliest(o, cached, k), Earliest(o, events, k);
      Pick(o.less, c, e) == (if c.Some? then c else e) <==> NotEarlierAt(o, cached, events, k)
  {
    var c, e := Earliest(o, cached, k), Earliest(o, events, k);
    assert c.Some? ==> !o.less(c.value, c.value);
  }

  lemma NoneEarlierPointwise<T(!new), K(!new)>(o: Order<T, K>, cached: seq<T>, events: seq<T>)
    requires Valid(o)
    ensures NoneEarlier(o, cached, events) <==> forall k :: NotEarlierAt(o, cached, events, k)
  {
    forall k ensures NoneEarlier(o, cached, events) ==> NotEarlierAt(o, cached, events, k) {
      EarliestIsLeast(o, events, k);
    }
    if forall k :: NotEarlierAt(o, cached, events, k) {
      forall y | y in events && Earliest(o, cached, o.key(y)).Some?
        ensures !o.less(y, Earliest(o, cached, o.key(y)).value)
      {
        assert NotEarlierAt(o, cached, events, o.key(y));
        EarliestIsLeast(o, events, o.key(y));
      }
    }
  }

  lemma EarliestOfAppended<T(!new), K(!new)>(o: Order<T, K>, cached: seq<T>, events: seq<T>, k: K)
    requires Valid(o)
    ensures Earliest(o, Keep(o.key, Sort(o.less, events), KeySet(o.key, cached)), k)
      == if Earliest(o, cached, k).Some? then None else Earliest(o, events, k)
  {
    var seen, sorted := KeySet(o.key, cached), Sort(o.less, events);
    SortSorts(o.less, events);
    KeepSorted(o, sorted, seen);
    StrictIsSorted(o.less, Keep(o.key, sorted, seen));
    EarliestOfSorted(o, Keep(o.key, sorted, seen), k);
    FirstOfKeep(o.key, sorted, seen, k);
    EarliestOfSorted(o, sorted, k);
    EarliestOfSort(o, events, k);
    EarliestIsLeast(o, cached, k);
  }
}
