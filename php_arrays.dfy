/** PHP array operations the package relies on: `array_filter` and first-match
    search over lists, and string-keyed ordered arrays (`$a[$k] = $v`, `unset($a[$k])`),
    whose keys keep their insertion order. */
module PhpArrays {
  import opened PhpValues

  /** `array_filter($s, $p)` read as a list: the elements satisfying `p`, in order. */
  function Filter<T(!new)>(s: seq<T>, p: T -> bool): (r: seq<T>)
    ensures |r| <= |s|
  {
    if s == [] then []
    else if p(s[0]) then [s[0]] + Filter(s[1..], p)
    else Filter(s[1..], p)
  }

  /** The elements of a filter are exactly the elements of the input that satisfy `p`. */
  lemma {:induction false} FilterMembers<T(!new)>(s: seq<T>, p: T -> bool)
    ensures forall x :: x in Filter(s, p) <==> x in s && p(x)
  {
    if s != [] {
      FilterMembers(s[1..], p);
      assert s == [s[0]] + s[1..];
    }
  }

  /** Filtering distributes over concatenation, so it keeps the relative order of elements. */
  lemma {:induction false} FilterConcat<T(!new)>(a: seq<T>, b: seq<T>, p: T -> bool)
    ensures Filter(a + b, p) == Filter(a, p) + Filter(b, p)
  {
    if a == [] {
      assert a + b == b;
    } else {
      assert (a + b)[0] == a[0];
      assert (a + b)[1..] == a[1..] + b;
      FilterConcat(a[1..], b, p);
    }
  }

  /** `r` can be obtained from `s` by deleting elements, keeping the order of the rest. */
  ghost predicate IsSubsequence<T>(r: seq<T>, s: seq<T>)
    decreases |s|
  {
    if r == [] then true
    else if s == [] then false
    else (r[0] == s[0] && IsSubsequence(r[1..], s[1..])) || IsSubsequence(r, s[1..])
  }

  /** The number of positions of `s` whose element satisfies `p`. */
  function CountWhere<T>(s: seq<T>, p: T -> bool): nat {
    if s == [] then 0 else (if p(s[0]) then 1 else 0) + CountWhere(s[1..], p)
  }

  /** A filter is an order-preserving subsequence of its input made of elements that
      satisfy `p`, one for every position that satisfies `p`; these three facts
      determine it. */
  lemma {:induction false} FilterIsSubsequence<T(!new)>(s: seq<T>, p: T -> bool)
    ensures IsSubsequence(Filter(s, p), s)
    ensures forall k :: 0 <= k < |Filter(s, p)| ==> p(Filter(s, p)[k])
    ensures |Filter(s, p)| == CountWhere(s, p)
  {
    if s != [] {
      FilterIsSubsequence(s[1..], p);
      var f := Filter(s[1..], p);
      if p(s[0]) {
        assert Filter(s, p) == [s[0]] + f;
        assert Filter(s, p)[1..] == f;
      }
    }
  }

  /** Counting distributes over concatenation. */
  lemma {:induction false} CountWhereConcat<T>(a: seq<T>, b: seq<T>, p: T -> bool)
    ensures CountWhere(a + b, p) == CountWhere(a, p) + CountWhere(b, p)
  {
    if a == [] {
      assert a + b == b;
    } else {
      assert (a + b)[1..] == a[1..] + b;
      CountWhereConcat(a[1..], b, p);
    }
  }

  /** The position of the first element satisfying `p`, if any (`Collection::first` / `Arr::first`). */
  function FirstMatch<T>(s: seq<T>, p: T -> bool): (r: Option<nat>)
    ensures r.Some? ==> r.value < |s| && p(s[r.value])
    ensures r.Some? ==> forall j :: 0 <= j < r.value ==> !p(s[j])
    ensures r.None? ==> forall j :: 0 <= j < |s| ==> !p(s[j])
  {
    if s == [] then None
    else if p(s[0]) then Some(0)
    else match FirstMatch(s[1..], p)
      case None => None
      case Some(i) => Some(i + 1)
  }

  /** The first match is determined by where `p` first holds. */
  lemma {:induction false} FirstMatchAt<T>(s: seq<T>, p: T -> bool, i: nat)
    requires i < |s| && p(s[i])
    requires forall j :: 0 <= j < i ==> !p(s[j])
    ensures FirstMatch(s, p) == Some(i)
  {
    if i > 0 {
      assert forall j :: 0 <= j < i - 1 ==> s[1..][j] == s[j + 1];
      FirstMatchAt(s[1..], p, i - 1);
    }
  }

  /** Nothing matches exactly when no position is counted. */
  lemma {:induction false} CountWhereZero<T>(s: seq<T>, p: T -> bool)
    ensures CountWhere(s, p) == 0 <==> FirstMatch(s, p).None?
  {
    if s != [] {
      CountWhereZero(s[1..], p);
    }
  }

  /** `array_shift(array_filter($s, $p))` is the first match: the filter is empty
      exactly when nothing matches, and otherwise starts with the first match. */
  lemma {:induction false} FilterHeadIsFirstMatch<T(!new)>(s: seq<T>, p: T -> bool)
    ensures Filter(s, p) == [] <==> FirstMatch(s, p).None?
    ensures FirstMatch(s, p).Some? ==> Filter(s, p)[0] == s[FirstMatch(s, p).value]
  {
    if s != [] && !p(s[0]) {
      FilterHeadIsFirstMatch(s[1..], p);
    }
  }

  /** Filters by two tests that agree on every element are equal. */
  lemma {:induction false} FilterCongruent<T(!new)>(s: seq<T>, p: T -> bool, q: T -> bool)
    requires forall x :: x in s ==> p(x) == q(x)
    ensures Filter(s, p) == Filter(s, q)
  {
    if s != [] {
      assert forall x :: x in s[1..] ==> x in s;
      FilterCongruent(s[1..], p, q);
    }
  }

  /** The first element satisfying `p`, if any (`Collection::first($callback)`). */
  function First<T>(s: seq<T>, p: T -> bool): (r: Option<T>)
    ensures r.None? <==> FirstMatch(s, p).None?
    ensures r.Some? ==> r.value == s[FirstMatch(s, p).value]
  {
    match FirstMatch(s, p)
    case None => None
    case Some(i) => Some(s[i])
  }

  /** A filter whose predicate holds of every element is the identity. */
  lemma {:induction false} FilterAll<T(!new)>(s: seq<T>, p: T -> bool)
    requires forall x :: x in s ==> p(x)
    ensures Filter(s, p) == s
  {
    if s != [] {
      assert forall x :: x in s[1..] ==> x in s;
      FilterAll(s[1..], p);
    }
  }

  // ----- string-keyed ordered arrays -----

  /** A PHP array with string keys, as its entries in insertion order. */
  type OrderedArray<V> = seq<(string, V)>

  /** `array_keys($a)`. */
  function Keys<V>(a: OrderedArray<V>): (r: seq<string>)
    ensures |r| == |a|
    ensures forall i :: 0 <= i < |a| ==> r[i] == a[i].0
  {
    if a == [] then [] else [a[0].0] + Keys(a[1..])
  }

  /** Every key occurs once, as in any PHP array. */
  ghost predicate DistinctKeys<V>(a: OrderedArray<V>) {
    forall i, j :: 0 <= i < j < |a| ==> a[i].0 != a[j].0
  }

  /** The position of key `k`, if present. */
  function IndexOfKey<V>(a: OrderedArray<V>, k: string): (r: Option<nat>)
    ensures r.Some? ==> r.value < |a| && a[r.value].0 == k
    ensures r.Some? ==> forall j :: 0 <= j < r.value ==> a[j].0 != k
    ensures r.None? ==> forall j :: 0 <= j < |a| ==> a[j].0 != k
  {
    if a == [] then None
    else if a[0].0 == k then Some(0)
    else match IndexOfKey(a[1..], k)
      case None => None
      case Some(i) => Some(i + 1)
  }

  /** `$a[$k] ?? null`. */
  function Get<V>(a: OrderedArray<V>, k: string): Option<V> {
    match IndexOfKey(a, k)
    case None => None
    case Some(i) => Some(a[i].1)
  }

  /** `$a[$k] = $v`: an existing key keeps its position and takes the new value;
      a new key is appended. */
  function Put<V>(a: OrderedArray<V>, k: string, v: V): (r: OrderedArray<V>)
    ensures IndexOfKey(a, k).Some? ==>
      var i := IndexOfKey(a, k).value;
      r == a[..i] + [(k, v)] + a[i + 1..]
    ensures IndexOfKey(a, k).None? ==> r == a + [(k, v)]
  {
    if a == [] then [(k, v)]
    else if a[0].0 == k then [(k, v)] + a[1..]
    else
      var rest := Put(a[1..], k, v);
      assert IndexOfKey(a[1..], k).Some? ==>
        var i := IndexOfKey(a[1..], k).value;
        [a[0]] + (a[1..][..i] + [(k, v)] + a[1..][i + 1..]) == a[..i + 1] + [(k, v)] + a[i + 2..];
      assert [a[0]] + (a[1..] + [(k, v)]) == a + [(k, v)];
      [a[0]] + rest
  }

  /** The first position of a key is determined by where it occurs. */
  lemma IndexOfKeyAt<V>(a: OrderedArray<V>, k: string, i: nat)
    requires i < |a| && a[i].0 == k
    requires forall j :: 0 <= j < i ==> a[j].0 != k
    ensures IndexOfKey(a, k) == Some(i)
  {
  }

  /** Where `$a[$k] = $v` writes: the old position of `k`, or the end. */
  lemma PutAt<V>(a: OrderedArray<V>, k: string, v: V) returns (pos: nat)
    ensures pos <= |a| && |Put(a, k, v)| == (if pos < |a| then |a| else |a| + 1)
    ensures Put(a, k, v)[pos] == (k, v)
    ensures forall j :: 0 <= j < |a| && j != pos ==> Put(a, k, v)[j] == a[j]
    ensures forall j :: 0 <= j < pos && j < |a| ==> a[j].0 != k
    ensures pos < |a| ==> a[pos].0 == k
  {
    var r := Put(a, k, v);
    match IndexOfKey(a, k)
    case None =>
      pos := |a|;
      assert r == a + [(k, v)];
    case Some(i) =>
      pos := i;
      assert r == a[..i] + [(k, v)] + a[i + 1..];
  }

  /** The first entry decides a lookup of its own key. */
  lemma GetHead<V>(a: OrderedArray<V>, k: string)
    requires a != [] && a[0].0 == k
    ensures Get(a, k) == Some(a[0].1)
  {
  }

  /** A lookup of another key skips the first entry. */
  lemma GetTail<V>(a: OrderedArray<V>, k: string)
    requires a != [] && a[0].0 != k
    ensures Get(a, k) == Get(a[1..], k)
  {
    match IndexOfKey(a[1..], k)
    case None =>
    case Some(i) => assert a[1..][i] == a[i + 1];
  }

  /** After `$a[$k] = $v`, key `k` reads `v` and every other key reads as before. */
  lemma PutGet<V>(a: OrderedArray<V>, k: string, v: V)
    ensures Get(Put(a, k, v), k) == Some(v)
    ensures forall k' :: k' != k ==> Get(Put(a, k, v), k') == Get(a, k')
  {
    var r := Put(a, k, v);
    var pos := PutAt(a, k, v);
    IndexOfKeyAt(r, k, pos);
    forall k' | k' != k ensures Get(r, k') == Get(a, k') {
      match IndexOfKey(a, k')
      case None =>
        assert forall j :: 0 <= j < |r| ==> r[j].0 != k';
      case Some(j) =>
        IndexOfKeyAt(r, k', j);
    }
  }

  /** `$a[$k] = $v` keeps the keys in order, appending `k` only when it is new. */
  lemma PutKeys<V>(a: OrderedArray<V>, k: string, v: V)
    ensures Keys(Put(a, k, v)) == if k in Keys(a) then Keys(a) else Keys(a) + [k]
  {
    var r := Put(a, k, v);
    var pos := PutAt(a, k, v);
    var ka, kr := Keys(a), Keys(r);
    if pos < |a| {
      assert ka[pos] == k;
      forall j | 0 <= j < |kr|
        ensures kr[j] == ka[j]
      {
        if j != pos {
          assert r[j] == a[j];
        }
      }
      assert kr == ka;
    } else {
      forall j | 0 <= j < |ka|
        ensures ka[j] != k
      {
      }
      assert k !in ka;
      forall j | 0 <= j < |kr|
        ensures kr[j] == (ka + [k])[j]
      {
        if j < |a| {
          assert r[j] == a[j];
        }
      }
      assert kr == ka + [k];
    }
  }

  /** `$a[$k] = $v` keeps the keys distinct. */
  lemma PutDistinct<V>(a: OrderedArray<V>, k: string, v: V)
    ensures DistinctKeys(a) ==> DistinctKeys(Put(a, k, v))
  {
    if DistinctKeys(a) {
      var r := Put(a, k, v);
      var pos := PutAt(a, k, v);
      forall i, j | 0 <= i < j < |r|
        ensures r[i].0 != r[j].0
      {
        assert i < |a|;
        assert r[i].0 == a[i].0;
        if j < |a| {
          assert r[j].0 == a[j].0;
        } else {
          assert j == pos && r[j].0 == k;
        }
      }
    }
  }

  /** `unset($a[$k])`: removes the key and keeps the order of the others. */
  function Unset<V(!new)>(a: OrderedArray<V>, k: string): (r: OrderedArray<V>)
    ensures forall e :: e in r <==> e in a && e.0 != k
    ensures DistinctKeys(a) ==> DistinctKeys(r)
  {
    if a == [] then []
    else
      var rest := Unset(a[1..], k);
      if a[0].0 == k then rest
      else
        var r := [a[0]] + rest;
        assert forall e :: e in rest ==> e in a[1..];
        assert DistinctKeys(a) ==> forall e :: e in a[1..] ==> e.0 != a[0].0;
        r
  }

  /** After `unset($a[$k])` key `k` is absent and every other key reads as before. */
  lemma {:induction false} UnsetGet<V(!new)>(a: OrderedArray<V>, k: string, k': string)
    ensures Get(Unset(a, k), k) == None
    ensures k' != k ==> Get(Unset(a, k), k') == Get(a, k')
  {
    if a != [] {
      UnsetGet(a[1..], k, k');
      var rest := Unset(a[1..], k);
      if a[0].0 == k {
        assert Unset(a, k) == rest;
        if k' != k {
          GetTail(a, k');
        }
      } else {
        var u := [a[0]] + rest;
        assert Unset(a, k) == u;
        assert u[0] == a[0] && u[1..] == rest;
        GetTail(u, k);
        if k' == a[0].0 {
          GetHead(u, k');
          GetHead(a, k');
        } else {
          GetTail(u, k');
          GetTail(a, k');
        }
      }
    }
  }

  /** Unsetting the first key of an array with distinct keys drops its first entry. */
  lemma {:induction false} UnsetFirst<V(!new)>(a: OrderedArray<V>)
    requires a != [] && DistinctKeys(a)
    ensures Unset(a, a[0].0) == a[1..]
  {
    UnsetAbsent(a[1..], a[0].0);
  }

  /** Unsetting a key that is absent changes nothing. */
  lemma {:induction false} UnsetAbsent<V(!new)>(a: OrderedArray<V>, k: string)
    requires forall i :: 0 <= i < |a| ==> a[i].0 != k
    ensures Unset(a, k) == a
  {
    if a != [] {
      UnsetAbsent(a[1..], k);
    }
  }
}
