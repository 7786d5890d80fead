/** Sequence operations shared by the record tables: the first-match search
    that the storage and the server write as `for ... in enumerate(...)`
    loops, the key list of a comprehension `[x.id for x in xs]`, Python's
    prefix slice `xs[:limit]`, and the stable descending sort
    `xs.sort(key=..., reverse=True)`. */
module Tables {
  import opened Base

  /** Index of the first element of `s` whose key is `k`, if any. */
  function IndexOf<T, K(==)>(s: seq<T>, key: T -> K, k: K): (r: Option<nat>)
    ensures r.None? <==> forall i :: 0 <= i < |s| ==> key(s[i]) != k
    ensures r.Some? ==> r.value < |s| && key(s[r.value]) == k
    ensures r.Some? ==> forall i :: 0 <= i < r.value ==> key(s[i]) != k
  {
    if |s| == 0 then None
    else if key(s[0]) == k then Some(0)
    else match IndexOf(s[1..], key, k)
      case None => None
      case Some(j) => Some(j + 1)
  }

  /** The first element of `s` whose key is `k`, if any. */
  function Lookup<T, K(==)>(s: seq<T>, key: T -> K, k: K): (r: Option<T>)
    ensures r.None? <==> forall i :: 0 <= i < |s| ==> key(s[i]) != k
    ensures r.Some? ==> exists i :: 0 <= i < |s| && s[i] == r.value && key(s[i]) == k
                                    && forall j :: 0 <= j < i ==> key(s[j]) != k
    ensures r.Some? <==> IndexOf(s, key, k).Some?
    ensures r.Some? ==> r.value == s[IndexOf(s, key, k).value]
  {
    match IndexOf(s, key, k)
    case None => None
    case Some(i) => Some(s[i])
  }

  /** The search loop: walks `s` from the front and stops at the first match. */
  method FindFirst<T, K(==)>(s: seq<T>, key: T -> K, k: K) returns (r: Option<nat>)
    ensures r == IndexOf(s, key, k)
  {
    for i := 0 to |s|
      invariant forall j :: 0 <= j < i ==> key(s[j]) != k
    {
      if key(s[i]) == k {
        return Some(i);
      }
    }
    return None;
  }

  /** `[key(x) for x in s]`. */
  function KeysOf<T, K>(s: seq<T>, key: T -> K): (r: seq<K>)
    ensures |r| == |s|
    ensures forall i :: 0 <= i < |s| ==> r[i] == key(s[i])
  {
    if s == [] then [] else [key(s[0])] + KeysOf(s[1..], key)
  }

  /** `[f(x) for x in s]` where `f` may raise: every element converted, or the
      error of the first element that fails. */
  function Traverse<T, U, E>(s: seq<T>, f: T -> Result<U, E>): (r: Result<seq<U>, E>)
    ensures r.Ok? <==> forall i :: 0 <= i < |s| ==> f(s[i]).Ok?
    ensures r.Ok? ==> |r.value| == |s| && forall i :: 0 <= i < |s| ==> r.value[i] == f(s[i]).value
    ensures r.Err? ==> exists i :: 0 <= i < |s| && f(s[i]) == Err(r.error)
                                   && forall j :: 0 <= j < i ==> f(s[j]).Ok?
  {
    if s == [] then Ok([])
    else match f(s[0])
      case Err(e) => Err(e)
      case Ok(x) =>
        match Traverse(s[1..], f)
        case Err(e) =>
          ghost var i :| 0 <= i < |s[1..]| && f(s[1..][i]) == Err(e) && forall j :: 0 <= j < i ==> f(s[1..][j]).Ok?;
          assert f(s[i + 1]) == Err(e);
          Err(e)
        case Ok(rest) => Ok([x] + rest)
  }

  /** Converting elements that each convert to themselves gives the sequence back. */
  lemma TraverseIdentity<T, E>(s: seq<T>, f: T -> Result<T, E>)
    requires forall i :: 0 <= i < |s| ==> f(s[i]) == Ok(s[i])
    ensures Traverse(s, f) == Ok(s)
  {
    var r := Traverse(s, f);
    assert r.Ok?;
    assert forall i :: 0 <= i < |s| ==> r.value[i] == s[i];
    assert r.value == s;
  }

  /** `s[:limit]`: a prefix of `s`; a non-negative limit keeps at most `limit`
      elements, a negative one drops `-limit` elements from the end. */
  function SlicePrefix<T>(s: seq<T>, limit: int): (r: seq<T>)
    ensures |r| <= |s| && r == s[..|r|]
    ensures 0 <= limit ==> |r| == (if limit <= |s| then limit else |s|)
    ensures limit < 0 ==> |r| == (if 0 <= |s| + limit then |s| + limit else 0)
  {
    if 0 <= limit then (if limit <= |s| then s[..limit] else s)
    else if 0 <= |s| + limit then s[..|s| + limit]
    else []
  }

  /** Keys never increase from left to right. */
  predicate SortedDesc<T>(s: seq<T>, key: T -> int) {
    forall i, j :: 0 <= i < j < |s| ==> key(s[i]) >= key(s[j])
  }

  /** Inserts `x` in front of the first element whose key is not larger, so
      that elements with equal keys keep their relative order. */
  function InsertDesc<T>(x: T, s: seq<T>, key: T -> int): seq<T> {
    if s == [] || key(s[0]) <= key(x) then [x] + s
    else [s[0]] + InsertDesc(x, s[1..], key)
  }

  /** Stable sort into descending key order (insertion sort). */
  function SortDesc<T>(s: seq<T>, key: T -> int): seq<T> {
    if s == [] then [] else InsertDesc(s[0], SortDesc(s[1..], key), key)
  }

  lemma {:induction false} InsertDescPermutes<T>(x: T, s: seq<T>, key: T -> int)
    ensures multiset(InsertDesc(x, s, key)) == multiset(s) + multiset{x}
  {
    if s != [] && key(s[0]) > key(x) {
      InsertDescPermutes(x, s[1..], key);
      assert s == [s[0]] + s[1..];
    }
  }

  lemma {:induction false} InsertDescSorted<T>(x: T, s: seq<T>, key: T -> int)
    requires SortedDesc(s, key)
    ensures SortedDesc(InsertDesc(x, s, key), key)
  {
    if s != [] && key(s[0]) > key(x) {
      var rest := InsertDesc(x, s[1..], key);
      InsertDescSorted(x, s[1..], key);
      InsertDescPermutes(x, s[1..], key);
      forall j | 0 <= j < |rest|
        ensures key(s[0]) >= key(rest[j])
      {
        assert rest[j] in multiset(rest);
        if rest[j] != x {
          assert rest[j] in s[1..];
        }
      }
    }
  }

  /** Sorting yields the same elements in descending key order. */
  lemma {:induction false} SortDescCorrect<T>(s: seq<T>, key: T -> int)
    ensures multiset(SortDesc(s, key)) == multiset(s)
    ensures SortedDesc(SortDesc(s, key), key)
  {
    if s != [] {
      SortDescCorrect(s[1..], key);
      InsertDescPermutes(s[0], SortDesc(s[1..], key), key);
      InsertDescSorted(s[0], SortDesc(s[1..], key), key);
      assert s == [s[0]] + s[1..];
    }
  }
}
