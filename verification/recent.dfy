/** `ORDER BY <key> DESC LIMIT n` over a table, for a text-valued key
    compared the way SQLite compares TEXT. SQLite leaves the relative order
    of rows with equal keys unspecified; the contracts below say nothing
    about it, and the insertion sort used here happens to keep such rows in
    table order. */
module Recent {
  import Text

  /** Keys never increase from left to right: newest first. */
  predicate SortedDesc<T>(xs: seq<T>, key: T -> string) {
    forall i, j :: 0 <= i < j < |xs| ==> Text.LexLe(key(xs[j]), key(xs[i]))
  }

  function Min(a: nat, b: nat): nat {
    if a <= b then a else b
  }

  /** Places `x` in front of the first element whose key is not greater. */
  function Insert<T>(x: T, xs: seq<T>, key: T -> string): (r: seq<T>)
    requires SortedDesc(xs, key)
    ensures SortedDesc(r, key)
    ensures multiset(r) == multiset(xs) + multiset{x}
  {
    if |xs| == 0 then [x]
    else if Text.LexLe(key(xs[0]), key(x)) then
      forall j | 0 <= j < |xs| ensures Text.LexLe(key(xs[j]), key(x)) {
        if j > 0 {
          Text.LexLeTrans(key(xs[j]), key(xs[0]), key(x));
        }
      }
      [x] + xs
    else
      Text.LexLeTotal(key(xs[0]), key(x));
      var rest := Insert(x, xs[1..], key);
      assert xs == [xs[0]] + xs[1..];
      forall j | 0 <= j < |rest| ensures Text.LexLe(key(rest[j]), key(xs[0])) {
        assert rest[j] in multiset(rest);
        if rest[j] != x {
          assert rest[j] in multiset(xs[1..]);
          var k :| 0 <= k < |xs[1..]| && xs[1..][k] == rest[j];
          assert xs[k + 1] == rest[j];
        }
      }
      [xs[0]] + rest
  }

  /** A newest-first permutation of `xs`. */
  function Sort<T>(xs: seq<T>, key: T -> string): (r: seq<T>)
    ensures SortedDesc(r, key)
    ensures multiset(r) == multiset(xs)
  {
    if |xs| == 0 then []
    else
      assert xs == [xs[0]] + xs[1..];
      Insert(xs[0], Sort(xs[1..], key), key)
  }

  /** Every row dropped from a newest-first list by keeping its first `m`
      rows is no newer than any row kept. */
  lemma PrefixIsNewest<T>(sorted: seq<T>, key: T -> string, m: nat)
    requires SortedDesc(sorted, key) && m <= |sorted|
    ensures forall x | x in multiset(sorted) - multiset(sorted[..m]) ::
              forall i | 0 <= i < m :: Text.LexLe(key(x), key(sorted[i]))
  {
    assert sorted == sorted[..m] + sorted[m..];
    assert multiset(sorted) - multiset(sorted[..m]) == multiset(sorted[m..]);
    forall x | x in multiset(sorted[m..])
      ensures forall i | 0 <= i < m :: Text.LexLe(key(x), key(sorted[i]))
    {
      var k :| 0 <= k < |sorted[m..]| && sorted[m..][k] == x;
      assert sorted[m + k] == x;
    }
  }

  /** The first `n` rows of `xs` in descending key order. */
  function Newest<T>(xs: seq<T>, key: T -> string, n: nat): (r: seq<T>)
    ensures |r| == Min(n, |xs|)
    ensures SortedDesc(r, key)
    ensures multiset(r) <= multiset(xs)
    ensures forall x | x in multiset(xs) - multiset(r) ::
              forall i | 0 <= i < |r| :: Text.LexLe(key(x), key(r[i]))
  {
    var sorted := Sort(xs, key);
    assert |sorted| == |multiset(sorted)| == |xs|;
    var m := Min(n, |xs|);
    PrefixIsNewest(sorted, key, m);
    assert sorted == sorted[..m] + sorted[m..];
    sorted[..m]
  }

  /** A row strictly newer than every other row of the table heads the
      result. */
  lemma LatestComesFirst<T>(xs: seq<T>, key: T -> string, n: nat)
    requires n >= 1 && |xs| >= 1
    requires forall k :: 0 <= k < |xs| - 1 ==>
               Text.LexLe(key(xs[k]), key(xs[|xs| - 1])) && key(xs[k]) != key(xs[|xs| - 1])
    ensures Newest(xs, key, n)[0] == xs[|xs| - 1]
  {
    var r := Newest(xs, key, n);
    var x := xs[|xs| - 1];
    var p0 := r[0];
    assert p0 in multiset(r);
    if p0 != x {
      assert p0 in multiset(xs);
      var k :| 0 <= k < |xs| && xs[k] == p0;
      assert k < |xs| - 1;
      assert x in multiset(xs);
      if x in multiset(r) {
        var j :| 0 <= j < |r| && r[j] == x;
        assert Text.LexLe(key(x), key(p0));
      } else {
        assert x in multiset(xs) - multiset(r);
      }
      Text.LexLeAntisym(key(x), key(p0));
      assert false;
    }
  }
}
