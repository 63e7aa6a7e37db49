/**
 * The list operations an in-memory table is built from: the LINQ queries the
 * adapter lambdas run over an `IList<T>` (`Any`/`Max`, `FirstOrDefault`,
 * `Where`) and `List<T>.Remove`. Every function takes the record's identity
 * (or foreign key) as a named `key` function, so one definition serves the
 * Contacts, Names, Addresses and Phones lists alike.
 */
module Table {
  import opened Wrappers

  /** `s.Max(key)`: the largest key of a non-empty list. */
  function MaxKey<T>(s: seq<T>, key: T -> int): (m: int)
    requires |s| > 0
    ensures forall i :: 0 <= i < |s| ==> key(s[i]) <= m
    ensures exists i :: 0 <= i < |s| && key(s[i]) == m
  {
    if |s| == 1 then key(s[0])
    else
      var rest := MaxKey(s[1..], key);
      if key(s[0]) >= rest then key(s[0])
      else
        assert exists i :: 1 <= i < |s| && key(s[i]) == rest by {
          var j :| 0 <= j < |s[1..]| && key(s[1..][j]) == rest;
          assert key(s[j + 1]) == rest;
        }
        rest
  }

  /** The identity a create assigns: `(s.Any() ? s.Max(key) : 0) + 1`. */
  function NextKey<T>(s: seq<T>, key: T -> int): (r: int)
    ensures forall i :: 0 <= i < |s| ==> key(s[i]) < r
    ensures |s| == 0 ==> r == 1
    ensures |s| > 0 ==> exists i :: 0 <= i < |s| && key(s[i]) == r - 1
  {
    (if |s| > 0 then MaxKey(s, key) else 0) + 1
  }

  /** No two records of the list share a key. */
  predicate KeysDistinct<T>(s: seq<T>, key: T -> int) {
    forall i, j :: 0 <= i < j < |s| ==> key(s[i]) != key(s[j])
  }

  /**
   * Appending a record that carries the next key keeps the keys distinct, and
   * the following create hands out the key after it: consecutive creates
   * number their records consecutively.
   */
  lemma AppendNextKey<T>(s: seq<T>, key: T -> int, x: T)
    requires key(x) == NextKey(s, key)
    ensures KeysDistinct(s, key) ==> KeysDistinct(s + [x], key)
    ensures NextKey(s + [x], key) == key(x) + 1
  {
    var t := s + [x];
    assert t[|s|] == x;
    assert forall i :: 0 <= i < |t| ==> key(t[i]) <= key(x) by {
      forall i | 0 <= i < |t| ensures key(t[i]) <= key(x) {
        if i < |s| { assert t[i] == s[i]; }
      }
    }
  }

  /**
   * `FirstOrDefault(i => key(i) == k)`, as the position of the first record
   * whose key is `k`; `None` when there is no such record.
   */
  function FindKey<T>(s: seq<T>, key: T -> int, k: int): (r: Option<nat>)
    ensures r.None? <==> forall i :: 0 <= i < |s| ==> key(s[i]) != k
    ensures r.Some? ==> r.value < |s| && key(s[r.value]) == k
    ensures r.Some? ==> forall i :: 0 <= i < r.value ==> key(s[i]) != k
  {
    if |s| == 0 then None
    else if key(s[0]) == k then Some(0)
    else
      match FindKey(s[1..], key, k)
      case None =>
        assert forall i :: 1 <= i < |s| ==> key(s[i]) != k by {
          forall i | 1 <= i < |s| ensures key(s[i]) != k { assert s[i] == s[1..][i - 1]; }
        }
        None
      case Some(i) =>
        assert forall j :: 1 <= j < i + 1 ==> key(s[j]) != k by {
          forall j | 1 <= j < i + 1 ensures key(s[j]) != k { assert s[j] == s[1..][j - 1]; }
        }
        Some(i + 1)
  }

  /** The record `FirstOrDefault(i => key(i) == k)` returns, or `None` (null). */
  function FirstWithKey<T>(s: seq<T>, key: T -> int, k: int): (r: Option<T>)
    ensures r.None? <==> forall i :: 0 <= i < |s| ==> key(s[i]) != k
    ensures r.Some? ==> exists i :: 0 <= i < |s| && s[i] == r.value && key(s[i]) == k &&
                          forall j :: 0 <= j < i ==> key(s[j]) != k
  {
    match FindKey(s, key, k)
    case None => None
    case Some(i) => Some(s[i])
  }

  /**
   * An update lambda: when some record has the key of `e`, the first such
   * record is overwritten from `e` by `overwrite`; otherwise the list is left
   * as it is.
   */
  function Updated<T>(s: seq<T>, key: T -> int, overwrite: (T, T) -> T, e: T): (r: seq<T>)
    ensures |r| == |s|
    ensures FindKey(s, key, key(e)).None? ==> r == s
    ensures FindKey(s, key, key(e)).Some? ==>
              var i := FindKey(s, key, key(e)).value;
              r[i] == overwrite(s[i], e) && forall j :: 0 <= j < |s| && j != i ==> r[j] == s[j]
  {
    match FindKey(s, key, key(e))
    case None => s
    case Some(i) => s[i := overwrite(s[i], e)]
  }

  /**
   * An update whose overwrite keeps the stored record's key changes no key of
   * the list, so a list with distinct keys still has distinct keys.
   */
  lemma UpdatedKeepsKeys<T>(s: seq<T>, key: T -> int, overwrite: (T, T) -> T, e: T)
    requires forall a, b :: key(overwrite(a, b)) == key(a)
    ensures forall j :: 0 <= j < |s| ==> key(Updated(s, key, overwrite, e)[j]) == key(s[j])
    ensures KeysDistinct(s, key) ==> KeysDistinct(Updated(s, key, overwrite, e), key)
  {
    var r := Updated(s, key, overwrite, e);
    forall j | 0 <= j < |s| ensures key(r[j]) == key(s[j]) {
      match FindKey(s, key, key(e))
      case None =>
      case Some(i) =>
        if j == i { assert key(overwrite(s[i], e)) == key(s[i]); }
    }
  }

  /** `List<T>.Remove(x)`: drops the first element equal to `x`, if there is one. */
  function RemoveFirst<T(==)>(s: seq<T>, x: T): (r: seq<T>)
    ensures x !in s ==> r == s
    ensures x in s ==> |r| == |s| - 1
  {
    if |s| == 0 then []
    else if s[0] == x then s[1..]
    else [s[0]] + RemoveFirst(s[1..], x)
  }

  /** Removing `x` where its first occurrence is at `i` cuts out position `i` and keeps the rest in order. */
  lemma {:induction false} RemoveFirstAt<T>(s: seq<T>, x: T, i: nat)
    requires i < |s| && s[i] == x
    requires forall j :: 0 <= j < i ==> s[j] != x
    ensures RemoveFirst(s, x) == s[..i] + s[i + 1..]
  {
    if i > 0 {
      assert s[0] != x;
      RemoveFirstAt(s[1..], x, i - 1);
      assert s[1..][..i - 1] == s[1..i];
      assert s[1..][i..] == s[i + 1..];
      assert [s[0]] + s[1..i] == s[..i];
    }
  }

  /**
   * A delete lambda: the first record whose key is `k` is found and passed to
   * `List<T>.Remove`; the effect is to cut out exactly that record. With no
   * such record the list is unchanged.
   */
  function Deleted<T(==)>(s: seq<T>, key: T -> int, k: int): (r: seq<T>)
    ensures FindKey(s, key, k).None? ==> r == s
    ensures FindKey(s, key, k).Some? ==>
              var i := FindKey(s, key, k).value;
              r == s[..i] + s[i + 1..] && |r| == |s| - 1
  {
    match FindKey(s, key, k)
    case None => s
    case Some(i) =>
      assert forall j :: 0 <= j < i ==> s[j] != s[i] by {
        forall j | 0 <= j < i ensures s[j] != s[i] { assert key(s[j]) != key(s[i]); }
      }
      RemoveFirstAt(s, s[i], i);
      RemoveFirst(s, s[i])
  }

  /** `Where(p)`: the records satisfying `p`, in list order. */
  function Filter<T>(s: seq<T>, p: T -> bool): (r: seq<T>)
    ensures |r| <= |s|
    ensures forall i :: 0 <= i < |r| ==> r[i] in s && p(r[i])
    ensures forall i :: 0 <= i < |s| && p(s[i]) ==> s[i] in r
  {
    if |s| == 0 then []
    else (if p(s[0]) then [s[0]] else []) + Filter(s[1..], p)
  }

  /** Filtering distributes over concatenation: the kept records stay in list order. */
  lemma {:induction false} FilterAppend<T>(a: seq<T>, b: seq<T>, p: T -> bool)
    ensures Filter(a + b, p) == Filter(a, p) + Filter(b, p)
  {
    if |a| == 0 {
      assert a + b == b;
    } else {
      assert (a + b)[0] == a[0];
      assert (a + b)[1..] == a[1..] + b;
      FilterAppend(a[1..], b, p);
    }
  }

  /** A predicate every record satisfies keeps the whole list, in order. */
  lemma {:induction false} FilterAll<T>(s: seq<T>, p: T -> bool)
    requires forall i :: 0 <= i < |s| ==> p(s[i])
    ensures Filter(s, p) == s
  {
    if |s| > 0 {
      FilterAll(s[1..], p);
    }
  }

  /** A predicate no record satisfies keeps nothing. */
  lemma {:induction false} FilterNone<T>(s: seq<T>, p: T -> bool)
    requires forall i :: 0 <= i < |s| ==> !p(s[i])
    ensures Filter(s, p) == []
  {
    if |s| > 0 {
      FilterNone(s[1..], p);
    }
  }

  /** A predicate that holds only of records with key `k` selects at most one record of a list with distinct keys. */
  lemma {:induction false} FilterAtMostOne<T>(s: seq<T>, key: T -> int, k: int, p: T -> bool)
    requires KeysDistinct(s, key)
    requires forall x :: p(x) ==> key(x) == k
    ensures |Filter(s, p)| <= 1
  {
    if |s| > 0 {
      assert KeysDistinct(s[1..], key) by {
        forall i, j | 0 <= i < j < |s[1..]| ensures key(s[1..][i]) != key(s[1..][j]) {
          assert s[1..][i] == s[i + 1] && s[1..][j] == s[j + 1];
        }
      }
      FilterAtMostOne(s[1..], key, k, p);
      if p(s[0]) {
        forall j | 0 <= j < |s[1..]| ensures !p(s[1..][j]) {
          assert key(s[j + 1]) != key(s[0]);
        }
        FilterNone(s[1..], p);
      }
    }
  }

  /** The predicate `x => key(x) == k`. */
  function KeyIs<T>(key: T -> int, k: int): T -> bool {
    x => key(x) == k
  }

  /** The records whose (foreign) key is `k`, in list order. */
  function AllWithKey<T>(s: seq<T>, key: T -> int, k: int): (r: seq<T>)
    ensures forall i :: 0 <= i < |r| ==> r[i] in s && key(r[i]) == k
    ensures forall i :: 0 <= i < |s| && key(s[i]) == k ==> s[i] in r
  {
    Filter(s, KeyIs(key, k))
  }

  /** The records with key `k` of a concatenation: those of the first part, then those of the second. */
  lemma AllWithKeyAppend<T>(a: seq<T>, b: seq<T>, key: T -> int, k: int)
    ensures AllWithKey(a + b, key, k) == AllWithKey(a, key, k) + AllWithKey(b, key, k)
  {
    FilterAppend(a, b, KeyIs(key, k));
  }

  /** A list none of whose records has key `k` yields none; one all of whose records do yields itself. */
  lemma AllWithKeyNoneOrAll<T>(s: seq<T>, key: T -> int, k: int)
    ensures (forall i :: 0 <= i < |s| ==> key(s[i]) != k) ==> AllWithKey(s, key, k) == []
    ensures (forall i :: 0 <= i < |s| ==> key(s[i]) == k) ==> AllWithKey(s, key, k) == s
  {
    if forall i :: 0 <= i < |s| ==> key(s[i]) != k {
      FilterNone(s, KeyIs(key, k));
    }
    if forall i :: 0 <= i < |s| ==> key(s[i]) == k {
      FilterAll(s, KeyIs(key, k));
    }
  }

  /** Filtering keeps the first record the predicate accepts at the front. */
  lemma {:induction false} FilterFirst<T>(s: seq<T>, p: T -> bool, i: nat)
    requires i < |s| && p(s[i])
    requires forall j :: 0 <= j < i ==> !p(s[j])
    ensures |Filter(s, p)| > 0 && Filter(s, p)[0] == s[i]
  {
    if i > 0 {
      FilterFirst(s[1..], p, i - 1);
    }
  }

  /** The head of a non-empty filter is the first record of the list the predicate accepts. */
  lemma {:induction false} FilterHead<T>(s: seq<T>, p: T -> bool)
    requires |Filter(s, p)| > 0
    ensures exists i :: 0 <= i < |s| && s[i] == Filter(s, p)[0] && p(s[i]) && forall j :: 0 <= j < i ==> !p(s[j])
  {
    if !p(s[0]) {
      FilterHead(s[1..], p);
      var i :| 0 <= i < |s[1..]| && s[1..][i] == Filter(s[1..], p)[0] && p(s[1..][i]) &&
               forall j :: 0 <= j < i ==> !p(s[1..][j]);
      assert s[i + 1] == s[1..][i];
      assert forall j :: 1 <= j < i + 1 ==> s[j] == s[1..][j - 1];
    }
  }

  /** The delete lambda applied once per record of `gone`, in order, each time with that record's key. */
  function DeletedEach<T(==)>(s: seq<T>, key: T -> int, gone: seq<T>): seq<T>
  {
    if |gone| == 0 then s
    else Deleted(DeletedEach(s, key, gone[..|gone| - 1]), key, key(gone[|gone| - 1]))
  }

  /**
   * In a list with distinct keys, a delete removes the one record with that
   * key: what is left has distinct keys, comes from the list, and has no
   * record with the deleted key.
   */
  lemma DeletedRemovesKey<T>(s: seq<T>, key: T -> int, k: int)
    requires KeysDistinct(s, key)
    ensures KeysDistinct(Deleted(s, key, k), key)
    ensures forall i :: 0 <= i < |Deleted(s, key, k)| ==>
              Deleted(s, key, k)[i] in s && key(Deleted(s, key, k)[i]) != k
  {
    var r := Deleted(s, key, k);
    match FindKey(s, key, k)
    case None =>
    case Some(i) =>
      assert r == s[..i] + s[i + 1..];
      forall j | 0 <= j < |r| ensures r[j] == s[Skip(j, i)] {
        if j < i { assert r[j] == s[..i][j]; } else { assert r[j] == s[i + 1..][j - i]; }
      }
      forall j | 0 <= j < |r| ensures r[j] in s && key(r[j]) != k {
        assert Skip(j, i) != i;
      }
      forall a, b | 0 <= a < b < |r| ensures key(r[a]) != key(r[b]) {
        assert Skip(a, i) < Skip(b, i);
      }
  }

  /** The index in a list of position `j` of that list with index `i` removed. */
  function Skip(j: nat, i: nat): (r: nat)
    ensures r != i && (r < i <==> j < i)
  {
    if j < i then j else j + 1
  }

  /**
   * Deleting, one by one, the keys of the records in `gone` from a list with
   * distinct keys leaves only records of the list, with distinct keys, none
   * of them sharing a key with a record of `gone`.
   */
  lemma {:induction false} DeletedEachRemovesKeys<T>(s: seq<T>, key: T -> int, gone: seq<T>)
    requires KeysDistinct(s, key)
    ensures KeysDistinct(DeletedEach(s, key, gone), key)
    ensures forall i :: 0 <= i < |DeletedEach(s, key, gone)| ==> DeletedEach(s, key, gone)[i] in s
    ensures forall i, j :: 0 <= i < |DeletedEach(s, key, gone)| && 0 <= j < |gone| ==>
              key(DeletedEach(s, key, gone)[i]) != key(gone[j])
  {
    if |gone| > 0 {
      var front := gone[..|gone| - 1];
      DeletedEachRemovesKeys(s, key, front);
      var before := DeletedEach(s, key, front);
      DeletedRemovesKey(before, key, key(gone[|gone| - 1]));
      var r := DeletedEach(s, key, gone);
      forall i, j | 0 <= i < |r| && 0 <= j < |gone| ensures key(r[i]) != key(gone[j]) {
        if j < |gone| - 1 {
          var i' :| 0 <= i' < |before| && before[i'] == r[i];
          assert gone[j] == front[j];
        }
      }
      forall i | 0 <= i < |r| ensures r[i] in s {
        var i' :| 0 <= i' < |before| && before[i'] == r[i];
      }
    }
  }

  /** In a list with distinct keys, a record's own key finds that record. */
  lemma FindKeyOfDistinct<T>(s: seq<T>, key: T -> int, i: nat)
    requires KeysDistinct(s, key) && i < |s|
    ensures FindKey(s, key, key(s[i])) == Some(i)
  {
  }

  /** Lists with the same keys, position by position, find every key at the same index. */
  lemma FindKeySameKeys<T>(s: seq<T>, s': seq<T>, key: T -> int, k: int)
    requires |s| == |s'| && forall j :: 0 <= j < |s| ==> key(s'[j]) == key(s[j])
    ensures FindKey(s', key, k) == FindKey(s, key, k)
  {
  }

  /** A key is found in `s + [x]` where it is found in `s`, else at `x` when `x` has it. */
  lemma FindKeyAppend<T>(s: seq<T>, x: T, key: T -> int, k: int)
    ensures FindKey(s + [x], key, k) ==
            if FindKey(s, key, k).Some? then FindKey(s, key, k)
            else if key(x) == k then Some(|s|) else None
  {
    var r := FindKey(s + [x], key, k);
    assert forall j :: 0 <= j < |s| ==> (s + [x])[j] == s[j];
    if FindKey(s, key, k).Some? {
      var i := FindKey(s, key, k).value;
      assert (s + [x])[i] == s[i];
    } else if key(x) == k {
      assert (s + [x])[|s|] == x;
    }
  }

  /** The record at each position after a delete that found `k` at `i`. */
  lemma DeletedAt<T>(s: seq<T>, key: T -> int, k: int, i: nat)
    requires FindKey(s, key, k) == Some(i)
    ensures |Deleted(s, key, k)| == |s| - 1
    ensures forall j :: 0 <= j < |s| - 1 ==> Deleted(s, key, k)[j] == s[Skip(j, i)]
  {
    var r := Deleted(s, key, k);
    forall j | 0 <= j < |r| ensures r[j] == s[Skip(j, i)] {
      if j < i { assert r[j] == s[..i][j]; } else { assert r[j] == s[i + 1..][j - i]; }
    }
  }

  /** A record with key `k` that no earlier record shares is the one `FindKey` finds. */
  lemma FindKeyIs<T>(s: seq<T>, key: T -> int, k: int, j: nat)
    requires j < |s| && key(s[j]) == k && forall l :: 0 <= l < j ==> key(s[l]) != k
    ensures FindKey(s, key, k) == Some(j)
  {
  }

  /** A delete of key `k` leaves the first record with any other key where it was. */
  lemma DeletedKeepsOtherKeys<T>(s: seq<T>, key: T -> int, k: int, k': int)
    requires k' != k
    ensures FirstWithKey(Deleted(s, key, k), key, k') == FirstWithKey(s, key, k')
  {
    if FindKey(s, key, k).Some? {
      var i := FindKey(s, key, k).value;
      DeletedAt(s, key, k, i);
      DeletedAtKeepsOtherKey(s, Deleted(s, key, k), key, k', i);
    }
  }

  /** Cutting out position `i`, whose key is not `k'`, keeps the first record with key `k'`. */
  lemma DeletedAtKeepsOtherKey<T>(s: seq<T>, r: seq<T>, key: T -> int, k': int, i: nat)
    requires i < |s| && key(s[i]) != k'
    requires |r| == |s| - 1 && forall j :: 0 <= j < |r| ==> r[j] == s[Skip(j, i)]
    ensures FirstWithKey(r, key, k') == FirstWithKey(s, key, k')
  {
    match FindKey(s, key, k')
    case None =>
      forall j | 0 <= j < |r| ensures key(r[j]) != k' {
        assert r[j] == s[Skip(j, i)];
      }
    case Some(j) =>
      var j' := if j < i then j else j - 1;
      assert Skip(j', i) == j;
      forall l | 0 <= l < j' ensures key(r[l]) != k' {
        assert Skip(l, i) < j;
      }
      FindKeyIs(r, key, k', j');
  }

  /**
   * An update that overwrites a record owned by someone other than `o`, and
   * keeps that record's owner, leaves the first record owned by `o` as it was.
   */
  lemma UpdatedKeepsOtherOwner<T>(s: seq<T>, key: T -> int, owner: T -> int, overwrite: (T, T) -> T, e: T, o: int)
    requires FindKey(s, key, key(e)).Some? ==>
               var i := FindKey(s, key, key(e)).value;
               owner(s[i]) != o && owner(overwrite(s[i], e)) == owner(s[i])
    ensures FirstWithKey(Updated(s, key, overwrite, e), owner, o) == FirstWithKey(s, owner, o)
  {
    var r := Updated(s, key, overwrite, e);
    if FindKey(s, key, key(e)).Some? {
      var i := FindKey(s, key, key(e)).value;
      assert forall j :: 0 <= j < |s| ==> owner(r[j]) == owner(s[j]);
      FindKeySameKeys(s, r, owner, o);
      if FindKey(s, owner, o).Some? {
        var j := FindKey(s, owner, o).value;
        assert r[j] == s[j];
      }
    }
  }

  /** Appending a record owned by someone other than `o` leaves the first record owned by `o` as it was. */
  lemma AppendKeepsOtherOwner<T>(s: seq<T>, x: T, owner: T -> int, o: int)
    requires owner(x) != o
    ensures FirstWithKey(s + [x], owner, o) == FirstWithKey(s, owner, o)
  {
    FindKeyAppend(s, x, owner, o);
    if FindKey(s, owner, o).Some? {
      assert (s + [x])[FindKey(s, owner, o).value] == s[FindKey(s, owner, o).value];
    }
  }

  /** A delete that finds a record not owned by `o` leaves the records owned by `o` as they were. */
  lemma DeletedKeepsOtherOwners<T>(s: seq<T>, key: T -> int, owner: T -> int, k: int, o: int)
    requires FindKey(s, key, k).Some? ==> owner(s[FindKey(s, key, k).value]) != o
    ensures AllWithKey(Deleted(s, key, k), owner, o) == AllWithKey(s, owner, o)
  {
    if FindKey(s, key, k).Some? {
      var i := FindKey(s, key, k).value;
      var front, x, back := s[..i], s[i], s[i + 1..];
      assert Deleted(s, key, k) == front + back;
      assert s == (front + [x]) + back;
      AllWithKeyAppend(front + [x], back, owner, o);
      AllWithKeyAppend(front, [x], owner, o);
      AllWithKeyNoneOrAll([x], owner, o);
      AllWithKeyAppend(front, back, owner, o);
    }
  }

  /**
   * Deleting, one by one, records of a list with distinct keys none of which
   * is owned by `o` leaves the records owned by `o` as they were, in order.
   */
  lemma {:induction false} DeletedEachKeepsOtherOwners<T>(
    s: seq<T>, key: T -> int, owner: T -> int, gone: seq<T>, o: int)
    requires KeysDistinct(s, key)
    requires forall j :: 0 <= j < |gone| ==> gone[j] in s && owner(gone[j]) != o
    ensures AllWithKey(DeletedEach(s, key, gone), owner, o) == AllWithKey(s, owner, o)
  {
    if |gone| > 0 {
      var front, g := gone[..|gone| - 1], gone[|gone| - 1];
      assert forall j :: 0 <= j < |front| ==> front[j] == gone[j];
      DeletedEachKeepsOtherOwners(s, key, owner, front, o);
      DeletedEachRemovesKeys(s, key, front);
      var before := DeletedEach(s, key, front);
      if FindKey(before, key, key(g)).Some? {
        var i := FindKey(before, key, key(g)).value;
        var a :| 0 <= a < |s| && s[a] == before[i];
        var b :| 0 <= b < |s| && s[b] == g;
        assert key(s[a]) == key(s[b]);
        assert a == b;
      }
      DeletedKeepsOtherOwners(before, key, owner, key(g), o);
    }
  }
}
