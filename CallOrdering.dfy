/**
 * The order GetCallList returns its items in: `OrderBy(c => c.Name.Last)`
 * then `ThenBy(c => c.Name.First)`. Strings are compared ordinally, by
 * character code, a proper prefix first, and null before every string.
 */
module CallOrdering {
  import opened Wrappers
  import opened ContactModels
  import opened CallContact

  /** Ordinal lexicographic order on strings. */
  predicate LexLeq(a: string, b: string) {
    |a| == 0 || (|b| > 0 && (a[0] < b[0] || (a[0] == b[0] && LexLeq(a[1..], b[1..]))))
  }

  lemma {:induction false} LexTotal(a: string, b: string)
    ensures LexLeq(a, b) || LexLeq(b, a)
  {
    if |a| > 0 && |b| > 0 && a[0] == b[0] {
      LexTotal(a[1..], b[1..]);
    }
  }

  lemma {:induction false} LexAntisymmetric(a: string, b: string)
    requires LexLeq(a, b) && LexLeq(b, a)
    ensures a == b
  {
    if |a| > 0 && |b| > 0 {
      LexAntisymmetric(a[1..], b[1..]);
      assert a == [a[0]] + a[1..] && b == [b[0]] + b[1..];
    }
  }

  lemma {:induction false} LexTransitive(a: string, b: string, c: string)
    requires LexLeq(a, b) && LexLeq(b, c)
    ensures LexLeq(a, c)
  {
    if |a| > 0 && |b| > 0 && |c| > 0 && a[0] == b[0] && b[0] == c[0] {
      LexTransitive(a[1..], b[1..], c[1..]);
    }
  }

  /** The comparison of a nullable string: null first, then ordinal order. */
  predicate OptLeq(a: Option<string>, b: Option<string>) {
    a.None? || (b.Some? && LexLeq(a.value, b.value))
  }

  lemma OptTotal(a: Option<string>, b: Option<string>)
    ensures OptLeq(a, b) || OptLeq(b, a)
  {
    if a.Some? && b.Some? { LexTotal(a.value, b.value); }
  }

  lemma OptAntisymmetric(a: Option<string>, b: Option<string>)
    requires OptLeq(a, b) && OptLeq(b, a)
    ensures a == b
  {
    if a.Some? && b.Some? { LexAntisymmetric(a.value, b.value); }
  }

  lemma OptTransitive(a: Option<string>, b: Option<string>, c: Option<string>)
    requires OptLeq(a, b) && OptLeq(b, c)
    ensures OptLeq(a, c)
  {
    if a.Some? && b.Some? && c.Some? { LexTransitive(a.value, b.value, c.value); }
  }

  /** `c.Name.Last`; a call item's Name is never null, so the `None` branch is never taken on real items. */
  function LastName(c: CallContactModel): Option<string> {
    if c.name.Some? then c.name.value.last else None
  }

  /** `c.Name.First`. */
  function FirstName(c: CallContactModel): Option<string> {
    if c.name.Some? then c.name.value.first else None
  }

  /** `a` may come before `b`: a smaller Last, or the same Last and a First no larger. */
  predicate ByName(a: CallContactModel, b: CallContactModel) {
    || (OptLeq(LastName(a), LastName(b)) && LastName(a) != LastName(b))
    || (LastName(a) == LastName(b) && OptLeq(FirstName(a), FirstName(b)))
  }

  lemma ByNameTotal(a: CallContactModel, b: CallContactModel)
    ensures ByName(a, b) || ByName(b, a)
  {
    OptTotal(LastName(a), LastName(b));
    OptTotal(FirstName(a), FirstName(b));
  }

  lemma ByNameTransitive(a: CallContactModel, b: CallContactModel, c: CallContactModel)
    requires ByName(a, b) && ByName(b, c)
    ensures ByName(a, c)
  {
    var la, lb, lc := LastName(a), LastName(b), LastName(c);
    if la != lb && lb != lc {
      OptTransitive(la, lb, lc);
      if la == lc { OptAntisymmetric(la, lb); }
    } else if la == lb && lb == lc {
      OptTransitive(FirstName(a), FirstName(b), FirstName(c));
    }
  }

  predicate SortedByName(s: seq<CallContactModel>) {
    forall i, j :: 0 <= i < j < |s| ==> ByName(s[i], s[j])
  }

  /** Puts `x` before the first item it may precede, so that it stays ahead of items with an equal key. */
  function Insert(x: CallContactModel, s: seq<CallContactModel>): (r: seq<CallContactModel>)
    ensures multiset(r) == multiset(s) + multiset{x}
    ensures SortedByName(s) ==> SortedByName(r)
  {
    if |s| == 0 then [x]
    else if ByName(x, s[0]) then
      assert SortedByName(s) ==> SortedByName([x] + s) by {
        if SortedByName(s) {
          forall j | 0 <= j < |s| ensures ByName(x, s[j]) {
            if j > 0 { ByNameTransitive(x, s[0], s[j]); }
          }
          var r := [x] + s;
          forall i, j | 0 <= i < j < |r| ensures ByName(r[i], r[j]) {
            if i > 0 { assert r[i] == s[i - 1] && r[j] == s[j - 1]; }
            else { assert r[j] == s[j - 1]; }
          }
        }
      }
      assert s == [s[0]] + s[1..];
      [x] + s
    else
      var rest := Insert(x, s[1..]);
      assert s == [s[0]] + s[1..];
      assert SortedByName(s) ==> SortedByName([s[0]] + rest) by {
        if SortedByName(s) {
          ByNameTotal(x, s[0]);
          forall k | 0 <= k < |rest| ensures ByName(s[0], rest[k]) {
            assert rest[k] in multiset(rest);
            if rest[k] != x {
              assert rest[k] in multiset(s[1..]);
              var j :| 0 <= j < |s[1..]| && s[1..][j] == rest[k];
              assert ByName(s[0], s[j + 1]);
            }
          }
        }
      }
      [s[0]] + rest
  }

  /**
   * `OrderBy(c => c.Name.Last).ThenBy(c => c.Name.First)`, as an insertion
   * sort: the result is sorted by (Last, First) and holds exactly the items
   * it was given.
   */
  function OrderByName(s: seq<CallContactModel>): (r: seq<CallContactModel>)
    ensures SortedByName(r)
    ensures multiset(r) == multiset(s)
    ensures |r| == |s|
  {
    if |s| == 0 then []
    else
      assert s == [s[0]] + s[1..];
      Insert(s[0], OrderByName(s[1..]))
  }
}
