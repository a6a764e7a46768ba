/** Small vocabulary shared by every module of the model: optional values,
    fields of a partial update, the root sentinel, JavaScript truthiness of
    strings, a total order on strings and a few sequence helpers. */
module Common {

  /** `undefined`/`null` versus a present value. */
  datatype Option<+T> = None | Some(value: T)

  /** One field of a `Partial<T>` spread (`{...current, ...updates}`): either
      the key is missing from `updates` (Keep) or it carries a value (Set). */
  datatype Upd<+T> = Keep | Set(value: T)

  /** The value a field holds after the spread. */
  function Apply<T>(u: Upd<T>, current: T): T
  {
    match u
    case Keep => current
    case Set(v) => v
  }

  /** The parent id of the top level of a plan tree (`PARENT_ID_ROOT`). */
  const Root: string := "root"

  /** JavaScript truthiness of a `string | undefined`: present and non-empty. */
  predicate Truthy(s: Option<string>)
  {
    s.Some? && s.value != ""
  }

  /** `s || undefined` for a form string: the empty string becomes absent. */
  function NonEmpty(s: string): (r: Option<string>)
    ensures r.None? <==> s == ""
    ensures r.Some? ==> r.value == s
  {
    if s == "" then None else Some(s)
  }

  /** The fixed total order on strings used in place of `localeCompare`:
      lexicographic on character codes, a proper prefix first. It agrees
      with the locale order on lower-case ids, not on mixed case. */
  predicate StrLt(a: string, b: string)
    decreases |a|
  {
    if |a| == 0 then |b| > 0
    else if |b| == 0 then false
    else if a[0] != b[0] then a[0] < b[0]
    else StrLt(a[1..], b[1..])
  }

  lemma {:induction false} StrLtIrreflexive(a: string)
    ensures !StrLt(a, a)
    decreases |a|
  {
    if |a| > 0 {
      StrLtIrreflexive(a[1..]);
    }
  }

  lemma {:induction false} StrLtTransitive(a: string, b: string, c: string)
    requires StrLt(a, b) && StrLt(b, c)
    ensures StrLt(a, c)
    decreases |a|
  {
    if |a| > 0 && a[0] == b[0] && b[0] == c[0] {
      StrLtTransitive(a[1..], b[1..], c[1..]);
    }
  }

  lemma {:induction false} StrLtTotal(a: string, b: string)
    requires a != b
    ensures StrLt(a, b) || StrLt(b, a)
    decreases |a|
  {
    if |a| > 0 && |b| > 0 && a[0] == b[0] {
      assert a[1..] != b[1..];
      StrLtTotal(a[1..], b[1..]);
    }
  }

  lemma {:induction false} StrLtAsymmetric(a: string, b: string)
    requires StrLt(a, b)
    ensures !StrLt(b, a)
  {
    if StrLt(b, a) {
      StrLtTransitive(a, b, a);
      StrLtIrreflexive(a);
    }
  }

  /** No value occurs twice. */
  predicate NoDup<T(==)>(s: seq<T>)
  {
    forall i, j :: 0 <= i < j < |s| ==> s[i] != s[j]
  }

  /** In a list without repeats each element occurs once, others never. */
  lemma {:induction false} NoDupCount<T>(s: seq<T>, x: T)
    requires NoDup(s)
    ensures multiset(s)[x] == if x in s then 1 else 0
  {
    if |s| > 0 {
      assert s == [s[0]] + s[1..];
      NoDupCount(s[1..], x);
    }
  }

  /** Two positions holding the same element make it occur twice. */
  lemma TwiceCounted<T>(s: seq<T>, i: int, j: int)
    requires 0 <= i < j < |s| && s[i] == s[j]
    ensures multiset(s)[s[i]] >= 2
  {
    assert s == s[..j] + s[j..];
    assert s[i] == s[..j][i];
    assert s[j] == s[j..][0];
  }

  /** A subset is no larger than its superset. */
  lemma SubsetCard<U>(a: set<U>, b: set<U>)
    requires a <= b
    ensures |a| <= |b|
    decreases |a|
  {
    if a != {} {
      var x :| x in a;
      SubsetCard(a - {x}, b - {x});
    }
  }

  /** Position of the first occurrence of `x`, or -1. */
  function FindIndex<T(==)>(s: seq<T>, x: T): (i: int)
    ensures -1 <= i < |s|
    ensures i == -1 <==> x !in s
    ensures 0 <= i ==> s[i] == x && x !in s[..i]
  {
    if |s| == 0 then -1
    else if s[0] == x then 0
    else
      var j := FindIndex(s[1..], x);
      if j == -1 then -1
      else
        assert s[..j + 1] == [s[0]] + s[1..][..j];
        j + 1
  }

  /** The first occurrence is the only candidate for `FindIndex`. */
  lemma FindIndexIs<T>(s: seq<T>, x: T, i: nat)
    requires i < |s| && s[i] == x && x !in s[..i]
    ensures FindIndex(s, x) == i
  {
    var j := FindIndex(s, x);
    assert forall q :: 0 <= q < i ==> s[..i][q] == s[q];
    assert 0 <= j ==> forall q :: 0 <= q < j ==> s[..j][q] == s[q];
  }

  /** `FindIndex` on a sequence with one element in front. */
  lemma FindIndexCons<T>(x: T, t: seq<T>, y: T)
    ensures FindIndex([x] + t, y) == if x == y then 0 else if FindIndex(t, y) == -1 then -1 else FindIndex(t, y) + 1
  {
    assert ([x] + t)[1..] == t;
  }

  /** `r` is `s` with some elements left out: what is kept keeps its
      order. */
  ghost predicate Subseq<T>(r: seq<T>, s: seq<T>)
    decreases |s|
  {
    if r == [] then true
    else if s == [] then false
    else (r[0] == s[0] && Subseq(r[1..], s[1..])) || Subseq(r, s[1..])
  }

  /** The elements of `r` occur in `s`, each at a later first position than
      the one before: `r` keeps the order of `s`. */
  ghost predicate FollowsOrder<T>(r: seq<T>, s: seq<T>)
  {
    forall i, j :: 0 <= i < j < |r| ==> FindIndex(s, r[i]) < FindIndex(s, r[j])
  }

  /** What a subsequence holds is taken from the whole. */
  lemma {:induction false} SubseqIn<T>(r: seq<T>, s: seq<T>)
    requires Subseq(r, s)
    ensures forall y :: y in r ==> y in s
    decreases |s|
  {
    if r != [] {
      if r[0] == s[0] && Subseq(r[1..], s[1..]) {
        SubseqIn(r[1..], s[1..]);
        assert forall y :: y in r ==> y == r[0] || y in r[1..];
      } else {
        SubseqIn(r, s[1..]);
      }
    }
  }

  /** Past a different head, first positions move up by one. */
  lemma FindIndexPastHead<T>(r: seq<T>, s: seq<T>)
    requires |s| > 0 && (forall y :: y in r ==> y in s[1..] && y != s[0])
    ensures forall y :: y in r ==> FindIndex(s, y) == FindIndex(s[1..], y) + 1 > 0
  {
    forall y | y in r ensures FindIndex(s, y) == FindIndex(s[1..], y) + 1 > 0 {
    }
  }

  /** Keeping the order of the tail of `s` means keeping the order of
      `s`. */
  lemma FollowsOrderDrop<T>(r: seq<T>, s: seq<T>)
    requires |s| > 0 && FollowsOrder(r, s[1..]) && (forall y :: y in r ==> y in s[1..] && y != s[0])
    ensures FollowsOrder(r, s)
  {
    FindIndexPastHead(r, s);
    forall i, j | 0 <= i < j < |r| ensures FindIndex(s, r[i]) < FindIndex(s, r[j]) {
      assert r[i] in r && r[j] in r;
    }
  }

  /** An element found before everything in a list keeping the order of
      `s` may go in front of it. */
  lemma FollowsOrderFront<T>(x: T, r: seq<T>, s: seq<T>)
    requires FollowsOrder(r, s) && (forall y :: y in r ==> FindIndex(s, x) < FindIndex(s, y))
    ensures FollowsOrder([x] + r, s)
  {
    var r1 := [x] + r;
    forall i, j | 0 <= i < j < |r1| ensures FindIndex(s, r1[i]) < FindIndex(s, r1[j]) {
      assert r1[j] == r[j - 1] && r1[j] in r;
      if i > 0 {
        assert r1[i] == r[i - 1];
      }
    }
  }

  /** The head of `s` may go in front of a list keeping the order of the
      tail of `s`. */
  lemma FollowsOrderCons<T>(r: seq<T>, s: seq<T>)
    requires |s| > 0 && FollowsOrder(r, s[1..]) && (forall y :: y in r ==> y in s[1..] && y != s[0])
    ensures FollowsOrder([s[0]] + r, s)
  {
    FollowsOrderDrop(r, s);
    FindIndexPastHead(r, s);
    assert FindIndex(s, s[0]) == 0;
    FollowsOrderFront(s[0], r, s);
  }

  /** In a list without repeats, a subsequence lists its elements in the
      order of their positions in the list. */
  lemma {:induction false} SubseqFollowsOrder<T>(r: seq<T>, s: seq<T>)
    requires NoDup(s) && Subseq(r, s)
    ensures FollowsOrder(r, s)
    decreases |s|
  {
    if r != [] {
      assert NoDup(s[1..]) by {
        forall i, j | 0 <= i < j < |s| - 1 ensures s[1..][i] != s[1..][j] {
          assert s[1..][i] == s[i + 1] && s[1..][j] == s[j + 1];
        }
      }
      assert forall y :: y in s[1..] ==> y != s[0];
      if r[0] == s[0] && Subseq(r[1..], s[1..]) {
        SubseqFollowsOrder(r[1..], s[1..]);
        SubseqIn(r[1..], s[1..]);
        FollowsOrderCons(r[1..], s);
        assert r == [s[0]] + r[1..];
      } else {
        SubseqFollowsOrder(r, s[1..]);
        SubseqIn(r, s[1..]);
        FollowsOrderDrop(r, s);
      }
    }
  }

  /** Being a prefix is transitive. */
  lemma PrefixTrans<T>(a: seq<T>, b: seq<T>, c: seq<T>)
    requires |a| <= |b| <= |c| && b[..|a|] == a && c[..|b|] == b
    ensures c[..|a|] == a
  {
    assert c[..|a|] == c[..|b|][..|a|];
  }

  /** `s` with `x` inserted at position `i`. */
  function InsertAt<T>(s: seq<T>, i: nat, x: T): (r: seq<T>)
    requires i <= |s|
    ensures |r| == |s| + 1 && r[i] == x
    ensures r[..i] == s[..i] && r[i + 1..] == s[i..]
    ensures multiset(r) == multiset(s) + multiset{x}
  {
    assert s == s[..i] + s[i..];
    s[..i] + [x] + s[i..]
  }

  /** `s` without the element at position `i`. */
  function RemoveAt<T>(s: seq<T>, i: nat): (r: seq<T>)
    requires i < |s|
    ensures |r| == |s| - 1
    ensures r[..i] == s[..i] && r[i..] == s[i + 1..]
    ensures multiset(r) == multiset(s) - multiset{s[i]}
  {
    assert s == s[..i] + [s[i]] + s[i + 1..];
    s[..i] + s[i + 1..]
  }
}
